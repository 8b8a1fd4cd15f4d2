/**
 * The integer line rasteriser behind `Framebuffer::draw_line`: Bresenham's
 * algorithm for all octants, stepping from (x1, y1) to (x2, y2) and keeping
 * an error term `err`. `LinePoints` is the sequence of points it plots.
 */
module Bresenham {

  function Abs(n: int): nat
  {
    if n < 0 then -n else n
  }

  /** A line between two already-rounded end points. */
  datatype Line = Line(x1: int, y1: int, x2: int, y2: int)
  {
    /** |x2 - x1| */
    function Dx(): nat { Abs(x2 - x1) }
    /** -|y2 - y1|, negative as the source keeps it */
    function Dy(): int { -(Abs(y2 - y1) as int) }
    /** Direction of the x steps: 1 when x1 < x2, otherwise -1. */
    function Sx(): int { if x1 < x2 then 1 else -1 }
    /** Direction of the y steps: 1 when y1 < y2, otherwise -1. */
    function Sy(): int { if y1 < y2 then 1 else -1 }
  }

  /** The loop's mutable state: the current point and the error term. */
  datatype Cursor = Cursor(x: int, y: int, err: int)

  /** The state on entry to the loop: the start point and `err = dx + dy`. */
  function Start(l: Line): Cursor
  {
    Cursor(l.x1, l.y1, l.Dx() + l.Dy())
  }

  /** x steps still to take to reach x2 (negative once x2 is overshot). */
  function RemX(l: Line, c: Cursor): int
  {
    if l.Sx() == 1 then l.x2 - c.x else c.x - l.x2
  }

  /** y steps still to take to reach y2 (negative once y2 is overshot). */
  function RemY(l: Line, c: Cursor): int
  {
    if l.Sy() == 1 then l.y2 - c.y else c.y - l.y2
  }

  /**
   * The loop invariant of the rasteriser: the cursor has neither passed the
   * end point on either axis nor left the start point's side, and the error
   * term records how many steps were taken on each axis,
   * err == dx + dy - dy * (x steps left) - dx * (y steps left).
   */
  predicate Inv(l: Line, c: Cursor)
  {
    && 0 <= RemX(l, c) <= l.Dx()
    && 0 <= RemY(l, c) <= -l.Dy()
    && c.err == l.Dx() + l.Dy() - l.Dy() * RemX(l, c) - l.Dx() * RemY(l, c)
  }

  /** The loop's exit test: the cursor is on the end point. */
  predicate AtEnd(l: Line, c: Cursor)
  {
    c.x == l.x2 && c.y == l.y2
  }

  /** The invariant holds on entry to the loop. */
  lemma StartInv(l: Line)
    ensures Inv(l, Start(l))
    ensures RemX(l, Start(l)) == l.Dx() && RemY(l, Start(l)) == -l.Dy()
  {
    var c := Start(l);
    assert -l.Dy() * l.Dx() == l.Dx() * -l.Dy();
  }

  /** Whether one step is a single move toward the end point: each axis moves
      by 0 or by its direction, and not both by 0. */
  predicate Adjacent(l: Line, p: (int, int), q: (int, int))
  {
    && (q.0 == p.0 || q.0 == p.0 + l.Sx())
    && (q.1 == p.1 || q.1 == p.1 + l.Sy())
    && q != p
  }

  /**
   * One iteration of the loop body after the exit test: `e2 = 2 * err`;
   * when `e2 >= dy` x advances and `err += dy`; when `e2 <= dx` (tested on
   * the same `e2`) y advances and `err += dx`. The step keeps the
   * invariant, moves to an adjacent point, and shortens the remaining path.
   */
  function Step(l: Line, c: Cursor): (n: Cursor)
    requires Inv(l, c) && !AtEnd(l, c)
    ensures Inv(l, n)
    ensures Adjacent(l, (c.x, c.y), (n.x, n.y))
    ensures RemX(l, n) + RemY(l, n) < RemX(l, c) + RemY(l, c)
  {
    var e2 := 2 * c.err;
    var moveX := e2 >= l.Dy();
    var moveY := e2 <= l.Dx();
    StepShape(l, c);
    var x := if moveX then c.x + l.Sx() else c.x;
    var err1 := if moveX then c.err + l.Dy() else c.err;
    var y := if moveY then c.y + l.Sy() else c.y;
    var err2 := if moveY then err1 + l.Dx() else err1;
    var n := Cursor(x, y, err2);
    StepKeepsInv(l, c, moveX, moveY, n);
    n
  }

  /**
   * The arithmetic heart of termination: at least one axis moves, x does not
   * move once x2 is reached, and y does not move once y2 is reached.
   */
  lemma StepShape(l: Line, c: Cursor)
    requires Inv(l, c) && !AtEnd(l, c)
    ensures 2 * c.err >= l.Dy() || 2 * c.err <= l.Dx()
    ensures RemX(l, c) == 0 ==> 2 * c.err < l.Dy()
    ensures RemY(l, c) == 0 ==> 2 * c.err > l.Dx()
  {
    var a, b, dx, d := RemX(l, c), RemY(l, c), l.Dx(), -l.Dy();
    assert c.err == dx - d + d * a - dx * b;
    if a == 0 {
      assert b != 0;
      assert dx * b >= dx by { MulAtLeast(dx, b); }
    }
    if b == 0 {
      assert a != 0;
      assert d * a >= d by { MulAtLeast(d, a); }
    }
  }

  lemma MulAtLeast(k: nat, m: int)
    requires m >= 1
    ensures k * m >= k
  {
    assert k * m == k * (m - 1) + k;
  }

  lemma StepKeepsInv(l: Line, c: Cursor, moveX: bool, moveY: bool, n: Cursor)
    requires Inv(l, c) && !AtEnd(l, c)
    requires moveX == (2 * c.err >= l.Dy()) && moveY == (2 * c.err <= l.Dx())
    requires moveX || moveY
    requires RemX(l, c) == 0 ==> !moveX
    requires RemY(l, c) == 0 ==> !moveY
    requires n.x == (if moveX then c.x + l.Sx() else c.x)
    requires n.y == (if moveY then c.y + l.Sy() else c.y)
    requires n.err == c.err + (if moveX then l.Dy() else 0) + (if moveY then l.Dx() else 0)
    ensures Inv(l, n)
    ensures RemX(l, n) == (if moveX then RemX(l, c) - 1 else RemX(l, c))
    ensures RemY(l, n) == (if moveY then RemY(l, c) - 1 else RemY(l, c))
  {
    var a, b, dx, dy := RemX(l, c), RemY(l, c), l.Dx(), l.Dy();
    if moveX {
      assert RemX(l, n) == a - 1;
      MulPred(dy, a);
    } else {
      assert RemX(l, n) == a;
    }
    if moveY {
      assert RemY(l, n) == b - 1;
      MulPred(dx, b);
    } else {
      assert RemY(l, n) == b;
    }
  }

  lemma MulPred(k: int, m: int)
    ensures k * (m - 1) == k * m - k
  {
  }

  /** The points plotted from cursor `c` on, the current one first. */
  function Trace(l: Line, c: Cursor): (ps: seq<(int, int)>)
    requires Inv(l, c)
    ensures |ps| >= 1 && ps[0] == (c.x, c.y) && ps[|ps| - 1] == (l.x2, l.y2)
    decreases RemX(l, c) + RemY(l, c)
  {
    [(c.x, c.y)] + if AtEnd(l, c) then [] else Trace(l, Step(l, c))
  }

  /** Plotting the cursor and stepping keeps `done + Trace` equal to the whole line. */
  lemma TraceAdvance(l: Line, c: Cursor, done: seq<(int, int)>)
    requires Inv(l, c) && !AtEnd(l, c)
    requires done + Trace(l, c) == LinePoints(l)
    ensures (done + [(c.x, c.y)]) + Trace(l, Step(l, c)) == LinePoints(l)
  {
    var rest := Trace(l, Step(l, c));
    assert Trace(l, c) == [(c.x, c.y)] + rest;
    Regroup(done, (c.x, c.y), rest);
  }

  lemma Regroup<T>(done: seq<T>, a: T, rest: seq<T>)
    ensures (done + [a]) + rest == done + ([a] + rest)
  {
  }

  /** On the end point, the cursor is the last point to plot. */
  lemma TraceAtEnd(l: Line, c: Cursor, done: seq<(int, int)>)
    requires Inv(l, c) && AtEnd(l, c)
    requires done + Trace(l, c) == LinePoints(l)
    ensures done + [(c.x, c.y)] == LinePoints(l)
  {
    assert Trace(l, c) == [(c.x, c.y)];
  }

  /** The points `draw_line` plots, in plotting order. */
  function LinePoints(l: Line): (ps: seq<(int, int)>)
    ensures |ps| >= 1 && ps[0] == (l.x1, l.y1) && ps[|ps| - 1] == (l.x2, l.y2)
  {
    StartInv(l);
    Trace(l, Start(l))
  }

  /**
   * A trace starts at the cursor, ends on the end point, moves to an
   * adjacent point at every step, and has one point per step of the longer
   * remaining axis at least, and at most one per step of both axes.
   */
  lemma {:induction false} TraceShape(l: Line, c: Cursor)
    requires Inv(l, c)
    ensures |Trace(l, c)| >= 1
    ensures Trace(l, c)[0] == (c.x, c.y)
    ensures Trace(l, c)[|Trace(l, c)| - 1] == (l.x2, l.y2)
    ensures forall k | 0 <= k < |Trace(l, c)| - 1 :: Adjacent(l, Trace(l, c)[k], Trace(l, c)[k + 1])
    ensures |Trace(l, c)| <= RemX(l, c) + RemY(l, c) + 1
    ensures |Trace(l, c)| >= RemX(l, c) + 1 && |Trace(l, c)| >= RemY(l, c) + 1
    decreases RemX(l, c) + RemY(l, c)
  {
    var t := Trace(l, c);
    if !AtEnd(l, c) {
      var n := Step(l, c);
      TraceShape(l, n);
      var rest := Trace(l, n);
      assert t == [(c.x, c.y)] + rest;
      forall k | 0 <= k < |t| - 1
        ensures Adjacent(l, t[k], t[k + 1])
      {
        if k > 0 {
          assert t[k] == rest[k - 1] && t[k + 1] == rest[k];
        }
      }
    }
  }

  /** `draw_line` plots its start point first and its end point last, each
      plotted point being adjacent to the one before; it plots at least
      max(|dx|, |dy|) + 1 and at most |dx| + |dy| + 1 points. */
  lemma LineShape(l: Line)
    ensures |LinePoints(l)| >= 1
    ensures LinePoints(l)[0] == (l.x1, l.y1)
    ensures LinePoints(l)[|LinePoints(l)| - 1] == (l.x2, l.y2)
    ensures forall k | 0 <= k < |LinePoints(l)| - 1 :: Adjacent(l, LinePoints(l)[k], LinePoints(l)[k + 1])
    ensures |LinePoints(l)| <= l.Dx() - l.Dy() + 1
    ensures |LinePoints(l)| >= l.Dx() + 1 && |LinePoints(l)| >= -l.Dy() + 1
  {
    StartInv(l);
    TraceShape(l, Start(l));
  }
}
