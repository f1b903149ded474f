/**
 * Line of sight (src/rooms/MyRoom.ts `bresenham` and `inLineOfSight`).
 *
 * `Walk` is the rasterisation written as a recursive function over the
 * loop state (x, y, err); `Bresenham` is the loop itself.  The loop
 * terminates because `err` stays tied to the distance still to cover:
 * with rx = |x1 - x| and ry = |y1 - y|, err = dx - dy + dy*rx - dx*ry.
 * The products are written as `Scaled` so that the solver only sees
 * them through the few facts proved about them below.
 */
module Sight {
  import opened Grid

  /** One rasterisation from (x0, y0) to (x1, y1) and its fixed parameters. */
  datatype Segment = Segment(x0: int, y0: int, x1: int, y1: int) {
    function Dx(): int { Abs(x1 - x0) }
    function Dy(): int { Abs(y1 - y0) }
    function Sx(): int { if x0 < x1 then 1 else -1 }
    function Sy(): int { if y0 < y1 then 1 else -1 }
  }

  /** The loop variables of `bresenham`. */
  datatype Cursor = Cursor(x: int, y: int, err: int)

  /** `v` lies between `a` and `b`, inclusive, in either order. */
  predicate Between(v: int, a: int, b: int) {
    (a <= v <= b) || (b <= v <= a)
  }

  /** `a * n`, by repeated addition. */
  function Scaled(a: int, n: nat): int {
    if n == 0 then 0 else Scaled(a, n - 1) + a
  }

  lemma {:induction false} ScaledIsProduct(a: int, n: nat)
    ensures Scaled(a, n) == a * n
  {
    if n > 0 {
      ScaledIsProduct(a, n - 1);
    }
  }

  lemma {:induction false} ScaledAtLeast(a: int, n: nat)
    requires a >= 0 && n >= 1
    ensures Scaled(a, n) >= a
  {
    if n > 1 {
      ScaledAtLeast(a, n - 1);
    }
  }

  /** The loop invariant of the rasteriser. */
  predicate Tracing(g: Segment, c: Cursor) {
    && Between(c.x, g.x0, g.x1) && Between(c.y, g.y0, g.y1)
    && c.err == g.Dx() - g.Dy() + Scaled(g.Dy(), Abs(g.x1 - c.x)) - Scaled(g.Dx(), Abs(g.y1 - c.y))
  }

  predicate AtEnd(g: Segment, c: Cursor) {
    c.x == g.x1 && c.y == g.y1
  }

  function Remaining(g: Segment, c: Cursor): nat {
    Abs(g.x1 - c.x) + Abs(g.y1 - c.y)
  }

  /** One iteration: `e2 = 2*err`, then the x move and the y move. */
  function Next(g: Segment, c: Cursor): Cursor {
    var e2 := 2 * c.err;
    var err1 := if e2 > -g.Dy() then c.err - g.Dy() else c.err;
    Cursor(if e2 > -g.Dy() then c.x + g.Sx() else c.x,
           if e2 < g.Dx() then c.y + g.Sy() else c.y,
           if e2 < g.Dx() then err1 + g.Dx() else err1)
  }

  /**
   * The arithmetic behind `StepCloser`: an x move happens only while x is
   * short of its target, a y move only while y is, and at least one happens.
   */
  lemma StepCounts(dx: int, dy: int, rx: nat, ry: nat, err: int)
    requires 0 <= dx && 0 <= dy && rx <= dx && ry <= dy && (rx, ry) != (0, 0)
    requires err == dx - dy + Scaled(dy, rx) - Scaled(dx, ry)
    ensures 2 * err > -dy ==> rx >= 1
    ensures 2 * err < dx ==> ry >= 1
    ensures 2 * err > -dy || 2 * err < dx
  {
    if rx == 0 {
      ScaledAtLeast(dx, ry);
    }
    if ry == 0 {
      ScaledAtLeast(dy, rx);
    }
  }

  /** Away from the target, one iteration keeps the invariant, moves at most one cell per axis and gets strictly closer. */
  lemma StepCloser(g: Segment, c: Cursor)
    requires Tracing(g, c) && !AtEnd(g, c)
    ensures Tracing(g, Next(g, c))
    ensures Remaining(g, Next(g, c)) < Remaining(g, c)
    ensures Abs(Next(g, c).x - c.x) <= 1 && Abs(Next(g, c).y - c.y) <= 1
    ensures Between(Next(g, c).x, c.x, g.x1) && Between(Next(g, c).y, c.y, g.y1)
  {
    var rx, ry := Abs(g.x1 - c.x), Abs(g.y1 - c.y);
    StepCounts(g.Dx(), g.Dy(), rx, ry, c.err);
    var n := Next(g, c);
    if 2 * c.err > -g.Dy() {
      assert Abs(g.x1 - n.x) == rx - 1;
      assert Scaled(g.Dy(), rx) == Scaled(g.Dy(), rx - 1) + g.Dy();
    } else {
      assert n.x == c.x;
    }
    if 2 * c.err < g.Dx() {
      assert Abs(g.y1 - n.y) == ry - 1;
      assert Scaled(g.Dx(), ry) == Scaled(g.Dx(), ry - 1) + g.Dx();
    } else {
      assert n.y == c.y;
    }
  }

  /** Consecutive points of a path are neighbouring cells. */
  predicate UnitSteps(path: seq<(int, int)>) {
    forall i :: 0 <= i < |path| - 1 ==>
      Abs(path[i + 1].0 - path[i].0) <= 1 && Abs(path[i + 1].1 - path[i].1) <= 1
  }

  /** Every point of a path lies in the rectangle spanned by (x0, y0) and (x1, y1). */
  predicate Inside(path: seq<(int, int)>, x0: int, y0: int, x1: int, y1: int) {
    forall i :: 0 <= i < |path| ==> Between(path[i].0, x0, x1) && Between(path[i].1, y0, y1)
  }

  /** The points the rasteriser emits from a loop state, starting with its own cell. */
  function Walk(g: Segment, c: Cursor): (path: seq<(int, int)>)
    requires Tracing(g, c)
    ensures |path| >= 1 && path[0] == (c.x, c.y)
    decreases Remaining(g, c)
  {
    if AtEnd(g, c) then [(c.x, c.y)]
    else
      StepCloser(g, c);
      [(c.x, c.y)] + Walk(g, Next(g, c))
  }

  /** A walk ends at the target. */
  lemma {:induction false} WalkEnds(g: Segment, c: Cursor)
    requires Tracing(g, c)
    ensures var path := Walk(g, c); path[|path| - 1] == (g.x1, g.y1)
    decreases Remaining(g, c)
  {
    if !AtEnd(g, c) {
      StepCloser(g, c);
      WalkEnds(g, Next(g, c));
    }
  }

  /** A walk moves at most one cell along each axis per step. */
  lemma {:induction false} WalkSteps(g: Segment, c: Cursor)
    requires Tracing(g, c)
    ensures UnitSteps(Walk(g, c))
    decreases Remaining(g, c)
  {
    if !AtEnd(g, c) {
      StepCloser(g, c);
      var n := Next(g, c);
      WalkSteps(g, n);
      var rest := Walk(g, n);
      var path := Walk(g, c);
      assert path == [(c.x, c.y)] + rest;
      forall i | 0 <= i < |path| - 1
        ensures Abs(path[i + 1].0 - path[i].0) <= 1 && Abs(path[i + 1].1 - path[i].1) <= 1
      {
        if i == 0 {
          assert path[1] == rest[0] == (n.x, n.y);
        } else {
          assert path[i] == rest[i - 1] && path[i + 1] == rest[i];
        }
      }
    }
  }

  /** A walk never leaves the rectangle spanned by its current cell and the target. */
  lemma {:induction false} WalkStays(g: Segment, c: Cursor)
    requires Tracing(g, c)
    ensures Inside(Walk(g, c), c.x, c.y, g.x1, g.y1)
    decreases Remaining(g, c)
  {
    if !AtEnd(g, c) {
      StepCloser(g, c);
      var n := Next(g, c);
      WalkStays(g, n);
      var rest := Walk(g, n);
      var path := Walk(g, c);
      assert path == [(c.x, c.y)] + rest;
      forall i | 0 <= i < |path|
        ensures Between(path[i].0, c.x, g.x1) && Between(path[i].1, c.y, g.y1)
      {
        if i > 0 {
          assert path[i] == rest[i - 1];
        }
      }
    }
  }

  lemma StartTracing(x0: int, y0: int, x1: int, y1: int)
    ensures var g := Segment(x0, y0, x1, y1); Tracing(g, Cursor(x0, y0, g.Dx() - g.Dy()))
  {
    var g := Segment(x0, y0, x1, y1);
    ScaledIsProduct(g.Dx(), g.Dy());
    ScaledIsProduct(g.Dy(), g.Dx());
  }

  /** The cells `bresenham(x0, y0, x1, y1)` returns. */
  function Path(x0: int, y0: int, x1: int, y1: int): seq<(int, int)>
  {
    StartTracing(x0, y0, x1, y1);
    var g := Segment(x0, y0, x1, y1);
    Walk(g, Cursor(x0, y0, g.Dx() - g.Dy()))
  }

  /**
   * The path starts at (x0, y0), ends at (x1, y1), changes each coordinate by
   * at most one per step and stays inside the rectangle the two ends span.
   */
  lemma PathShape(x0: int, y0: int, x1: int, y1: int)
    ensures var path := Path(x0, y0, x1, y1);
      && |path| >= 1 && path[0] == (x0, y0) && path[|path| - 1] == (x1, y1)
      && UnitSteps(path)
      && Inside(path, x0, y0, x1, y1)
  {
    StartTracing(x0, y0, x1, y1);
    var g := Segment(x0, y0, x1, y1);
    var c := Cursor(x0, y0, g.Dx() - g.Dy());
    WalkEnds(g, c);
    WalkSteps(g, c);
    WalkStays(g, c);
  }

  /** A cursor that the loop body moved from `c` to `d` continues the walk from `c`. */
  lemma Advance(g: Segment, c: Cursor, d: Cursor, before: seq<(int, int)>)
    requires Tracing(g, c) && !AtEnd(g, c)
    requires d.x == if 2 * c.err > -g.Dy() then c.x + g.Sx() else c.x
    requires d.y == if 2 * c.err < g.Dx() then c.y + g.Sy() else c.y
    requires d.err == c.err - (if 2 * c.err > -g.Dy() then g.Dy() else 0) + (if 2 * c.err < g.Dx() then g.Dx() else 0)
    ensures Tracing(g, d) && Remaining(g, d) < Remaining(g, c)
    ensures Walk(g, c) == [(c.x, c.y)] + Walk(g, d)
    ensures (before + [(c.x, c.y)]) + Walk(g, d) == before + Walk(g, c)
  {
    StepCloser(g, c);
    assert d == Next(g, c);
  }

  /** The rasterising loop of `bresenham`. */
  method Bresenham(x0: int, y0: int, x1: int, y1: int) returns (points: seq<(int, int)>)
    ensures points == Path(x0, y0, x1, y1)
  {
    points := [];
    var dx: int := Abs(x1 - x0);
    var dy: int := Abs(y1 - y0);
    var sx := if x0 < x1 then 1 else -1;
    var sy := if y0 < y1 then 1 else -1;
    var err: int := dx - dy;
    var x, y := x0, y0;
    ghost var g := Segment(x0, y0, x1, y1);
    StartTracing(x0, y0, x1, y1);
    assert dx == g.Dx() && dy == g.Dy() && sx == g.Sx() && sy == g.Sy();
    ghost var whole := Walk(g, Cursor(x, y, err));
    assert whole == Path(x0, y0, x1, y1);
    while true
      invariant Tracing(g, Cursor(x, y, err))
      invariant points + Walk(g, Cursor(x, y, err)) == whole
      decreases Remaining(g, Cursor(x, y, err))
    {
      ghost var before, here := points, Cursor(x, y, err);
      points := points + [(x, y)];
      if x == x1 && y == y1 {
        break;
      }
      var e2 := 2 * err;
      if e2 > -dy {
        err := err - dy;
        x := x + sx;
      }
      if e2 < dx {
        err := err + dx;
        y := y + sy;
      }
      Advance(g, here, Cursor(x, y, err), before);
    }
  }

  /**
   * `inLineOfSight`: out of range beyond Chebyshev distance 3, otherwise
   * clear unless a cell strictly between the two ends holds a tree.
   */
  predicate Visible(trees: map<Cell, int>, x1: int, y1: int, x2: int, y2: int) {
    && Chebyshev(x1, y1, x2, y2) <= 3
    && var cells := Path(x1, y1, x2, y2);
       forall i :: 1 <= i < |cells| - 1 ==> !HasTree(trees, cells[i].0, cells[i].1)
  }

  method InLineOfSight(trees: map<Cell, int>, x1: int, y1: int, x2: int, y2: int) returns (r: bool)
    ensures r == Visible(trees, x1, y1, x2, y2)
  {
    if Chebyshev(x1, y1, x2, y2) > 3 {
      return false;
    }
    var cells := Bresenham(x1, y1, x2, y2);
    var i := 1;
    while i < |cells| - 1
      invariant 1 <= i
      invariant forall j :: 1 <= j < i && j < |cells| - 1 ==> !HasTree(trees, cells[j].0, cells[j].1)
    {
      var (x, y) := cells[i];
      if HasTree(trees, x, y) {
        return false;
      }
      i := i + 1;
    }
    return true;
  }

  /** Neighbouring cells always see each other: there is no cell between them to hold a tree. */
  lemma NeighboursVisible(trees: map<Cell, int>, x1: int, y1: int, x2: int, y2: int)
    requires Chebyshev(x1, y1, x2, y2) <= 1
    ensures Visible(trees, x1, y1, x2, y2)
  {
    StartTracing(x1, y1, x2, y2);
    var g := Segment(x1, y1, x2, y2);
    var c := Cursor(x1, y1, g.Dx() - g.Dy());
    if !AtEnd(g, c) {
      StepCloser(g, c);
      assert AtEnd(g, Next(g, c));
      assert Walk(g, c) == [(x1, y1)] + Walk(g, Next(g, c));
    }
  }

  /** From (x, y), two cells right and one down: the middle cell is taken on the start's row. */
  lemma PathAcross(x: int, y: int)
    ensures Path(x, y, x + 2, y + 1) == [(x, y), (x + 1, y), (x + 2, y + 1)]
  {
    var g := Segment(x, y, x + 2, y + 1);
    StartTracing(x, y, x + 2, y + 1);
    var c0, c1, c2 := Cursor(x, y, 1), Cursor(x + 1, y, 0), Cursor(x + 2, y + 1, 1);
    StepCloser(g, c0);
    assert Next(g, c0) == c1;
    StepCloser(g, c1);
    assert Next(g, c1) == c2;
    assert Walk(g, c1) == [(x + 1, y)] + Walk(g, c2);
  }

  /** The same segment walked backwards takes the middle cell on the other row. */
  lemma PathBack(x: int, y: int)
    ensures Path(x + 2, y + 1, x, y) == [(x + 2, y + 1), (x + 1, y + 1), (x, y)]
  {
    var g := Segment(x + 2, y + 1, x, y);
    StartTracing(x + 2, y + 1, x, y);
    var c0, c1, c2 := Cursor(x + 2, y + 1, 1), Cursor(x + 1, y + 1, 0), Cursor(x, y, 1);
    StepCloser(g, c0);
    assert Next(g, c0) == c1;
    StepCloser(g, c1);
    assert Next(g, c1) == c2;
    assert Walk(g, c1) == [(x + 1, y + 1)] + Walk(g, c2);
  }

  /**
   * Sight is directional: a tree beside the start of a knight-like segment
   * blocks the view one way but not the other.
   */
  lemma SightIsDirectional(x: int, y: int)
    ensures !Visible(map[(x + 1, y) := 1], x, y, x + 2, y + 1)
    ensures Visible(map[(x + 1, y) := 1], x + 2, y + 1, x, y)
  {
    var trees := map[(x + 1, y) := 1];
    PathAcross(x, y);
    var there := Path(x, y, x + 2, y + 1);
    assert HasTree(trees, there[1].0, there[1].1);
    PathBack(x, y);
    var back := Path(x + 2, y + 1, x, y);
    assert !HasTree(trees, back[1].0, back[1].1);
    assert |back| == 3;
  }
}
