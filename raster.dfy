/** The line rasterizer (TerminalPaint.drawLine): the integer Bresenham loop
    that lists the cells between two grid positions, so that a fast drag
    still paints a stroke without gaps. */
module Raster {
  import opened Geometry

  /** The step the loop takes along one axis to get from `a` towards `b`:
      +1 when `a < b`, otherwise -1 (also when `a == b`, where it is never used). */
  function Dir(a: int, b: int): int
  {
    if a < b then 1 else -1
  }

  /** `q` is one of the eight neighbours of `p`. */
  predicate Adjacent(p: Vector, q: Vector)
  {
    -1 <= q.x - p.x <= 1 && -1 <= q.y - p.y <= 1 && p != q
  }

  /** Every point of `pts` lies in the rectangle spanned by `from` and `to`. */
  predicate AllInBox(from: Vector, to: Vector, pts: seq<Vector>)
  {
    forall k :: 0 <= k < |pts| ==> InBox(from, to, pts[k])
  }

  /** Every point of `pts` is a neighbour of the one before it: no gaps, and
      no point equal to the one just before it. */
  predicate Connected(pts: seq<Vector>)
  {
    forall k :: 0 <= k < |pts| - 1 ==> Adjacent(pts[k], pts[k + 1])
  }

  /** No point of `pts` occurs twice. */
  predicate NoRepeats(pts: seq<Vector>)
  {
    forall i, j :: 0 <= i < j < |pts| ==> pts[i] != pts[j]
  }

  /** How many single-axis steps `p` is from `to`. */
  function Remaining(to: Vector, p: Vector): nat
  {
    Abs(to.x - p.x) + Abs(to.y - p.y)
  }

  /** `p` lies in the rectangle spanned by `from` and `to`. */
  predicate InBox(from: Vector, to: Vector, p: Vector)
  {
    (if from.x <= to.x then from.x <= p.x <= to.x else to.x <= p.x <= from.x) &&
    (if from.y <= to.y then from.y <= p.y <= to.y else to.y <= p.y <= from.y)
  }

  /** The loop state (x, y, err) is one the loop can reach from `from`: the
      position has not passed `to` on either axis, and the error term is
      `dx - dy` minus `dy` per column moved plus `dx` per row moved. */
  ghost predicate Tracking(from: Vector, to: Vector, x: int, y: int, err: int)
  {
    var dx, dy := Abs(to.x - from.x), Abs(to.y - from.y);
    InBox(from, to, Vector(x, y)) &&
    err == dx - dy - Times(Abs(x - from.x), dy) + Times(Abs(y - from.y), dx)
  }

  /** `n * k` as `n` additions of `k`, which keeps the loop's error term
      linear for the solver. */
  function Times(n: nat, k: int): int
  {
    if n == 0 then 0 else Times(n - 1, k) + k
  }

  lemma {:induction false} TimesIsProduct(n: nat, k: int)
    ensures Times(n, k) == n * k
  {
    if n > 0 {
      TimesIsProduct(n - 1, k);
    }
  }

  /** One iteration of the loop, on the counts of columns (i) and rows (j)
      moved so far: it moves along at least one axis, never past the end of
      either, and keeps the error term in step with the counts. */
  lemma {:induction false} StepArith(dx: int, dy: int, i: nat, j: nat, err: int)
    requires i <= dx && j <= dy && !(i == dx && j == dy)
    requires err == dx - dy - Times(i, dy) + Times(j, dx)
    ensures 2 * err > -dy ==> i < dx
    ensures 2 * err < dx ==> j < dy
    ensures 2 * err > -dy || 2 * err < dx
  {
    TimesIsProduct(i, dy);
    TimesIsProduct(j, dx);
    if i == dx {
      // err == dx * (1 + j - dy) - dy with 1 + j - dy <= 0
      assert err == dx * (1 + j - dy) - dy;
      assert dx * (1 + j - dy) <= 0 by { MulMonotone(1 + j - dy, 0, dx); }
    }
    if j == dy {
      // err == dx + dy * (dx - i - 1) with dx - i - 1 >= 0
      assert err == dx + dy * (dx - i - 1);
      assert dy * (dx - i - 1) >= 0 by { MulMonotone(0, dx - i - 1, dy); }
    }
  }

  /** The loop's variables: the current position and the error term. */
  datatype Tracer = Tracer(x: int, y: int, err: int)

  /** One iteration of the loop body: the column step, then the row step,
      both decided on the doubled error term `e2` from before the iteration. */
  function Step(from: Vector, to: Vector, t: Tracer): Tracer
  {
    StepY(from, to, StepX(from, to, t, 2 * t.err), 2 * t.err)
  }

  /** The first half of the loop body: a column step when `e2 > -dy`. */
  function StepX(from: Vector, to: Vector, t: Tracer, e2: int): Tracer
  {
    var dy := Abs(to.y - from.y) as int;
    if e2 > -dy then Tracer(t.x + Dir(from.x, to.x), t.y, t.err - dy) else t
  }

  /** The second half of the loop body: a row step when `e2 < dx`. */
  function StepY(from: Vector, to: Vector, t: Tracer, e2: int): Tracer
  {
    var dx := Abs(to.x - from.x) as int;
    if e2 < dx then Tracer(t.x, t.y + Dir(from.y, to.y), t.err + dx) else t
  }

  /** A step from a reachable state short of `to` reaches another reachable
      state, moves to a neighbour and brings the position closer to `to`. */
  lemma StepKeepsTracking(from: Vector, to: Vector, x: int, y: int, err: int)
    requires Tracking(from, to, x, y, err) && !(x == to.x && y == to.y)
    ensures var Tracer(x1, y1, err1) := Step(from, to, Tracer(x, y, err));
            Tracking(from, to, x1, y1, err1) &&
            Adjacent(Vector(x, y), Vector(x1, y1)) &&
            Abs(to.x - x1) + Abs(to.y - y1) < Abs(to.x - x) + Abs(to.y - y)
  {
    var t := Step(from, to, Tracer(x, y, err));
    StepTracks(from, to, x, y, err, t);
    StepMoves(from, to, x, y, err, t);
  }

  /** The step as the two axis moves the loop body makes. */
  lemma StepParts(from: Vector, to: Vector, x: int, y: int, err: int, t: Tracer)
    requires t == Step(from, to, Tracer(x, y, err))
    ensures var dx: int, dy: int := Abs(to.x - from.x), Abs(to.y - from.y);
            t.x == (if 2 * err > -dy then x + Dir(from.x, to.x) else x) &&
            t.y == (if 2 * err < dx then y + Dir(from.y, to.y) else y) &&
            t.err == err - (if 2 * err > -dy then dy else 0) + (if 2 * err < dx then dx else 0)
  {
  }

  /** The step keeps the error term in step with the position. */
  lemma StepTracks(from: Vector, to: Vector, x: int, y: int, err: int, t: Tracer)
    requires Tracking(from, to, x, y, err) && !(x == to.x && y == to.y)
    requires t == Step(from, to, Tracer(x, y, err))
    ensures Tracking(from, to, t.x, t.y, t.err)
  {
    var dx: int, dy: int := Abs(to.x - from.x), Abs(to.y - from.y);
    StepParts(from, to, x, y, err, t);
    AxisBound(from.x, to.x, x);
    AxisBound(from.y, to.y, y);
    StepArith(dx, dy, Abs(x - from.x), Abs(y - from.y), err);
    AxisMove(from.x, to.x, x, 2 * err > -dy, dy);
    AxisMove(from.y, to.y, y, 2 * err < dx, dx);
  }

  /** The step moves to a neighbour, closer to `to`. */
  lemma StepMoves(from: Vector, to: Vector, x: int, y: int, err: int, t: Tracer)
    requires Tracking(from, to, x, y, err) && !(x == to.x && y == to.y)
    requires t == Step(from, to, Tracer(x, y, err))
    ensures Adjacent(Vector(x, y), Vector(t.x, t.y))
    ensures Abs(to.x - t.x) + Abs(to.y - t.y) < Abs(to.x - x) + Abs(to.y - y)
  {
    var dx: int, dy: int := Abs(to.x - from.x), Abs(to.y - from.y);
    StepParts(from, to, x, y, err, t);
    AxisBound(from.x, to.x, x);
    AxisBound(from.y, to.y, y);
    StepArith(dx, dy, Abs(x - from.x), Abs(y - from.y), err);
    AxisMove(from.x, to.x, x, 2 * err > -dy, dy);
    AxisMove(from.y, to.y, y, 2 * err < dx, dx);
  }

  /** A coordinate between the two ends is no farther from the start than the end is. */
  lemma AxisBound(a0: int, a1: int, a: int)
    requires if a0 <= a1 then a0 <= a <= a1 else a1 <= a <= a0
    ensures Abs(a - a0) <= Abs(a1 - a0)
    ensures a == a1 <==> Abs(a - a0) == Abs(a1 - a0)
  {
  }

  /** The loop's move along one axis, from a coordinate between the ends:
      when it moves (never from the end itself), it goes one cell towards the
      end, stays between the ends, one farther from the start and one closer
      to the end, and adds one `k` to the running multiple of the distance. */
  lemma AxisMove(a0: int, a1: int, a: int, moved: bool, k: int)
    requires if a0 <= a1 then a0 <= a <= a1 else a1 <= a <= a0
    requires moved ==> a != a1
    ensures var b := if moved then a + Dir(a0, a1) else a;
            (if a0 <= a1 then a0 <= b <= a1 else a1 <= b <= a0) &&
            -1 <= b - a <= 1 && (moved <==> b != a) &&
            Abs(b - a0) == Abs(a - a0) + (if moved then 1 else 0) &&
            Abs(a1 - b) == Abs(a1 - a) - (if moved then 1 else 0) &&
            Times(Abs(b - a0), k) == Times(Abs(a - a0), k) + (if moved then k else 0)
  {
    if moved {
      var b := a + Dir(a0, a1);
      assert Abs(b - a0) == Abs(a - a0) + 1;
    }
  }

  /** Unfolds Walk by one step. */
  lemma WalkUnfold(from: Vector, to: Vector, x: int, y: int, err: int)
    requires Tracking(from, to, x, y, err) && !(x == to.x && y == to.y)
    ensures var Tracer(x1, y1, err1) := Step(from, to, Tracer(x, y, err));
            Tracking(from, to, x1, y1, err1) &&
            Abs(to.x - x1) + Abs(to.y - y1) < Abs(to.x - x) + Abs(to.y - y) &&
            Walk(from, to, x, y, err) == [Vector(x1, y1)] + Walk(from, to, x1, y1, err1)
  {
    StepKeepsTracking(from, to, x, y, err);
  }

  /** The positions the loop visits after (x, y), in order, until it reaches
      `to`; empty when (x, y) is already `to`. */
  function Walk(from: Vector, to: Vector, x: int, y: int, err: int): seq<Vector>
    requires Tracking(from, to, x, y, err)
    decreases Abs(to.x - x) + Abs(to.y - y)
  {
    if x == to.x && y == to.y then []
    else
      StepKeepsTracking(from, to, x, y, err);
      var Tracer(x1, y1, err1) := Step(from, to, Tracer(x, y, err));
      [Vector(x1, y1)] + Walk(from, to, x1, y1, err1)
  }

  /** The walk ends at `to`, every position is a neighbour of the one before
      it (starting from (x, y)), and none leaves the rectangle spanned by
      `from` and `to`. */
  lemma {:induction false} WalkShape(from: Vector, to: Vector, x: int, y: int, err: int)
    requires Tracking(from, to, x, y, err)
    ensures var r := Walk(from, to, x, y, err);
            (r == [] <==> x == to.x && y == to.y) &&
            (r != [] ==> Adjacent(Vector(x, y), r[0]) && r[|r| - 1] == to) &&
            Connected(r) && AllInBox(from, to, r)
    decreases Abs(to.x - x) + Abs(to.y - y)
  {
    if !(x == to.x && y == to.y) {
      StepKeepsTracking(from, to, x, y, err);
      var Tracer(x1, y1, err1) := Step(from, to, Tracer(x, y, err));
      WalkShape(from, to, x1, y1, err1);
    }
  }

  /** Every position the walk visits is strictly closer to `to` than (x, y),
      and no position is visited twice, since each step gets closer. */
  lemma {:induction false} WalkApproaches(from: Vector, to: Vector, x: int, y: int, err: int)
    requires Tracking(from, to, x, y, err)
    ensures var r := Walk(from, to, x, y, err);
            (forall k :: 0 <= k < |r| ==> Remaining(to, r[k]) < Remaining(to, Vector(x, y))) &&
            NoRepeats(r)
    decreases Abs(to.x - x) + Abs(to.y - y)
  {
    if !(x == to.x && y == to.y) {
      WalkUnfold(from, to, x, y, err);
      var Tracer(x1, y1, err1) := Step(from, to, Tracer(x, y, err));
      WalkApproaches(from, to, x1, y1, err1);
      ApproachCons(to, Vector(x, y), Vector(x1, y1), Walk(from, to, x1, y1, err1));
    }
  }

  /** A point closer to `to` than `p`, followed by points closer still and
      none twice, gives points all closer than `p` and none twice. */
  lemma ApproachCons(to: Vector, p: Vector, first: Vector, rest: seq<Vector>)
    requires Remaining(to, first) < Remaining(to, p)
    requires forall k :: 0 <= k < |rest| ==> Remaining(to, rest[k]) < Remaining(to, first)
    requires NoRepeats(rest)
    ensures var r := [first] + rest;
            (forall k :: 0 <= k < |r| ==> Remaining(to, r[k]) < Remaining(to, p)) &&
            NoRepeats(r)
  {
    var r := [first] + rest;
    forall i, j | 0 <= i < j < |r| ensures r[i] != r[j] {
      assert r[j] == rest[j - 1];
      if i > 0 {
        assert r[i] == rest[i - 1];
      }
    }
  }

  /** The cells drawLine paints, in order: `from`, then every position the
      loop visits until it reaches `to`. */
  function Line(from: Vector, to: Vector): seq<Vector>
  {
    [from] + Walk(from, to, from.x, from.y, Abs(to.x - from.x) - Abs(to.y - from.y))
  }

  /** The line starts at `from`, ends at `to`, has no gaps and no repeated
      cell, stays in the rectangle spanned by its ends, and is the single
      cell `from` when the ends coincide. */
  lemma LineShape(from: Vector, to: Vector)
    ensures var r := Line(from, to);
            |r| >= 1 && r[0] == from && r[|r| - 1] == to &&
            Connected(r) && NoRepeats(r) && AllInBox(from, to, r) &&
            (from == to ==> r == [from])
  {
    var err := Abs(to.x - from.x) - Abs(to.y - from.y);
    var walk := Walk(from, to, from.x, from.y, err);
    var r := Line(from, to);
    WalkShape(from, to, from.x, from.y, err);
    WalkApproaches(from, to, from.x, from.y, err);
    assert r == [from] + walk;
    forall i, j | 0 <= i < j < |r| ensures r[i] != r[j] {
      assert r[j] == walk[j - 1];
      if i > 0 {
        assert r[i] == walk[i - 1];
      }
    }
  }

  /** One iteration of the point-collecting loop, on the points collected
      so far: the next position is reachable and closer to `to`, and the
      collected points followed by the rest of the walk still make the line. */
  lemma Advance(from: Vector, to: Vector, done: seq<Vector>, x: int, y: int, err: int)
    requires Tracking(from, to, x, y, err) && !(x == to.x && y == to.y)
    requires done + Walk(from, to, x, y, err) == Line(from, to)
    ensures var Tracer(x1, y1, err1) := Step(from, to, Tracer(x, y, err));
            Tracking(from, to, x1, y1, err1) &&
            Abs(to.x - x1) + Abs(to.y - y1) < Abs(to.x - x) + Abs(to.y - y) &&
            done + [Vector(x1, y1)] + Walk(from, to, x1, y1, err1) == Line(from, to)
  {
    WalkUnfold(from, to, x, y, err);
    var Tracer(x1, y1, err1) := Step(from, to, Tracer(x, y, err));
    assert done + [Vector(x1, y1)] + Walk(from, to, x1, y1, err1) ==
           done + ([Vector(x1, y1)] + Walk(from, to, x1, y1, err1));
  }

  /** The point-collecting loop of drawLine. The shift `err << 1` is `2 * err`. */
  method LinePoints(from: Vector, to: Vector) returns (coordinates: seq<Vector>)
    ensures coordinates == Line(from, to)
  {
    var x1, y1 := from.x, from.y;
    var x2, y2 := to.x, to.y;
    var dx: int := Abs(x2 - x1);
    var dy: int := Abs(y2 - y1);
    var sx := if x1 < x2 then 1 else -1;
    var sy := if y1 < y2 then 1 else -1;
    var err := dx - dy;

    coordinates := [from];

    while !(x1 == x2 && y1 == y2)
      invariant x2 == to.x && y2 == to.y
      invariant dx == Abs(to.x - from.x) && dy == Abs(to.y - from.y)
      invariant sx == Dir(from.x, to.x) && sy == Dir(from.y, to.y)
      invariant Tracking(from, to, x1, y1, err)
      invariant coordinates + Walk(from, to, x1, y1, err) == Line(from, to)
      decreases Abs(to.x - x1) + Abs(to.y - y1)
    {
      ghost var next := Step(from, to, Tracer(x1, y1, err));
      Advance(from, to, coordinates, x1, y1, err);
      StepParts(from, to, x1, y1, err, next);
      var e2 := 2 * err;
      if e2 > -dy {
        err := err - dy;
        x1 := x1 + sx;
      }
      if e2 < dx {
        err := err + dx;
        y1 := y1 + sy;
      }
      assert Tracer(x1, y1, err) == next;
      coordinates := coordinates + [Vector(x1, y1)];
    }
  }
}
