/** The rasterizer: all-octant Bresenham stepping between two projected
    points, with the depth of every visited cell interpolated along the line
    and shaded, writing into the character grid only where the cell is on it.

    Two descriptions of the line are related here. `CursorAt` is the walk
    drawLine's loop performs, one Bresenham step at a time; `LineCell` is an
    independent closed form: after k of its m = max(dx, dy) steps the walk
    stands at the grid point nearest to the ideal line at parameter k/m, ties
    broken toward the start. `WalkIsNearestLine` proves the two agree, and the
    properties of the walk (its ends, its steps, its box) follow from the
    closed form. `DrawLine` is proved against `CursorAt`. */
module Raster {
  import opened Geometry
  import opened Shading

  /** A grid cell: column `x`, row `y`. */
  datatype Pos = Pos(x: int, y: int)

  function Abs(n: int): nat { if n < 0 then -n else n }

  /** Number of steps of the line, `max(dx, dy)`; the walk visits one more cell. */
  function Steps(p1: ProjectedPoint, p2: ProjectedPoint): nat
  {
    Max(Abs(p2.x - p1.x), Abs(p2.y - p1.y))
  }

  /** The step sign of drawLine: +1 toward a larger coordinate, otherwise -1. */
  function StepSign(from: int, to: int): int
  {
    if from < to then 1 else -1
  }

  predicate InGrid(pos: Pos, height: int, width: int)
  {
    0 <= pos.x < width && 0 <= pos.y < height
  }

  // ---------------------------------------------------------------------------
  // The closed form: rounding to the nearest point of the ideal line

  /** `n` is `d * k / m` rounded to the nearest integer, ties rounded down:
      `d * k / m - 1/2 <= n < d * k / m + 1/2`, scaled by `2 * m`. */
  predicate Rounds(d: int, k: int, m: int, n: int)
  {
    0 <= 2 * (m * n - d * k) + m < 2 * m
  }

  /** How far the walk has advanced on an axis of extent `d` after `k` of
      its `m` steps: the nearest integer to `d * k / m`, ties toward the
      start. */
  ghost function Near(d: nat, k: nat, m: nat): (n: nat)
    requires k <= m && d <= m
    ensures m > 0 ==> Rounds(d, k, m, n)
    ensures m == 0 ==> n == 0
  {
    if m == 0 then 0
    else
      RoundingExists(d, k, m);
      var n: nat :| Rounds(d, k, m, n); n
  }

  /** The rounding exists: Euclidean division of `2dk + m - 1` by `2m`
      computes it. */
  lemma RoundingExists(d: nat, k: nat, m: nat)
    requires m > 0
    ensures exists n: nat :: Rounds(d, k, m, n)
  {
    var a := 2 * d * k + m - 1;
    var n := a / (2 * m);
    assert a == 2 * m * n + a % (2 * m) && 0 <= a % (2 * m) < 2 * m;
    assert Rounds(d, k, m, n);
  }

  /** `n` cells from `from` in the direction of `to`. */
  function Offset(from: int, to: int, n: int): int
  {
    if from < to then from + n else from - n
  }

  /** The `k`-th cell of the line from `p1` to `p2`, in closed form. */
  ghost function LineCell(p1: ProjectedPoint, p2: ProjectedPoint, k: nat): Pos
    requires k <= Steps(p1, p2)
  {
    var m := Steps(p1, p2);
    Pos(Offset(p1.x, p2.x, Near(Abs(p2.x - p1.x), k, m)),
        Offset(p1.y, p2.y, Near(Abs(p2.y - p1.y), k, m)))
  }

  lemma MulLe(b: int, x: int, y: int)
    requires b >= 0 && x <= y
    ensures b * x <= b * y
  {
  }

  /** Only one integer lies in the rounding bracket. */
  lemma RoundsUnique(d: int, k: int, m: int, n1: int, n2: int)
    requires m > 0 && Rounds(d, k, m, n1) && Rounds(d, k, m, n2)
    ensures n1 == n2
  {
    var e := n1 - n2;
    assert 2 * (m * e) == 2 * (m * n1 - d * k) - 2 * (m * n2 - d * k);
    if e >= 1 {
      MulLe(m, 1, e);
    } else if e <= -1 {
      MulLe(m, e, -1);
    }
  }

  lemma NearUnique(d: nat, k: nat, m: nat, n: int)
    requires k <= m && d <= m
    requires m > 0 && Rounds(d, k, m, n)
    ensures n == Near(d, k, m)
  {
    RoundsUnique(d, k, m, n, Near(d, k, m));
  }

  /** Along the axis of the larger extent the walk advances every step. */
  lemma NearMajor(k: nat, m: nat)
    requires k <= m
    ensures Near(m, k, m) == k
  {
    if m > 0 { NearUnique(m, k, m, k); }
  }

  /** The walk starts at its first endpoint. */
  lemma NearAtStart(d: nat, m: nat)
    requires d <= m
    ensures Near(d, 0, m) == 0
  {
    if m > 0 { NearUnique(d, 0, m, 0); }
  }

  /** The walk ends at its second endpoint. */
  lemma NearAtEnd(d: nat, m: nat)
    requires d <= m
    ensures Near(d, m, m) == d
  {
    if m > 0 { NearUnique(d, m, m, d); }
  }

  /** Between two consecutive steps the offset on an axis grows by 0 or 1. */
  lemma NearStep(d: nat, k: nat, m: nat)
    requires d <= m && k < m
    ensures Near(d, k + 1, m) == Near(d, k, m) || Near(d, k + 1, m) == Near(d, k, m) + 1
  {
    var n := Near(d, k, m);
    if 0 <= 2 * (m * n - d * (k + 1)) + m {
      NearUnique(d, k + 1, m, n);
    } else {
      NearUnique(d, k + 1, m, n + 1);
    }
  }

  /** The offset never goes past the endpoint. */
  lemma {:induction false} NearBounded(d: nat, k: nat, m: nat)
    requires d <= m && k <= m
    ensures Near(d, k, m) <= d
    decreases m - k
  {
    if k == m {
      NearAtEnd(d, m);
    } else {
      NearBounded(d, k + 1, m);
      NearStep(d, k, m);
    }
  }

  // ---------------------------------------------------------------------------
  // The walk of drawLine's loop

  /** The loop's state besides the step counter: the position and the error
      term. */
  datatype Cursor = Cursor(x: int, y: int, err: int)

  /** The state before the first iteration: at `p1`, with `err = dx - dy`. */
  function Start(p1: ProjectedPoint, p2: ProjectedPoint): Cursor
  {
    Cursor(p1.x, p1.y, Abs(p2.x - p1.x) - Abs(p2.y - p1.y))
  }

  /** The stepping half of one iteration, on a line of extents `dx`, `dy`
      and step signs `sx`, `sy`: with `e2 = 2 * err`, advance x when
      `e2 > -dy` and y when `e2 < dx`, correcting the error term. */
  function Advance(dx: int, dy: int, sx: int, sy: int, c: Cursor): Cursor
  {
    var e2 := 2 * c.err;
    var afterX := if e2 > -dy then Cursor(c.x + sx, c.y, c.err - dy) else c;
    if e2 < dx then Cursor(afterX.x, afterX.y + sy, afterX.err + dx) else afterX
  }

  /** One step of the loop on the line from `p1` to `p2`. */
  function Next(p1: ProjectedPoint, p2: ProjectedPoint, c: Cursor): Cursor
  {
    Advance(Abs(p2.x - p1.x), Abs(p2.y - p1.y), StepSign(p1.x, p2.x), StepSign(p1.y, p2.y), c)
  }

  /** The state after `k` iterations. */
  function CursorAt(p1: ProjectedPoint, p2: ProjectedPoint, k: nat): Cursor
  {
    if k == 0 then Start(p1, p2) else Next(p1, p2, CursorAt(p1, p2, k - 1))
  }

  /** The cell visited by iteration `k` (counting from 0). */
  function WalkCell(p1: ProjectedPoint, p2: ProjectedPoint, k: nat): Pos
  {
    Pos(CursorAt(p1, p2, k).x, CursorAt(p1, p2, k).y)
  }

  /** The cell `pos` is visited by the walk from `p1` to `p2`. */
  ghost predicate OnWalk(p1: ProjectedPoint, p2: ProjectedPoint, pos: Pos)
  {
    exists k :: 0 <= k <= Steps(p1, p2) && WalkCell(p1, p2, k) == pos
  }

  /** The character shaded at the `k`-th cell: depth interpolated at
      `t = k / Steps` (0 for a one-cell line) and mapped onto the ramp. */
  function LineShade(p1: ProjectedPoint, p2: ProjectedPoint, k: nat, minZ: real, maxZ: real): (c: char)
    requires k <= Steps(p1, p2) && minZ != maxZ
    ensures c in Ramp
  {
    ShadeChar(Depth(p1.z, p2.z, Fraction(k, Steps(p1, p2))), minZ, maxZ)
  }

  // ---------------------------------------------------------------------------
  // The walk is the closed form

  /** One iteration on a line whose x extent is the larger: x always
      advances, and y advances exactly when the closed form says it does.
      `err` is `dx - dy` plus the walk's signed distance from the ideal line,
      scaled by `dx`. */
  lemma StepXMajor(dx: int, dy: int, k: nat, j: nat, err: int)
    requires 0 <= dy <= dx && k < dx
    requires j == Near(dy, k, dx)
    requires err == dx - dy + (dx * j - dy * k)
    ensures 2 * err > -dy
    ensures k + 1 == Near(dx, k + 1, dx)
    ensures 2 * err < dx ==> j + 1 == Near(dy, k + 1, dx) && err - dy + dx == dx - dy + (dx * (j + 1) - dy * (k + 1))
    ensures 2 * err >= dx ==> j == Near(dy, k + 1, dx) && err - dy == dx - dy + (dx * j - dy * (k + 1))
  {
    NearMajor(k + 1, dx);
    var f := dx * j - dy * k;
    if dx == dy {
      NearMajor(k, dx);
      assert f == 0;
    }
    assert dy * (k + 1) == dy * k + dy;
    if 2 * err < dx {
      assert dx * (j + 1) == dx * j + dx;
      NearUnique(dy, k + 1, dx, j + 1);
    } else {
      NearUnique(dy, k + 1, dx, j);
    }
  }

  /** The same iteration on a line whose y extent is the larger: y always
      advances, and x advances exactly when the closed form says it does. */
  lemma StepYMajor(dx: int, dy: int, k: nat, i: nat, err: int)
    requires 0 <= dx < dy && k < dy
    requires i == Near(dx, k, dy)
    requires err == dx - dy + (dx * k - dy * i)
    ensures 2 * err < dx
    ensures k + 1 == Near(dy, k + 1, dy)
    ensures 2 * err > -dy ==> i + 1 == Near(dx, k + 1, dy) && err - dy + dx == dx - dy + (dx * (k + 1) - dy * (i + 1))
    ensures 2 * err <= -dy ==> i == Near(dx, k + 1, dy) && err + dx == dx - dy + (dx * (k + 1) - dy * i)
  {
    NearMajor(k + 1, dy);
    assert dx * (k + 1) == dx * k + dx;
    if 2 * err > -dy {
      assert dy * (i + 1) == dy * i + dy;
      NearUnique(dx, k + 1, dy, i + 1);
    } else {
      NearUnique(dx, k + 1, dy, i);
    }
  }

  /** The cursor `c` stands on the `k`-th cell of the closed form, with the
      error term `dx - dy` plus the scaled distance of that cell from the
      ideal line. */
  ghost predicate OnNearestLine(p1: ProjectedPoint, p2: ProjectedPoint, k: nat, c: Cursor)
    requires k <= Steps(p1, p2)
  {
    var dx, dy, m := Abs(p2.x - p1.x), Abs(p2.y - p1.y), Steps(p1, p2);
    Pos(c.x, c.y) == LineCell(p1, p2, k) &&
    c.err == dx - dy + (dx * Near(dy, k, m) - dy * Near(dx, k, m))
  }

  /** One iteration moves the closed form's offsets `i`, `j` exactly as the
      error term decides: x advances when `2 * err > -dy`, y when
      `2 * err < dx`, and the corrected error term is again the scaled
      distance from the ideal line. */
  lemma StepNear(dx: int, dy: int, m: nat, k: nat, i: nat, j: nat, err: int)
    requires 0 <= dx && 0 <= dy && m == Max(dx, dy) && k < m
    requires i == Near(dx, k, m) && j == Near(dy, k, m)
    requires err == dx - dy + (dx * j - dy * i)
    ensures Near(dx, k + 1, m) == i + (if 2 * err > -dy then 1 else 0)
    ensures Near(dy, k + 1, m) == j + (if 2 * err < dx then 1 else 0)
    ensures err - (if 2 * err > -dy then dy else 0) + (if 2 * err < dx then dx else 0)
         == dx - dy + (dx * Near(dy, k + 1, m) - dy * Near(dx, k + 1, m))
  {
    NearMajor(k, m);
    if dy <= dx {
      StepXMajor(dx, dy, k, j, err);
    } else {
      StepYMajor(dx, dy, k, i, err);
    }
  }

  /** `Advance` coordinate by coordinate: x moves by `sx` exactly when
      `2 * err > -dy`, y by `sy` exactly when `2 * err < dx`, the error term
      loses `dy` per x move and gains `dx` per y move, and on a line of more
      than one cell every iteration moves. */
  lemma AdvanceMoves(dx: int, dy: int, sx: int, sy: int, c: Cursor)
    ensures var r := Advance(dx, dy, sx, sy, c);
      r.x == c.x + (if 2 * c.err > -dy then sx else 0) &&
      r.y == c.y + (if 2 * c.err < dx then sy else 0) &&
      r.err == c.err - (if 2 * c.err > -dy then dy else 0) + (if 2 * c.err < dx then dx else 0)
    ensures var r := Advance(dx, dy, sx, sy, c);
      0 <= dx && 0 <= dy && 0 < dx + dy && sx != 0 && sy != 0 ==> Pos(r.x, r.y) != Pos(c.x, c.y)
  {
  }

  /** One more cell along an axis moves one step in the direction of `to`. */
  lemma OffsetStep(from: int, to: int, n: int, b: int)
    requires b == 0 || b == 1
    ensures Offset(from, to, n + b) == Offset(from, to, n) + (if b == 1 then StepSign(from, to) else 0)
  {
  }

  /** One iteration of the loop keeps the cursor on the closed form. */
  lemma AdvanceOnLine(p1: ProjectedPoint, p2: ProjectedPoint, k: nat, c: Cursor)
    requires k < Steps(p1, p2)
    requires OnNearestLine(p1, p2, k, c)
    ensures OnNearestLine(p1, p2, k + 1, Next(p1, p2, c))
  {
    var dx: int, dy: int, m := Abs(p2.x - p1.x), Abs(p2.y - p1.y), Steps(p1, p2);
    var i, j := Near(dx, k, m), Near(dy, k, m);
    var ax, ay := if 2 * c.err > -dy then 1 else 0, if 2 * c.err < dx then 1 else 0;
    StepNear(dx, dy, m, k, i, j, c.err);
    AdvanceMoves(dx, dy, StepSign(p1.x, p2.x), StepSign(p1.y, p2.y), c);
    OffsetStep(p1.x, p2.x, i, ax);
    OffsetStep(p1.y, p2.y, j, ay);
  }

  /** After `k` iterations the loop stands on the `k`-th cell of the closed
      form, and its error term is `dx - dy` plus the scaled distance of that
      cell from the ideal line. */
  lemma {:induction false} WalkIsNearestLine(p1: ProjectedPoint, p2: ProjectedPoint, k: nat)
    requires k <= Steps(p1, p2)
    ensures WalkCell(p1, p2, k) == LineCell(p1, p2, k)
    ensures OnNearestLine(p1, p2, k, CursorAt(p1, p2, k))
  {
    var dx, dy, m := Abs(p2.x - p1.x), Abs(p2.y - p1.y), Steps(p1, p2);
    if k == 0 {
      NearAtStart(dx, m);
      NearAtStart(dy, m);
    } else {
      WalkIsNearestLine(p1, p2, k - 1);
      AdvanceOnLine(p1, p2, k - 1, CursorAt(p1, p2, k - 1));
    }
  }

  // ---------------------------------------------------------------------------
  // Properties of the walk

  /** The walk starts at `p1`, and it stands on `p2` after its last step and
      after no earlier one: the loop runs exactly `Steps + 1` iterations. */
  lemma WalkEnds(p1: ProjectedPoint, p2: ProjectedPoint, k: nat)
    requires k <= Steps(p1, p2)
    ensures WalkCell(p1, p2, 0) == Pos(p1.x, p1.y)
    ensures WalkCell(p1, p2, k) == Pos(p2.x, p2.y) <==> k == Steps(p1, p2)
  {
    var dx, dy, m := Abs(p2.x - p1.x), Abs(p2.y - p1.y), Steps(p1, p2);
    WalkIsNearestLine(p1, p2, k);
    if k == m {
      NearAtEnd(dx, m);
      NearAtEnd(dy, m);
    } else {
      NearMajor(k, m);
    }
  }

  /** Every step moves each coordinate by 0 or 1 toward the endpoint, the
      coordinate of the larger extent always moves, and neither passes the
      endpoint. */
  lemma WalkStep(p1: ProjectedPoint, p2: ProjectedPoint, k: nat)
    requires k < Steps(p1, p2)
    ensures var a, b := WalkCell(p1, p2, k), WalkCell(p1, p2, k + 1);
      (b.x == a.x || (b.x == a.x + StepSign(p1.x, p2.x) && a.x != p2.x)) &&
      (b.y == a.y || (b.y == a.y + StepSign(p1.y, p2.y) && a.y != p2.y)) &&
      (Abs(p2.x - p1.x) >= Abs(p2.y - p1.y) ==> b.x != a.x) &&
      (Abs(p2.x - p1.x) <= Abs(p2.y - p1.y) ==> b.y != a.y)
  {
    var m := Steps(p1, p2);
    WalkIsNearestLine(p1, p2, k);
    WalkIsNearestLine(p1, p2, k + 1);
    AxisStep(p1.x, p2.x, m, k);
    AxisStep(p1.y, p2.y, m, k);
  }

  /** The closed form, one axis at a time: from step `k` to step `k + 1`
      the coordinate stays or moves one cell toward `to` without passing
      it, and on the axis of the larger extent it always moves. */
  lemma AxisStep(from: int, to: int, m: nat, k: nat)
    requires Abs(to - from) <= m && k < m
    ensures var a, b := Offset(from, to, Near(Abs(to - from), k, m)), Offset(from, to, Near(Abs(to - from), k + 1, m));
      (b == a || (b == a + StepSign(from, to) && a != to)) && (Abs(to - from) == m ==> b != a)
  {
    var d := Abs(to - from);
    NearStep(d, k, m);
    NearBounded(d, k + 1, m);
    if d == m {
      NearMajor(k, m);
      NearMajor(k + 1, m);
    }
  }

  /** The walk stays inside the box spanned by its endpoints. */
  lemma WalkInBox(p1: ProjectedPoint, p2: ProjectedPoint, k: nat)
    requires k <= Steps(p1, p2)
    ensures var c := WalkCell(p1, p2, k);
      Min(p1.x, p2.x) <= c.x <= Max(p1.x, p2.x) && Min(p1.y, p2.y) <= c.y <= Max(p1.y, p2.y)
  {
    WalkIsNearestLine(p1, p2, k);
    NearBounded(Abs(p2.x - p1.x), k, Steps(p1, p2));
    NearBounded(Abs(p2.y - p1.y), k, Steps(p1, p2));
  }

  /** No cell is visited twice. */
  lemma WalkInjective(p1: ProjectedPoint, p2: ProjectedPoint, k1: nat, k2: nat)
    requires k1 < k2 <= Steps(p1, p2)
    ensures WalkCell(p1, p2, k1) != WalkCell(p1, p2, k2)
  {
    WalkIsNearestLine(p1, p2, k1);
    WalkIsNearestLine(p1, p2, k2);
    NearMajor(k1, Steps(p1, p2));
    NearMajor(k2, Steps(p1, p2));
  }

  /** A line whose endpoints share a cell is a single cell, shaded with the
      depth of `p1`. */
  lemma DegenerateLine(p1: ProjectedPoint, p2: ProjectedPoint, minZ: real, maxZ: real)
    requires minZ != maxZ
    ensures Steps(p1, p2) == 0 <==> p1.x == p2.x && p1.y == p2.y
    ensures Steps(p1, p2) == 0 ==>
      WalkCell(p1, p2, 0) == Pos(p2.x, p2.y) && LineShade(p1, p2, 0, minZ, maxZ) == ShadeChar(p1.z, minZ, maxZ)
  {
  }

  /** When the far endpoint is no nearer than the start, the shading never
      gets lighter along the walk. */
  lemma ShadeMonotoneAlongLine(p1: ProjectedPoint, p2: ProjectedPoint, k1: nat, k2: nat, minZ: real, maxZ: real)
    requires k1 <= k2 <= Steps(p1, p2)
    requires p1.z <= p2.z && minZ < maxZ
    ensures ShadeIndex(Depth(p1.z, p2.z, Fraction(k1, Steps(p1, p2))), minZ, maxZ)
         <= ShadeIndex(Depth(p1.z, p2.z, Fraction(k2, Steps(p1, p2))), minZ, maxZ)
  {
    var m := Steps(p1, p2);
    FractionMonotone(k1, k2, m);
    DepthMonotone(p1.z, p2.z, Fraction(k1, m), Fraction(k2, m));
    ShadeIndexMonotone(Depth(p1.z, p2.z, Fraction(k1, m)), Depth(p1.z, p2.z, Fraction(k2, m)), minZ, maxZ);
  }

  /** A line lying at the nearest depth of the frame is drawn all in '.'. */
  lemma FlatLineAtMinIsLightest(p1: ProjectedPoint, p2: ProjectedPoint, k: nat, minZ: real, maxZ: real)
    requires k <= Steps(p1, p2)
    requires p1.z == minZ && p2.z == minZ && minZ < maxZ
    ensures LineShade(p1, p2, k, minZ, maxZ) == '.'
  {
    ShadeAtMinIsLightest(minZ, maxZ);
  }

  // ---------------------------------------------------------------------------
  // The rasterizer

  /** `trace` lists the loop's states from the start, each one step after
      the one before. */
  ghost predicate IsRun(p1: ProjectedPoint, p2: ProjectedPoint, trace: seq<Cursor>)
  {
    |trace| >= 1 && trace[0] == Start(p1, p2) &&
    forall q :: 0 <= q < |trace| - 1 ==> trace[q + 1] == Next(p1, p2, trace[q])
  }

  /** A run of `n + 1` states is the walk's first `n + 1` states. */
  lemma {:induction false} RunIsWalk(p1: ProjectedPoint, p2: ProjectedPoint, trace: seq<Cursor>)
    requires IsRun(p1, p2, trace)
    ensures forall q :: 0 <= q < |trace| ==> trace[q] == CursorAt(p1, p2, q)
  {
    if |trace| > 1 {
      var front := trace[..|trace| - 1];
      assert IsRun(p1, p2, front);
      RunIsWalk(p1, p2, front);
    }
  }

  /** A run extended by one step of the loop is a run. */
  lemma RunExtend(p1: ProjectedPoint, p2: ProjectedPoint, trace: seq<Cursor>, dx: int, dy: int, sx: int, sy: int)
    requires IsRun(p1, p2, trace)
    requires dx == Abs(p2.x - p1.x) && dy == Abs(p2.y - p1.y) && sx == StepSign(p1.x, p2.x) && sy == StepSign(p1.y, p2.y)
    ensures IsRun(p1, p2, trace + [Advance(dx, dy, sx, sy, trace[|trace| - 1])])
  {
  }

  /** The last state of a run stands on `p2` exactly when the run has taken
      all its steps, and its cell differs from every earlier one. */
  lemma RunFacts(p1: ProjectedPoint, p2: ProjectedPoint, trace: seq<Cursor>)
    requires IsRun(p1, p2, trace) && |trace| <= Steps(p1, p2) + 1
    ensures var c := trace[|trace| - 1];
      c.x == p2.x && c.y == p2.y <==> |trace| - 1 == Steps(p1, p2)
    ensures forall q :: 0 <= q < |trace| - 1 ==>
      Pos(trace[q].x, trace[q].y) != Pos(trace[|trace| - 1].x, trace[|trace| - 1].y)
    ensures OnWalk(p1, p2, Pos(trace[|trace| - 1].x, trace[|trace| - 1].y))
  {
    var k := |trace| - 1;
    RunIsWalk(p1, p2, trace);
    WalkEnds(p1, p2, k);
    assert WalkCell(p1, p2, k) == Pos(trace[k].x, trace[k].y);
    forall q | 0 <= q < k
      ensures Pos(trace[q].x, trace[q].y) != Pos(trace[k].x, trace[k].y)
    {
      WalkInjective(p1, p2, q, k);
    }
  }

  /** The loop's depth at its step counter is the depth of the walk's cell
      `k`, so its character is the one `LineShade` assigns that cell. */
  lemma CounterShade(p1: ProjectedPoint, p2: ProjectedPoint, currentStep: real, totalSteps: real, t: real, z: real,
                     k: nat, minZ: real, maxZ: real)
    requires k <= Steps(p1, p2) && minZ != maxZ
    requires currentStep == k as real && totalSteps == Steps(p1, p2) as real
    requires t == (if totalSteps == 0.0 then 0.0 else currentStep / totalSteps)
    requires z == p1.z + t * (p2.z - p1.z)
    ensures ShadeChar(z, minZ, maxZ) == LineShade(p1, p2, k, minZ, maxZ)
  {
    CounterFraction(currentStep, totalSteps, k, Steps(p1, p2));
    assert z == Depth(p1.z, p2.z, Fraction(k, Steps(p1, p2)));
  }

  /** The loop keeps the step counter and the step total as doubles; their
      quotient, 0 for a one-cell line, is the fraction of the way along. */
  lemma CounterFraction(currentStep: real, totalSteps: real, k: nat, m: nat)
    requires k <= m && currentStep == k as real && totalSteps == m as real
    ensures (if totalSteps == 0.0 then 0.0 else currentStep / totalSteps) == Fraction(k, m)
  {
  }

  /** A full run whose on-grid cells carry their shades: every on-grid cell
      of the walk carries its shade. */
  lemma ShadedWalk(screen: array2<char>, p1: ProjectedPoint, p2: ProjectedPoint, trace: seq<Cursor>, minZ: real, maxZ: real)
    requires minZ != maxZ && IsRun(p1, p2, trace) && |trace| == Steps(p1, p2) + 1
    requires forall q :: 0 <= q < |trace| && InGrid(Pos(trace[q].x, trace[q].y), screen.Length0, screen.Length1) ==>
               screen[trace[q].y, trace[q].x] == LineShade(p1, p2, q, minZ, maxZ)
    ensures forall k :: 0 <= k <= Steps(p1, p2) && InGrid(WalkCell(p1, p2, k), screen.Length0, screen.Length1) ==>
              screen[WalkCell(p1, p2, k).y, WalkCell(p1, p2, k).x] == LineShade(p1, p2, k, minZ, maxZ)
  {
    RunIsWalk(p1, p2, trace);
  }

  /** The shade of the current cell, computed as the loop does from its
      floating step counter and step total. */
  method ShadeAt(p1: ProjectedPoint, p2: ProjectedPoint, currentStep: real, totalSteps: real,
                 minZ: real, maxZ: real, ghost k: nat) returns (c: char)
    requires k <= Steps(p1, p2) && minZ != maxZ
    requires currentStep == k as real && totalSteps == Steps(p1, p2) as real
    ensures c == LineShade(p1, p2, k, minZ, maxZ)
  {
    var t := if totalSteps == 0.0 then 0.0 else currentStep / totalSteps;
    var z := p1.z + t * (p2.z - p1.z);
    c := ShadeChar(z, minZ, maxZ);
    CounterShade(p1, p2, currentStep, totalSteps, t, z, k, minZ, maxZ);
  }

  /** The clipped write: `ch` goes to cell `pos` when it lies on the grid;
      no other cell changes. */
  method Plot(screen: array2<char>, pos: Pos, ch: char)
    modifies screen
    ensures InGrid(pos, screen.Length0, screen.Length1) ==> screen[pos.y, pos.x] == ch
    ensures forall r, c :: 0 <= r < screen.Length0 && 0 <= c < screen.Length1 && Pos(c, r) != pos ==>
              screen[r, c] == old(screen[r, c])
  {
    if pos.x >= 0 && pos.x < screen.Length1 && pos.y >= 0 && pos.y < screen.Length0 {
      screen[pos.y, pos.x] := ch;
    }
  }

  /** Draws the depth-shaded line from `p1` to `p2` into `screen` (rows by
      columns): every cell of the walk that lies on the grid receives its
      shade, every other cell is left as it was. The ghost `trace` records
      the loop's states, one per iteration. */
  method DrawLine(screen: array2<char>, p1: ProjectedPoint, p2: ProjectedPoint, minZ: real, maxZ: real)
    requires screen.Length0 >= 1
    requires minZ != maxZ
    modifies screen
    ensures forall k :: 0 <= k <= Steps(p1, p2) && InGrid(WalkCell(p1, p2, k), screen.Length0, screen.Length1) ==>
              screen[WalkCell(p1, p2, k).y, WalkCell(p1, p2, k).x] == LineShade(p1, p2, k, minZ, maxZ)
    ensures forall r, c :: 0 <= r < screen.Length0 && 0 <= c < screen.Length1 && !OnWalk(p1, p2, Pos(c, r)) ==>
              screen[r, c] == old(screen[r, c])
  {
    var width := screen.Length1;
    var height := screen.Length0;

    var dx: int := Abs(p2.x - p1.x);
    var dy: int := Abs(p2.y - p1.y);
    var sx := StepSign(p1.x, p2.x);
    var sy := StepSign(p1.y, p2.y);
    var err := dx - dy;

    var x := p1.x;
    var y := p1.y;

    var totalSteps := Max(dx, dy) as real;
    var currentStep := 0.0;

    ghost var m := Steps(p1, p2);
    ghost var k: nat := 0;
    ghost var trace := [Cursor(x, y, err)];
    ghost var visited: set<Pos> := {};

    while true
      invariant k <= m && |trace| == k + 1
      invariant IsRun(p1, p2, trace) && trace[k] == Cursor(x, y, err)
      invariant currentStep == k as real
      invariant forall q :: 0 <= q < k && InGrid(Pos(trace[q].x, trace[q].y), height, width) ==>
                  screen[trace[q].y, trace[q].x] == LineShade(p1, p2, q, minZ, maxZ)
      invariant forall pos :: pos in visited ==> OnWalk(p1, p2, pos)
      invariant forall r, c :: 0 <= r < height && 0 <= c < width && Pos(c, r) !in visited ==>
                  screen[r, c] == old(screen[r, c])
      decreases m - k
    {
      var c := ShadeAt(p1, p2, currentStep, totalSteps, minZ, maxZ, k);

      RunFacts(p1, p2, trace);
      Plot(screen, Pos(x, y), c);
      visited := visited + {Pos(x, y)};

      if x == p2.x && y == p2.y {
        ShadedWalk(screen, p1, p2, trace, minZ, maxZ);
        break;
      }

      var next := Advance(dx, dy, sx, sy, Cursor(x, y, err));
      RunExtend(p1, p2, trace, dx, dy, sx, sy);
      x, y, err := next.x, next.y, next.err;
      trace := trace + [next];
      currentStep := currentStep + 1.0;
      k := k + 1;
    }
  }
}
