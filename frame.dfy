/** One frame of the renderer: the depth range of the frame's vertices, the
    space-filled frame buffer, and the loop that draws every edge of the cube
    into it. The vertices arrive already rotated and projected. */
module Frame {
  import opened Geometry
  import opened Shading
  import opened Raster

  /** The frame buffer's fixed size. */
  const Width: int := 20
  const Height: int := 20

  /** The widening applied to a degenerate depth range, 1e-6. */
  const Epsilon: real := 0.000001

  // ---------------------------------------------------------------------------
  // The depth range

  /** The smallest depth, as a left-to-right scan keeps it. */
  function SeqMin(zs: seq<real>): (r: real)
    requires |zs| > 0
    ensures r in zs
    ensures forall i :: 0 <= i < |zs| ==> r <= zs[i]
  {
    if |zs| == 1 then zs[0]
    else
      var m := SeqMin(zs[..|zs| - 1]);
      assert forall i :: 0 <= i < |zs| - 1 ==> zs[..|zs| - 1][i] == zs[i];
      if zs[|zs| - 1] < m then zs[|zs| - 1] else m
  }

  /** The largest depth, as a left-to-right scan keeps it. */
  function SeqMax(zs: seq<real>): (r: real)
    requires |zs| > 0
    ensures r in zs
    ensures forall i :: 0 <= i < |zs| ==> zs[i] <= r
  {
    if |zs| == 1 then zs[0]
    else
      var m := SeqMax(zs[..|zs| - 1]);
      assert forall i :: 0 <= i < |zs| - 1 ==> zs[..|zs| - 1][i] == zs[i];
      if zs[|zs| - 1] > m then zs[|zs| - 1] else m
  }

  /** The frame's depth range: the running minimum and maximum of the
      depths, with the maximum widened by `Epsilon` when all depths are
      equal, so that the range is never empty and holds every depth. */
  method DepthRange(zs: seq<real>) returns (minZ: real, maxZ: real)
    requires |zs| > 0
    ensures minZ == SeqMin(zs)
    ensures maxZ == if SeqMax(zs) == SeqMin(zs) then SeqMax(zs) + Epsilon else SeqMax(zs)
    ensures minZ < maxZ
    ensures forall i :: 0 <= i < |zs| ==> minZ <= zs[i] <= maxZ
  {
    minZ := zs[0];
    maxZ := zs[0];
    for i := 0 to |zs|
      invariant i == 0 ==> minZ == zs[0] && maxZ == zs[0]
      invariant 0 < i ==> minZ == SeqMin(zs[..i]) && maxZ == SeqMax(zs[..i])
    {
      if zs[i] < minZ {
        minZ := zs[i];
      }
      if zs[i] > maxZ {
        maxZ := zs[i];
      }
      assert zs[..i + 1][..i] == zs[..i];
    }
    assert zs[..|zs|] == zs;
    if maxZ == minZ {
      maxZ := maxZ + Epsilon;
    }
  }

  /** The depths of the projected vertices, in order. */
  function Depths(points: seq<ProjectedPoint>): (zs: seq<real>)
    ensures |zs| == |points|
    ensures forall i :: 0 <= i < |points| ==> zs[i] == points[i].z
  {
    if |points| == 0 then [] else Depths(points[..|points| - 1]) + [points[|points| - 1].z]
  }

  // ---------------------------------------------------------------------------
  // The frame buffer and the edge loop

  /** A fresh frame buffer of `height` rows of `width` spaces. */
  method NewScreen(height: nat, width: nat) returns (screen: array2<char>)
    ensures fresh(screen)
    ensures screen.Length0 == height && screen.Length1 == width
    ensures forall r, c :: 0 <= r < height && 0 <= c < width ==> screen[r, c] == ' '
  {
    screen := new char[height, width]((r, c) => ' ');
  }

  /** The cell `pos` lies on the walk of edge `n`. */
  ghost predicate EdgeCovers(points: seq<ProjectedPoint>, edges: seq<Edge>, n: int, pos: Pos)
    requires EdgesIndexVertices(edges, |points|)
  {
    0 <= n < |edges| && OnWalk(points[edges[n].first], points[edges[n].second], pos)
  }

  /** The cell `pos` lies on the walk of one of the first `count` edges. */
  ghost predicate Covered(points: seq<ProjectedPoint>, edges: seq<Edge>, count: int, pos: Pos)
    requires EdgesIndexVertices(edges, |points|)
  {
    exists n :: 0 <= n < count && EdgeCovers(points, edges, n, pos)
  }

  /** Edge `n` is the last of the first `count` edges whose walk covers
      `pos`. */
  ghost predicate LastCover(points: seq<ProjectedPoint>, edges: seq<Edge>, count: int, n: int, pos: Pos)
    requires EdgesIndexVertices(edges, |points|)
  {
    0 <= n < count && EdgeCovers(points, edges, n, pos) &&
    forall n' :: n < n' < count ==> !EdgeCovers(points, edges, n', pos)
  }

  /** `ch` is the shade the line from `a` to `b` gives the cell `pos`. */
  ghost predicate ShadedBy(ch: char, a: ProjectedPoint, b: ProjectedPoint, pos: Pos, minZ: real, maxZ: real)
    requires minZ != maxZ
  {
    forall k :: 0 <= k <= Steps(a, b) && WalkCell(a, b, k) == pos ==> ch == LineShade(a, b, k, minZ, maxZ)
  }

  /** Draws every edge, in order, between the projected vertices it joins.
      A cell no edge covers keeps its character; a covered cell holds a
      ramp character, the shade given it by the last edge that covers it. */
  method DrawEdges(screen: array2<char>, points: seq<ProjectedPoint>, edges: seq<Edge>, minZ: real, maxZ: real)
    requires screen.Length0 >= 1 && minZ != maxZ
    requires EdgesIndexVertices(edges, |points|)
    modifies screen
    ensures forall r, c :: 0 <= r < screen.Length0 && 0 <= c < screen.Length1 && !Covered(points, edges, |edges|, Pos(c, r)) ==>
              screen[r, c] == old(screen[r, c])
    ensures forall r, c :: 0 <= r < screen.Length0 && 0 <= c < screen.Length1 && Covered(points, edges, |edges|, Pos(c, r)) ==>
              screen[r, c] in Ramp
    ensures forall r, c, n :: 0 <= r < screen.Length0 && 0 <= c < screen.Length1 && LastCover(points, edges, |edges|, n, Pos(c, r)) ==>
              ShadedBy(screen[r, c], points[edges[n].first], points[edges[n].second], Pos(c, r), minZ, maxZ)
  {
    for i := 0 to |edges|
      invariant forall r, c :: 0 <= r < screen.Length0 && 0 <= c < screen.Length1 && !Covered(points, edges, i, Pos(c, r)) ==>
                  screen[r, c] == old(screen[r, c])
      invariant forall r, c :: 0 <= r < screen.Length0 && 0 <= c < screen.Length1 && Covered(points, edges, i, Pos(c, r)) ==>
                  screen[r, c] in Ramp
      invariant forall r, c, n :: 0 <= r < screen.Length0 && 0 <= c < screen.Length1 && LastCover(points, edges, i, n, Pos(c, r)) ==>
                  ShadedBy(screen[r, c], points[edges[n].first], points[edges[n].second], Pos(c, r), minZ, maxZ)
    {
      var p1 := points[edges[i].first];
      var p2 := points[edges[i].second];
      label Before:
      DrawLine(screen, p1, p2, minZ, maxZ);
      forall r, c | 0 <= r < screen.Length0 && 0 <= c < screen.Length1
        ensures !Covered(points, edges, i + 1, Pos(c, r)) ==> screen[r, c] == old(screen[r, c])
        ensures Covered(points, edges, i + 1, Pos(c, r)) ==> screen[r, c] in Ramp
        ensures forall n :: LastCover(points, edges, i + 1, n, Pos(c, r)) ==>
                  ShadedBy(screen[r, c], points[edges[n].first], points[edges[n].second], Pos(c, r), minZ, maxZ)
      {
        var pos := Pos(c, r);
        CoverStep(points, edges, i, pos);
        if EdgeCovers(points, edges, i, pos) {
          var k :| 0 <= k <= Steps(p1, p2) && WalkCell(p1, p2, k) == pos;
          assert screen[r, c] == LineShade(p1, p2, k, minZ, maxZ);
        } else {
          assert screen[r, c] == old@Before(screen[r, c]);
        }
      }
    }
  }

  /** Drawing edge `i` adds its walk to the covered cells and makes it the
      last cover of every cell on its walk. */
  lemma CoverStep(points: seq<ProjectedPoint>, edges: seq<Edge>, i: int, pos: Pos)
    requires EdgesIndexVertices(edges, |points|) && 0 <= i < |edges|
    ensures Covered(points, edges, i + 1, pos) <==> Covered(points, edges, i, pos) || EdgeCovers(points, edges, i, pos)
    ensures forall n :: LastCover(points, edges, i + 1, n, pos) <==>
      (n == i && EdgeCovers(points, edges, i, pos)) || (LastCover(points, edges, i, n, pos) && !EdgeCovers(points, edges, i, pos))
  {
    forall n
      ensures LastCover(points, edges, i + 1, n, pos) <==>
        (n == i && EdgeCovers(points, edges, i, pos)) || (LastCover(points, edges, i, n, pos) && !EdgeCovers(points, edges, i, pos))
    {
      if LastCover(points, edges, i + 1, n, pos) && n != i {
        assert !EdgeCovers(points, edges, i, pos);
      }
    }
  }

  /** One frame: the depth range of the projected cube vertices, a fresh
      buffer of spaces, and every cube edge drawn into it. Every cell ends
      up a space, where no edge passes, or a ramp character, the shade of
      the last edge through it. */
  method ComposeFrame(points: seq<ProjectedPoint>) returns (screen: array2<char>, minZ: real, maxZ: real)
    requires |points| == 8
    ensures fresh(screen) && screen.Length0 == Height && screen.Length1 == Width
    ensures minZ == SeqMin(Depths(points))
    ensures maxZ == if SeqMax(Depths(points)) == SeqMin(Depths(points)) then SeqMax(Depths(points)) + Epsilon
                    else SeqMax(Depths(points))
    ensures minZ < maxZ && forall i :: 0 <= i < |points| ==> minZ <= points[i].z <= maxZ
    ensures forall r, c :: 0 <= r < Height && 0 <= c < Width ==>
              (screen[r, c] == ' ' <==> !Covered(points, CreateCube().edges, 12, Pos(c, r))) &&
              (screen[r, c] == ' ' || screen[r, c] in Ramp)
    ensures forall r, c, n :: 0 <= r < Height && 0 <= c < Width && LastCover(points, CreateCube().edges, 12, n, Pos(c, r)) ==>
              ShadedBy(screen[r, c], points[CreateCube().edges[n].first], points[CreateCube().edges[n].second], Pos(c, r), minZ, maxZ)
  {
    var cube := CreateCube();
    var zs := Depths(points);
    minZ, maxZ := DepthRange(zs);
    screen := NewScreen(Height, Width);
    DrawEdges(screen, points, cube.edges, minZ, maxZ);
  }
}
