/** The renderer's point types and the fixed cube geometry. */
module Geometry {

  /** A point in model space. */
  datatype Point3D = Point3D(x: real, y: real, z: real)

  /** A point on the screen grid; its depth `z` is carried through
      unprojected and used only for shading. */
  datatype ProjectedPoint = ProjectedPoint(x: int, y: int, z: real)

  /** An edge joins the vertices at two indices of the vertex list. */
  datatype Edge = Edge(first: int, second: int)

  /** The cube: its vertex list and its edge list. */
  datatype Cube = Cube(vertices: seq<Point3D>, edges: seq<Edge>)

  predicate IsUnit(v: real) { v == 1.0 || v == -1.0 }

  /** A corner of the cube [-1, 1]^3. */
  predicate IsCorner(p: Point3D) { IsUnit(p.x) && IsUnit(p.y) && IsUnit(p.z) }

  /** Every index of every edge names a vertex of a list of `count` vertices. */
  predicate EdgesIndexVertices(edges: seq<Edge>, count: int)
  {
    forall n :: 0 <= n < |edges| ==> 0 <= edges[n].first < count && 0 <= edges[n].second < count
  }

  /** Two corners joined by a cube edge differ in exactly one coordinate. */
  predicate Adjacent(a: Point3D, b: Point3D)
  {
    (if a.x != b.x then 1 else 0) + (if a.y != b.y then 1 else 0) + (if a.z != b.z then 1 else 0) == 1
  }

  /** The unit cube: the bottom face (z = -1) and the top face (z = 1) as
      4-cycles, and the four vertical edges between them. */
  function CreateCube(): (c: Cube)
    ensures |c.vertices| == 8 && |c.edges| == 12
    ensures forall v :: v in c.vertices ==> IsCorner(v)
    ensures EdgesIndexVertices(c.edges, |c.vertices|)
  {
    Cube(
      [Point3D(-1.0, -1.0, -1.0), Point3D(1.0, -1.0, -1.0), Point3D(1.0, 1.0, -1.0), Point3D(-1.0, 1.0, -1.0),
       Point3D(-1.0, -1.0, 1.0), Point3D(1.0, -1.0, 1.0), Point3D(1.0, 1.0, 1.0), Point3D(-1.0, 1.0, 1.0)],
      [Edge(0, 1), Edge(1, 2), Edge(2, 3), Edge(3, 0),
       Edge(4, 5), Edge(5, 6), Edge(6, 7), Edge(7, 4),
       Edge(0, 4), Edge(1, 5), Edge(2, 6), Edge(3, 7)])
  }

  /** The eight vertices are eight different corners, so every corner of the
      cube occurs once. */
  lemma CubeVerticesDistinct()
    ensures forall a, b :: 0 <= a < b < |CreateCube().vertices| ==> CreateCube().vertices[a] != CreateCube().vertices[b]
  {
  }

  /** Every edge joins two corners that differ in exactly one coordinate. */
  lemma CubeEdgesAreCubeEdges()
    ensures forall n :: 0 <= n < |CreateCube().edges| ==>
      Adjacent(CreateCube().vertices[CreateCube().edges[n].first], CreateCube().vertices[CreateCube().edges[n].second])
  {
  }

  /** No two edges join the same pair of vertices. */
  lemma CubeEdgesDistinct()
    ensures forall a, b :: 0 <= a < b < |CreateCube().edges| ==>
      {CreateCube().edges[a].first, CreateCube().edges[a].second} != {CreateCube().edges[b].first, CreateCube().edges[b].second}
  {
  }
}
