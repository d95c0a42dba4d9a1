# cppcube renderer core in Dafny

cppcube draws a rotating wireframe cube as ASCII art. Each frame is built the same way:
- it allocates a space-filled 20 x 20 character buffer;
- it finds the depth range of the rotated vertices;
- it draws the cube's twelve edges with `drawLine`, an all-octant Bresenham rasterizer.

`drawLine` shades every cell it visits. It interpolates the depth linearly along the line and maps it onto the 12-character ramp `. , - ~ : ; = * ! # $ @`. It writes a cell only when that cell lies on the grid.

The project has four modules:

- `Geometry` (geometry.dfy): the point types and the fixed cube built by `createCube`.
- `Shading` (shading.dfy): the depth interpolation, the normalisation into the frame's depth range, and the clamped ramp index. The truncating `static_cast<int>` is modelled as truncation toward zero on every real (see "Left out" for values outside `int`).
- `Raster` (raster.dfy): `drawLine` as an imperative method over an `array2<char>`. It is proved against two descriptions of the line:
  - `CursorAt` is the loop's walk, one Bresenham step at a time.
  - `LineCell` is an independent closed form: after k of the m = max(dx, dy) steps, the walk stands on the grid point nearest the ideal line at parameter k/m, with ties toward the start.
  
  `WalkIsNearestLine` proves the two agree. The walk's properties follow from the closed form: its ends, its unit steps, its bounding box, and that no cell is visited twice.
- `Frame` (frame.dfy): one frame of `main`. This covers the min/max depth scan with its 1e-6 guard, the fresh buffer, and the edge loop. It ends with every cell either a space or a ramp character, namely the shade given by the last edge through that cell.

Doubles are Dafny `real`s, and `int`s are unbounded (see "Left out").

## Model

| member | source | states |
|---|---|---|
| Geometry.CreateCube | main.cpp:28-41 | 8 vertices and 12 edges; every vertex is a corner of [-1,1]^3; both indices of every edge lie in [0, 8) |
| Geometry.CubeVerticesDistinct | main.cpp:29-32 | the eight vertices are pairwise different corners |
| Geometry.CubeEdgesAreCubeEdges | main.cpp:34-38 | every edge joins two corners differing in exactly one coordinate |
| Geometry.CubeEdgesDistinct | main.cpp:34-38 | no two edges join the same pair of vertices |
| Shading.Trunc | main.cpp:91 | the cast truncates toward zero: within 1 of its argument, on the side of zero |
| Shading.Clamp | main.cpp:92 | the result lies in [lo, hi], equals n inside, lo below and hi above |
| Shading.ShadeIndex | main.cpp:90-92 | the ramp index is always in [0, 11], so indexing the 12-character ramp is in bounds |
| Shading.ShadeChar | main.cpp:82-93 | the drawn character is one of the ramp characters, the one at the shade index |
| Shading.Normalize | main.cpp:90 | definition: `(z - min_z) / (max_z - min_z)` |
| Shading.NormalizeScales | main.cpp:90 | the normalised depth times the range is the offset from min_z; it is 0 at min_z and 1 at max_z |
| Shading.Depth | main.cpp:87 | definition: `z1 + t * (z2 - z1)` |
| Shading.DepthAtEnds | main.cpp:87 | the interpolated depth is z1 at t = 0 and z2 at t = 1 |
| Shading.Fraction | main.cpp:79-86 | t lies in [0, 1]; it is 0 at the first step and for a one-cell line, and 1 at the last step |
| Shading.ClampedTruncIsClampedFloor | main.cpp:91-92 | after the clamp, truncation and floor give the same index, so the index is round-half-up of normalised depth times 11 |
| Shading.TruncMonotone | main.cpp:91 | the cast is monotone |
| Shading.ShadeIndexMonotone | main.cpp:90-92 | a greater depth never gets a lighter ramp index |
| Shading.ShadeAtMinIsLightest | main.cpp:82-93 | depth min_z is drawn as '.' |
| Shading.ShadeAtMaxIsDensest | main.cpp:82-93 | depth max_z is drawn as '@' |
| Shading.DepthBetweenEnds | main.cpp:87 | the interpolated depth lies between the endpoint depths |
| Shading.DepthMonotone | main.cpp:87 | on a receding line, depth grows with t |
| Shading.FractionMonotone | main.cpp:86 | t grows with the step counter |
| Raster.Steps | main.cpp:79 | definition: `max(dx, dy)`, the step total |
| Raster.StepSign | main.cpp:72-73 | definition: 1 toward a larger coordinate, otherwise -1 |
| Raster.Start | main.cpp:70-77 | definition: the state before the first iteration, at p1 with err = dx - dy |
| Raster.Advance | main.cpp:101-109 | definition: the e2 step of one iteration |
| Raster.AdvanceMoves | main.cpp:101-109 | x moves by sx exactly when e2 > -dy and y by sy exactly when e2 < dx; err loses dy per x move and gains dx per y move; on a line of more than one cell every iteration moves |
| Raster.CursorAt | main.cpp:84-112 | definition: the loop state (x, y, err) after k iterations |
| Raster.WalkCell | main.cpp:84-112 | definition: the cell (x, y) visited by iteration k |
| Raster.Near | main.cpp:101-109 | the closed-form offset after k of m steps is d*k/m rounded to nearest, ties toward the start |
| Raster.NearAtStart | main.cpp:76-77 | the closed form starts at offset 0 |
| Raster.NearAtEnd | main.cpp:99 | the closed form ends at offset d, the endpoint |
| Raster.NearMajor | main.cpp:101-109 | on the axis of the larger extent, the offset after k steps is k |
| Raster.NearStep | main.cpp:101-109 | consecutive closed-form offsets differ by 0 or 1 |
| Raster.NearBounded | main.cpp:101-109 | the closed-form offset never exceeds d |
| Raster.StepXMajor | main.cpp:101-109 | when dx >= dy, x advances every iteration, y advances exactly when the closed form does, and err stays dx - dy plus the scaled distance to the ideal line |
| Raster.StepYMajor | main.cpp:101-109 | when dx < dy, y advances every iteration, x advances exactly when the closed form does, and err is kept as above |
| Raster.StepNear | main.cpp:101-109 | the e2 tests advance each closed-form offset exactly when it grows, and the corrected err matches the new offsets |
| Raster.AdvanceOnLine | main.cpp:101-109 | one iteration maps a cursor on the k-th closed-form cell with the matching err to the (k+1)-th |
| Raster.WalkIsNearestLine | main.cpp:70-109 | after k iterations the loop stands on the k-th closed-form cell, with err = dx - dy + dx*j - dy*i |
| Raster.WalkEnds | main.cpp:76-99 | the first cell is p1, and the walk stands on p2 after exactly max(dx, dy) steps and no earlier, so the loop runs max(dx, dy) + 1 iterations |
| Raster.WalkStep | main.cpp:101-109 | each step moves x by 0 or sx and y by 0 or sy, never past the endpoint; the coordinate of the larger extent always moves |
| Raster.AxisStep | main.cpp:101-109 | per axis: the closed form stays or moves one cell toward the endpoint without passing it, and moves every step on the major axis |
| Raster.WalkInBox | main.cpp:70-109 | every visited cell lies in the box spanned by p1 and p2 |
| Raster.WalkInjective | main.cpp:84-112 | no cell is visited twice |
| Raster.DegenerateLine | main.cpp:79-99 | there are zero steps iff p1 and p2 share a cell; that one cell gets the shade of p1.z (t = 0) |
| Raster.LineShade | main.cpp:86-93 | the shade of the k-th cell is a ramp character |
| Raster.ShadeMonotoneAlongLine | main.cpp:86-93 | if p1.z <= p2.z and min_z < max_z, the ramp index never decreases along the walk |
| Raster.FlatLineAtMinIsLightest | main.cpp:86-93 | a line lying at depth min_z (with max_z > min_z) is drawn all in '.' |
| Raster.CounterShade | main.cpp:79-93 | the loop's double counter over the double total gives the fraction k/m, so the computed character is the k-th cell's shade |
| Raster.ShadeAt | main.cpp:86-93 | the character computed from current_step is the shade of the current cell |
| Raster.Plot | main.cpp:95-97 | the cell is written exactly when it is on the grid; no other cell changes |
| Raster.DrawLine | main.cpp:66-113 | terminates; every on-grid cell of the walk holds its shade; every cell off the walk is unchanged |
| Frame.SeqMin | main.cpp:138-143 | the running minimum is one of the depths and at most every depth |
| Frame.SeqMax | main.cpp:138-143 | the running maximum is one of the depths and at least every depth |
| Frame.Depths | main.cpp:138-143 | the depths read by the scan are the vertices' z, in order |
| Frame.DepthRange | main.cpp:138-146 | min_z is the minimum; max_z is the maximum, widened by 1e-6 when equal to the minimum; min_z < max_z and every depth lies in [min_z, max_z] |
| Frame.NewScreen | main.cpp:129 | a fresh buffer of height rows of width spaces |
| Frame.CoverStep | main.cpp:149-153 | drawing edge i adds its walk to the covered cells and makes edge i the last cover of every cell on its walk |
| Frame.DrawEdges | main.cpp:149-153 | uncovered cells are unchanged; covered cells hold a ramp character, the shade given by the last edge covering them |
| Frame.ComposeFrame | main.cpp:129-153 | the depth range is the scan's minimum and its maximum, widened by 1e-6 when equal, and holds every vertex depth; in the 20 x 20 frame a cell is ' ' iff no cube edge covers it, and otherwise holds the shade, for that range, of the last edge covering it |

## Left out

- `rotatePoint` (main.cpp:43-55) is not modelled: it is double-precision trigonometry.
- `projectPoint` (main.cpp:57-64) is not modelled: it converts a floating product to int.
  - `Frame.ComposeFrame` therefore takes the eight projected vertices as input.
  - It takes the depth range from their `z`, which `projectPoint` copies unchanged from the rotated vertex.
- `clearScreen`, argument parsing with `std::stod`, printing the frame, angle updates, `sleep_for` pacing and the endless render loop are not modelled. They are process I/O and timing.
- Floating point: doubles are exact reals, so rounding in `t`, `z` and the normalised depth is not modelled.
  - With doubles, `max_z += 1e-6` could be absorbed when `|max_z|` is very large.
  - This cannot happen for cube depths, which lie in [-2, 2].
- Raster.DrawLine: does not model 32-bit `int` overflow of `dx`, `dy` or `2 * err`. That overflow needs coordinates near 2^30, far outside a 20 x 20 grid.
- Raster.DrawLine: requires `min_z != max_z`. The source does not check this itself. With equal values, the division gives NaN when `z == min_z` and an infinity otherwise, and the cast of either is undefined; `main`'s epsilon guard is what rules this out.
- Shading.Trunc: gives an index for every real, while the cast at main.cpp:91 is undefined when the truncated value does not fit in `int` (for example a depth far outside a tiny range, `max_z - min_z = 1e-9`). `Shading.ShadeIndex` and `Raster.DrawLine` then return a clamped ramp character where the source has undefined behaviour. `main` never reaches this, since every depth it draws lies in `[min_z, max_z]`.
- The frame buffer is an `array2<char>`, so rows all have the same width. The source takes the width from row 0 of a `vector<vector<char>>`, whose rows `main` always allocates equal.
- `Raster.Plot` and `Raster.ShadeAt` are separate methods for lines that `drawLine` has inline.
- The shading index: the code adds 0.5 and truncates, where a plain description would say rounding. The model follows the code; `Shading.ClampedTruncIsClampedFloor` shows the two agree once the index is clamped.
