# MeshBuilder: a verified model of ProcGenEx's mesh-buffer engine

`MeshBuilder` (`Assets/Plugins/ProcGenEx/MeshBuilder.cs`) builds an indexed triangle
mesh incrementally. It keeps four growable lists: positions (`vertices`),
`normals`, texture coordinates (`uvs`) and a flat list of triangle corner ids
(`triangles`, stride 3). Its operations do three things:

- append vertices;
- wire triangles, quads and fans over existing vertex ids;
- build whole figures: flat triangles and quads, a rectangular grid ("plane"),
  an extrusion of a ring of vertices, and a slice of the whole mesh by a
  half-space.

The model is a Dafny class `Builder.MeshBuilder` with the same four lists as `seq`
fields. The lists' capacities are two more fields, one for the three parallel
vertex lists and one for the index list. Every modelled method of the builder
becomes a `method` that updates these fields. Loops keep their shape and carry invariants.
Each operation is proved against a specification function on the mesh value
`Meshes.Mesh`:

- `Meshes.AddFace` for the flat figures;
- `Grids.GridPoints` and `Grids.GridQuads` for the plane;
- `Extrusion.ExtrudedMesh` for extrusions;
- `Slicing.Sliced` for slicing.

Lemmas about those functions state what the program promises. Lists stay
parallel, every stored index names an existing vertex, and straddling triangles
become fans. Ids come out in creation order, and selection returns exactly the
kept vertices, in ascending order.

Modules:

- `Geometry` (geometry.dfy): vectors over the reals, planes, the flat face normal
  and the half-space test.
- `Meshes` (meshes.dfy): the mesh value, index patterns (triangle, quad, fan),
  flat faces, and how a list's capacity moves under `List.Add`.
- `Grids` (grids.dfy): where the plane builder puts its vertices and which quads
  join them.
- `Extrusion` (extrusion.dfy): the mesh after `k` extrusion steps, and the ring
  left behind.
- `Slicing` (slicing.dfy): the kept-vertex mask, the id renumbering, the slicing
  case of a triangle, the cut ring, and the sliced mesh; selection.
- `Builder` (builder.dfy): the class.

Calls into engine code that is not part of this model become function
parameters of the operations that use them:

- `Vector3.normalized` is `normalize`.
- `Vector3.Slerp` is `slerp`.
- `Plane.Intersect` is `intersect`, returning a `Hit`.
- `Plane.GetDistanceToPoint` is `distance`.
- `Vector2.Div(vec2i)` is `divide`.

`VectorEx.empty2`, the uv a vertex gets when none is given, is not part of this
model either. It is the constant `Geometry.EmptyUV`, whose value is left open.

Three behaviours of the code that shape the model:

- A vertex created at a slicing cut gets the interpolated normal and the default
  uv: the code calls the two-argument `CreateVertex` there (`MeshBuilder.cs:294`,
  `:301`, `:308`).
- `Slice` replaces the lists with new ones whose capacities are the old counts
  (`MeshBuilder.cs:258-261`), so capacities can shrink there.
- The code never checks the ids passed to `MakeTriangle`, `MakeQuad` or `MakeFan`
  (`MeshBuilder.cs:208-228`). The model states index validity as "kept when it
  held before" on the figure builders, `Extrude`, `AddPlane` and `Slice`.

## Model

| member | source | states |
|---|---|---|
| Builder.MeshBuilder.Model | Assets/Plugins/ProcGenEx/MeshBuilder.cs:12-15 | the builder's four lists as a mesh value; while the builder is well-formed the attribute lists run parallel and the index list holds whole triangles |
| Builder.MeshBuilder.constructor | Assets/Plugins/ProcGenEx/MeshBuilder.cs:17-23 | a new builder is empty, with vertex capacity `VertexCount` and index capacity `3 * TriangleCount` |
| Builder.MeshBuilder.Grow | Assets/Plugins/ProcGenEx/MeshBuilder.cs:39-47 | the mesh is unchanged; each capacity becomes the larger of itself and the count plus the requested room (`3 *` the triangle count for indices), so room is reserved and capacity never shrinks |
| Builder.MeshBuilder.CreateVertexWithoutUV | Assets/Plugins/ProcGenEx/MeshBuilder.cs:187-190 | appends the position, the normal and the default uv; returns the old vertex count as the new id; the index list is unchanged |
| Builder.MeshBuilder.CreateVertex | Assets/Plugins/ProcGenEx/MeshBuilder.cs:192-201 | appends the position, normal and uv to the three lists together and returns the new id, which is the old vertex count; the vertex capacity follows the `List.Add` growth rule |
| Builder.MeshBuilder.CopyVertex | Assets/Plugins/ProcGenEx/MeshBuilder.cs:203-206 | appends a copy of vertex `vi` moved by `dv`, with `vi`'s normal and uv, and returns its id |
| Builder.MeshBuilder.AppendIndex | Assets/Plugins/ProcGenEx/MeshBuilder.cs:212-214 | appends one id to the index list; the index capacity follows the `List.Add` growth rule |
| Builder.MeshBuilder.MakeTriangle | Assets/Plugins/ProcGenEx/MeshBuilder.cs:208-215 | appends exactly `a, b, c` to the index list and nothing else; the vertex lists are unchanged |
| Builder.MeshBuilder.MakeQuad | Assets/Plugins/ProcGenEx/MeshBuilder.cs:217-221 | appends the triangles `(a, b, c)` and `(a, c, d)` |
| Builder.MeshBuilder.MakeFan | Assets/Plugins/ProcGenEx/MeshBuilder.cs:223-228 | appends the fan `(ps[0], ps[i], ps[i + 1])` for every `i` from 1 to `|ps| - 2`, and nothing for fewer than three ids |
| Builder.MeshBuilder.AddFlatTriangle | Assets/Plugins/ProcGenEx/MeshBuilder.cs:64-69 | after room for 3 vertices and 1 triangle is reserved, the mesh is the flat face over the three corners, and their ids are consecutive from the old vertex count |
| Builder.MeshBuilder.AddFlatQuad | Assets/Plugins/ProcGenEx/MeshBuilder.cs:110-116 | after room for 4 vertices and 2 triangles is reserved, the mesh is the flat face over the four corners as two triangles, and their ids are consecutive |
| Builder.MeshBuilder.AddTriangleInto | Assets/Plugins/ProcGenEx/MeshBuilder.cs:57-72 | adds three vertices that share the normal `normalize(cross(c - a, a - b))` and the triangle over them; the ids go into `result` (a new array of 3 when it is null), and other entries of `result` keep their values |
| Builder.MeshBuilder.AddTriangle | Assets/Plugins/ProcGenEx/MeshBuilder.cs:51-55 | the same with a new array of the three ids |
| Builder.MeshBuilder.AddTriangleWithUVInto | Assets/Plugins/ProcGenEx/MeshBuilder.cs:80-95 | the same for `v[0..2]` with the uvs `uv[0..2]` |
| Builder.MeshBuilder.AddTriangleWithUV | Assets/Plugins/ProcGenEx/MeshBuilder.cs:74-78 | the same with a new array |
| Builder.MeshBuilder.AddQuadInto | Assets/Plugins/ProcGenEx/MeshBuilder.cs:103-119 | adds four vertices sharing the flat normal of `a, b, c`, and the quad over them; the ids go into `result` (a new array of 4 when it is null) |
| Builder.MeshBuilder.AddQuad | Assets/Plugins/ProcGenEx/MeshBuilder.cs:97-101 | the same with a new array |
| Builder.MeshBuilder.AddQuadWithUVInto | Assets/Plugins/ProcGenEx/MeshBuilder.cs:127-143 | the same for `v[0..3]` with the uvs `uv[0..3]` |
| Builder.MeshBuilder.AddQuadWithUV | Assets/Plugins/ProcGenEx/MeshBuilder.cs:121-125 | the same with a new array |
| Builder.MeshBuilder.PlaceColumn | Assets/Plugins/ProcGenEx/MeshBuilder.cs:166-171 | the inner vertex loop: appends column `i`'s `rn` grid points with normal `n`; stores their ids at `r[ri0 ..]` and leaves `r`'s earlier entries alone |
| Builder.MeshBuilder.PlaceNextColumn | Assets/Plugins/ProcGenEx/MeshBuilder.cs:165-172 | one pass of the outer vertex loop: the grid's first `i + 1` columns are in place, and `r` holds their ids in order |
| Builder.MeshBuilder.PlaceGrid | Assets/Plugins/ProcGenEx/MeshBuilder.cs:165-172 | the vertex loops: appends the grid points column after column; `r[k]` is the id of grid vertex `k` |
| Builder.MeshBuilder.StitchCell | Assets/Plugins/ProcGenEx/MeshBuilder.cs:175-179 | one quad of the quad loop: after skipping a column's last vertex, the running id `vi` is the first corner of cell `(ci, cj)`, and that cell's quad is appended |
| Builder.MeshBuilder.StitchStep | Assets/Plugins/ProcGenEx/MeshBuilder.cs:174-180 | one pass of the quad loop: the cells are covered column by column, and the cursor moves down the column or to the top of the next one |
| Builder.MeshBuilder.StitchGrid | Assets/Plugins/ProcGenEx/MeshBuilder.cs:174-180 | the quad loop's `x * y` passes append exactly the quads of every cell, column after column |
| Builder.MeshBuilder.StitchPlane | Assets/Plugins/ProcGenEx/MeshBuilder.cs:174-180 | the same for every step count the program completes with; with a count of -1 nothing is appended. Every index names a vertex afterwards when that held before |
| Builder.MeshBuilder.AddPlaneWithForward | Assets/Plugins/ProcGenEx/MeshBuilder.cs:150-183 | adds `(x + 1) * (y + 1)` grid vertices (normal: the plane's; uv: the default) and one quad per cell; returns their ids in order. Room is reserved first; a count of -1 gives an empty grid; index validity is kept |
| Builder.MeshBuilder.AddPlane | Assets/Plugins/ProcGenEx/MeshBuilder.cs:145-148 | the same along the world's forward axis |
| Builder.MeshBuilder.ExtrudeEdge | Assets/Plugins/ProcGenEx/MeshBuilder.cs:239-241 | copies ring vertex `i` moved by `dv` and appends the quad joining ring edge `i - 1, i` to its copy |
| Builder.MeshBuilder.ExtrudeAt | Assets/Plugins/ProcGenEx/MeshBuilder.cs:238-245 | one pass of the inner loop: the copy is made; the ring's first `i` entries are now the copies' ids, and the rest still hold the old ring |
| Builder.MeshBuilder.ExtrudeStep | Assets/Plugins/ProcGenEx/MeshBuilder.cs:237-246 | one extrusion step: copies every ring vertex in order and appends the stitching quads; the ring array now holds the copies' ids |
| Builder.MeshBuilder.ExtrudeLayer | Assets/Plugins/ProcGenEx/MeshBuilder.cs:236-247 | one pass of the step loop: after step `si` the mesh and ring are those of `si + 1` steps, and capacity does not move |
| Builder.MeshBuilder.ExtrudeLayers | Assets/Plugins/ProcGenEx/MeshBuilder.cs:236-247 | the step loop: for `steps > 0` the mesh is the extrusion by `steps` steps and the ring array holds the last ring; for `steps <= 0` neither the mesh nor the ring changes, whatever ids the ring holds |
| Builder.MeshBuilder.Extrude | Assets/Plugins/ProcGenEx/MeshBuilder.cs:230-248 | reserves room, then extrudes the ring `steps` times by `direction / steps`: mesh, last ring and capacities are given exactly, and index validity is kept; for `steps <= 0` the contour is never read and only the capacities can move |
| Builder.MeshBuilder.Slice | Assets/Plugins/ProcGenEx/MeshBuilder.cs:250-313 | the mesh becomes the slice of the old mesh by the half-space; the lists restart from capacities equal to the old counts |
| Builder.MeshBuilder.KeepVertices | Assets/Plugins/ProcGenEx/MeshBuilder.cs:264-268 | the vertex loop: the kept vertices are re-created in their old order, and `v2v` becomes the renumbering (the new id, or -1 when cut away) |
| Builder.MeshBuilder.KeepVertexAt | Assets/Plugins/ProcGenEx/MeshBuilder.cs:265-267 | one pass of the vertex loop: vertex `i` is re-created exactly when it is kept, and `v2v[i]` gets its new id |
| Builder.MeshBuilder.SliceAllTriangles | Assets/Plugins/ProcGenEx/MeshBuilder.cs:271-312 | the triangle loop: every source triangle is sliced in turn into the mesh |
| Builder.MeshBuilder.SliceTriangleStep | Assets/Plugins/ProcGenEx/MeshBuilder.cs:271-312 | one pass of the triangle loop: one more source triangle is sliced |
| Builder.MeshBuilder.SliceTriangleAt | Assets/Plugins/ProcGenEx/MeshBuilder.cs:272-311 | one source triangle: dropped when no corner survives, kept with renumbered ids when all do, else cut into a fan |
| Builder.MeshBuilder.CutAt | Assets/Plugins/ProcGenEx/MeshBuilder.cs:290-295 | one corner and its following edge: the corner's new id joins the ring when it survived; a vertex at a crossing strictly inside the edge is created (slerped normal) and joins the ring |
| Builder.MeshBuilder.Select | Assets/Plugins/ProcGenEx/MeshBuilder.cs:315-326 | returns the ids `i` with `distance(plane, vertices[i]) >= 0`, exactly those, strictly ascending |
| Meshes.AppendVertex | Assets/Plugins/ProcGenEx/MeshBuilder.cs:196-198 | appending one vertex to all three lists adds one to the vertex count, keeps them parallel, and keeps every index valid |
| Meshes.AppendIndices | Assets/Plugins/ProcGenEx/MeshBuilder.cs:212-214 | appending whole triangles keeps the list whole; appending ids of existing vertices keeps every index valid |
| Meshes.FanShape | Assets/Plugins/ProcGenEx/MeshBuilder.cs:223-228 | a fan over `n` ids has `max(0, n - 2)` triangles; triangle `i` is `(ps[0], ps[i + 1], ps[i + 2])` |
| Meshes.FanWhole | Assets/Plugins/ProcGenEx/MeshBuilder.cs:223-228 | a fan appends whole triangles |
| Meshes.FanIds | Assets/Plugins/ProcGenEx/MeshBuilder.cs:223-228 | every id of a fan is one of the ids it was given |
| Meshes.FanIndicesBelow | Assets/Plugins/ProcGenEx/MeshBuilder.cs:223-228 | when every given id is below a bound, so is every id of their fan |
| Meshes.QuadIsFan | Assets/Plugins/ProcGenEx/MeshBuilder.cs:217-221 | the quad `a, b, c, d` is the same as the fan over its four corners |
| Meshes.AddFaceShape | Assets/Plugins/ProcGenEx/MeshBuilder.cs:57-72 | a flat face of `n` corners adds `n` vertices and `max(0, n - 2)` triangles after the old ones, and every new index is one of the `n` fresh vertex ids; parallel lists and index validity are kept |
| Meshes.AddTriangleFace | Assets/Plugins/ProcGenEx/MeshBuilder.cs:65-69 | the flat triangle face equals three vertex appends followed by one triangle over them |
| Meshes.AddQuadFace | Assets/Plugins/ProcGenEx/MeshBuilder.cs:111-116 | the flat quad face equals four vertex appends followed by one quad over them |
| Meshes.CapacityAfterAdd | Assets/Plugins/ProcGenEx/MeshBuilder.cs:196 | one `List.Add` leaves room for the new element: capacity never shrinks, and does not move while there was room |
| Meshes.CapacityFollowsTrans | Assets/Plugins/ProcGenEx/MeshBuilder.cs:219-220 | two runs of `Add`s in a row obey the same capacity law as one run |
| Grids.GridPointsLength | Assets/Plugins/ProcGenEx/MeshBuilder.cs:165-172 | the vertex loops create `cn * rn` vertices |
| Grids.GridPointAt | Assets/Plugins/ProcGenEx/MeshBuilder.cs:165-172 | the points are laid out column after column: the vertex the loops create as number `ci * rn + j` is grid point `(ci, j)`, i.e. column start `origin + ci * right * dv.x` advanced `j` times by `forward * dv.y` |
| Grids.ColumnPointsAt | Assets/Plugins/ProcGenEx/MeshBuilder.cs:166-171 | column `i` has `rn` points, and point `j` is the column start advanced `j` times |
| Grids.GridQuadsLength | Assets/Plugins/ProcGenEx/MeshBuilder.cs:174-180 | the quad loop appends `6 * x * y` indices |
| Grids.GridQuadAt | Assets/Plugins/ProcGenEx/MeshBuilder.cs:174-180 | quad `ci * cells + j` is the quad of cell `(ci, j)`, with corners `vi, vi + 1, vi + 1 + rn, vi + rn` for `vi = ci * rn + j` |
| Grids.GridQuadsWithin | Assets/Plugins/ProcGenEx/MeshBuilder.cs:177-179 | every corner of every grid quad is a grid vertex |
| Grids.GridQuadsIndexed | Assets/Plugins/ProcGenEx/MeshBuilder.cs:174-180 | appending a grid's quads to valid indices keeps every index valid |
| Grids.PlaneIndexed | Assets/Plugins/ProcGenEx/MeshBuilder.cs:150-183 | a plane added to a mesh with valid indices leaves every index valid, for every step count the program completes with |
| Grids.CellCursor | Assets/Plugins/ProcGenEx/MeshBuilder.cs:175-178 | the skip `vi++` on `(vi + 1) % rn == 0` takes the running id to the first corner `ci * rn + cj` of the current cell, and all four corners of that cell are grid vertices |
| Grids.QuadsBeforeNext | Assets/Plugins/ProcGenEx/MeshBuilder.cs:174-180 | the quads appended so far grow by exactly the current cell's quad when the cursor moves on |
| Grids.QuadsBeforeEnd | Assets/Plugins/ProcGenEx/MeshBuilder.cs:174 | when the loop counter reaches `x * y`, the quads appended are those of the whole grid |
| Extrusion.ExtrudedCounts | Assets/Plugins/ProcGenEx/MeshBuilder.cs:233-247 | `k` steps add `n * k` vertices and `6 * (n - 1) * k` indices for a ring of `n`; lists stay parallel; after a step, the ring is the last `n` vertices |
| Extrusion.ExtrudedIndexed | Assets/Plugins/ProcGenEx/MeshBuilder.cs:236-247 | extruding a ring of existing vertices keeps every index valid |
| Extrusion.ExtrudedLastRing | Assets/Plugins/ProcGenEx/MeshBuilder.cs:236-247 | after `k` steps, the ring is the original ring's positions moved `k` times by `dv`, with the original normals and uvs |
| Extrusion.ExtrudedByRingStep | Assets/Plugins/ProcGenEx/MeshBuilder.cs:236-247 | `k + 1` steps are `k` steps followed by one pass of the inner loop over the current ring, and the next ring is the fresh copies |
| Extrusion.RingStepWhole | Assets/Plugins/ProcGenEx/MeshBuilder.cs:237-246 | a whole pass of the inner loop appends the moved copies of the ring with the ring's normals and uvs, plus the quads stitching the ring to its copy |
| Extrusion.RingStepNext | Assets/Plugins/ProcGenEx/MeshBuilder.cs:239-244 | one inner-loop iteration appends one copy and the quad `(contour[i - 1], pv, cv, contour[i])` |
| Extrusion.StepVertices | Assets/Plugins/ProcGenEx/MeshBuilder.cs:237-239 | a step appends the current ring's positions moved by `dv` |
| Extrusion.StepAttributes | Assets/Plugins/ProcGenEx/MeshBuilder.cs:237-239 | a step copies the current ring's normals and uvs |
| Extrusion.StepTriangles | Assets/Plugins/ProcGenEx/MeshBuilder.cs:241-246 | a step appends the quads between the current ring and its copies, and the copies become the ring |
| Extrusion.StitchLength | Assets/Plugins/ProcGenEx/MeshBuilder.cs:238-245 | stitching `k` ring positions gives `k - 1` quads, and when both rings' ids are below a bound, so are the quads' |
| Extrusion.StitchIds | Assets/Plugins/ProcGenEx/MeshBuilder.cs:241 | every id of the stitching quads is an id of one of the two rings |
| Extrusion.StepRoom | Assets/Plugins/ProcGenEx/MeshBuilder.cs:233 | the room `Grow` reserves covers each further step |
| Extrusion.LastRingBelow | Assets/Plugins/ProcGenEx/MeshBuilder.cs:243-246 | the ring left after `k` steps names existing vertices |
| Extrusion.StitchAllWithin | Assets/Plugins/ProcGenEx/MeshBuilder.cs:241 | when the contour's ids are below the old vertex count, every quad index of `k` steps is below the vertex count after them |
| Extrusion.LastRingIds | Assets/Plugins/ProcGenEx/MeshBuilder.cs:237-246 | the ring after `k` steps holds the contour's ids or ids from the old vertex count up to the end of step `k` |
| Extrusion.StitchAllIds | Assets/Plugins/ProcGenEx/MeshBuilder.cs:236-247 | every quad index of `k` steps is an id of the contour or one of the `n * k` ids the steps create |
| Slicing.CaseCode | Assets/Plugins/ProcGenEx/MeshBuilder.cs:272 | the case code is 0 exactly when no corner survives and 7 exactly when all do; bit `j` is set exactly when corner `j` survives |
| Slicing.RenumberMeaning | Assets/Plugins/ProcGenEx/MeshBuilder.cs:264-268 | the map is -1 exactly for cut-away vertices; a kept vertex's new id points at the same data among the kept vertices |
| Slicing.RenumberAscending | Assets/Plugins/ProcGenEx/MeshBuilder.cs:264-268 | kept vertices keep their order |
| Slicing.RenumberOnto | Assets/Plugins/ProcGenEx/MeshBuilder.cs:264-268 | every new id is the image of some kept vertex |
| Slicing.RenumberBelow | Assets/Plugins/ProcGenEx/MeshBuilder.cs:264-268 | every map entry is -1 or a new vertex id |
| Slicing.SliceTrianglesNext | Assets/Plugins/ProcGenEx/MeshBuilder.cs:271 | slicing one more triangle is the loop body applied to the next three stored ids, which are all valid |
| Slicing.SliceTriangleWhole | Assets/Plugins/ProcGenEx/MeshBuilder.cs:274-279 | a triangle with no surviving corner adds nothing; one with all three surviving is kept under the new ids |
| Slicing.SliceTriangleOneCorner | Assets/Plugins/ProcGenEx/MeshBuilder.cs:288-311 | a triangle with one surviving corner `a` whose two edges out of `a` cross the plane becomes the triangle `(a', cut on ab, cut on ca)`, with two new vertices |
| Slicing.SliceTriangleTwoCorners | Assets/Plugins/ProcGenEx/MeshBuilder.cs:288-311 | a triangle with surviving corners `a, b` whose edges `bc` and `ca` cross becomes the quad `(a', b', cut on bc, cut on ca)` |
| Slicing.CutCornerExtends | Assets/Plugins/ProcGenEx/MeshBuilder.cs:290-295 | a corner step only appends vertices (no index changes); its ring names existing vertices and grows by at most two |
| Slicing.CutRingExtends | Assets/Plugins/ProcGenEx/MeshBuilder.cs:288-309 | the three corner steps together add at most three vertices, and the ring names existing vertices |
| Slicing.SliceTriangleExtends | Assets/Plugins/ProcGenEx/MeshBuilder.cs:272-311 | slicing a triangle only appends: lists stay parallel, every index stays valid, and at most three vertices are added |
| Slicing.SliceTrianglesExtends | Assets/Plugins/ProcGenEx/MeshBuilder.cs:271-312 | slicing any number of triangles keeps the lists parallel and every index valid |
| Slicing.SlicedShape | Assets/Plugins/ProcGenEx/MeshBuilder.cs:250-313 | the sliced mesh is well-formed; it starts with the kept vertices (positions, normals, uvs) in their old order; every vertex after them has the default uv |
| Slicing.KeptIdsMeaning | Assets/Plugins/ProcGenEx/MeshBuilder.cs:315-326 | the selected ids are in range, strictly ascending, and exactly the kept vertices |
| Slicing.KeptIdsRenumber | Assets/Plugins/ProcGenEx/MeshBuilder.cs:315-326 | `Select` and `Slice` agree: there are as many selected ids as kept vertices, and the new id `Slice` gives kept vertex `i` is `i`'s position in `Select`'s result |
| Slicing.KeptIdsCompact | Assets/Plugins/ProcGenEx/MeshBuilder.cs:315-326 | the selected ids are the vertex ids filtered by the kept-side mask |

## Left out

- `ToMesh` (`MeshBuilder.cs:25-37`): conversion to Unity's `Mesh`, an engine object.
- `Project` (`MeshBuilder.cs:328-335`) and `UVMapPlane` (`MeshBuilder.cs:337` on):
  they are outside the modelled core.
- `Icosahedron.cs` and `MeshBuilderEx.cs`: clients of the builder.
- Single-precision floating point: vectors are exact reals.
- `normalize`, `Slerp`, `Plane.Intersect`, `GetDistanceToPoint` and `Vector2.Div`
  are parameters. The model claims nothing about their results.
- `VectorEx.empty2`: its value is left open.
- 32-bit `int` overflow of counts, ids and products such as `contour.Length * steps`
  is not modelled: integers are unbounded.
- The public list fields: any code can change them directly. The model assumes they
  change only through the builder, which keeps the three vertex lists parallel
  and the index list whole (`Valid`).
- Inputs on which the program throws are excluded by `requires`:
  - the constructor with a negative vertex or triangle count: `new List<T>(n)`
    throws there (`MeshBuilder.cs:19-22`), and both parameters are `nat`;
  - `Extrude` with an empty contour and `steps > 0`;
  - an array overload given fewer than 3 (triangle) or 4 (quad) positions or uvs,
    or a `result` array that is too short;
  - `CopyVertex` with an id out of range;
  - `Slice` on a mesh with an index out of range;
  - `AddPlane` with step counts other than "both at least 0" or "one -1 and the
    other at least 0".
- `Extrude` with `steps <= 0`: no step is taken, the contour is not read and the
  offset `direction / steps` goes unused, as in the program. The model does not
  compute that quotient: it uses `direction` in its place, which avoids the
  floating-point division by zero at `steps == 0`.
- `Slice`'s triangle loop takes the id map `v2v` as a value: the first loop has
  finished writing it by then.
- Builder.MeshBuilder.MakeTriangle: the index capacity is stated as the law of a run
  of `List.Add`s (`CapacityFollows`): it never shrinks, holds every element, and does
  not move while there was room. The exact doubling of each step is stated only for
  the single `Add` of `AppendIndex`.
- Builder.MeshBuilder.MakeQuad: index capacity as for `MakeTriangle`.
- Builder.MeshBuilder.MakeFan: index capacity as for `MakeTriangle`.
- Builder.MeshBuilder.Slice: both capacities are stated by the same law, counted
  from the fresh lists.
- Builder.MeshBuilder.SliceAllTriangles: capacities as for `Slice`.
- Builder.MeshBuilder.SliceTriangleStep: capacities as for `Slice`.
- Builder.MeshBuilder.SliceTriangleAt: capacities as for `Slice`.
- Builder.MeshBuilder.CutAt: the vertex capacity as for `Slice`.
