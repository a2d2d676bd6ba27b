/** The mesh buffer: a `MeshBuilder` owns four growable lists and every operation
    appends to them, rewrites them or reads them. Each list's capacity is kept
    beside it; `normals` and `uvs` always have the capacity of `vertices`, so one
    field holds the three. */
module Builder {
  import opened Geometry
  import opened Meshes
  import opened Grids
  import opened Extrusion
  import opened Slicing

  function Max(a: int, b: int): int { if a >= b then a else b }

  class MeshBuilder {
    var vertices: seq<Vec3>
    var normals: seq<Vec3>
    var uvs: seq<Vec2>
    var triangles: seq<int>
    var vertexCapacity: nat
    var triangleCapacity: nat

    /** The lists run in parallel, hold whole triangles and fit their capacities. */
    predicate Valid()
      reads this
    {
      |vertices| == |normals| == |uvs| <= vertexCapacity
      && |triangles| <= triangleCapacity && |triangles| % 3 == 0
    }

    /** The buffer's contents as a value. */
    function Model(): (m: Mesh)
      reads this
      ensures Valid() ==> m.Parallel()
    {
      Mesh(vertices, normals, uvs, triangles)
    }

    /** An empty buffer with room for `vertexCount` vertices and `triangleCount` triangles. */
    constructor (vertexCount: nat, triangleCount: nat)
      ensures Valid() && Model() == EmptyMesh
      ensures vertexCapacity == vertexCount && triangleCapacity == 3 * triangleCount
    {
      vertices, normals, uvs, triangles := [], [], [], [];
      vertexCapacity, triangleCapacity := vertexCount, 3 * triangleCount;
    }

    /** Reserves room for `vertexCount` more vertices and `triangleCount` more
        triangles; capacities never shrink and the contents do not change. */
    method Grow(vertexCount: int, triangleCount: int)
      requires Valid()
      modifies this
      ensures Valid() && Model() == old(Model())
      ensures vertexCapacity == Max(old(vertexCapacity), |vertices| + vertexCount)
      ensures triangleCapacity == Max(old(triangleCapacity), |triangles| + 3 * triangleCount)
      ensures vertexCapacity >= old(vertexCapacity) && vertexCapacity >= |vertices| + vertexCount
      ensures triangleCapacity >= old(triangleCapacity) && triangleCapacity >= |triangles| + 3 * triangleCount
    {
      vertexCapacity := Max(vertexCapacity, |vertices| + vertexCount);
      triangleCapacity := Max(triangleCapacity, |triangles| + 3 * triangleCount);
    }

    /** Appends one vertex with the default uv and returns its id. */
    method CreateVertexWithoutUV(v: Vec3, n: Vec3) returns (vi: int)
      requires Valid()
      modifies this
      ensures Valid() && vi == old(|vertices|)
      ensures vertices == old(vertices) + [v] && normals == old(normals) + [n] && uvs == old(uvs) + [EmptyUV]
      ensures triangles == old(triangles)
      ensures vertexCapacity == CapacityAfterAdd(old(vertexCapacity), old(|vertices|))
      ensures triangleCapacity == old(triangleCapacity)
    {
      vi := CreateVertex(v, n, EmptyUV);
    }

    /** Appends one vertex with position `v`, normal `n` and uv `u` and returns its
        id, the old vertex count. */
    method CreateVertex(v: Vec3, n: Vec3, u: Vec2) returns (vi: int)
      requires Valid()
      modifies this
      ensures Valid() && vi == old(|vertices|)
      ensures vertices == old(vertices) + [v] && normals == old(normals) + [n] && uvs == old(uvs) + [u]
      ensures triangles == old(triangles)
      ensures vertexCapacity == CapacityAfterAdd(old(vertexCapacity), old(|vertices|))
      ensures triangleCapacity == old(triangleCapacity)
    {
      vi := |vertices|;
      vertexCapacity := CapacityAfterAdd(vertexCapacity, |vertices|);
      vertices, normals, uvs := vertices + [v], normals + [n], uvs + [u];
    }

    /** Appends a copy of vertex `vi` moved by `dv`, keeping its normal and uv. */
    method CopyVertex(vi: int, dv: Vec3) returns (ci: int)
      requires Valid() && 0 <= vi < |vertices|
      modifies this
      ensures Valid() && ci == old(|vertices|)
      ensures vertices == old(vertices) + [Add(old(vertices[vi]), dv)]
      ensures normals == old(normals) + [old(normals[vi])] && uvs == old(uvs) + [old(uvs[vi])]
      ensures triangles == old(triangles)
      ensures vertexCapacity == CapacityAfterAdd(old(vertexCapacity), old(|vertices|))
      ensures triangleCapacity == old(triangleCapacity)
    {
      ci := CreateVertex(Add(vertices[vi], dv), normals[vi], uvs[vi]);
    }

    /** `List.Add` on the index list. */
    method AppendIndex(x: int)
      requires |triangles| <= triangleCapacity
      modifies this
      ensures triangles == old(triangles) + [x]
      ensures vertices == old(vertices) && normals == old(normals) && uvs == old(uvs)
      ensures triangleCapacity == CapacityAfterAdd(old(triangleCapacity), old(|triangles|))
      ensures vertexCapacity == old(vertexCapacity)
    {
      triangleCapacity := CapacityAfterAdd(triangleCapacity, |triangles|);
      triangles := triangles + [x];
    }

    /** The buffer holds `m0` with the indices `ts` appended, the vertex capacity is
        `vc0` and the index capacity moved from `tc0` as `Add`s move it. */
    predicate IndicesAppended(m0: Mesh, vc0: nat, tc0: nat, ts: seq<int>)
      reads this
    {
      && Valid() && vertices == m0.vertices && normals == m0.normals && uvs == m0.uvs
      && triangles == m0.triangles + ts && vertexCapacity == vc0
      && CapacityFollows(tc0, |m0.triangles|, triangleCapacity, |triangles|)
    }

    /** Appends the triangle `(a, b, c)`; the ids are not checked. */
    method MakeTriangle(a: int, b: int, c: int)
      requires Valid()
      modifies this
      ensures Valid() && triangles == old(triangles) + [a, b, c]
      ensures vertices == old(vertices) && normals == old(normals) && uvs == old(uvs)
      ensures CapacityFollows(old(triangleCapacity), old(|triangles|), triangleCapacity, |triangles|)
      ensures vertexCapacity == old(vertexCapacity)
    {
      AppendIndex(a);
      AppendIndex(b);
      AppendIndex(c);
    }

    /** Appends the quad `a, b, c, d` as the triangles `(a, b, c)` and `(a, c, d)`. */
    method MakeQuad(a: int, b: int, c: int, d: int)
      requires Valid()
      modifies this
      ensures Valid() && triangles == old(triangles) + QuadIndices(a, b, c, d)
      ensures vertices == old(vertices) && normals == old(normals) && uvs == old(uvs)
      ensures CapacityFollows(old(triangleCapacity), old(|triangles|), triangleCapacity, |triangles|)
      ensures vertexCapacity == old(vertexCapacity)
    {
      MakeTriangle(a, b, c);
      MakeTriangle(a, c, d);
    }

    /** Appends the triangle fan `(ps[0], ps[i], ps[i + 1])` for `i` from 1 to
        `|ps| - 2`; nothing for fewer than three ids. */
    method MakeFan(ps: seq<int>)
      requires Valid()
      modifies this
      ensures Valid() && triangles == old(triangles) + FanIndices(ps)
      ensures vertices == old(vertices) && normals == old(normals) && uvs == old(uvs)
      ensures CapacityFollows(old(triangleCapacity), old(|triangles|), triangleCapacity, |triangles|)
      ensures vertexCapacity == old(vertexCapacity)
    {
      ghost var m0, vc0, tc0 := Model(), vertexCapacity, triangleCapacity;
      var i := 1;
      while i < |ps| - 1
        invariant 1 <= i && (i == 1 || i < |ps|)
        invariant IndicesAppended(m0, vc0, tc0, FanUpTo(ps, i))
      {
        ghost var c1, n1 := triangleCapacity, |triangles|;
        MakeTriangle(ps[0], ps[i], ps[i + 1]);
        CapacityFollowsTrans(tc0, |m0.triangles|, c1, n1, triangleCapacity, |triangles|);
        assert FanUpTo(ps, i + 1) == FanUpTo(ps, i) + [ps[0], ps[i], ps[i + 1]];
        i := i + 1;
      }
      assert i == 1 || i == |ps| - 1;
    }

    /** The work shared by the `AddTriangle` overloads: room for three vertices and
        one triangle, then one fresh vertex per corner of `ps` with the normal `n`
        and the uvs `us`, then the triangle over them. */
    method AddFlatTriangle(ps: seq<Vec3>, n: Vec3, us: seq<Vec2>) returns (i0: int, i1: int, i2: int)
      requires Valid() && |ps| == 3 && |us| == 3
      modifies this
      ensures Valid() && Model() == AddFace(old(Model()), ps, n, us)
      ensures i0 == old(|vertices|) && i1 == i0 + 1 && i2 == i0 + 2
      ensures vertexCapacity == Max(old(vertexCapacity), old(|vertices|) + 3)
      ensures triangleCapacity == Max(old(triangleCapacity), old(|triangles|) + 3)
    {
      Grow(3, 1);
      ghost var m0 := Model();
      i0 := CreateVertex(ps[0], n, us[0]);
      i1 := CreateVertex(ps[1], n, us[1]);
      i2 := CreateVertex(ps[2], n, us[2]);
      MakeTriangle(i0, i1, i2);
      AddTriangleFace(m0, ps, n, us);
    }

    /** The work shared by the `AddQuad` overloads: room for four vertices and two
        triangles, then one fresh vertex per corner of `ps` with the normal `n` and
        the uvs `us`, then the quad over them. */
    method AddFlatQuad(ps: seq<Vec3>, n: Vec3, us: seq<Vec2>) returns (i0: int, i1: int, i2: int, i3: int)
      requires Valid() && |ps| == 4 && |us| == 4
      modifies this
      ensures Valid() && Model() == AddFace(old(Model()), ps, n, us)
      ensures i0 == old(|vertices|) && i1 == i0 + 1 && i2 == i0 + 2 && i3 == i0 + 3
      ensures vertexCapacity == Max(old(vertexCapacity), old(|vertices|) + 4)
      ensures triangleCapacity == Max(old(triangleCapacity), old(|triangles|) + 6)
    {
      Grow(4, 2);
      ghost var m0 := Model();
      i0 := CreateVertex(ps[0], n, us[0]);
      i1 := CreateVertex(ps[1], n, us[1]);
      i2 := CreateVertex(ps[2], n, us[2]);
      i3 := CreateVertex(ps[3], n, us[3]);
      MakeQuad(i0, i1, i2, i3);
      AddQuadFace(m0, ps, n, us);
    }

    /** Adds the flat triangle `a, b, c`: three fresh vertices with the face normal
        and the default uv, and one triangle over them. Their ids are written to
        `result[0..2]`, or to a fresh array when `result` is null. */
    method AddTriangleInto(a: Vec3, b: Vec3, c: Vec3, normalize: Vec3 -> Vec3, result: array?<int>) returns (r: array<int>)
      requires Valid() && (result != null ==> result.Length >= 3)
      modifies this, result
      ensures Valid()
      ensures Model() == AddFace(old(Model()), [a, b, c], FaceNormal(normalize, a, b, c), Fill(EmptyUV, 3))
      ensures result == null ==> fresh(r) && r.Length == 3
      ensures result != null ==> r == result && forall j :: 3 <= j < r.Length ==> r[j] == old(result[j])
      ensures r.Length >= 3 && forall j :: 0 <= j < 3 ==> r[j] == old(|vertices|) + j
      ensures vertexCapacity == Max(old(vertexCapacity), old(|vertices|) + 3)
      ensures triangleCapacity == Max(old(triangleCapacity), old(|triangles|) + 3)
    {
      if result == null {
        r := new int[3];
      } else {
        r := result;
      }
      var i0, i1, i2 := AddFlatTriangle([a, b, c], FaceNormal(normalize, a, b, c), Fill(EmptyUV, 3));
      r[0], r[1], r[2] := i0, i1, i2;
    }

    /** `AddTriangleInto` with a fresh result array. */
    method AddTriangle(a: Vec3, b: Vec3, c: Vec3, normalize: Vec3 -> Vec3) returns (r: array<int>)
      requires Valid()
      modifies this
      ensures Valid()
      ensures Model() == AddFace(old(Model()), [a, b, c], FaceNormal(normalize, a, b, c), Fill(EmptyUV, 3))
      ensures fresh(r) && r.Length == 3 && forall j :: 0 <= j < 3 ==> r[j] == old(|vertices|) + j
      ensures vertexCapacity == Max(old(vertexCapacity), old(|vertices|) + 3)
      ensures triangleCapacity == Max(old(triangleCapacity), old(|triangles|) + 3)
    {
      r := AddTriangleInto(a, b, c, normalize, null);
    }

    /** Adds the flat triangle `v[0], v[1], v[2]` with the uvs `uv[0..2]`. */
    method AddTriangleWithUVInto(v: seq<Vec3>, uv: seq<Vec2>, normalize: Vec3 -> Vec3, result: array?<int>) returns (r: array<int>)
      requires Valid() && |v| >= 3 && |uv| >= 3 && (result != null ==> result.Length >= 3)
      modifies this, result
      ensures Valid()
      ensures Model() == AddFace(old(Model()), v[..3], FaceNormal(normalize, v[0], v[1], v[2]), uv[..3])
      ensures result == null ==> fresh(r) && r.Length == 3
      ensures result != null ==> r == result && forall j :: 3 <= j < r.Length ==> r[j] == old(result[j])
      ensures r.Length >= 3 && forall j :: 0 <= j < 3 ==> r[j] == old(|vertices|) + j
      ensures vertexCapacity == Max(old(vertexCapacity), old(|vertices|) + 3)
      ensures triangleCapacity == Max(old(triangleCapacity), old(|triangles|) + 3)
    {
      if result == null {
        r := new int[3];
      } else {
        r := result;
      }
      var i0, i1, i2 := AddFlatTriangle(v[..3], FaceNormal(normalize, v[0], v[1], v[2]), uv[..3]);
      r[0], r[1], r[2] := i0, i1, i2;
    }

    /** `AddTriangleWithUVInto` with a fresh result array. */
    method AddTriangleWithUV(v: seq<Vec3>, uv: seq<Vec2>, normalize: Vec3 -> Vec3) returns (r: array<int>)
      requires Valid() && |v| >= 3 && |uv| >= 3
      modifies this
      ensures Valid()
      ensures Model() == AddFace(old(Model()), v[..3], FaceNormal(normalize, v[0], v[1], v[2]), uv[..3])
      ensures fresh(r) && r.Length == 3 && forall j :: 0 <= j < 3 ==> r[j] == old(|vertices|) + j
      ensures vertexCapacity == Max(old(vertexCapacity), old(|vertices|) + 3)
      ensures triangleCapacity == Max(old(triangleCapacity), old(|triangles|) + 3)
    {
      r := AddTriangleWithUVInto(v, uv, normalize, null);
    }

    /** Adds the flat quad `a, b, c, d`: four fresh vertices with the normal of the
        face `a, b, c` and the default uv, and the quad over them. Their ids are
        written to `result[0..3]`, or to a fresh array when `result` is null. */
    method AddQuadInto(a: Vec3, b: Vec3, c: Vec3, d: Vec3, normalize: Vec3 -> Vec3, result: array?<int>) returns (r: array<int>)
      requires Valid() && (result != null ==> result.Length >= 4)
      modifies this, result
      ensures Valid()
      ensures Model() == AddFace(old(Model()), [a, b, c, d], FaceNormal(normalize, a, b, c), Fill(EmptyUV, 4))
      ensures result == null ==> fresh(r) && r.Length == 4
      ensures result != null ==> r == result && forall j :: 4 <= j < r.Length ==> r[j] == old(result[j])
      ensures r.Length >= 4 && forall j :: 0 <= j < 4 ==> r[j] == old(|vertices|) + j
      ensures vertexCapacity == Max(old(vertexCapacity), old(|vertices|) + 4)
      ensures triangleCapacity == Max(old(triangleCapacity), old(|triangles|) + 6)
    {
      if result == null {
        r := new int[4];
      } else {
        r := result;
      }
      var i0, i1, i2, i3 := AddFlatQuad([a, b, c, d], FaceNormal(normalize, a, b, c), Fill(EmptyUV, 4));
      r[0], r[1], r[2], r[3] := i0, i1, i2, i3;
    }

    /** `AddQuadInto` with a fresh result array. */
    method AddQuad(a: Vec3, b: Vec3, c: Vec3, d: Vec3, normalize: Vec3 -> Vec3) returns (r: array<int>)
      requires Valid()
      modifies this
      ensures Valid()
      ensures Model() == AddFace(old(Model()), [a, b, c, d], FaceNormal(normalize, a, b, c), Fill(EmptyUV, 4))
      ensures fresh(r) && r.Length == 4 && forall j :: 0 <= j < 4 ==> r[j] == old(|vertices|) + j
      ensures vertexCapacity == Max(old(vertexCapacity), old(|vertices|) + 4)
      ensures triangleCapacity == Max(old(triangleCapacity), old(|triangles|) + 6)
    {
      r := AddQuadInto(a, b, c, d, normalize, null);
    }

    /** Adds the flat quad `v[0..3]` with the uvs `uv[0..3]`. */
    method AddQuadWithUVInto(v: seq<Vec3>, uv: seq<Vec2>, normalize: Vec3 -> Vec3, result: array?<int>) returns (r: array<int>)
      requires Valid() && |v| >= 4 && |uv| >= 4 && (result != null ==> result.Length >= 4)
      modifies this, result
      ensures Valid()
      ensures Model() == AddFace(old(Model()), v[..4], FaceNormal(normalize, v[0], v[1], v[2]), uv[..4])
      ensures result == null ==> fresh(r) && r.Length == 4
      ensures result != null ==> r == result && forall j :: 4 <= j < r.Length ==> r[j] == old(result[j])
      ensures r.Length >= 4 && forall j :: 0 <= j < 4 ==> r[j] == old(|vertices|) + j
      ensures vertexCapacity == Max(old(vertexCapacity), old(|vertices|) + 4)
      ensures triangleCapacity == Max(old(triangleCapacity), old(|triangles|) + 6)
    {
      if result == null {
        r := new int[4];
      } else {
        r := result;
      }
      var i0, i1, i2, i3 := AddFlatQuad(v[..4], FaceNormal(normalize, v[0], v[1], v[2]), uv[..4]);
      r[0], r[1], r[2], r[3] := i0, i1, i2, i3;
    }

    /** `AddQuadWithUVInto` with a fresh result array. */
    method AddQuadWithUV(v: seq<Vec3>, uv: seq<Vec2>, normalize: Vec3 -> Vec3) returns (r: array<int>)
      requires Valid() && |v| >= 4 && |uv| >= 4
      modifies this
      ensures Valid()
      ensures Model() == AddFace(old(Model()), v[..4], FaceNormal(normalize, v[0], v[1], v[2]), uv[..4])
      ensures fresh(r) && r.Length == 4 && forall j :: 0 <= j < 4 ==> r[j] == old(|vertices|) + j
      ensures vertexCapacity == Max(old(vertexCapacity), old(|vertices|) + 4)
      ensures triangleCapacity == Max(old(triangleCapacity), old(|triangles|) + 6)
    {
      r := AddQuadWithUVInto(v, uv, normalize, null);
    }

    /** The inner vertex loop of `AddPlane`: grid vertices `(i, 0) .. (i, rn - 1)`
        are created with the normal `n` and the default uv, and their ids are
        stored at `r[ri0 ..]`. The room was reserved beforehand. */
    method PlaceColumn(f: GridFrame, n: Vec3, i: nat, rn: nat, r: array<int>, ri0: nat)
      requires Valid() && ri0 + rn <= r.Length && vertexCapacity >= |vertices| + rn
      modifies this, r
      ensures Valid()
      ensures vertices == old(vertices) + ColumnPoints(f, i, rn)
      ensures normals == old(normals) + Fill(n, rn) && uvs == old(uvs) + Fill(EmptyUV, rn)
      ensures triangles == old(triangles)
      ensures vertexCapacity == old(vertexCapacity) && triangleCapacity == old(triangleCapacity)
      ensures forall k :: 0 <= k < ri0 ==> r[k] == old(r[k])
      ensures forall k :: ri0 <= k < ri0 + rn ==> r[k] == old(|vertices|) + (k - ri0)
    {
      ghost var v0, n0, u0 := vertices, normals, uvs;
      var v := Add(f.origin, Scale(Scale(f.right, i as real), f.spacing.x));
      var ri := ri0;
      var j := 0;
      while j < rn
        invariant 0 <= j <= rn && ri == ri0 + j && |vertices| == |v0| + j
        invariant v == GridPoint(f, i, j)
        invariant Valid() && vertexCapacity == old(vertexCapacity) && triangleCapacity == old(triangleCapacity)
        invariant vertices == v0 + ColumnPoints(f, i, j)
        invariant normals == n0 + Fill(n, j) && uvs == u0 + Fill(EmptyUV, j)
        invariant triangles == old(triangles)
        invariant forall k :: 0 <= k < ri0 ==> r[k] == old(r[k])
        invariant forall k :: ri0 <= k < ri ==> r[k] == |v0| + (k - ri0)
      {
        FillGrow(n, j);
        FillGrow(EmptyUV, j);
        var id := CreateVertexWithoutUV(v, n);
        r[ri] := id;
        ri := ri + 1;
        v := Add(v, Scale(f.forward, f.spacing.y));
        j := j + 1;
      }
    }

    /** One pass of the column loop of `AddPlane`: column `i` placed after the
        `ri == i * rn` grid vertices of the columns before it. */
    method PlaceNextColumn(f: GridFrame, n: Vec3, cn: nat, rn: nat, r: array<int>, i: nat, ri: nat,
                           ghost v0: seq<Vec3>, ghost n0: seq<Vec3>, ghost u0: seq<Vec2>)
      requires i < cn && ri == i * rn && r.Length == cn * rn && |vertices| == |v0| + ri
      requires Valid() && vertexCapacity >= |v0| + cn * rn
      requires vertices == v0 + GridPoints(f, i, rn)
      requires normals == n0 + Fill(n, ri) && uvs == u0 + Fill(EmptyUV, ri)
      requires forall k :: 0 <= k < ri ==> r[k] == |v0| + k
      modifies this, r
      ensures ri + rn == (i + 1) * rn <= r.Length && |vertices| == |v0| + ri + rn
      ensures Valid() && vertices == v0 + GridPoints(f, i + 1, rn)
      ensures normals == n0 + Fill(n, ri + rn) && uvs == u0 + Fill(EmptyUV, ri + rn)
      ensures triangles == old(triangles)
      ensures vertexCapacity == old(vertexCapacity) && triangleCapacity == old(triangleCapacity)
      ensures forall k :: 0 <= k < ri + rn ==> r[k] == |v0| + k
    {
      assert ri + rn == (i + 1) * rn <= cn * rn by { MulLeq(i + 1, cn, rn); }
      PlaceColumn(f, n, i, rn, r, ri);
      assert |ColumnPoints(f, i, rn)| == rn by { ColumnPointsAt(f, i, rn); }
      assert vertices == v0 + GridPoints(f, i + 1, rn);
      assert normals == n0 + Fill(n, ri + rn) && uvs == u0 + Fill(EmptyUV, ri + rn) by {
        FillConcat(n, ri, rn);
        FillConcat(EmptyUV, ri, rn);
      }
    }

    /** The vertex loops of `AddPlane`: column after column, grid vertex `(i, j)` is
        created at `GridPoint(f, i, j)` with the normal `n` and the default uv, and
        its id is stored at `r[i * rn + j]`. The room was reserved beforehand. */
    method PlaceGrid(f: GridFrame, n: Vec3, cn: nat, rn: nat, r: array<int>)
      requires Valid() && r.Length == cn * rn && vertexCapacity >= |vertices| + cn * rn
      modifies this, r
      ensures Valid()
      ensures vertices == old(vertices) + GridPoints(f, cn, rn)
      ensures normals == old(normals) + Fill(n, cn * rn) && uvs == old(uvs) + Fill(EmptyUV, cn * rn)
      ensures triangles == old(triangles)
      ensures vertexCapacity == old(vertexCapacity) && triangleCapacity == old(triangleCapacity)
      ensures forall k :: 0 <= k < r.Length ==> r[k] == old(|vertices|) + k
    {
      ghost var v0, n0, u0 := vertices, normals, uvs;
      var ri := 0;
      var i := 0;
      while i < cn
        invariant 0 <= i <= cn && ri == i * rn && |vertices| == |v0| + ri
        invariant Valid() && vertexCapacity == old(vertexCapacity) && triangleCapacity == old(triangleCapacity)
        invariant vertices == v0 + GridPoints(f, i, rn)
        invariant normals == n0 + Fill(n, ri) && uvs == u0 + Fill(EmptyUV, ri)
        invariant triangles == old(triangles)
        invariant forall k :: 0 <= k < ri ==> r[k] == |v0| + k
      {
        PlaceNextColumn(f, n, cn, rn, r, i, ri, v0, n0, u0);
        ri := ri + rn;
        i := i + 1;
      }
    }

    /** One pass of the quad loop of `AddPlane`: the running id `vi` skips the last
        grid vertex of a column, then the quad of the cell it names is added; the
        id after that cell is returned. */
    method StitchCell(r: array<int>, rn: nat, x: nat, y: nat, vi: int, ghost base: int, ghost ci: nat, ghost cj: nat)
      returns (next: int)
      requires Valid() && rn == y + 1 && r.Length == (x + 1) * rn
      requires forall k :: 0 <= k < r.Length ==> r[k] == base + k
      requires ci < x && cj < y && vi == ci * rn + cj - (if cj == 0 && ci > 0 then 1 else 0)
      requires |triangles| + 6 <= triangleCapacity
      modifies this
      ensures Valid() && triangles == old(triangles) + CellQuad(base, rn, ci, cj)
      ensures vertices == old(vertices) && normals == old(normals) && uvs == old(uvs)
      ensures vertexCapacity == old(vertexCapacity) && triangleCapacity == old(triangleCapacity)
      ensures next == ci * rn + cj + 1
    {
      CellCursor(ci, cj, x, y, rn, vi);
      next := vi;
      // `next` is never negative, so `%` here agrees with the program's remainder.
      if (next + 1) % rn == 0 {
        next := next + 1;
      }
      assert QuadIndices(r[next], r[next + 1], r[next + 1 + rn], r[next + rn]) == CellQuad(base, rn, ci, cj);
      MakeQuad(r[next], r[next + 1], r[next + 1 + rn], r[next + rn]);
      next := next + 1;
    }

    /** One pass of the stitching loop: the quad of cell `(ci, cj)`, after which the
        cursor moves down the column, or to the top of the next one. */
    method StitchStep(r: array<int>, rn: nat, x: nat, y: nat, ghost base: int, ghost t0: seq<int>,
                      vi: int, ghost ci: nat, ghost cj: nat)
      returns (next: int, ghost ci': nat, ghost cj': nat)
      requires Valid() && rn == y + 1 && r.Length == (x + 1) * rn
      requires forall k :: 0 <= k < r.Length ==> r[k] == base + k
      requires ci < x && cj < y && vi == ci * rn + cj - (if cj == 0 && ci > 0 then 1 else 0)
      requires triangles == t0 + QuadsBefore(base, rn, y, ci, cj) && |triangles| + 6 <= triangleCapacity
      modifies this
      ensures Valid() && triangles == t0 + QuadsBefore(base, rn, y, ci', cj')
      ensures |triangles| == old(|triangles|) + 6
      ensures vertices == old(vertices) && normals == old(normals) && uvs == old(uvs)
      ensures vertexCapacity == old(vertexCapacity) && triangleCapacity == old(triangleCapacity)
      ensures if cj + 1 < y then ci' == ci && cj' == cj + 1 else ci' == ci + 1 && cj' == 0
      ensures ci' * y + cj' == ci * y + cj + 1
      ensures next == ci' * rn + cj' - (if cj' == 0 && ci' > 0 then 1 else 0)
    {
      CellCursor(ci, cj, x, y, rn, vi);
      QuadsBeforeNext(t0, base, rn, y, ci, cj);
      next := StitchCell(r, rn, x, y, vi, base, ci, cj);
      if cj + 1 < y {
        ci', cj' := ci, cj + 1;
      } else {
        ci', cj' := ci + 1, 0;
      }
    }

    /** The quad loop of `AddPlane`: the quad of every cell of a grid of `x` by `y`
        cells, column after column, over the ids `r[k] == base + k`. The room was
        reserved beforehand. */
    method StitchGrid(r: array<int>, rn: nat, x: nat, y: nat, ghost base: int)
      requires Valid() && rn == y + 1 && r.Length == (x + 1) * rn
      requires forall k :: 0 <= k < r.Length ==> r[k] == base + k
      requires triangleCapacity >= |triangles| + 6 * (x * y)
      modifies this
      ensures Valid() && triangles == old(triangles) + GridQuads(base, rn, x, y)
      ensures vertices == old(vertices) && normals == old(normals) && uvs == old(uvs)
      ensures vertexCapacity == old(vertexCapacity) && triangleCapacity == old(triangleCapacity)
    {
      ghost var t0 := triangles;
      var cells := x * y;  // `tn / 2` in the program, where `tn == 2 * x * y`
      var vi := 0;
      var t := 0;
      ghost var ci, cj := 0, 0;
      while t < cells
        invariant 0 <= t <= cells && t == ci * y + cj && |triangles| == |t0| + 6 * t
        invariant 0 <= ci <= x && 0 <= cj && (cells > 0 ==> cj < y) && (cells == 0 ==> ci == 0 && cj == 0)
        invariant ci == x ==> cj == 0
        invariant vi == ci * rn + cj - (if cj == 0 && ci > 0 then 1 else 0)
        invariant Valid() && triangles == t0 + QuadsBefore(base, rn, y, ci, cj)
        invariant vertices == old(vertices) && normals == old(normals) && uvs == old(uvs)
        invariant vertexCapacity == old(vertexCapacity) && triangleCapacity == old(triangleCapacity)
      {
        vi, ci, cj := StitchStep(r, rn, x, y, base, t0, vi, ci, cj);
        t := t + 1;
      }
      assert QuadsBefore(base, rn, y, ci, cj) == GridQuads(base, rn, x, y) by {
        QuadsBeforeEnd(base, rn, x, y, ci, cj);
      }
    }

    /** The quads of a plane of `x` by `y` cells over the grid vertices `r`, which
        sit in the frame `f`. With a count of -1 there are none: the quad loop of
        the program runs `x * y` times, which is then not positive. */
    method StitchPlane(r: array<int>, rn: int, x: int, y: int, ghost base: nat, ghost f: GridFrame)
      requires (x >= 0 && y >= -1) || (x >= -1 && y >= 0)
      requires Valid() && rn == y + 1 && r.Length == (x + 1) * rn
      requires forall k :: 0 <= k < r.Length ==> r[k] == base + k
      requires |vertices| == base + |GridPoints(f, x + 1, y + 1)|
      requires triangleCapacity >= |triangles| + 6 * (x * y)
      modifies this
      ensures Valid() && triangles == old(triangles) + PlaneQuads(base, x, y)
      ensures IndicesBelow(old(triangles), base) ==> Model().Indexed()
      ensures vertices == old(vertices) && normals == old(normals) && uvs == old(uvs)
      ensures vertexCapacity == old(vertexCapacity) && triangleCapacity == old(triangleCapacity)
    {
      if x >= 0 && y >= 0 {
        StitchGrid(r, rn, x, y, base);
      }
      if IndicesBelow(old(triangles), base) {
        PlaneIndexed(old(triangles), base, f, x, y);
      }
    }

    /** Adds a flat grid of `step.x` by `step.y` cells in the plane `p`, spanning
        `size` from `origin` along `normal x forward` and `forward`: one vertex per
        grid point, column after column, with the plane's normal and the default uv,
        and one quad per cell. Returns the ids of the grid points in that order.
        Room for all of it is reserved first, so neither list grows on the way. */
    method AddPlaneWithForward(p: Plane, origin: Vec3, size: Vec2, step: Int2, forward: Vec3,
                               divide: (Vec2, Int2) -> Vec2) returns (r: array<int>)
      requires Valid() && ((step.x >= 0 && step.y >= -1) || (step.x >= -1 && step.y >= 0))
      modifies this
      ensures Valid() && fresh(r) && r.Length == (step.x + 1) * (step.y + 1)
      ensures forall k :: 0 <= k < r.Length ==> r[k] == old(|vertices|) + k
      ensures vertices == old(vertices) + GridPoints(PlaneFrame(p, origin, size, step, forward, divide), step.x + 1, step.y + 1)
      ensures normals == old(normals) + Fill(p.normal, r.Length) && uvs == old(uvs) + Fill(EmptyUV, r.Length)
      ensures triangles == old(triangles) + PlaneQuads(old(|vertices|), step.x, step.y)
      ensures old(Model().Indexed()) ==> Model().Indexed()
      ensures vertexCapacity == Max(old(vertexCapacity), old(|vertices|) + r.Length)
      ensures triangleCapacity == Max(old(triangleCapacity), old(|triangles|) + 6 * (step.x * step.y))
    {
      PlaneCounts(step.x, step.y);
      var right := Cross(p.normal, forward);
      var cn, rn := step.x + 1, step.y + 1;
      var vn, tn := cn * rn, step.x * step.y * 2;
      var dv := divide(size, step);
      r := new int[vn];
      var n := p.normal;
      Grow(vn, tn);
      ghost var base := |vertices|;
      assert vertexCapacity == Max(old(vertexCapacity), old(|vertices|) + r.Length);
      assert triangleCapacity == Max(old(triangleCapacity), old(|triangles|) + 3 * tn);
      PlaceGrid(GridFrame(origin, right, forward, dv), n, cn, rn, r);
      assert 6 * (step.x * step.y) == 3 * tn;
      StitchPlane(r, rn, step.x, step.y, base, GridFrame(origin, right, forward, dv));
    }

    /** `AddPlaneWithForward` facing the world's forward axis. */
    method AddPlane(p: Plane, origin: Vec3, size: Vec2, step: Int2,
                    divide: (Vec2, Int2) -> Vec2) returns (r: array<int>)
      requires Valid() && ((step.x >= 0 && step.y >= -1) || (step.x >= -1 && step.y >= 0))
      modifies this
      ensures Valid() && fresh(r) && r.Length == (step.x + 1) * (step.y + 1)
      ensures forall k :: 0 <= k < r.Length ==> r[k] == old(|vertices|) + k
      ensures vertices == old(vertices) + GridPoints(PlaneFrame(p, origin, size, step, Forward, divide), step.x + 1, step.y + 1)
      ensures normals == old(normals) + Fill(p.normal, r.Length) && uvs == old(uvs) + Fill(EmptyUV, r.Length)
      ensures triangles == old(triangles) + PlaneQuads(old(|vertices|), step.x, step.y)
      ensures old(Model().Indexed()) ==> Model().Indexed()
      ensures vertexCapacity == Max(old(vertexCapacity), old(|vertices|) + r.Length)
      ensures triangleCapacity == Max(old(triangleCapacity), old(|triangles|) + 6 * (step.x * step.y))
    {
      r := AddPlaneWithForward(p, origin, size, step, Forward, divide);
    }

    /** The mesh part of position `i` of one step of `Extrude`: the copy of
        vertex `b == prev[i]` moved by `dv`, and the quad joining the edge
        `(a, b)` of the ring to the edge `(pa, copy of b)`. */
    method ExtrudeEdge(a: int, pa: int, b: int, dv: Vec3, ghost m0: Mesh, ghost prev: seq<int>, ghost i: nat) returns (pb: int)
      requires 0 < i < |prev| && IndicesBelow(prev, |m0.vertices|) && m0.Parallel()
      requires a == prev[i - 1] && b == prev[i] && pa == |m0.vertices| + i - 1
      requires Valid() && Model() == RingStep(m0, prev, dv, i)
      requires |m0.vertices| + |prev| <= vertexCapacity && |m0.triangles| + 6 * (|prev| - 1) <= triangleCapacity
      modifies this
      ensures Valid() && Model() == RingStep(m0, prev, dv, i + 1) && pb == |m0.vertices| + i
      ensures vertexCapacity == old(vertexCapacity) && triangleCapacity == old(triangleCapacity)
    {
      RingStepNext(m0, prev, dv, i, Model());
      pb := CopyVertex(b, dv);
      MakeQuad(a, pa, pb, b);
    }

    /** One step of `Extrude`, the program's inner loop: a copy of every contour
        vertex moved by `dv`, in contour order, the quad joining each contour edge
        to its copy, and the contour replaced by the copies. The room was reserved
        beforehand. */
    method ExtrudeStep(contour: array<int>, dv: Vec3)
      requires Valid() && contour.Length > 0 && IndicesBelow(contour[..], |vertices|)
      requires |vertices| + contour.Length <= vertexCapacity
      requires |triangles| + 6 * (contour.Length - 1) <= triangleCapacity
      modifies this, contour
      ensures Valid() && Model() == RingStep(old(Model()), old(contour[..]), dv, contour.Length)
      ensures contour[..] == RingIds(old(|vertices|), contour.Length)
      ensures vertexCapacity == old(vertexCapacity) && triangleCapacity == old(triangleCapacity)
    {
      ghost var m0, prev, n, base := Model(), contour[..], contour.Length, |vertices|;
      RingStepFirst(m0, prev, dv);
      var pv := CopyVertex(contour[0], dv);
      var i := 1;
      while i < contour.Length
        invariant 1 <= i <= n && pv == base + i - 1
        invariant Valid() && Model() == RingStep(m0, prev, dv, i)
        invariant forall k :: 0 <= k < i - 1 ==> contour[k] == base + k
        invariant forall k :: i - 1 <= k < n ==> contour[k] == prev[k]
        invariant vertexCapacity == old(vertexCapacity) && triangleCapacity == old(triangleCapacity)
      {
        pv := ExtrudeAt(contour, i, pv, dv, m0, prev);
        i := i + 1;
      }
      contour[contour.Length - 1] := pv;
      assert contour[..] == RingIds(base, n);
    }

    /** Position `i` of one step of `Extrude`: the copy of `contour[i]` and the
        quad over edge `i - 1`, and `contour[i - 1]` relabelled to its copy. */
    method ExtrudeAt(contour: array<int>, i: int, pv: int, dv: Vec3, ghost m0: Mesh, ghost prev: seq<int>) returns (cv: int)
      requires 0 < i < contour.Length == |prev| && IndicesBelow(prev, |m0.vertices|) && m0.Parallel()
      requires Valid() && Model() == RingStep(m0, prev, dv, i) && pv == |m0.vertices| + i - 1
      requires |m0.vertices| + contour.Length <= vertexCapacity
      requires |m0.triangles| + 6 * (contour.Length - 1) <= triangleCapacity
      requires forall k :: 0 <= k < i - 1 ==> contour[k] == |m0.vertices| + k
      requires forall k :: i - 1 <= k < |prev| ==> contour[k] == prev[k]
      modifies this, contour
      ensures Valid() && Model() == RingStep(m0, prev, dv, i + 1) && cv == |m0.vertices| + i
      ensures forall k :: 0 <= k < i ==> contour[k] == |m0.vertices| + k
      ensures forall k :: i <= k < |prev| ==> contour[k] == prev[k]
      ensures vertexCapacity == old(vertexCapacity) && triangleCapacity == old(triangleCapacity)
    {
      cv := ExtrudeEdge(contour[i - 1], pv, contour[i], dv, m0, prev, i);
      contour[i - 1] := pv;
    }

    /** After `si` layers of extruding ring `c0` of mesh `m0`. */
    predicate Layered(contour: array<int>, dv: Vec3, m0: Mesh, c0: seq<int>, si: nat)
      reads this, contour
    {
      && m0.Parallel() && IndicesBelow(c0, |m0.vertices|)
      && Valid() && Model() == ExtrudedMesh(m0, c0, dv, si) && contour[..] == LastRing(c0, |m0.vertices|, si)
    }

    /** Step `si + 1` of `steps` of `Extrude`, in the closed form of the whole
        extrusion, into the room `Extrude` reserved. */
    method ExtrudeLayer(contour: array<int>, dv: Vec3, ghost m0: Mesh, ghost c0: seq<int>, ghost si: nat, ghost steps: nat,
                        ghost vn: int, ghost tn: int)
      requires |c0| == contour.Length > 0 && si < steps
      requires Layered(contour, dv, m0, c0, si)
      requires vn == contour.Length * steps && tn == vn * 2
      requires |m0.vertices| + vn <= vertexCapacity && |m0.triangles| + 3 * tn <= triangleCapacity
      modifies this, contour
      ensures Layered(contour, dv, m0, c0, si + 1)
      ensures vertexCapacity == old(vertexCapacity) && triangleCapacity == old(triangleCapacity)
    {
      ExtrudedCounts(m0, c0, dv, si);
      ExtrudedByRingStep(m0, c0, dv, si);
      StepRoom(contour.Length, si, steps);
      ExtrudeStep(contour, dv);
    }

    /** The layers `0 .. steps - 1` of an extrusion into room reserved beforehand. */
    method ExtrudeLayers(contour: array<int>, dv: Vec3, steps: int, ghost vn: int, ghost tn: int)
      requires Valid() && (steps > 0 ==> contour.Length > 0 && IndicesBelow(contour[..], |vertices|))
      requires vn == contour.Length * steps && tn == vn * 2
      requires |vertices| + vn <= vertexCapacity && |triangles| + 3 * tn <= triangleCapacity
      modifies this, contour
      ensures Valid()
      ensures steps > 0 ==> Model() == ExtrudedMesh(old(Model()), old(contour[..]), dv, steps)
      ensures steps > 0 ==> contour[..] == LastRing(old(contour[..]), old(|vertices|), steps)
      ensures steps <= 0 ==> Model() == old(Model()) && contour[..] == old(contour[..])
      ensures vertexCapacity == old(vertexCapacity) && triangleCapacity == old(triangleCapacity)
    {
      ghost var m0, c0 := Model(), contour[..];
      var si := 0;
      while si < steps
        invariant 0 <= si <= StepCount(steps)
        invariant vertexCapacity == old(vertexCapacity) && triangleCapacity == old(triangleCapacity)
        invariant steps > 0 ==> Layered(contour, dv, m0, c0, si)
        invariant steps <= 0 ==> Valid() && Model() == m0 && contour[..] == c0
      {
        ExtrudeLayer(contour, dv, m0, c0, si, steps, vn, tn);
        si := si + 1;
      }
      assert si == StepCount(steps);
    }

    /** Extrudes the ring `contour` `steps` times along `direction`: each step adds
        a copy of the current ring moved by `direction / steps` and the quads
        stitching the two, and the copy becomes the current ring, which is left in
        `contour`. Room for all of it is reserved first, so neither list grows on
        the way; no step is taken when `steps <= 0`. */
    method Extrude(contour: array<int>, direction: Vec3, steps: int)
      requires Valid() && (steps > 0 ==> contour.Length > 0 && IndicesBelow(contour[..], |vertices|))
      modifies this, contour
      ensures Valid()
      ensures steps > 0 ==> Model() == ExtrudedMesh(old(Model()), old(contour[..]), DivScalar(direction, steps as real), steps)
      ensures steps > 0 ==> contour[..] == LastRing(old(contour[..]), old(|vertices|), steps)
      ensures steps <= 0 ==> Model() == old(Model()) && contour[..] == old(contour[..])
      ensures old(Model().Indexed()) ==> Model().Indexed()
      ensures vertexCapacity == Max(old(vertexCapacity), old(|vertices|) + contour.Length * steps)
      ensures triangleCapacity == Max(old(triangleCapacity), old(|triangles|) + 3 * (contour.Length * steps * 2))
    {
      var vn := contour.Length * steps;
      var tn := vn * 2;
      Grow(vn, tn);
      var dv := StepOffset(direction, steps);
      ExtrudeLayers(contour, dv, steps, vn, tn);
      if steps > 0 && old(Model().Indexed()) {
        ExtrudedIndexed(old(Model()), old(contour[..]), dv, steps);
      }
    }

    /** Keeps the part of the mesh on the non-negative side of `plane`: the kept
        vertices are re-created in their old order, every triangle whose corners
        all survive is kept, every triangle whose corners are all cut away is
        dropped, and every triangle that straddles the plane becomes the fan over
        its surviving corners and the points where its edges cross the plane
        strictly inside; those points get the normal `slerp` interpolates and the
        default uv. The lists start again at the old counts' capacities. */
    method Slice(plane: Plane, distance: (Plane, Vec3) -> real, intersect: (Plane, Vec3, Vec3) -> Hit, slerp: (Vec3, Vec3, real) -> Vec3)
      requires Valid() && Model().Indexed()
      modifies this
      ensures Valid() && Model() == Sliced(old(Model()), plane, distance, intersect, slerp)
      ensures CapacityFollows(old(|vertices|), 0, vertexCapacity, |vertices|)
      ensures CapacityFollows(old(|triangles|), 0, triangleCapacity, |triangles|)
    {
      var v2v := new int[|vertices|](_ => -1);
      var vs, ns, us, ts := vertices, normals, uvs, triangles;
      ghost var src := Model();
      vertices, normals, uvs, triangles := [], [], [], [];
      vertexCapacity, triangleCapacity := |vs|, |ts|;
      assert v2v[..] == Fill(-1, v2v.Length);
      KeepVertices(v2v, vs, ns, us, plane, distance);
      SliceAllTriangles(v2v[..], src, vs, ns, ts, plane, intersect, slerp);
    }

    /** The ids of the vertices on the non-negative side of `plane`, ascending:
        exactly the ids `i` with `distance(plane, vertices[i]) >= 0`. */
    method Select(plane: Plane, distance: (Plane, Vec3) -> real) returns (result: seq<int>)
      ensures result == KeptIds(vertices, plane, distance)
      ensures forall k, l :: 0 <= k < l < |result| ==> result[k] < result[l]
      ensures forall i :: i in result <==> 0 <= i < |vertices| && Keep(distance, plane, vertices[i])
    {
      result := [];
      var i := 0;
      while i < |vertices|
        invariant 0 <= i <= |vertices|
        invariant result == KeptIds(vertices[..i], plane, distance)
      {
        assert vertices[..i + 1][..i] == vertices[..i];
        if distance(plane, vertices[i]) >= 0.0 {
          result := result + [i];
        }
        i := i + 1;
      }
      assert vertices[..i] == vertices;
      KeptIdsMeaning(vertices, plane, distance);
    }

    /** The second loop of `Slice`: every source triangle in turn, kept whole,
        dropped, or cut into a fan, with the id map `v2v` the first loop built. */
    method SliceAllTriangles(v2v: seq<int>, ghost src: Mesh, vs: seq<Vec3>, ns: seq<Vec3>, ts: seq<int>,
                             plane: Plane, intersect: (Plane, Vec3, Vec3) -> Hit, slerp: (Vec3, Vec3, real) -> Vec3)
      requires src.vertices == vs && src.normals == ns && src.triangles == ts && src.Indexed() && |ts| % 3 == 0
      requires Valid() && |ns| == |vs| == |v2v|
      modifies this
      ensures Valid() && Model() == SliceTriangles(old(Model()), src, v2v, |ts| / 3, plane, intersect, slerp)
      ensures CapacityFollows(old(vertexCapacity), old(|vertices|), vertexCapacity, |vertices|)
      ensures CapacityFollows(old(triangleCapacity), old(|triangles|), triangleCapacity, |triangles|)
    {
      ghost var m0, nt := Model(), |ts| / 3;
      ghost var k := 0;
      var t := 0;
      while t < |ts|
        invariant 0 <= k <= nt && t == 3 * k && |ts| == 3 * nt
        invariant Valid() && Model() == SliceTriangles(m0, src, v2v, k, plane, intersect, slerp)
        invariant CapacityFollows(old(vertexCapacity), |m0.vertices|, vertexCapacity, |vertices|)
        invariant CapacityFollows(old(triangleCapacity), |m0.triangles|, triangleCapacity, |triangles|)
      {
        SliceTriangleStep(v2v, src, vs, ns, ts, t, plane, intersect, slerp, m0, k, old(vertexCapacity), old(triangleCapacity));
        t := t + 3;
        k := k + 1;
      }
      assert k == nt;
    }

    /** One pass of the triangle loop of `Slice`, at source triangle `k`; the
        capacities keep following the counts from `vcap`, `tcap` on. */
    method SliceTriangleStep(v2v: seq<int>, ghost src: Mesh, vs: seq<Vec3>, ns: seq<Vec3>, ts: seq<int>, t: int,
                             plane: Plane, intersect: (Plane, Vec3, Vec3) -> Hit, slerp: (Vec3, Vec3, real) -> Vec3,
                             ghost m0: Mesh, ghost k: nat, ghost vcap: nat, ghost tcap: nat)
      requires src.vertices == vs && src.normals == ns && src.triangles == ts && src.Indexed()
      requires |ns| == |vs| == |v2v| && t == 3 * k && t + 3 <= |ts|
      requires Valid() && Model() == SliceTriangles(m0, src, v2v, k, plane, intersect, slerp)
      requires CapacityFollows(vcap, |m0.vertices|, vertexCapacity, |vertices|)
      requires CapacityFollows(tcap, |m0.triangles|, triangleCapacity, |triangles|)
      modifies this
      ensures Valid() && Model() == SliceTriangles(m0, src, v2v, k + 1, plane, intersect, slerp)
      ensures CapacityFollows(vcap, |m0.vertices|, vertexCapacity, |vertices|)
      ensures CapacityFollows(tcap, |m0.triangles|, triangleCapacity, |triangles|)
    {
      var a, b, c := ts[t], ts[t + 1], ts[t + 2];
      SliceTrianglesNext(m0, src, v2v, k, plane, intersect, slerp, Model(), a, b, c);
      SliceTriangleAt(v2v, src, vs, ns, a, b, c, plane, intersect, slerp);
    }

    /** The first loop of `Slice`: every vertex of `vs` on the kept side of `plane`
        is re-created, in order, and `v2v` maps it to its new id; the others keep
        -1. */
    method KeepVertices(v2v: array<int>, vs: seq<Vec3>, ns: seq<Vec3>, us: seq<Vec2>, plane: Plane, distance: (Plane, Vec3) -> real)
      requires Valid() && Model() == EmptyMesh && vertexCapacity == |vs| == |ns| == |us| == v2v.Length
      requires v2v[..] == Fill(-1, v2v.Length)
      modifies this, v2v
      ensures Valid()
      ensures Model() == Mesh(Compact(vs, Mask(vs, plane, distance)), Compact(ns, Mask(vs, plane, distance)), Compact(us, Mask(vs, plane, distance)), [])
      ensures v2v[..] == Renumber(Mask(vs, plane, distance))
      ensures vertexCapacity == old(vertexCapacity) && triangleCapacity == old(triangleCapacity)
    {
      ghost var mask := Mask(vs, plane, distance);
      var i := 0;
      while i < |vs|
        invariant 0 <= i <= |vs|
        invariant Valid() && triangles == [] && vertexCapacity == |vs| && triangleCapacity == old(triangleCapacity)
        invariant vertices == CompactUpTo(vs, mask, i) && normals == CompactUpTo(ns, mask, i)
        invariant uvs == CompactUpTo(us, mask, i)
        invariant v2v[..] == Renumber(mask)[..i] + Fill(-1, |vs| - i)
      {
        KeepVertexAt(v2v, vs, ns, us, plane, distance, mask, i);
        i := i + 1;
      }
      CompactUpToAll(vs, mask);
      CompactUpToAll(ns, mask);
      CompactUpToAll(us, mask);
      assert Renumber(mask)[..i] + Fill(-1, 0) == Renumber(mask);
    }

    /** One pass of the vertex loop of `Slice`, at source vertex `i`: the vertex
        is re-created when it lies on the kept side, and `v2v[i]` gets its new id. */
    method KeepVertexAt(v2v: array<int>, vs: seq<Vec3>, ns: seq<Vec3>, us: seq<Vec2>, plane: Plane,
                        distance: (Plane, Vec3) -> real, ghost mask: seq<bool>, i: nat)
      requires mask == Mask(vs, plane, distance) && i < |vs| == |ns| == |us| == v2v.Length
      requires Valid() && triangles == [] && vertexCapacity == |vs|
      requires vertices == CompactUpTo(vs, mask, i) && normals == CompactUpTo(ns, mask, i)
      requires uvs == CompactUpTo(us, mask, i)
      requires v2v[..] == Renumber(mask)[..i] + Fill(-1, |vs| - i)
      modifies this, v2v
      ensures Valid() && triangles == [] && vertexCapacity == |vs| && triangleCapacity == old(triangleCapacity)
      ensures vertices == CompactUpTo(vs, mask, i + 1) && normals == CompactUpTo(ns, mask, i + 1)
      ensures uvs == CompactUpTo(us, mask, i + 1)
      ensures v2v[..] == Renumber(mask)[..i + 1] + Fill(-1, |vs| - (i + 1))
    {
      CompactUpToLength(vs, mask, i);
      assert mask[i] == (distance(plane, vs[i]) >= 0.0);
      RenumberPrefixNext(mask, i, v2v[..]);
      if distance(plane, vs[i]) >= 0.0 {
        v2v[i] := CreateVertex(vs[i], ns[i], us[i]);
      }
    }

    /** The body of `Slice`'s second loop for the source triangle `a, b, c`: kept
        whole, dropped, or cut into a fan. */
    method SliceTriangleAt(v2v: seq<int>, ghost src: Mesh, vs: seq<Vec3>, ns: seq<Vec3>, a: int, b: int, c: int,
                           plane: Plane, intersect: (Plane, Vec3, Vec3) -> Hit, slerp: (Vec3, Vec3, real) -> Vec3)
      requires Valid() && src.vertices == vs && src.normals == ns && |ns| == |vs| == |v2v|
      requires 0 <= a < |vs| && 0 <= b < |vs| && 0 <= c < |vs|
      modifies this
      ensures Valid() && Model() == SliceTriangle(old(Model()), src, v2v, a, b, c, plane, intersect, slerp)
      ensures CapacityFollows(old(vertexCapacity), old(|vertices|), vertexCapacity, |vertices|)
      ensures CapacityFollows(old(triangleCapacity), old(|triangles|), triangleCapacity, |triangles|)
    {
      var st := (if v2v[a] < 0 then 0 else 1) + (if v2v[b] < 0 then 0 else 2) + (if v2v[c] < 0 then 0 else 4);
      if st == 0 {
        return;
      }
      if st == 7 {
        MakeTriangle(v2v[a], v2v[b], v2v[c]);
        return;
      }
      var ab := intersect(plane, vs[a], vs[b]);
      var bc := intersect(plane, vs[b], vs[c]);
      var ca := intersect(plane, vs[c], vs[a]);
      var nvs := CutAt([], v2v, src, vs, ns, a, b, ab, plane, intersect, slerp);
      nvs := CutAt(nvs, v2v, src, vs, ns, b, c, bc, plane, intersect, slerp);
      nvs := CutAt(nvs, v2v, src, vs, ns, c, a, ca, plane, intersect, slerp);
      MakeFan(nvs);
    }

    /** Corner `x` and edge `x`-`y` of a straddling triangle in `Slice`, with the
        crossing `h` of the edge: the corner's new id joins the ring `nvs` when it
        survived, and a vertex created at a crossing strictly inside the edge joins
        it next. */
    method CutAt(nvs: seq<int>, v2v: seq<int>, ghost src: Mesh, vs: seq<Vec3>, ns: seq<Vec3>, x: int, y: int, h: Hit,
                 plane: Plane, intersect: (Plane, Vec3, Vec3) -> Hit, slerp: (Vec3, Vec3, real) -> Vec3)
      returns (ring: seq<int>)
      requires Valid() && src.vertices == vs && src.normals == ns && |ns| == |vs| == |v2v|
      requires 0 <= x < |vs| && 0 <= y < |vs| && h == intersect(plane, vs[x], vs[y])
      modifies this
      ensures Valid() && Cut(Model(), ring) == CutCorner(Cut(old(Model()), nvs), src, v2v, x, y, plane, intersect, slerp)
      ensures CapacityFollows(old(vertexCapacity), old(|vertices|), vertexCapacity, |vertices|)
      ensures triangleCapacity == old(triangleCapacity)
    {
      ring := nvs;
      if !(v2v[x] < 0) {
        ring := ring + [v2v[x]];
      }
      if h.hit && (h.t > 0.0 && h.t < 1.0) {
        var vi := CreateVertexWithoutUV(h.point, slerp(ns[x], ns[y], h.t));
        ring := ring + [vi];
      }
    }
  }
}
