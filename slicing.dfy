/** Half-space slicing and selection. Slicing keeps the vertices on the
    non-negative side of a plane, renumbered in their old order, keeps every
    triangle whose corners all survive, drops every triangle whose corners are all
    cut away, and re-triangulates every triangle that straddles the plane as a fan
    over its surviving corners and the points where its edges cross the plane. */
module Slicing {
  import opened Geometry
  import opened Meshes

  /** Which vertices lie on the kept side of `plane`. */
  function Mask(vs: seq<Vec3>, plane: Plane, distance: (Plane, Vec3) -> real): (r: seq<bool>)
    ensures |r| == |vs|
  {
    seq(|vs|, i requires 0 <= i < |vs| => Keep(distance, plane, vs[i]))
  }

  /** The number of set entries of `mask`. */
  function CountKept(mask: seq<bool>): (r: nat)
    ensures r <= |mask|
  {
    if mask == [] then 0 else CountKept(mask[..|mask| - 1]) + (if mask[|mask| - 1] then 1 else 0)
  }

  /** The entries of `xs` whose mask entry is set, in their order. */
  function Compact<T>(xs: seq<T>, mask: seq<bool>): (r: seq<T>)
    requires |mask| == |xs|
    ensures |r| == CountKept(mask)
  {
    if xs == [] then []
    else Compact(xs[..|xs| - 1], mask[..|xs| - 1]) + (if mask[|xs| - 1] then [xs[|xs| - 1]] else [])
  }

  /** The new id of each old vertex: the number of kept vertices before it, or -1
      when it is cut away. */
  function Renumber(mask: seq<bool>): (r: seq<int>)
    ensures |r| == |mask|
  {
    seq(|mask|, i requires 0 <= i < |mask| => if mask[i] then CountKept(mask[..i]) else -1)
  }

  /** The slicing case of a triangle: bit 0, 1 and 2 are set when corner 0, 1 and 2
      survive. */
  function CaseCode(k0: bool, k1: bool, k2: bool): (st: int)
    ensures 0 <= st < 8
    ensures st == 0 <==> !k0 && !k1 && !k2
    ensures st == 7 <==> k0 && k1 && k2
    ensures (st % 2 == 1 <==> k0) && (st / 2 % 2 == 1 <==> k1) && (st / 4 == 1 <==> k2)
  {
    (if k0 then 1 else 0) + (if k1 then 2 else 0) + (if k2 then 4 else 0)
  }

  /** A triangle being re-triangulated: the mesh so far and the ring of ids
      collected for the triangle. */
  datatype Cut = Cut(mesh: Mesh, ring: seq<int>)

  /** Corner `x` and edge `x`-`y` of a straddling triangle: the corner's new id
      joins the ring when it survived; when the edge meets the plane strictly
      inside, a vertex is created at the crossing, with the interpolated normal and
      the default uv, and joins the ring. */
  function CutCorner(c: Cut, src: Mesh, v2v: seq<int>, x: int, y: int, plane: Plane,
                     intersect: (Plane, Vec3, Vec3) -> Hit, slerp: (Vec3, Vec3, real) -> Vec3): Cut
    requires 0 <= x < |src.vertices| && 0 <= y < |src.vertices| && |src.normals| == |src.vertices| == |v2v|
  {
    var ring := if v2v[x] < 0 then c.ring else c.ring + [v2v[x]];
    var h := intersect(plane, src.vertices[x], src.vertices[y]);
    if h.hit && Inside01(h.t) then
      Cut(AppendVertex(c.mesh, h.point, slerp(src.normals[x], src.normals[y], h.t), EmptyUV), ring + [|c.mesh.vertices|])
    else
      Cut(c.mesh, ring)
  }

  /** One source triangle `a, b, c` sliced into `m`, with the old-to-new id map `v2v`. */
  function SliceTriangle(m: Mesh, src: Mesh, v2v: seq<int>, a: int, b: int, c: int, plane: Plane,
                         intersect: (Plane, Vec3, Vec3) -> Hit, slerp: (Vec3, Vec3, real) -> Vec3): Mesh
    requires 0 <= a < |src.vertices| && 0 <= b < |src.vertices| && 0 <= c < |src.vertices|
    requires |src.normals| == |src.vertices| == |v2v|
  {
    var st := CaseCode(v2v[a] >= 0, v2v[b] >= 0, v2v[c] >= 0);
    if st == 0 then m
    else if st == 7 then AppendIndices(m, [v2v[a], v2v[b], v2v[c]])
    else
      var c1 := CutCorner(Cut(m, []), src, v2v, a, b, plane, intersect, slerp);
      var c2 := CutCorner(c1, src, v2v, b, c, plane, intersect, slerp);
      var c3 := CutCorner(c2, src, v2v, c, a, plane, intersect, slerp);
      AppendIndices(c3.mesh, FanIndices(c3.ring))
  }

  /** The first `k` source triangles sliced into `m`, in order. */
  function SliceTriangles(m: Mesh, src: Mesh, v2v: seq<int>, k: nat, plane: Plane,
                          intersect: (Plane, Vec3, Vec3) -> Hit, slerp: (Vec3, Vec3, real) -> Vec3): Mesh
    requires 3 * k <= |src.triangles| && src.Indexed() && |src.normals| == |src.vertices| == |v2v|
    decreases k, 1
  {
    if k == 0 then m else SliceNth(m, src, v2v, k - 1, plane, intersect, slerp)
  }

  /** Source triangle `i` sliced into the result of the ones before it. */
  function SliceNth(m: Mesh, src: Mesh, v2v: seq<int>, i: nat, plane: Plane,
                    intersect: (Plane, Vec3, Vec3) -> Hit, slerp: (Vec3, Vec3, real) -> Vec3): Mesh
    requires 3 * i + 3 <= |src.triangles| && src.Indexed() && |src.normals| == |src.vertices| == |v2v|
    decreases i + 1, 0
  {
    var t := 3 * i;
    SliceTriangle(SliceTriangles(m, src, v2v, i, plane, intersect, slerp), src, v2v,
                  src.triangles[t], src.triangles[t + 1], src.triangles[t + 2], plane, intersect, slerp)
  }

  /** One more source triangle sliced: what the body of `Slice`'s second loop
      does once. */
  lemma SliceTrianglesNext(m: Mesh, src: Mesh, v2v: seq<int>, k: nat, plane: Plane,
                           intersect: (Plane, Vec3, Vec3) -> Hit, slerp: (Vec3, Vec3, real) -> Vec3,
                           cur: Mesh, a: int, b: int, c: int)
    requires 3 * k + 3 <= |src.triangles| && src.Indexed() && |src.normals| == |src.vertices| == |v2v|
    requires cur == SliceTriangles(m, src, v2v, k, plane, intersect, slerp)
    requires a == src.triangles[3 * k] && b == src.triangles[3 * k + 1] && c == src.triangles[3 * k + 2]
    ensures 0 <= a < |src.vertices| && 0 <= b < |src.vertices| && 0 <= c < |src.vertices|
    ensures SliceTriangles(m, src, v2v, k + 1, plane, intersect, slerp)
      == SliceTriangle(cur, src, v2v, a, b, c, plane, intersect, slerp)
  {
  }

  /** The mesh `src` sliced by `plane`: the kept vertices first, in their old order,
      then every triangle sliced in turn. */
  function Sliced(src: Mesh, plane: Plane, distance: (Plane, Vec3) -> real,
                  intersect: (Plane, Vec3, Vec3) -> Hit, slerp: (Vec3, Vec3, real) -> Vec3): Mesh
    requires src.Parallel() && src.Indexed()
  {
    var mask := Mask(src.vertices, plane, distance);
    var kept := Mesh(Compact(src.vertices, mask), Compact(src.normals, mask), Compact(src.uvs, mask), []);
    SliceTriangles(kept, src, Renumber(mask), |src.triangles| / 3, plane, intersect, slerp)
  }

  /** The ids of the vertices on the kept side of `plane`, ascending. */
  function KeptIds(vs: seq<Vec3>, plane: Plane, distance: (Plane, Vec3) -> real): seq<int>
  {
    if vs == [] then []
    else KeptIds(vs[..|vs| - 1], plane, distance) + (if Keep(distance, plane, vs[|vs| - 1]) then [|vs| - 1] else [])
  }

  /** The entries of `xs[..n]` whose mask entry is set: `Compact` of the first `n`
      entries, built front to back as `Slice`'s first loop builds it. */
  function CompactUpTo<T>(xs: seq<T>, mask: seq<bool>, n: nat): seq<T>
    requires n <= |xs| == |mask|
  {
    if n == 0 then [] else CompactUpTo(xs, mask, n - 1) + (if mask[n - 1] then [xs[n - 1]] else [])
  }

  /** Building front to back compacts the prefix. */
  lemma {:induction false} CompactUpToPrefix<T>(xs: seq<T>, mask: seq<bool>, n: nat)
    requires n <= |xs| == |mask|
    ensures CompactUpTo(xs, mask, n) == Compact(xs[..n], mask[..n])
  {
    if n > 0 {
      CompactUpToPrefix(xs, mask, n - 1);
      assert xs[..n][..n - 1] == xs[..n - 1] && mask[..n][..n - 1] == mask[..n - 1];
    }
  }

  /** Front to back, the kept entries so far are counted by `CountKept`. */
  lemma {:induction false} CompactUpToLength<T>(xs: seq<T>, mask: seq<bool>, n: nat)
    requires n <= |xs| == |mask|
    ensures |CompactUpTo(xs, mask, n)| == CountKept(mask[..n])
  {
    if n > 0 {
      CompactUpToLength(xs, mask, n - 1);
      assert mask[..n][..n - 1] == mask[..n - 1];
    }
  }

  /** Built to the end, it is `Compact`. */
  lemma CompactUpToAll<T>(xs: seq<T>, mask: seq<bool>)
    requires |xs| == |mask|
    ensures CompactUpTo(xs, mask, |xs|) == Compact(xs, mask)
  {
    CompactUpToPrefix(xs, mask, |xs|);
    assert xs[..|xs|] == xs && mask[..|xs|] == mask;
  }

  /** The id map while `Slice` re-creates vertices: entries before `i` renumbered,
      the rest still -1. One more vertex writes its new id when it is kept and
      leaves the -1 otherwise. */
  lemma RenumberPrefixNext(mask: seq<bool>, i: nat, v2v: seq<int>)
    requires i < |mask| && v2v == Renumber(mask)[..i] + Fill(-1, |mask| - i)
    ensures i < |v2v| && v2v[i] == -1
    ensures mask[i] ==> v2v[i := CountKept(mask[..i])] == Renumber(mask)[..i + 1] + Fill(-1, |mask| - (i + 1))
    ensures !mask[i] ==> v2v == Renumber(mask)[..i + 1] + Fill(-1, |mask| - (i + 1))
  {
    var next := Renumber(mask)[..i + 1] + Fill(-1, |mask| - (i + 1));
    if mask[i] {
      assert forall k :: 0 <= k < |mask| ==> v2v[i := CountKept(mask[..i])][k] == next[k];
    } else {
      assert forall k :: 0 <= k < |mask| ==> v2v[k] == next[k];
    }
  }

  // ---------------------------------------------------------------------------
  // Renumbering

  /** Kept entries before position `j` include those before `i <= j`, and one more
      when entry `i` itself is kept and `i < j`. */
  lemma {:induction false} CountKeptGrows(mask: seq<bool>, i: nat, j: nat)
    requires i <= j <= |mask|
    ensures CountKept(mask[..j]) >= CountKept(mask[..i]) + (if i < j && mask[i] then 1 else 0)
  {
    if i < j {
      CountKeptGrows(mask, i, j - 1);
      assert mask[..j][..j - 1] == mask[..j - 1];
      if i == j - 1 {
        assert mask[..j][j - 1] == mask[i];
      }
    }
  }

  /** The new id of a kept vertex is its position in the compacted list, and
      every vertex that is cut away is mapped to -1. */
  lemma {:induction false} RenumberMeaning<T>(xs: seq<T>, mask: seq<bool>, i: nat)
    requires |xs| == |mask| && i < |mask|
    ensures Renumber(mask)[i] < 0 <==> !mask[i]
    ensures !mask[i] ==> Renumber(mask)[i] == -1
    ensures mask[i] ==> Renumber(mask)[i] < |Compact(xs, mask)| && Compact(xs, mask)[Renumber(mask)[i]] == xs[i]
  {
    var n := |xs|;
    var front, fmask := xs[..n - 1], mask[..n - 1];
    assert Compact(xs, mask) == Compact(front, fmask) + (if mask[n - 1] then [xs[n - 1]] else []);
    if mask[i] {
      if i == n - 1 {
        assert fmask == mask[..i];
      } else {
        RenumberMeaning(front, fmask, i);
        assert fmask[..i] == mask[..i];
      }
    }
  }

  /** Kept vertices keep their relative order. */
  lemma RenumberAscending(mask: seq<bool>, i: nat, j: nat)
    requires i < j < |mask| && mask[i] && mask[j]
    ensures 0 <= Renumber(mask)[i] < Renumber(mask)[j]
  {
    CountKeptGrows(mask, i, j);
  }

  /** Every id of the compacted list is the new id of some kept vertex. */
  lemma {:induction false} RenumberOnto(mask: seq<bool>, k: nat)
    requires k < CountKept(mask)
    ensures exists i :: 0 <= i < |mask| && mask[i] && Renumber(mask)[i] == k
  {
    var n := |mask|;
    var fmask := mask[..n - 1];
    if k < CountKept(fmask) {
      RenumberOnto(fmask, k);
      var i :| 0 <= i < |fmask| && fmask[i] && Renumber(fmask)[i] == k;
      assert fmask[..i] == mask[..i];
      assert Renumber(mask)[i] == k;
    } else {
      assert fmask == mask[..n - 1];
      assert mask[n - 1] && Renumber(mask)[n - 1] == k;
    }
  }

  /** The renumbering maps into the compacted list: every entry is -1 or a new id
      below the number of kept vertices. */
  lemma RenumberBelow(mask: seq<bool>)
    ensures forall i :: 0 <= i < |mask| ==> -1 <= Renumber(mask)[i] < CountKept(mask)
  {
    forall i | 0 <= i < |mask|
      ensures -1 <= Renumber(mask)[i] < CountKept(mask)
    {
      CountKeptGrows(mask, i, |mask|);
      assert mask[..|mask|] == mask;
    }
  }

  // ---------------------------------------------------------------------------
  // Slicing

  /** `r` holds `m`'s lists as prefixes, and every vertex appended after them has
      the default uv. */
  predicate Extends(m: Mesh, r: Mesh)
  {
    && m.vertices <= r.vertices && m.normals <= r.normals && m.uvs <= r.uvs && m.triangles <= r.triangles
    && forall k :: |m.uvs| <= k < |r.uvs| ==> r.uvs[k] == EmptyUV
  }

  /** All entries of `v2v` are -1 or ids below `n`. */
  predicate MapsBelow(v2v: seq<int>, n: int)
  {
    forall i :: 0 <= i < |v2v| ==> -1 <= v2v[i] < n
  }

  /** A corner step only appends, and its ring names vertices of its mesh. */
  lemma CutCornerExtends(c: Cut, src: Mesh, v2v: seq<int>, x: int, y: int, plane: Plane,
                         intersect: (Plane, Vec3, Vec3) -> Hit, slerp: (Vec3, Vec3, real) -> Vec3)
    requires 0 <= x < |src.vertices| && 0 <= y < |src.vertices| && |src.normals| == |src.vertices| == |v2v|
    requires c.mesh.Parallel() && MapsBelow(v2v, |c.mesh.vertices|) && IndicesBelow(c.ring, |c.mesh.vertices|)
    ensures var r := CutCorner(c, src, v2v, x, y, plane, intersect, slerp);
      && r.mesh.Parallel() && Extends(c.mesh, r.mesh) && r.mesh.triangles == c.mesh.triangles
      && MapsBelow(v2v, |r.mesh.vertices|) && IndicesBelow(r.ring, |r.mesh.vertices|)
      && |r.ring| <= |c.ring| + 2
  {
  }

  /** `Extends` is transitive. */
  lemma ExtendsTrans(m0: Mesh, m1: Mesh, m2: Mesh)
    requires m0.Parallel() && m1.Parallel() && Extends(m0, m1) && Extends(m1, m2)
    ensures Extends(m0, m2)
  {
    forall k | |m0.uvs| <= k < |m2.uvs|
      ensures m2.uvs[k] == EmptyUV
    {
      if k < |m1.uvs| {
        assert m2.uvs[k] == m1.uvs[k];
      }
    }
  }

  /** The three corner steps of a straddling triangle together only append, and
      collect a ring of at most six ids of the grown mesh. */
  lemma CutRingExtends(m: Mesh, src: Mesh, v2v: seq<int>, a: int, b: int, c: int, plane: Plane,
                       intersect: (Plane, Vec3, Vec3) -> Hit, slerp: (Vec3, Vec3, real) -> Vec3)
    requires 0 <= a < |src.vertices| && 0 <= b < |src.vertices| && 0 <= c < |src.vertices|
    requires |src.normals| == |src.vertices| == |v2v|
    requires m.Parallel() && MapsBelow(v2v, |m.vertices|)
    ensures var c1 := CutCorner(Cut(m, []), src, v2v, a, b, plane, intersect, slerp);
      var c2 := CutCorner(c1, src, v2v, b, c, plane, intersect, slerp);
      var c3 := CutCorner(c2, src, v2v, c, a, plane, intersect, slerp);
      && c3.mesh.Parallel() && Extends(m, c3.mesh) && c3.mesh.triangles == m.triangles
      && MapsBelow(v2v, |c3.mesh.vertices|) && IndicesBelow(c3.ring, |c3.mesh.vertices|)
      && |c3.mesh.vertices| <= |m.vertices| + 3
  {
    var c0 := Cut(m, []);
    var c1 := CutCorner(c0, src, v2v, a, b, plane, intersect, slerp);
    CutCornerExtends(c0, src, v2v, a, b, plane, intersect, slerp);
    var c2 := CutCorner(c1, src, v2v, b, c, plane, intersect, slerp);
    CutCornerExtends(c1, src, v2v, b, c, plane, intersect, slerp);
    var c3 := CutCorner(c2, src, v2v, c, a, plane, intersect, slerp);
    CutCornerExtends(c2, src, v2v, c, a, plane, intersect, slerp);
    ExtendsTrans(m, c1.mesh, c2.mesh);
    ExtendsTrans(m, c2.mesh, c3.mesh);
  }

  /** Slicing one triangle only appends, keeps the mesh well-formed, and adds at
      most three vertices. */
  lemma SliceTriangleExtends(m: Mesh, src: Mesh, v2v: seq<int>, a: int, b: int, c: int, plane: Plane,
                             intersect: (Plane, Vec3, Vec3) -> Hit, slerp: (Vec3, Vec3, real) -> Vec3)
    requires 0 <= a < |src.vertices| && 0 <= b < |src.vertices| && 0 <= c < |src.vertices|
    requires |src.normals| == |src.vertices| == |v2v|
    requires m.Parallel() && m.Indexed() && MapsBelow(v2v, |m.vertices|)
    ensures var r := SliceTriangle(m, src, v2v, a, b, c, plane, intersect, slerp);
      && r.Parallel() && r.Indexed() && Extends(m, r) && MapsBelow(v2v, |r.vertices|)
      && |r.vertices| <= |m.vertices| + 3
  {
    var st := CaseCode(v2v[a] >= 0, v2v[b] >= 0, v2v[c] >= 0);
    if st == 7 {
      assert IndicesBelow([v2v[a], v2v[b], v2v[c]], |m.vertices|);
    } else if st != 0 {
      var c1 := CutCorner(Cut(m, []), src, v2v, a, b, plane, intersect, slerp);
      var c2 := CutCorner(c1, src, v2v, b, c, plane, intersect, slerp);
      var c3 := CutCorner(c2, src, v2v, c, a, plane, intersect, slerp);
      CutRingExtends(m, src, v2v, a, b, c, plane, intersect, slerp);
      assert IndicesBelow(FanIndices(c3.ring), |c3.mesh.vertices|) by {
        FanIndicesBelow(c3.ring, |c3.mesh.vertices|);
      }
      FanWhole(c3.ring);
    }
  }

  /** Slicing any number of triangles only appends and keeps the mesh well-formed. */
  lemma {:induction false} SliceTrianglesExtends(m: Mesh, src: Mesh, v2v: seq<int>, k: nat, plane: Plane,
                                                 intersect: (Plane, Vec3, Vec3) -> Hit, slerp: (Vec3, Vec3, real) -> Vec3)
    requires 3 * k <= |src.triangles| && src.Indexed() && |src.normals| == |src.vertices| == |v2v|
    requires m.Parallel() && m.Indexed() && MapsBelow(v2v, |m.vertices|)
    ensures var r := SliceTriangles(m, src, v2v, k, plane, intersect, slerp);
      r.Parallel() && r.Indexed() && Extends(m, r) && MapsBelow(v2v, |r.vertices|)
  {
    if k > 0 {
      SliceTrianglesExtends(m, src, v2v, k - 1, plane, intersect, slerp);
      var p := SliceTriangles(m, src, v2v, k - 1, plane, intersect, slerp);
      var t := 3 * (k - 1);
      var a, b, c := src.triangles[t], src.triangles[t + 1], src.triangles[t + 2];
      SliceTrianglesNext(m, src, v2v, k - 1, plane, intersect, slerp, p, a, b, c);
      SliceTriangleExtends(p, src, v2v, a, b, c, plane, intersect, slerp);
      ExtendsTrans(m, p, SliceTriangle(p, src, v2v, a, b, c, plane, intersect, slerp));
    }
  }

  /** The sliced mesh is well-formed; it begins with exactly the kept vertices, with
      their normals and uvs, in their old order; every vertex created at a crossing
      has the default uv. */
  lemma SlicedShape(src: Mesh, plane: Plane, distance: (Plane, Vec3) -> real,
                    intersect: (Plane, Vec3, Vec3) -> Hit, slerp: (Vec3, Vec3, real) -> Vec3)
    requires src.Parallel() && src.Indexed()
    ensures var r := Sliced(src, plane, distance, intersect, slerp);
      var mask := Mask(src.vertices, plane, distance);
      && r.Parallel() && r.Indexed()
      && Compact(src.vertices, mask) <= r.vertices
      && Compact(src.normals, mask) <= r.normals
      && Compact(src.uvs, mask) <= r.uvs
      && forall k :: CountKept(mask) <= k < |r.uvs| ==> r.uvs[k] == EmptyUV
  {
    var mask := Mask(src.vertices, plane, distance);
    var kept := Mesh(Compact(src.vertices, mask), Compact(src.normals, mask), Compact(src.uvs, mask), []);
    RenumberBelow(mask);
    SliceTrianglesExtends(kept, src, Renumber(mask), |src.triangles| / 3, plane, intersect, slerp);
  }

  /** A triangle with no surviving corner is dropped, and one with three surviving
      corners is kept as the triangle of their new ids. */
  lemma SliceTriangleWhole(m: Mesh, src: Mesh, v2v: seq<int>, a: int, b: int, c: int, plane: Plane,
                           intersect: (Plane, Vec3, Vec3) -> Hit, slerp: (Vec3, Vec3, real) -> Vec3)
    requires 0 <= a < |src.vertices| && 0 <= b < |src.vertices| && 0 <= c < |src.vertices|
    requires |src.normals| == |src.vertices| == |v2v|
    ensures var r := SliceTriangle(m, src, v2v, a, b, c, plane, intersect, slerp);
      && (v2v[a] < 0 && v2v[b] < 0 && v2v[c] < 0 ==> r == m)
      && (v2v[a] >= 0 && v2v[b] >= 0 && v2v[c] >= 0 ==> r == AppendIndices(m, [v2v[a], v2v[b], v2v[c]]))
  {
  }

  /** A triangle with only corner `a` surviving, whose two edges at `a` cross the
      plane strictly inside and whose third edge does not, becomes one triangle:
      `a`'s new id and the two crossings, which are new vertices. */
  lemma SliceTriangleOneCorner(m: Mesh, src: Mesh, v2v: seq<int>, a: int, b: int, c: int, plane: Plane,
                               intersect: (Plane, Vec3, Vec3) -> Hit, slerp: (Vec3, Vec3, real) -> Vec3)
    requires 0 <= a < |src.vertices| && 0 <= b < |src.vertices| && 0 <= c < |src.vertices|
    requires |src.normals| == |src.vertices| == |v2v|
    requires v2v[a] >= 0 && v2v[b] < 0 && v2v[c] < 0
    requires var h := intersect(plane, src.vertices[a], src.vertices[b]); h.hit && Inside01(h.t)
    requires var h := intersect(plane, src.vertices[b], src.vertices[c]); !(h.hit && Inside01(h.t))
    requires var h := intersect(plane, src.vertices[c], src.vertices[a]); h.hit && Inside01(h.t)
    ensures var r := SliceTriangle(m, src, v2v, a, b, c, plane, intersect, slerp);
      var n := |m.vertices|;
      && |r.vertices| == n + 2
      && r.triangles == m.triangles + [v2v[a], n, n + 1]
  {
    var c1 := CutCorner(Cut(m, []), src, v2v, a, b, plane, intersect, slerp);
    var c2 := CutCorner(c1, src, v2v, b, c, plane, intersect, slerp);
    var c3 := CutCorner(c2, src, v2v, c, a, plane, intersect, slerp);
    assert c3.ring == [v2v[a], |m.vertices|, |m.vertices| + 1];
    FanShape(c3.ring);
  }

  /** A triangle with corners `a` and `b` surviving, whose two edges at `c` cross
      the plane strictly inside and whose edge `a`-`b` does not, becomes the quad of
      `a`'s and `b`'s new ids and the two crossings. */
  lemma SliceTriangleTwoCorners(m: Mesh, src: Mesh, v2v: seq<int>, a: int, b: int, c: int, plane: Plane,
                                intersect: (Plane, Vec3, Vec3) -> Hit, slerp: (Vec3, Vec3, real) -> Vec3)
    requires 0 <= a < |src.vertices| && 0 <= b < |src.vertices| && 0 <= c < |src.vertices|
    requires |src.normals| == |src.vertices| == |v2v|
    requires v2v[a] >= 0 && v2v[b] >= 0 && v2v[c] < 0
    requires var h := intersect(plane, src.vertices[a], src.vertices[b]); !(h.hit && Inside01(h.t))
    requires var h := intersect(plane, src.vertices[b], src.vertices[c]); h.hit && Inside01(h.t)
    requires var h := intersect(plane, src.vertices[c], src.vertices[a]); h.hit && Inside01(h.t)
    ensures var r := SliceTriangle(m, src, v2v, a, b, c, plane, intersect, slerp);
      var n := |m.vertices|;
      && |r.vertices| == n + 2
      && r.triangles == m.triangles + QuadIndices(v2v[a], v2v[b], n, n + 1)
  {
    var c1 := CutCorner(Cut(m, []), src, v2v, a, b, plane, intersect, slerp);
    var c2 := CutCorner(c1, src, v2v, b, c, plane, intersect, slerp);
    var c3 := CutCorner(c2, src, v2v, c, a, plane, intersect, slerp);
    var n := |m.vertices|;
    assert c1.ring == [v2v[a]] && c1.mesh == m;
    assert c2.ring == [v2v[a], v2v[b], n] && |c2.mesh.vertices| == n + 1;
    assert c3.ring == [v2v[a], v2v[b], n, n + 1];
    QuadIsFan(v2v[a], v2v[b], n, n + 1);
  }

  // ---------------------------------------------------------------------------
  // Selection

  /** The selected ids ascend strictly, and an id is selected exactly when it names
      a vertex on the kept side. */
  lemma {:induction false} KeptIdsMeaning(vs: seq<Vec3>, plane: Plane, distance: (Plane, Vec3) -> real)
    ensures forall k :: 0 <= k < |KeptIds(vs, plane, distance)| ==> 0 <= KeptIds(vs, plane, distance)[k] < |vs|
    ensures forall k, l :: 0 <= k < l < |KeptIds(vs, plane, distance)| ==> KeptIds(vs, plane, distance)[k] < KeptIds(vs, plane, distance)[l]
    ensures forall i :: i in KeptIds(vs, plane, distance) <==> 0 <= i < |vs| && Keep(distance, plane, vs[i])
  {
    if vs != [] {
      var front := vs[..|vs| - 1];
      KeptIdsMeaning(front, plane, distance);
      forall i | 0 <= i < |front|
        ensures Keep(distance, plane, front[i]) == Keep(distance, plane, vs[i])
      {
      }
    }
  }

  /** Selection lists, in order, the old ids of the vertices slicing keeps: the
      selected id at a kept vertex's new id is that vertex's old id. */
  lemma {:induction false} KeptIdsRenumber(vs: seq<Vec3>, plane: Plane, distance: (Plane, Vec3) -> real, i: nat)
    requires i < |vs| && Keep(distance, plane, vs[i])
    ensures |KeptIds(vs, plane, distance)| == CountKept(Mask(vs, plane, distance))
    ensures 0 <= Renumber(Mask(vs, plane, distance))[i] < |KeptIds(vs, plane, distance)|
    ensures KeptIds(vs, plane, distance)[Renumber(Mask(vs, plane, distance))[i]] == i
  {
    var ids := seq(|vs|, j => j);
    KeptIdsCompact(vs, plane, distance);
    RenumberMeaning(ids, Mask(vs, plane, distance), i);
  }

  /** Selection is the compaction of the ids `0 .. |vs| - 1` by the keep mask. */
  lemma {:induction false} KeptIdsCompact(vs: seq<Vec3>, plane: Plane, distance: (Plane, Vec3) -> real)
    ensures KeptIds(vs, plane, distance) == Compact(seq(|vs|, j => j), Mask(vs, plane, distance))
  {
    if vs != [] {
      var n := |vs|;
      KeptIdsCompact(vs[..n - 1], plane, distance);
      assert seq(n, j => j)[..n - 1] == seq(n - 1, j => j);
      assert Mask(vs, plane, distance)[..n - 1] == Mask(vs[..n - 1], plane, distance);
    }
  }
}
