/** The value a mesh buffer holds, and the index patterns its low-level operations
    append: a single triangle, a quad as two triangles, and a triangle fan. */
module Meshes {
  import opened Geometry

  /** Four growable lists: positions, normals and texture coordinates run in
      parallel and are indexed by vertex id; `triangles` is a flat index list
      with stride 3. */
  datatype Mesh = Mesh(vertices: seq<Vec3>, normals: seq<Vec3>, uvs: seq<Vec2>, triangles: seq<int>)
  {
    /** The attribute lists have one entry per vertex and the index list holds
        whole triangles. */
    predicate Parallel()
    {
      |vertices| == |normals| == |uvs| && |triangles| % 3 == 0
    }

    /** Every stored index names an existing vertex. */
    predicate Indexed()
    {
      IndicesBelow(triangles, |vertices|)
    }
  }

  const EmptyMesh := Mesh([], [], [], [])

  /** All of `ts` are vertex ids below `n`. */
  predicate IndicesBelow(ts: seq<int>, n: int)
  {
    forall k :: 0 <= k < |ts| ==> 0 <= ts[k] < n
  }

  /** All of `ts` lie in `lo .. hi - 1`. */
  predicate IndicesIn(ts: seq<int>, lo: int, hi: int)
  {
    forall k :: 0 <= k < |ts| ==> lo <= ts[k] < hi
  }

  /** The mesh after one vertex has been appended; its id is the old vertex count. */
  function AppendVertex(m: Mesh, v: Vec3, n: Vec3, u: Vec2): (r: Mesh)
    ensures |r.vertices| == |m.vertices| + 1
    ensures m.Parallel() ==> r.Parallel()
    ensures m.Indexed() ==> r.Indexed()
  {
    Mesh(m.vertices + [v], m.normals + [n], m.uvs + [u], m.triangles)
  }

  /** The mesh after the indices `ts` have been appended to its triangle list. */
  function AppendIndices(m: Mesh, ts: seq<int>): (r: Mesh)
    ensures m.Parallel() && |ts| % 3 == 0 ==> r.Parallel()
    ensures m.Indexed() && IndicesBelow(ts, |m.vertices|) ==> r.Indexed()
  {
    m.(triangles := m.triangles + ts)
  }

  /** A quad `a, b, c, d` as the triangles `(a, b, c)` and `(a, c, d)`. */
  function QuadIndices(a: int, b: int, c: int, d: int): seq<int>
  {
    [a, b, c, a, c, d]
  }

  /** The fan triangles `(ps[0], ps[i], ps[i + 1])` for `i` from 1 below `k`. */
  function FanUpTo(ps: seq<int>, k: nat): seq<int>
    requires k <= 1 || k < |ps|
  {
    if k <= 1 then [] else FanUpTo(ps, k - 1) + [ps[0], ps[k - 1], ps[k]]
  }

  /** The triangle fan around `ps[0]`: empty for fewer than three ids. */
  function FanIndices(ps: seq<int>): seq<int>
  {
    if |ps| < 3 then [] else FanUpTo(ps, |ps| - 1)
  }

  /** Fan triangle `j / 3` is `(ps[0], ps[j / 3 + 1], ps[j / 3 + 2])`. */
  lemma {:induction false} FanUpToShape(ps: seq<int>, k: nat)
    requires 1 <= k < |ps|
    ensures |FanUpTo(ps, k)| == 3 * (k - 1)
    ensures forall j :: 0 <= j < |FanUpTo(ps, k)| ==>
      FanUpTo(ps, k)[j] == (if j % 3 == 0 then ps[0] else if j % 3 == 1 then ps[j / 3 + 1] else ps[j / 3 + 2])
  {
    if k > 1 {
      FanUpToShape(ps, k - 1);
      var f := FanUpTo(ps, k);
      forall j | 3 * (k - 2) <= j < 3 * (k - 1)
        ensures f[j] == (if j % 3 == 0 then ps[0] else if j % 3 == 1 then ps[j / 3 + 1] else ps[j / 3 + 2])
      {
        assert j / 3 == k - 2;
      }
    }
  }

  /** A fan of `n` ids has `max(0, n - 2)` triangles; triangle `i` is
      `(ps[0], ps[i + 1], ps[i + 2])`. */
  lemma FanShape(ps: seq<int>)
    ensures |FanIndices(ps)| == if |ps| < 3 then 0 else 3 * (|ps| - 2)
    ensures forall j :: 0 <= j < |FanIndices(ps)| ==>
      FanIndices(ps)[j] == (if j % 3 == 0 then ps[0] else if j % 3 == 1 then ps[j / 3 + 1] else ps[j / 3 + 2])
  {
    if |ps| >= 3 {
      FanUpToShape(ps, |ps| - 1);
    }
  }

  /** A fan holds whole triangles. */
  lemma FanWhole(ps: seq<int>)
    ensures |FanIndices(ps)| % 3 == 0
  {
    FanShape(ps);
    var k := if |ps| < 3 then 0 else |ps| - 2;
    assert |FanIndices(ps)| == 3 * k;
  }

  /** A fan only uses the ids it was given. */
  lemma FanIds(ps: seq<int>)
    ensures forall j :: 0 <= j < |FanIndices(ps)| ==> FanIndices(ps)[j] in ps
  {
    FanShape(ps);
  }

  /** Ids below a bound stay below it in their fan. */
  lemma FanIndicesBelow(ps: seq<int>, n: int)
    requires IndicesBelow(ps, n)
    ensures IndicesBelow(FanIndices(ps), n)
  {
    FanShape(ps);
  }

  /** A quad is the fan of its four corners. */
  lemma QuadIsFan(a: int, b: int, c: int, d: int)
    ensures QuadIndices(a, b, c, d) == FanIndices([a, b, c, d])
  {
    FanShape([a, b, c, d]);
  }

  /** `n` copies of `x`. */
  function Fill<T>(x: T, n: nat): (r: seq<T>)
    ensures |r| == n
  {
    seq(n, _ => x)
  }

  /** One more copy of `x` at the end. */
  lemma FillGrow<T>(x: T, n: nat)
    ensures Fill(x, n) + [x] == Fill(x, n + 1)
  {
    var s := Fill(x, n) + [x];
    assert forall k :: 0 <= k < n + 1 ==> s[k] == x;
  }

  /** Copies of `x` concatenate. */
  lemma FillConcat<T>(x: T, a: nat, b: nat)
    ensures Fill(x, a) + Fill(x, b) == Fill(x, a + b)
  {
    var s := Fill(x, a) + Fill(x, b);
    assert forall k :: 0 <= k < a + b ==> s[k] == x;
  }

  /** The ids `base .. base + n - 1` of `n` vertices appended to a mesh of `base` vertices. */
  function RingIds(base: int, n: nat): (r: seq<int>)
    ensures |r| == n
  {
    seq(n, i => base + i)
  }

  /** The mesh after a flat face with corners `ps` has been added: one fresh vertex
      per corner, all with the normal `n`, with the uvs `us`, and the fan of the
      fresh ids. */
  function AddFace(m: Mesh, ps: seq<Vec3>, n: Vec3, us: seq<Vec2>): Mesh
  {
    Mesh(m.vertices + ps, m.normals + Fill(n, |ps|), m.uvs + us,
         m.triangles + FanIndices(RingIds(|m.vertices|, |ps|)))
  }

  /** Adding a face appends its corners, and its triangles use only its fresh
      vertices, so a well-formed mesh stays well-formed. */
  lemma AddFaceShape(m: Mesh, ps: seq<Vec3>, n: Vec3, us: seq<Vec2>)
    requires |us| == |ps|
    ensures var r := AddFace(m, ps, n, us);
      && |r.vertices| == |m.vertices| + |ps|
      && |r.triangles| == |m.triangles| + (if |ps| < 3 then 0 else 3 * (|ps| - 2))
      && r.triangles[..|m.triangles|] == m.triangles
      && IndicesIn(r.triangles[|m.triangles|..], |m.vertices|, |m.vertices| + |ps|)
      && (m.Parallel() ==> r.Parallel())
      && (m.Indexed() ==> r.Indexed())
  {
    var ids := RingIds(|m.vertices|, |ps|);
    FanShape(ids);
    assert AddFace(m, ps, n, us).triangles[|m.triangles|..] == FanIndices(ids);
    if m.Indexed() {
      assert IndicesBelow(ids, |m.vertices| + |ps|);
      FanIndicesBelow(ids, |m.vertices| + |ps|);
    }
  }

  /** Adding a triangle face is appending its three corners one by one and then
      the triangle over them. */
  lemma AddTriangleFace(m: Mesh, ps: seq<Vec3>, n: Vec3, us: seq<Vec2>)
    requires |ps| == 3 && |us| == 3
    ensures var b := |m.vertices|;
      AddFace(m, ps, n, us)
      == Mesh(m.vertices + [ps[0]] + [ps[1]] + [ps[2]], m.normals + [n] + [n] + [n],
              m.uvs + [us[0]] + [us[1]] + [us[2]], m.triangles + [b, b + 1, b + 2])
  {
    var b := |m.vertices|;
    var ids := RingIds(b, 3);
    assert FanIndices(ids) == [b, b + 1, b + 2] by {
      assert FanUpTo(ids, 2) == FanUpTo(ids, 1) + [b, b + 1, b + 2];
    }
    assert Fill(n, 3) == [n, n, n];
    assert ps == [ps[0], ps[1], ps[2]] && us == [us[0], us[1], us[2]];
  }

  /** Adding a quad face is appending its four corners one by one and then the
      quad over them. */
  lemma AddQuadFace(m: Mesh, ps: seq<Vec3>, n: Vec3, us: seq<Vec2>)
    requires |ps| == 4 && |us| == 4
    ensures var b := |m.vertices|;
      AddFace(m, ps, n, us)
      == Mesh(m.vertices + [ps[0]] + [ps[1]] + [ps[2]] + [ps[3]], m.normals + [n] + [n] + [n] + [n],
              m.uvs + [us[0]] + [us[1]] + [us[2]] + [us[3]], m.triangles + QuadIndices(b, b + 1, b + 2, b + 3))
  {
    var b := |m.vertices|;
    var ids := RingIds(b, 4);
    assert FanIndices(ids) == QuadIndices(b, b + 1, b + 2, b + 3) by {
      assert FanUpTo(ids, 2) == [b, b + 1, b + 2];
      assert FanUpTo(ids, 3) == FanUpTo(ids, 2) + [b, b + 2, b + 3];
    }
    assert Fill(n, 4) == [n, n, n, n];
    assert ps == [ps[0], ps[1], ps[2], ps[3]] && us == [us[0], us[1], us[2], us[3]];
  }

  /** Capacity of a growable list after one `Add` at `count` elements: unchanged
      while there is room, otherwise doubled (4 when it was 0). */
  function CapacityAfterAdd(capacity: nat, count: nat): (r: nat)
    requires count <= capacity
    ensures r >= capacity && r > count
    ensures count < capacity ==> r == capacity
  {
    if count < capacity then capacity else if capacity == 0 then 4 else 2 * capacity
  }

  /** How a growable list's capacity moves while `Add`s take it from `count` to
      `count' >= count` elements: it never shrinks, it holds every element, and it
      does not move while there was room. */
  predicate CapacityFollows(capacity: nat, count: nat, capacity': nat, count': nat)
  {
    count <= count' && capacity' >= capacity && capacity' >= count' && (count' <= capacity ==> capacity' == capacity)
  }

  /** Two stretches of `Add`s in a row are one stretch. */
  lemma CapacityFollowsTrans(c0: nat, n0: nat, c1: nat, n1: nat, c2: nat, n2: nat)
    requires CapacityFollows(c0, n0, c1, n1) && CapacityFollows(c1, n1, c2, n2)
    ensures CapacityFollows(c0, n0, c2, n2)
  {
  }

  /** Appending `q` quads keeps an index list of whole triangles whole. */
  lemma WholeTriangles(t: int, q: int)
    requires t % 3 == 0
    ensures (t + 6 * q) % 3 == 0
  {
    var k := t / 3;
    assert t == 3 * k;
    assert t + 6 * q == 3 * (k + 2 * q);
  }
}
