/** Contour extrusion: `steps` rings of copies of a contour's vertices, each ring
    offset from the one before by a fixed step, with every pair of consecutive
    rings stitched by one quad per contour edge. */
module Extrusion {
  import opened Geometry
  import opened Meshes

  /** The elements of `xs` named by `ids`, in the order of `ids`. */
  function Gather<T>(xs: seq<T>, ids: seq<int>): (r: seq<T>)
    requires IndicesBelow(ids, |xs|)
    ensures |r| == |ids|
  {
    seq(|ids|, i requires 0 <= i < |ids| => xs[ids[i]])
  }

  /** Every position moved by `dv`. */
  function Translate(ps: seq<Vec3>, dv: Vec3): (r: seq<Vec3>)
    ensures |r| == |ps|
  {
    seq(|ps|, i requires 0 <= i < |ps| => Add(ps[i], dv))
  }

  /** `ps` moved `s` times by `dv`: the positions of ring `s - 1` of an extrusion of `ps`. */
  function Shifted(ps: seq<Vec3>, dv: Vec3, s: nat): (r: seq<Vec3>)
    ensures |r| == |ps|
  {
    if s == 0 then ps else Translate(Shifted(ps, dv, s - 1), dv)
  }

  /** The positions of the first `k` rings, ring after ring. */
  function Layers(ps: seq<Vec3>, dv: Vec3, k: nat): seq<Vec3>
  {
    if k == 0 then [] else Layers(ps, dv, k - 1) + Shifted(ps, dv, k)
  }

  /** `k` copies of `xs`, one after the other. */
  function Repeat<T>(xs: seq<T>, k: nat): seq<T>
  {
    if k == 0 then [] else Repeat(xs, k - 1) + xs
  }

  /** The quads joining ring `prev` to ring `next` along the contour edges
      `(i - 1, i)` for `i` from 1 below `k`: corners `prev[i - 1]`, `next[i - 1]`,
      `next[i]`, `prev[i]`. */
  function StitchUpTo(prev: seq<int>, next: seq<int>, k: nat): seq<int>
    requires |prev| == |next| && k <= |prev|
  {
    if k <= 1 then [] else StitchUpTo(prev, next, k - 1) + QuadIndices(prev[k - 2], next[k - 2], next[k - 1], prev[k - 1])
  }

  /** The ring made by step `k - 1` of an extrusion of `ring` on a mesh of `base`
      vertices (the contour itself before the first step): ids
      `base + (k - 1) * n .. base + k * n - 1`. */
  function LastRing(ring: seq<int>, base: int, k: nat): (r: seq<int>)
    ensures |r| == |ring|
  {
    if k == 0 then ring else RingIds(base + (k - 1) * |ring|, |ring|)
  }

  /** The quads of the first `k` steps: step `s` stitches ring `s - 1` to ring `s`. */
  function StitchAll(ring: seq<int>, base: int, k: nat): seq<int>
  {
    if k == 0 then []
    else StitchAll(ring, base, k - 1) + StitchUpTo(LastRing(ring, base, k - 1), LastRing(ring, base, k), |ring|)
  }

  /** The offset between consecutive rings: `direction / steps`. */
  function StepOffset(direction: Vec3, steps: int): Vec3
  {
    if steps > 0 then DivScalar(direction, steps as real) else direction
  }

  /** The mesh after `k` extrusion steps of `contour`, each moving the previous
      ring by `dv`: `k` rings of copies appended ring after ring (copies keep
      their original's normal and uv) and the quads stitching each ring to the
      one before. */
  function ExtrudedMesh(m: Mesh, contour: seq<int>, dv: Vec3, k: nat): Mesh
    requires IndicesBelow(contour, |m.vertices|) && |m.normals| == |m.uvs| == |m.vertices|
  {
    Mesh(m.vertices + Layers(Gather(m.vertices, contour), dv, k),
         m.normals + Repeat(Gather(m.normals, contour), k),
         m.uvs + Repeat(Gather(m.uvs, contour), k),
         m.triangles + StitchAll(contour, |m.vertices|, k))
  }

  /** The number of steps `Extrude` takes: none for `steps <= 0`. */
  function StepCount(steps: int): nat
  {
    if steps > 0 then steps else 0
  }

  /** Stitching `k` ring positions gives `k - 1` quads made only of ring ids. */
  lemma {:induction false} StitchLength(prev: seq<int>, next: seq<int>, k: nat)
    requires |prev| == |next| && k <= |prev|
    ensures |StitchUpTo(prev, next, k)| == if k == 0 then 0 else 6 * (k - 1)
    ensures forall n :: IndicesBelow(prev, n) && IndicesBelow(next, n) ==> IndicesBelow(StitchUpTo(prev, next, k), n)
  {
    if k > 1 {
      StitchLength(prev, next, k - 1);
    }
  }

  /** Every id of the quads stitching two rings is an id of one of the rings. */
  lemma {:induction false} StitchIds(prev: seq<int>, next: seq<int>, k: nat)
    requires |prev| == |next| && k <= |prev|
    ensures forall j :: 0 <= j < |StitchUpTo(prev, next, k)| ==>
      StitchUpTo(prev, next, k)[j] in prev || StitchUpTo(prev, next, k)[j] in next
  {
    if k > 1 {
      StitchIds(prev, next, k - 1);
    }
  }

  lemma GatherRing<T>(xs: seq<T>, ys: seq<T>)
    ensures IndicesBelow(RingIds(|xs|, |ys|), |xs + ys|)
    ensures Gather(xs + ys, RingIds(|xs|, |ys|)) == ys
  {
  }

  lemma {:induction false} LayersLength(ps: seq<Vec3>, dv: Vec3, k: nat)
    ensures |Layers(ps, dv, k)| == |ps| * k
  {
    if k > 0 {
      LayersLength(ps, dv, k - 1);
      assert |ps| * k == |ps| * (k - 1) + |ps|;
    }
  }

  lemma {:induction false} RepeatLength<T>(xs: seq<T>, k: nat)
    ensures |Repeat(xs, k)| == |xs| * k
  {
    if k > 0 {
      RepeatLength(xs, k - 1);
      assert |xs| * k == |xs| * (k - 1) + |xs|;
    }
  }

  /** `k` steps of a contour of `n` ids on a mesh of `base` vertices append `n * k`
      vertices and `(n - 1) * k` quads, and the last ring is `base + (k - 1) * n + i`
      for `i < n`. */
  lemma {:induction false} ExtrudedCounts(m: Mesh, contour: seq<int>, dv: Vec3, k: nat)
    requires m.Parallel() && IndicesBelow(contour, |m.vertices|)
    ensures var r := ExtrudedMesh(m, contour, dv, k);
      && |r.vertices| == |m.vertices| + |contour| * k
      && |r.triangles| == |m.triangles| + (if contour == [] then 0 else 6 * ((|contour| - 1) * k))
      && r.Parallel()
      && (k > 0 ==> LastRing(contour, |m.vertices|, k) == RingIds(|m.vertices| + (k - 1) * |contour|, |contour|))
      && IndicesBelow(LastRing(contour, |m.vertices|, k), |r.vertices|)
  {
    var n, base := |contour|, |m.vertices|;
    var r := ExtrudedMesh(m, contour, dv, k);
    var hi := base + n * k;
    assert |r.vertices| == hi && |r.normals| == hi && |r.uvs| == hi by {
      LayersLength(Gather(m.vertices, contour), dv, k);
      RepeatLength(Gather(m.normals, contour), k);
      RepeatLength(Gather(m.uvs, contour), k);
    }
    var q := if contour == [] then 0 else (n - 1) * k;
    assert |r.triangles| == |m.triangles| + 6 * q by {
      StitchAllLength(contour, base, k);
    }
    WholeTriangles(|m.triangles|, q);
    assert IndicesBelow(LastRing(contour, base, k), hi) by {
      LastRingBelow(contour, base, k, hi);
    }
  }

  /** Extruding keeps every index naming a vertex: the quads use only the
      contour and the rings the steps create. */
  lemma ExtrudedIndexed(m: Mesh, contour: seq<int>, dv: Vec3, k: nat)
    requires m.Parallel() && m.Indexed() && IndicesBelow(contour, |m.vertices|)
    ensures ExtrudedMesh(m, contour, dv, k).Indexed()
  {
    var base, hi := |m.vertices|, |m.vertices| + |contour| * k;
    assert |ExtrudedMesh(m, contour, dv, k).vertices| == hi by {
      LayersLength(Gather(m.vertices, contour), dv, k);
    }
    StitchAllWithin(contour, base, k, hi);
    BelowWeaken(m.triangles, base, hi);
    BelowConcat(m.triangles, StitchAll(contour, base, k), hi);
  }

  /** The quads of `k` steps: `6 * (n - 1)` indices per step. */
  lemma {:induction false} StitchAllLength(ring: seq<int>, base: int, k: nat)
    ensures |StitchAll(ring, base, k)| == if ring == [] then 0 else 6 * ((|ring| - 1) * k)
  {
    var n := |ring|;
    if k > 0 {
      StitchAllLength(ring, base, k - 1);
      StitchLength(LastRing(ring, base, k - 1), LastRing(ring, base, k), n);
      assert (n - 1) * k == (n - 1) * (k - 1) + (n - 1);
    }
  }

  /** Ring `k - 1` lies below the end of ring `k - 1`: the contour, or fresh ids. */
  lemma LastRingBelow(ring: seq<int>, base: int, k: nat, hi: int)
    requires IndicesBelow(ring, base) && hi == base + |ring| * k
    ensures IndicesBelow(LastRing(ring, base, k), hi)
  {
    var n := |ring|;
    if k > 0 && n > 0 {
      var start := base + (k - 1) * n;
      assert start + n == hi by { assert n * k == (k - 1) * n + n; }
      assert 0 <= ring[0] < base;
      assert LastRing(ring, base, k) == RingIds(start, n);
    }
  }

  lemma BelowWeaken(ts: seq<int>, lo: int, hi: int)
    requires IndicesBelow(ts, lo) && lo <= hi
    ensures IndicesBelow(ts, hi)
  {
  }

  lemma BelowConcat(ts: seq<int>, us: seq<int>, hi: int)
    requires IndicesBelow(ts, hi) && IndicesBelow(us, hi)
    ensures IndicesBelow(ts + us, hi)
  {
  }

  /** Every index of the quads of `k` steps names the contour or one of the
      `n * k` vertices the steps create. */
  lemma {:induction false} StitchAllWithin(ring: seq<int>, base: int, k: nat, hi: int)
    requires IndicesBelow(ring, base) && hi == base + |ring| * k
    ensures IndicesBelow(StitchAll(ring, base, k), hi)
  {
    if k > 0 {
      var n := |ring|;
      var lo := base + n * (k - 1);
      assert hi == lo + n by { assert n * k == n * (k - 1) + n; }
      StitchAllWithin(ring, base, k - 1, lo);
      BelowWeaken(StitchAll(ring, base, k - 1), lo, hi);
      var prev, next := LastRing(ring, base, k - 1), LastRing(ring, base, k);
      LastRingBelow(ring, base, k - 1, lo);
      BelowWeaken(prev, lo, hi);
      LastRingBelow(ring, base, k, hi);
      StitchLength(prev, next, n);
      BelowConcat(StitchAll(ring, base, k - 1), StitchUpTo(prev, next, n), hi);
    }
  }

  /** Ring `k - 1` of an extrusion is the contour or ids from `base` below the
      end of ring `k - 1`. */
  lemma LastRingIds(ring: seq<int>, base: int, k: nat, hi: int)
    requires hi == base + |ring| * k
    ensures forall x :: x in LastRing(ring, base, k) ==> x in ring || base <= x < hi
  {
    var n := |ring|;
    if k > 0 {
      var start := base + (k - 1) * n;
      assert start + n == hi by { assert n * k == (k - 1) * n + n; }
      assert base <= start by { MulLeq(0, n, k - 1); }
      forall x | x in LastRing(ring, base, k)
        ensures base <= x < hi
      {
        var i :| 0 <= i < n && RingIds(start, n)[i] == x;
      }
    }
  }

  /** Every index of the quads of `k` steps is an id of the contour or one of
      the `n * k` ids `base ..` the steps create. */
  lemma {:induction false} StitchAllIds(ring: seq<int>, base: int, k: nat)
    ensures forall j :: 0 <= j < |StitchAll(ring, base, k)| ==>
      StitchAll(ring, base, k)[j] in ring || base <= StitchAll(ring, base, k)[j] < base + |ring| * k
  {
    if k > 0 {
      var n := |ring|;
      var lo, hi := base + n * (k - 1), base + n * k;
      assert lo <= hi by { assert n * k == n * (k - 1) + n; }
      StitchAllIds(ring, base, k - 1);
      var prev, next := LastRing(ring, base, k - 1), LastRing(ring, base, k);
      StitchIds(prev, next, n);
      LastRingIds(ring, base, k - 1, lo);
      LastRingIds(ring, base, k, hi);
      var a, b := StitchAll(ring, base, k - 1), StitchUpTo(prev, next, n);
      assert StitchAll(ring, base, k) == a + b;
      forall j | 0 <= j < |a + b|
        ensures (a + b)[j] in ring || base <= (a + b)[j] < hi
      {
        if j < |a| {
          assert (a + b)[j] == a[j];
        } else {
          assert (a + b)[j] == b[j - |a|];
        }
      }
    }
  }

  /** After `k` repeats of the gathered ring appended to `xs`, the last ring
      gathers that ring again. */
  lemma {:induction false} RepeatLastRing<T>(xs: seq<T>, ring: seq<int>, k: nat)
    requires IndicesBelow(ring, |xs|)
    ensures IndicesBelow(LastRing(ring, |xs|, k), |xs + Repeat(Gather(xs, ring), k)|)
    ensures Gather(xs + Repeat(Gather(xs, ring), k), LastRing(ring, |xs|, k)) == Gather(xs, ring)
  {
    var ys := Gather(xs, ring);
    if k == 0 {
      assert xs + Repeat(ys, k) == xs;
    } else {
      var front := xs + Repeat(ys, k - 1);
      assert LastRing(ring, |xs|, k) == RingIds(|front|, |ys|) by {
        RepeatLength(ys, k - 1);
        assert |ring| * (k - 1) == (k - 1) * |ring|;
      }
      assert xs + Repeat(ys, k) == front + ys;
      GatherRing(front, ys);
    }
  }

  /** After `k` layers of the gathered ring appended to `vs`, the last ring
      gathers the ring's positions moved `k` times. */
  lemma {:induction false} LayersLastRing(vs: seq<Vec3>, ring: seq<int>, dv: Vec3, k: nat)
    requires IndicesBelow(ring, |vs|)
    ensures IndicesBelow(LastRing(ring, |vs|, k), |vs + Layers(Gather(vs, ring), dv, k)|)
    ensures Gather(vs + Layers(Gather(vs, ring), dv, k), LastRing(ring, |vs|, k)) == Shifted(Gather(vs, ring), dv, k)
  {
    var ps := Gather(vs, ring);
    if k == 0 {
      assert vs + Layers(ps, dv, k) == vs;
    } else {
      var front := vs + Layers(ps, dv, k - 1);
      var last := Shifted(ps, dv, k);
      assert LastRing(ring, |vs|, k) == RingIds(|front|, |last|) by {
        LayersLength(ps, dv, k - 1);
        assert |ring| * (k - 1) == (k - 1) * |ring|;
      }
      assert vs + Layers(ps, dv, k) == front + last;
      GatherRing(front, last);
    }
  }

  /** The last ring holds the contour's positions moved `k` times, with the
      contour's normals and uvs. */
  lemma ExtrudedLastRing(m: Mesh, contour: seq<int>, dv: Vec3, k: nat)
    requires m.Parallel() && IndicesBelow(contour, |m.vertices|)
    ensures var r := ExtrudedMesh(m, contour, dv, k);
      var last := LastRing(contour, |m.vertices|, k);
      && r.Parallel()
      && IndicesBelow(last, |r.vertices|)
      && Gather(r.vertices, last) == Shifted(Gather(m.vertices, contour), dv, k)
      && Gather(r.normals, last) == Gather(m.normals, contour)
      && Gather(r.uvs, last) == Gather(m.uvs, contour)
  {
    ExtrudedCounts(m, contour, dv, k);
    LayersLastRing(m.vertices, contour, dv, k);
    RepeatLastRing(m.normals, contour, k);
    RepeatLastRing(m.uvs, contour, k);
  }

  /** One more step appends the last ring's positions moved by `dv`. */
  lemma StepVertices(m: Mesh, contour: seq<int>, dv: Vec3, k: nat)
    requires m.Parallel() && IndicesBelow(contour, |m.vertices|)
    ensures var r := ExtrudedMesh(m, contour, dv, k);
      var last := LastRing(contour, |m.vertices|, k);
      && IndicesBelow(last, |r.vertices|)
      && ExtrudedMesh(m, contour, dv, k + 1).vertices == r.vertices + Translate(Gather(r.vertices, last), dv)
  {
    var ps := Gather(m.vertices, contour);
    var vs := m.vertices + Layers(ps, dv, k);
    LayersLastRing(m.vertices, contour, dv, k);
    var moved := Translate(Gather(vs, LastRing(contour, |m.vertices|, k)), dv);
    assert moved == Shifted(ps, dv, k + 1);
    assert m.vertices + (Layers(ps, dv, k) + moved) == vs + moved;
  }

  /** One more step appends the last ring's normals and uvs. */
  lemma StepAttributes(m: Mesh, contour: seq<int>, dv: Vec3, k: nat)
    requires m.Parallel() && IndicesBelow(contour, |m.vertices|)
    ensures var r := ExtrudedMesh(m, contour, dv, k);
      var last := LastRing(contour, |m.vertices|, k);
      && IndicesBelow(last, |r.normals|) && IndicesBelow(last, |r.uvs|)
      && ExtrudedMesh(m, contour, dv, k + 1).normals == r.normals + Gather(r.normals, last)
      && ExtrudedMesh(m, contour, dv, k + 1).uvs == r.uvs + Gather(r.uvs, last)
  {
    RepeatStep(m.normals, contour, k);
    RepeatStep(m.uvs, contour, k);
  }

  /** One more repeat appends what the last ring gathers. */
  lemma RepeatStep<T>(xs: seq<T>, ring: seq<int>, k: nat)
    requires IndicesBelow(ring, |xs|)
    ensures var ys := xs + Repeat(Gather(xs, ring), k);
      && IndicesBelow(LastRing(ring, |xs|, k), |ys|)
      && xs + Repeat(Gather(xs, ring), k + 1) == ys + Gather(ys, LastRing(ring, |xs|, k))
  {
    var g := Gather(xs, ring);
    RepeatLastRing(xs, ring, k);
    assert xs + Repeat(g, k + 1) == (xs + Repeat(g, k)) + g;
  }

  /** One more step appends the quads stitching the last ring to the new one,
      whose ids follow the mesh's vertices, and the new ring is the next last ring. */
  lemma StepTriangles(m: Mesh, contour: seq<int>, dv: Vec3, k: nat)
    requires m.Parallel() && IndicesBelow(contour, |m.vertices|)
    ensures var r := ExtrudedMesh(m, contour, dv, k);
      var next := RingIds(|r.vertices|, |contour|);
      && LastRing(contour, |m.vertices|, k + 1) == next
      && ExtrudedMesh(m, contour, dv, k + 1).triangles
         == r.triangles + StitchUpTo(LastRing(contour, |m.vertices|, k), next, |contour|)
  {
    LayersLength(Gather(m.vertices, contour), dv, k);
    assert |contour| * k == k * |contour|;
  }

  /** Room taken by step `si + 1` of `steps`, each of `n` vertices and `n - 1`
      quads, fits in what `n * steps` vertices and `2 * n * steps` triangles
      reserve. */
  lemma StepRoom(n: nat, si: nat, steps: nat)
    requires si < steps
    ensures n * si + n <= n * steps
    ensures 6 * ((n - 1) * si) + 6 * (n - 1) <= 3 * (n * steps * 2) || n == 0
  {
    MulLeq(si + 1, steps, n);
    if n > 0 {
      MulLeq(si + 1, steps, n - 1);
      MulLeq(n - 1, n, steps);
    }
  }

  /** The mesh after the first `i` positions of one extrusion step from the ring
      `prev`: the copies of `prev[0] .. prev[i - 1]` moved by `dv`, with their
      normals and uvs, and the quads joining the first `i - 1` edges of `prev` to
      their copies. */
  function RingStep(m: Mesh, prev: seq<int>, dv: Vec3, i: nat): Mesh
    requires i <= |prev| && IndicesBelow(prev, |m.vertices|) && |m.normals| == |m.uvs| == |m.vertices|
  {
    var ids := prev[..i];
    Mesh(m.vertices + Translate(Gather(m.vertices, ids), dv), m.normals + Gather(m.normals, ids),
         m.uvs + Gather(m.uvs, ids), m.triangles + StitchUpTo(prev, RingIds(|m.vertices|, |prev|), i))
  }

  lemma GatherSnoc<T>(xs: seq<T>, ids: seq<int>, i: nat)
    requires 0 < i <= |ids| && IndicesBelow(ids, |xs|)
    ensures IndicesBelow(ids[..i - 1], |xs|) && IndicesBelow(ids[..i], |xs|)
    ensures Gather(xs, ids[..i]) == Gather(xs, ids[..i - 1]) + [xs[ids[i - 1]]]
  {
  }

  lemma TranslateSnoc(ps: seq<Vec3>, p: Vec3, dv: Vec3)
    ensures Translate(ps + [p], dv) == Translate(ps, dv) + [Add(p, dv)]
  {
  }

  /** The first position of a step only copies `prev[0]`. */
  lemma RingStepFirst(m: Mesh, prev: seq<int>, dv: Vec3)
    requires 0 < |prev| && IndicesBelow(prev, |m.vertices|) && |m.normals| == |m.uvs| == |m.vertices|
    ensures var x := prev[0];
      RingStep(m, prev, dv, 1) == Mesh(m.vertices + [Add(m.vertices[x], dv)], m.normals + [m.normals[x]], m.uvs + [m.uvs[x]], m.triangles)
  {
    assert prev[..1] == [prev[0]];
    assert m.triangles + [] == m.triangles;
  }

  /** Position `i` of a step, past the first, appends one moved copy of `prev[i]`
      with its normal and uv, and the quad joining edge `(i - 1, i)` of `prev` to
      its copy: what the program's inner loop does once. */
  lemma RingStepNext(m: Mesh, prev: seq<int>, dv: Vec3, i: nat, cur: Mesh)
    requires 0 < i < |prev| && IndicesBelow(prev, |m.vertices|) && |m.normals| == |m.uvs| == |m.vertices|
    requires cur == RingStep(m, prev, dv, i)
    ensures |cur.vertices| == |cur.normals| == |cur.uvs| == |m.vertices| + i
    ensures |cur.triangles| == |m.triangles| + 6 * (i - 1)
    ensures var x := prev[i];
      RingStep(m, prev, dv, i + 1)
        == Mesh(cur.vertices + [Add(cur.vertices[x], dv)], cur.normals + [cur.normals[x]], cur.uvs + [cur.uvs[x]],
                cur.triangles + QuadIndices(prev[i - 1], |m.vertices| + i - 1, |m.vertices| + i, x))
  {
    var x, b, next := prev[i], |m.vertices|, RingStep(m, prev, dv, i + 1);
    var ids := RingIds(b, |prev|);
    assert |cur.triangles| == |m.triangles| + 6 * (i - 1) by { StitchLength(prev, ids, i); }
    assert next.vertices == cur.vertices + [Add(cur.vertices[x], dv)] by {
      RingStepVertices(m, prev, dv, i, cur.vertices);
    }
    assert next.normals == cur.normals + [cur.normals[x]] by { RingStepAttribute(m.normals, prev, i, cur.normals); }
    assert next.uvs == cur.uvs + [cur.uvs[x]] by { RingStepAttribute(m.uvs, prev, i, cur.uvs); }
    assert next.triangles == cur.triangles + QuadIndices(prev[i - 1], b + i - 1, b + i, x) by {
      StitchNext(m.triangles, prev, ids, cur.triangles, i + 1);
    }
  }

  lemma RingStepVertices(m: Mesh, prev: seq<int>, dv: Vec3, i: nat, vs: seq<Vec3>)
    requires i < |prev| && IndicesBelow(prev, |m.vertices|)
    requires vs == m.vertices + Translate(Gather(m.vertices, prev[..i]), dv)
    ensures prev[i] < |vs| && vs[prev[i]] == m.vertices[prev[i]]
    ensures vs + [Add(vs[prev[i]], dv)] == m.vertices + Translate(Gather(m.vertices, prev[..i + 1]), dv)
  {
    var x := prev[i];
    var moved := Translate(Gather(m.vertices, prev[..i]), dv);
    GatherSnoc(m.vertices, prev, i + 1);
    TranslateSnoc(Gather(m.vertices, prev[..i]), m.vertices[x], dv);
    assert m.vertices + moved + [Add(m.vertices[x], dv)] == m.vertices + (moved + [Add(m.vertices[x], dv)]);
  }

  lemma RingStepAttribute<T>(xs: seq<T>, prev: seq<int>, i: nat, ys: seq<T>)
    requires i < |prev| && IndicesBelow(prev, |xs|)
    requires ys == xs + Gather(xs, prev[..i])
    ensures prev[i] < |ys| && ys[prev[i]] == xs[prev[i]]
    ensures ys + [ys[prev[i]]] == xs + Gather(xs, prev[..i + 1])
  {
    var x := prev[i];
    GatherSnoc(xs, prev, i + 1);
    var g := Gather(xs, prev[..i]);
    assert xs + g + [xs[x]] == xs + (g + [xs[x]]);
  }

  /** One more edge of stitching appends its quad. */
  lemma StitchNext(ts: seq<int>, prev: seq<int>, next: seq<int>, before: seq<int>, i: nat)
    requires 1 < i <= |prev| == |next|
    requires before == ts + StitchUpTo(prev, next, i - 1)
    ensures before + QuadIndices(prev[i - 2], next[i - 2], next[i - 1], prev[i - 1]) == ts + StitchUpTo(prev, next, i)
  {
    var st := StitchUpTo(prev, next, i - 1);
    var q := QuadIndices(prev[i - 2], next[i - 2], next[i - 1], prev[i - 1]);
    assert ts + st + q == ts + (st + q);
  }

  /** A whole step appends the moved copies of the ring, with their normals and
      uvs, and the quads stitching the ring to its copies. */
  lemma RingStepWhole(m: Mesh, prev: seq<int>, dv: Vec3)
    requires IndicesBelow(prev, |m.vertices|) && |m.normals| == |m.uvs| == |m.vertices|
    ensures RingStep(m, prev, dv, |prev|)
      == Mesh(m.vertices + Translate(Gather(m.vertices, prev), dv),
              m.normals + Gather(m.normals, prev),
              m.uvs + Gather(m.uvs, prev),
              m.triangles + StitchUpTo(prev, RingIds(|m.vertices|, |prev|), |prev|))
  {
    assert prev[..|prev|] == prev;
  }

  /** The closed form is the program's iteration: step `k + 1` of an extrusion is
      one `RingStep` over the whole last ring, and leaves the copies as the last
      ring. */
  lemma ExtrudedByRingStep(m: Mesh, contour: seq<int>, dv: Vec3, k: nat)
    requires m.Parallel() && IndicesBelow(contour, |m.vertices|)
    ensures var r := ExtrudedMesh(m, contour, dv, k);
      var last := LastRing(contour, |m.vertices|, k);
      && r.Parallel() && IndicesBelow(last, |r.vertices|)
      && LastRing(contour, |m.vertices|, k + 1) == RingIds(|r.vertices|, |contour|)
      && ExtrudedMesh(m, contour, dv, k + 1) == RingStep(r, last, dv, |contour|)
  {
    var r := ExtrudedMesh(m, contour, dv, k);
    var last := LastRing(contour, |m.vertices|, k);
    ExtrudedCounts(m, contour, dv, k);
    StepVertices(m, contour, dv, k);
    StepAttributes(m, contour, dv, k);
    StepTriangles(m, contour, dv, k);
    RingStepWhole(r, last, dv);
  }
}
