/** The rectangular grid ("plane") builder: where its vertices go and which quads
    connect them. A grid with step counts `(x, y)` has `x + 1` columns along the
    right axis, each of `rn = y + 1` vertices along the forward axis; grid vertex
    `(i, j)` is number `i * rn + j` of the grid. */
module Grids {
  import opened Geometry
  import opened Meshes

  /** Where a grid sits: its origin, its two axes and the spacing along each. */
  datatype GridFrame = GridFrame(origin: Vec3, right: Vec3, forward: Vec3, spacing: Vec2)

  /** The frame of a plane grid: its right axis is `normal x forward`, and its
      spacing is the grid size divided by the step counts (`divide` is that
      division, computed in floating point by the program). */
  function PlaneFrame(p: Plane, origin: Vec3, size: Vec2, step: Int2, forward: Vec3,
                      divide: (Vec2, Int2) -> Vec2): GridFrame
  {
    GridFrame(origin, Cross(p.normal, forward), forward, divide(size, step))
  }

  /** The step counts the plane builder completes with: both at least 0, or one of
      them -1 and the other at least 0. With a -1 the grid has neither vertices
      nor cells, and the count of cells is not positive. */
  lemma PlaneCounts(x: int, y: int)
    requires (x >= 0 && y >= -1) || (x >= -1 && y >= 0)
    ensures (x + 1) * (y + 1) >= 0
    ensures x < 0 || y < 0 ==> (x + 1) * (y + 1) == 0 && x * y <= 0
  {
    if x < 0 {
      assert x == -1;
    } else if y < 0 {
      assert y == -1;
    }
  }

  /** Position of grid vertex `(i, j)`: the column start `origin + i * right * spacing.x`,
      advanced `j` times by `forward * spacing.y`. */
  function GridPoint(f: GridFrame, i: nat, j: nat): Vec3
  {
    if j == 0 then Add(f.origin, Scale(Scale(f.right, i as real), f.spacing.x))
    else Add(GridPoint(f, i, j - 1), Scale(f.forward, f.spacing.y))
  }

  /** The first `j` positions of column `i`. */
  function ColumnPoints(f: GridFrame, i: nat, j: nat): seq<Vec3>
  {
    if j == 0 then [] else ColumnPoints(f, i, j - 1) + [GridPoint(f, i, j - 1)]
  }

  /** The positions of columns `0 .. i - 1`, each of `rn` vertices, column after column. */
  function GridPoints(f: GridFrame, i: nat, rn: nat): seq<Vec3>
  {
    if i == 0 then [] else GridPoints(f, i - 1, rn) + ColumnPoints(f, i - 1, rn)
  }

  /** The quad of grid cell `(i, j)`, whose first corner is grid vertex `vi = i * rn + j`:
      corners `vi`, `vi + 1`, `vi + 1 + rn`, `vi + rn`, offset by the id `base` of
      grid vertex 0. */
  function CellQuad(base: int, rn: int, i: int, j: int): seq<int>
  {
    var vi := base + i * rn + j;
    QuadIndices(vi, vi + 1, vi + 1 + rn, vi + rn)
  }

  /** The quads of cells `(i, 0) .. (i, j - 1)`. */
  function RowQuads(base: int, rn: int, i: int, j: nat): seq<int>
  {
    if j == 0 then [] else RowQuads(base, rn, i, j - 1) + CellQuad(base, rn, i, j - 1)
  }

  /** The quads of the `cells` cells of each of the columns `0 .. i - 1`. */
  function GridQuads(base: int, rn: int, i: nat, cells: nat): seq<int>
  {
    if i == 0 then [] else GridQuads(base, rn, i - 1, cells) + RowQuads(base, rn, i - 1, cells)
  }

  /** The quads of a grid of cells `cells` high emitted before cell `(ci, cj)`:
      all of columns `0 .. ci - 1`, then cells `(ci, 0) .. (ci, cj - 1)`. */
  function QuadsBefore(base: int, rn: int, cells: nat, ci: nat, cj: nat): seq<int>
  {
    GridQuads(base, rn, ci, cells) + RowQuads(base, rn, ci, cj)
  }

  /** The quads before the cell after `(ci, cj)` are those before `(ci, cj)` and
      the quad of `(ci, cj)` itself; the last cell of a column is followed by the
      first cell of the next. */
  lemma QuadsBeforeNext(prefix: seq<int>, base: int, rn: int, cells: nat, ci: nat, cj: nat)
    requires cj < cells
    ensures cj + 1 < cells ==>
      prefix + QuadsBefore(base, rn, cells, ci, cj + 1) == prefix + QuadsBefore(base, rn, cells, ci, cj) + CellQuad(base, rn, ci, cj)
    ensures cj + 1 == cells ==>
      prefix + QuadsBefore(base, rn, cells, ci + 1, 0) == prefix + QuadsBefore(base, rn, cells, ci, cj) + CellQuad(base, rn, ci, cj)
  {
    var g, row, q := GridQuads(base, rn, ci, cells), RowQuads(base, rn, ci, cj), CellQuad(base, rn, ci, cj);
    assert RowQuads(base, rn, ci, cj + 1) == row + q;
    if cj + 1 == cells {
      assert QuadsBefore(base, rn, cells, ci + 1, 0) == g + (row + q);
    }
  }

  /** Once the cursor has passed all `x * cells` cells it stands at the top of
      column `x`, and the quads before it are the whole grid. */
  lemma QuadsBeforeEnd(base: int, rn: int, x: nat, cells: nat, ci: nat, cj: nat)
    requires ci * cells + cj == x * cells && ci <= x && (ci == x ==> cj == 0)
    requires x * cells > 0 ==> cj < cells
    requires x * cells == 0 ==> ci == 0 && cj == 0
    ensures QuadsBefore(base, rn, cells, ci, cj) == GridQuads(base, rn, x, cells)
  {
    if x * cells == 0 {
      GridQuadsLength(base, rn, x, cells);
    } else {
      OffsetInColumn(ci, cj, cells);
      OffsetInColumn(x, 0, cells);
    }
  }

  /** Column `i` holds `j` positions, position `k` being grid vertex `(i, k)`. */
  lemma {:induction false} ColumnPointsAt(f: GridFrame, i: nat, j: nat)
    ensures |ColumnPoints(f, i, j)| == j
    ensures forall k :: 0 <= k < j ==> ColumnPoints(f, i, j)[k] == GridPoint(f, i, k)
  {
    if j > 0 {
      ColumnPointsAt(f, i, j - 1);
    }
  }

  /** A grid of `i` columns of `rn` vertices holds `i * rn` positions. */
  lemma {:induction false} GridPointsLength(f: GridFrame, i: nat, rn: nat)
    ensures |GridPoints(f, i, rn)| == i * rn
  {
    if i > 0 {
      GridPointsLength(f, i - 1, rn);
      ColumnPointsAt(f, i - 1, rn);
      assert i * rn == (i - 1) * rn + rn;
    }
  }

  /** The grid positions are laid out column after column: grid vertex `(ci, j)`
      is number `ci * rn + j`. */
  lemma {:induction false} GridPointAt(f: GridFrame, i: nat, rn: nat, ci: nat, j: nat)
    requires ci < i && j < rn
    ensures ci * rn + j < |GridPoints(f, i, rn)|
    ensures GridPoints(f, i, rn)[ci * rn + j] == GridPoint(f, ci, j)
  {
    GridPointsLength(f, i - 1, rn);
    GridPointsLength(f, i, rn);
    ColumnPointsAt(f, i - 1, rn);
    CellBelow(ci, j, rn, i);
    if ci < i - 1 {
      CellBelow(ci, j, rn, i - 1);
      GridPointAt(f, i - 1, rn, ci, j);
    }
  }

  /** Cell `(ci, j)` of a grid with `n` columns of `rn` vertices lies inside it. */
  lemma {:induction false} CellBelow(ci: nat, j: nat, rn: nat, n: nat)
    requires ci < n && j < rn
    ensures ci * rn + j < n * rn
  {
    MulLeq(ci + 1, n, rn);
  }

  /** Row `i` of `j` cells holds `6 * j` indices, cell `k` at offset `6 * k`. */
  lemma {:induction false} RowQuadsAt(base: int, rn: int, i: int, j: nat)
    ensures |RowQuads(base, rn, i, j)| == 6 * j
    ensures forall k :: 0 <= k < j ==> RowQuads(base, rn, i, j)[6 * k .. 6 * k + 6] == CellQuad(base, rn, i, k)
  {
    if j > 0 {
      RowQuadsAt(base, rn, i, j - 1);
      var prev := RowQuads(base, rn, i, j - 1);
      var r := RowQuads(base, rn, i, j);
      forall k | 0 <= k < j
        ensures r[6 * k .. 6 * k + 6] == CellQuad(base, rn, i, k)
      {
        if k < j - 1 {
          assert r[6 * k .. 6 * k + 6] == prev[6 * k .. 6 * k + 6];
        } else {
          assert r[6 * k .. 6 * k + 6] == r[|prev|..];
        }
      }
    }
  }

  /** A grid of `i` columns of `cells` cells emits `6 * i * cells` indices. */
  lemma {:induction false} GridQuadsLength(base: int, rn: int, i: nat, cells: nat)
    ensures |GridQuads(base, rn, i, cells)| == 6 * (i * cells)
  {
    if i > 0 {
      GridQuadsLength(base, rn, i - 1, cells);
      RowQuadsAt(base, rn, i - 1, cells);
      assert i * cells == (i - 1) * cells + cells;
    }
  }

  /** A grid of fewer columns is a prefix of a grid of more. */
  lemma {:induction false} GridQuadsPrefix(base: int, rn: int, k: nat, i: nat, cells: nat)
    requires k <= i
    ensures |GridQuads(base, rn, k, cells)| <= |GridQuads(base, rn, i, cells)|
    ensures GridQuads(base, rn, i, cells)[..|GridQuads(base, rn, k, cells)|] == GridQuads(base, rn, k, cells)
  {
    if k < i {
      GridQuadsPrefix(base, rn, k, i - 1, cells);
    }
  }

  /** Cell `(ci, j)` sits `6 * j` indices after the columns before `ci`. */
  lemma {:induction false} CellInColumn(base: int, rn: int, ci: nat, cells: nat, j: nat)
    requires j < cells
    ensures |GridQuads(base, rn, ci, cells)| + 6 * j + 6 <= |GridQuads(base, rn, ci + 1, cells)|
    ensures GridQuads(base, rn, ci + 1, cells)[|GridQuads(base, rn, ci, cells)| + 6 * j ..][..6] == CellQuad(base, rn, ci, j)
  {
    var upTo := GridQuads(base, rn, ci, cells);
    var row := RowQuads(base, rn, ci, cells);
    RowQuadsAt(base, rn, ci, cells);
    assert GridQuads(base, rn, ci + 1, cells)[|upTo| + 6 * j ..] == row[6 * j ..];
  }

  /** The quad of cell `(ci, j)` starts at offset `6 * (ci * cells + j)`. */
  lemma {:induction false} GridQuadAt(base: int, rn: int, i: nat, cells: nat, ci: nat, j: nat)
    requires ci < i && j < cells
    ensures 6 * (ci * cells + j) + 6 <= |GridQuads(base, rn, i, cells)|
    ensures GridQuads(base, rn, i, cells)[6 * (ci * cells + j) .. 6 * (ci * cells + j) + 6] == CellQuad(base, rn, ci, j)
  {
    var off := 6 * (ci * cells + j);
    var through := GridQuads(base, rn, ci + 1, cells);
    GridQuadsLength(base, rn, ci, cells);
    CellInColumn(base, rn, ci, cells, j);
    assert through[off ..][..6] == CellQuad(base, rn, ci, j);
    GridQuadsPrefix(base, rn, ci + 1, i, cells);
    var g := GridQuads(base, rn, i, cells);
    assert g[..|through|] == through;
    assert g[off .. off + 6] == through[off ..][..6];
  }

  /** Every index of row `i` lies between grid vertex `(i, 0)` and the end of column `i + 1`. */
  lemma {:induction false} RowQuadsWithin(base: int, rn: int, i: int, j: nat)
    requires j < rn
    ensures IndicesIn(RowQuads(base, rn, i, j), base + i * rn, base + i * rn + 2 * rn)
  {
    if j > 0 {
      RowQuadsWithin(base, rn, i, j - 1);
    }
  }

  /** Every index a grid of `i` columns of `rn - 1` cells emits names one of its
      `(i + 1) * rn` vertices. */
  lemma {:induction false} GridQuadsWithin(base: int, rn: nat, i: nat)
    requires rn >= 1
    ensures IndicesIn(GridQuads(base, rn, i, rn - 1), base, base + (i + 1) * rn)
  {
    if i > 0 {
      GridQuadsWithin(base, rn, i - 1);
      RowQuadsWithin(base, rn, i - 1, rn - 1);
      assert (i + 1) * rn == (i - 1) * rn + 2 * rn == i * rn + rn;
      assert (i - 1) * rn >= 0;
    }
  }

  /** Appending a grid's quads to an index list over the `base` vertices before
      the grid keeps every index naming a vertex. */
  lemma GridQuadsIndexed(t0: seq<int>, base: nat, x: nat, y: nat)
    requires IndicesBelow(t0, base)
    ensures IndicesBelow(t0 + GridQuads(base, y + 1, x, y), base + (x + 1) * (y + 1))
  {
    var quads := GridQuads(base, y + 1, x, y);
    GridQuadsWithin(base, y + 1, x);
    assert (x + 1) * (y + 1) >= 0;
    assert IndicesBelow(quads, base + (x + 1) * (y + 1));
  }

  /** The quads of a plane of `x` by `y` cells over grid vertices from id `base`:
      none when a count is -1. */
  function PlaneQuads(base: int, x: int, y: int): seq<int>
  {
    if x < 0 || y < 0 then [] else GridQuads(base, y + 1, x, y)
  }

  /** A plane of `x` by `y` cells added to a mesh of `base` vertices whose indices
      `t0` are all below `base` leaves every index naming a vertex. */
  lemma PlaneIndexed(t0: seq<int>, base: nat, f: GridFrame, x: int, y: int)
    requires IndicesBelow(t0, base)
    requires (x >= 0 && y >= -1) || (x >= -1 && y >= 0)
    ensures IndicesBelow(t0 + PlaneQuads(base, x, y), base + |GridPoints(f, x + 1, y + 1)|)
  {
    if x >= 0 && y >= 0 {
      GridPointsLength(f, x + 1, y + 1);
      GridQuadsIndexed(t0, base, x, y);
    } else {
      assert t0 + PlaneQuads(base, x, y) == t0;
    }
  }

  /** Grid vertex `(c, m)` lies at offset `m` of column `c`. */
  lemma OffsetInColumn(c: nat, m: nat, rn: nat)
    requires m < rn
    ensures (c * rn + m) % rn == m && (c * rn + m) / rn == c
  {
    var q := c * rn + m;
    var d, r := q / rn, q % rn;
    assert q == d * rn + r && 0 <= r < rn;
    assert (c - d) * rn == r - m;
    if c > d {
      assert (c - d) * rn >= rn by { MulLeq(1, c - d, rn); }
    } else if c < d {
      assert (d - c) * rn >= rn by { MulLeq(1, d - c, rn); }
    }
  }

  /** The quad loop's cursor. Before cell `(ci, cj)` of a grid of `x` by `y` cells
      the running id `vi` sits on the cell's first grid vertex, or one before it at
      the start of a later column, where `(vi + 1) % rn == 0` skips it forward; the
      cell's quad stays inside the grid; and the cursor after the cell is the one
      the next cell expects. */
  lemma CellCursor(ci: nat, cj: nat, x: nat, y: nat, rn: nat, vi: int)
    requires rn == y + 1 && ci < x && cj < y
    requires vi == ci * rn + cj - (if cj == 0 && ci > 0 then 1 else 0)
    ensures vi >= 0
    ensures (if (vi + 1) % rn == 0 then vi + 1 else vi) == ci * rn + cj
    ensures ci * rn + cj + 1 + rn < (x + 1) * rn
    ensures (ci + 1) * rn == ci * rn + rn && (ci + 1) * y == ci * y + y
  {
    if cj > 0 {
      OffsetInColumn(ci, cj + 1, rn);
    } else if ci > 0 {
      OffsetInColumn(ci, 0, rn);
    } else {
      assert vi == 0;
    }
    CellBelow(ci + 1, cj + 1, rn, x + 1);
    assert (ci + 1) * rn == ci * rn + rn;
    assert (ci + 1) * y == ci * y + y;
  }
}
