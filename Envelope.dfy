/**
 * The index layout of the player's collision mesh (GenerateCollisionMesh).
 *
 * A latitude/longitude grid of resolution r is sampled into r*r vertices,
 * cell (i, j) at index i*r + j, and every cell of the first r-1 latitude
 * rows is covered by two triangles (six indices). Longitude wraps modulo r;
 * latitude does not, because the triangle loop stops one row early.
 *
 * The vertex values come from ray casts against the cluster's own geometry;
 * here they are an opaque function `sample` of the grid cell.
 */
module Envelope {

  /** A point relative to the cluster origin. */
  datatype Vec3 = Vec3(x: real, y: real, z: real)

  /** Resolution hard-coded in the game. */
  const Resolution: nat := 3

  /** Number of vertices of a mesh of resolution r. */
  function VertexCount(r: nat): nat { r * r }

  /** Number of triangle indices of a mesh of resolution r: two triangles per cell of r-1 rows. */
  function TriangleIndexCount(r: nat): nat
  {
    if r == 0 then 0 else 6 * r * (r - 1)
  }

  /** Slot of the vertex array holding grid cell (i, j). */
  function VertexIndex(r: nat, i: nat, j: nat): nat { i * r + j }

  /** First slot of the triangle array written for grid cell (i, j). */
  function CellOffset(r: nat, i: nat, j: nat): nat { 6 * (i * r + j) }

  /**
   * The vertex index written at corner t (0..5) of cell (i, j): corners 0-2
   * form the first triangle, 3-5 the second; the next longitude column is
   * (j+1) % r and the next latitude row (i+1) % r, as in the source.
   */
  function Corner(r: nat, i: nat, j: nat, t: nat): int
    requires r >= 1 && t < 6
  {
    if t == 0 then i * r + j
    else if t == 1 then i * r + ((j + 1) % r)
    else if t == 2 then ((i + 1) % r) * r + j
    else if t == 3 then ((i + 1) % r) * r + ((j + 1) % r)
    else if t == 4 then i * r + ((j + 1) % r)
    else ((i + 1) % r) * r + j
  }

  /** The value the source stores in slot k of the triangle array. */
  function TriangleAt(r: nat, k: nat): int
    requires r >= 1
  {
    Corner(r, k / 6 / r, (k / 6) % r, k % 6)
  }

  /** The whole triangle array of resolution r. */
  function Layout(r: nat): (s: seq<int>)
    requires r >= 1
    ensures |s| == TriangleIndexCount(r)
  {
    seq(TriangleIndexCount(r), k requires 0 <= k => TriangleAt(r, k))
  }

  /** The whole vertex array of resolution r: cell (k / r, k % r) sampled at slot k. */
  function Samples(r: nat, sample: (nat, nat) -> Vec3): (s: seq<Vec3>)
    ensures |s| == VertexCount(r)
  {
    if r == 0 then [] else seq(r * r, k requires 0 <= k => sample(k / r, k % r))
  }

  // ---------------------------------------------------------------------------
  // Arithmetic about the grid numbering

  /** Slot of the triangle array holding corner t of cell (i, j). */
  function Slot(r: nat, i: nat, j: nat, t: nat): nat { CellOffset(r, i, j) + t }

  /**
   * A positive multiple of r is at least r. The hypothesis sits in the
   * conclusion so that callers may apply it to both signs of a difference.
   */
  lemma MulAtLeast(d: int, r: int)
    ensures d >= 1 && r >= 0 ==> d * r >= r
  {
  }

  lemma MulNonNegative(a: int, b: int)
    requires a >= 0 && b >= 0
    ensures a * b >= 0
  {
  }

  /** Quotient and remainder by a positive divisor recompose the dividend. */
  lemma DivMod(k: int, r: int)
    requires r > 0
    ensures (k / r) * r + k % r == k && 0 <= k % r < r
  {
  }

  /** Only a positive width has a square with anything below it. */
  lemma BelowSquare(k: nat, r: nat)
    requires k < r * r
    ensures r > 0
  {
  }

  lemma Distrib(a: int, b: int, r: int)
    ensures (a - b) * r == a * r - b * r
  {
  }

  /** Quotient and remainder are unique: q*r + m with 0 <= m < r divides back into q and m. */
  lemma DivUnique(k: int, r: int, q: int, m: int)
    requires r > 0 && 0 <= m < r && k == q * r + m
    ensures k / r == q && k % r == m
  {
    Distrib(k / r, q, r);
    MulAtLeast(k / r - q, r);
    MulAtLeast(q - k / r, r);
    Distrib(q, k / r, r);
  }

  /** A quotient by r of something below n*r is below n. */
  lemma QuotientBound(k: nat, r: nat, n: nat)
    requires r > 0 && k < n * r
    ensures k / r < n
  {
    Distrib(k / r, n, r);
    MulAtLeast(k / r - n + 1, r);
    Distrib(k / r + 1, n, r);
  }

  /** The triangle array holds six slots for each of the (r-1)*r cells of the first r-1 rows. */
  lemma CountAsRows(r: nat)
    requires r >= 1
    ensures TriangleIndexCount(r) == 6 * ((r - 1) * r)
  {
  }

  /** Cell (i, j) of an r-column grid whose row i is below n lies below n*r. */
  lemma RowsBound(r: nat, n: nat, i: nat, j: nat)
    requires i < n && j < r
    ensures 0 <= i * r && i * r + j < n * r
  {
    MulNonNegative(i, r);
    MulAtLeast(n - i, r);
    Distrib(n, i, r);
  }

  /** Every cell (i, j) of the grid has its vertex index inside [0, r*r). */
  lemma VertexIndexInRange(r: nat)
    ensures forall i: nat, j: nat :: i < r && j < r ==> VertexIndex(r, i, j) < VertexCount(r)
  {
    forall i: nat, j: nat | i < r && j < r
      ensures VertexIndex(r, i, j) < VertexCount(r)
    {
      RowsBound(r, r, i, j);
    }
  }

  /** Two different cells never share a vertex index. */
  lemma VertexIndexInjective(r: nat)
    ensures forall i: nat, j: nat, i': nat, j': nat ::
              j < r && j' < r && VertexIndex(r, i, j) == VertexIndex(r, i', j') ==> i == i' && j == j'
  {
    forall i: nat, j: nat, i': nat, j': nat |
      j < r && j' < r && VertexIndex(r, i, j) == VertexIndex(r, i', j')
      ensures i == i' && j == j'
    {
      DivUnique(i * r + j, r, i, j);
      DivUnique(i' * r + j', r, i', j');
    }
  }

  /** Every vertex index in [0, r*r) is the index of a cell of the grid. */
  lemma VertexIndexOnto(r: nat)
    ensures forall k: nat :: k < VertexCount(r) ==>
              k / r < r && k % r < r && VertexIndex(r, k / r, k % r) == k
  {
    forall k: nat | k < VertexCount(r)
      ensures k / r < r && k % r < r && VertexIndex(r, k / r, k % r) == k
    {
      BelowSquare(k, r);
      QuotientBound(k, r, r);
      DivMod(k, r);
    }
  }

  /** Cell (i, j) of the grid is sampled at its vertex index. */
  lemma SamplesAt(r: nat, sample: (nat, nat) -> Vec3, i: nat, j: nat)
    requires i < r && j < r
    ensures VertexIndex(r, i, j) < |Samples(r, sample)| && Samples(r, sample)[VertexIndex(r, i, j)] == sample(i, j)
  {
    RowsBound(r, r, i, j);
    DivUnique(i * r + j, r, i, j);
  }

  /** The slots of cell (i, j)'s block decode back to the cell and the corner. */
  lemma SlotDecodes(r: nat, i: nat, j: nat, t: nat)
    requires r >= 1 && j < r && t < 6
    ensures Slot(r, i, j, t) / 6 == i * r + j && Slot(r, i, j, t) % 6 == t
    ensures Slot(r, i, j, t) / 6 / r == i && (Slot(r, i, j, t) / 6) % r == j
    ensures TriangleAt(r, Slot(r, i, j, t)) == Corner(r, i, j, t)
  {
    DivUnique(Slot(r, i, j, t), 6, i * r + j, t);
    DivUnique(i * r + j, r, i, j);
  }

  /** Every corner of every cell of the first r-1 rows has a slot inside the triangle array. */
  lemma SlotsInRange(r: nat)
    requires r >= 1
    ensures forall i: nat, j: nat, t: nat :: i < r - 1 && j < r && t < 6 ==>
              Slot(r, i, j, t) < TriangleIndexCount(r)
  {
    CountAsRows(r);
    forall i: nat, j: nat, t: nat | i < r - 1 && j < r && t < 6
      ensures Slot(r, i, j, t) < TriangleIndexCount(r)
    {
      RowsBound(r, r - 1, i, j);
    }
  }

  /** Different cells, or different corners of one cell, have different slots. */
  lemma SlotsDistinct(r: nat)
    requires r >= 1
    ensures forall i: nat, j: nat, t: nat, i': nat, j': nat, t': nat ::
              j < r && j' < r && t < 6 && t' < 6 && Slot(r, i, j, t) == Slot(r, i', j', t') ==>
              i == i' && j == j' && t == t'
  {
    forall i: nat, j: nat, t: nat, i': nat, j': nat, t': nat |
      j < r && j' < r && t < 6 && t' < 6 && Slot(r, i, j, t) == Slot(r, i', j', t')
      ensures i == i' && j == j' && t == t'
    {
      SlotDecodes(r, i, j, t);
      SlotDecodes(r, i', j', t');
    }
  }

  /** Every slot of the triangle array is a corner of a cell of the first r-1 rows. */
  lemma SlotsCover(r: nat)
    requires r >= 1
    ensures forall k: nat :: k < TriangleIndexCount(r) ==>
              k / 6 / r < r - 1 && (k / 6) % r < r && Slot(r, k / 6 / r, (k / 6) % r, k % 6) == k
  {
    CountAsRows(r);
    forall k: nat | k < TriangleIndexCount(r)
      ensures k / 6 / r < r - 1 && (k / 6) % r < r && Slot(r, k / 6 / r, (k / 6) % r, k % 6) == k
    {
      QuotientBound(k / 6, r, r - 1);
    }
  }

  /** Every corner of a cell of the grid names a vertex. */
  lemma CornerValid(r: nat, i: nat, j: nat, t: nat)
    requires r >= 1 && i < r && j < r && t < 6
    ensures 0 <= Corner(r, i, j, t) < VertexCount(r)
  {
    var col, row := (j + 1) % r, (i + 1) % r;
    if t == 0 {
      RowsBound(r, r, i, j);
    } else if t == 1 || t == 4 {
      RowsBound(r, r, i, col);
    } else if t == 2 || t == 5 {
      RowsBound(r, r, row, j);
    } else {
      RowsBound(r, r, row, col);
    }
  }

  /** Every index in the triangle array names a vertex: it lies in [0, r*r). */
  lemma TriangleIndicesValid(r: nat)
    requires r >= 1
    ensures forall k: nat :: k < TriangleIndexCount(r) ==> 0 <= TriangleAt(r, k) < VertexCount(r)
  {
    SlotsCover(r);
    forall k: nat | k < TriangleIndexCount(r)
      ensures 0 <= TriangleAt(r, k) < VertexCount(r)
    {
      CornerValid(r, k / 6 / r, (k / 6) % r, k % 6);
    }
  }

  /**
   * Longitude wraps: the column after the last one is column 0, every other
   * column is followed by the next one. Latitude never wraps: the triangle
   * rows stop at r-2, so the row below row i is always row i+1.
   */
  lemma Wrapping(r: nat, i: nat, j: nat)
    requires r >= 1 && i < r - 1 && j < r
    ensures Corner(r, i, j, 1) == if j == r - 1 then i * r else i * r + j + 1
    ensures Corner(r, i, j, 2) == (i + 1) * r + j
    ensures Corner(r, i, j, 3) == (i + 1) * r + (if j == r - 1 then 0 else j + 1)
  {
    DivUnique(i + 1, r, 0, i + 1);
    if j == r - 1 {
      DivUnique(j + 1, r, 1, 0);
    } else {
      DivUnique(j + 1, r, 0, j + 1);
    }
  }

  /** The two triangles of a cell share their diagonal edge. */
  lemma SharedDiagonal(r: nat, i: nat, j: nat)
    requires r >= 1 && i < r - 1 && j < r
    ensures TriangleAt(r, Slot(r, i, j, 1)) == TriangleAt(r, Slot(r, i, j, 4))
    ensures TriangleAt(r, Slot(r, i, j, 2)) == TriangleAt(r, Slot(r, i, j, 5))
  {
    SlotDecodes(r, i, j, 1);
    SlotDecodes(r, i, j, 2);
    SlotDecodes(r, i, j, 4);
    SlotDecodes(r, i, j, 5);
  }

  /**
   * With the game's resolution 3: 9 vertices and 36 triangle indices; the
   * first cell is (0,1,3)(4,1,3) and the last column of row 0 wraps back to
   * column 0: (2,0,5)(3,0,5).
   */
  lemma ResolutionThree()
    ensures VertexCount(Resolution) == 9 && TriangleIndexCount(Resolution) == 36
    ensures Layout(Resolution)[..6] == [0, 1, 3, 4, 1, 3]
    ensures Layout(Resolution)[12..18] == [2, 0, 5, 3, 0, 5]
  {
  }

  // ---------------------------------------------------------------------------
  // The mesh generator

  /**
   * Samples every cell of the grid, row by row, into a fresh vertex array:
   * the array holds exactly `Samples(r, sample)`.
   */
  method SampleVertices(r: nat, sample: (nat, nat) -> Vec3) returns (vertices: array<Vec3>)
    ensures vertices[..] == Samples(r, sample)
  {
    vertices := new Vec3[r * r];
    for i := 0 to r
      modifies vertices
      invariant i * r <= r * r
      invariant forall k: nat :: k < i * r ==> vertices[k] == Samples(r, sample)[k]
    {
      for j := 0 to r
        modifies vertices
        invariant i * r + j <= r * r
        invariant forall k: nat :: k < i * r + j ==> vertices[k] == Samples(r, sample)[k]
      {
        SamplesAt(r, sample, i, j);
        vertices[i * r + j] := sample(i, j);
      }
      Distrib(i + 1, 1, r);
    }
  }

  /**
   * Fills a fresh triangle array with two triangles per cell of the first r-1
   * rows, one six-slot block per cell.
   */
  method BuildTriangles(r: nat) returns (triangles: array<int>)
    ensures triangles.Length == TriangleIndexCount(r)
    ensures r >= 1 ==> triangles[..] == Layout(r)
    ensures forall i: nat, j: nat, t: nat :: i < r - 1 && j < r && t < 6 ==>
              Slot(r, i, j, t) < triangles.Length && triangles[Slot(r, i, j, t)] == Corner(r, i, j, t)
  {
    triangles := new int[TriangleIndexCount(r)];
    if r == 0 {
      return;
    }
    CountAsRows(r);
    for i := 0 to r - 1
      modifies triangles
      invariant i * r <= (r - 1) * r
      invariant forall k: nat :: k < 6 * (i * r) ==> triangles[k] == TriangleAt(r, k)
    {
      for j := 0 to r
        modifies triangles
        invariant i * r + j <= (r - 1) * r
        invariant forall k: nat :: k < 6 * (i * r + j) ==> triangles[k] == TriangleAt(r, k)
      {
        var offset := 6 * (i * r + j);
        RowsBound(r, r - 1, i, j);

        triangles[offset + 0] := i * r + j;
        triangles[offset + 1] := i * r + ((j + 1) % r);
        triangles[offset + 2] := ((i + 1) % r) * r + j;

        triangles[offset + 3] := ((i + 1) % r) * r + ((j + 1) % r);
        triangles[offset + 4] := i * r + ((j + 1) % r);
        triangles[offset + 5] := ((i + 1) % r) * r + j;

        forall k: nat | offset <= k < offset + 6
          ensures triangles[k] == TriangleAt(r, k)
        {
          SlotDecodes(r, i, j, k - offset);
        }
      }
      Distrib(i + 1, 1, r);
    }
    SlotsInRange(r);
    forall i: nat, j: nat, t: nat | i < r - 1 && j < r && t < 6
      ensures Slot(r, i, j, t) < triangles.Length && triangles[Slot(r, i, j, t)] == Corner(r, i, j, t)
    {
      SlotDecodes(r, i, j, t);
    }
  }

  /**
   * The collision mesh of resolution r: the sampled vertex array and the
   * triangle array over it.
   */
  method GenerateCollisionMesh(r: nat, sample: (nat, nat) -> Vec3)
    returns (vertices: array<Vec3>, triangles: array<int>)
    ensures vertices.Length == VertexCount(r) && triangles.Length == TriangleIndexCount(r)
    ensures forall i: nat, j: nat :: i < r && j < r ==>
              VertexIndex(r, i, j) < vertices.Length && vertices[VertexIndex(r, i, j)] == sample(i, j)
    ensures r >= 1 ==> triangles[..] == Layout(r)
    ensures forall k: nat :: k < triangles.Length ==> 0 <= triangles[k] < vertices.Length
  {
    vertices := SampleVertices(r, sample);
    triangles := BuildTriangles(r);
    forall i: nat, j: nat | i < r && j < r
      ensures VertexIndex(r, i, j) < vertices.Length && vertices[VertexIndex(r, i, j)] == sample(i, j)
    {
      SamplesAt(r, sample, i, j);
    }
    if r >= 1 {
      TriangleIndicesValid(r);
      assert forall k: nat :: k < triangles.Length ==> triangles[k] == Layout(r)[k];
    }
  }
}
