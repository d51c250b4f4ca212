/** The chunk-level similarity matrix of the analysed documents, and the drill-down densities of a pair. */
module ChunkMatrix {

  type Vector = seq<real>
  type Chunks = seq<Vector>
  type Cosine = (Vector, Vector) -> real

  function Larger(x: real, y: real): real {
    if x >= y then x else y
  }

  /** The largest similarity of one chunk to the chunks of a document. */
  function RowMax(cosine: Cosine, u: Vector, b: Chunks): real
    requires b != []
  {
    if |b| == 1 then cosine(u, b[0]) else Larger(RowMax(cosine, u, b[..|b| - 1]), cosine(u, b[|b| - 1]))
  }

  function ColumnMax(cosine: Cosine, a: Chunks, v: Vector): real
    requires a != []
  {
    if |a| == 1 then cosine(a[0], v) else Larger(ColumnMax(cosine, a[..|a| - 1], v), cosine(a[|a| - 1], v))
  }

  /** The largest similarity between a chunk of a and a chunk of b. */
  function MatrixMax(cosine: Cosine, a: Chunks, b: Chunks): real
    requires a != [] && b != []
  {
    if |a| == 1 then RowMax(cosine, a[0], b)
    else Larger(MatrixMax(cosine, a[..|a| - 1], b), RowMax(cosine, a[|a| - 1], b))
  }

  function Peak(cosine: Cosine, a: Chunks, b: Chunks): real {
    if a != [] && b != [] then MatrixMax(cosine, a, b) else 0.0
  }

  ghost predicate SomePair(cosine: Cosine, a: Chunks, b: Chunks, threshold: real) {
    exists i, j :: 0 <= i < |a| && 0 <= j < |b| && cosine(a[i], b[j]) >= threshold
  }

  lemma {:induction false} RowMaxReaches(cosine: Cosine, u: Vector, b: Chunks, threshold: real)
    requires b != []
    ensures RowMax(cosine, u, b) >= threshold <==> exists j :: 0 <= j < |b| && cosine(u, b[j]) >= threshold
  {
    if |b| > 1 {
      var n := |b| - 1;
      RowMaxReaches(cosine, u, b[..n], threshold);
      if j :| 0 <= j < n && cosine(u, b[..n][j]) >= threshold { assert cosine(u, b[j]) >= threshold; }
      if j :| 0 <= j < |b| && cosine(u, b[j]) >= threshold && j < n { assert cosine(u, b[..n][j]) >= threshold; }
    }
  }

  lemma {:induction false} ColumnMaxReaches(cosine: Cosine, a: Chunks, v: Vector, threshold: real)
    requires a != []
    ensures ColumnMax(cosine, a, v) >= threshold <==> exists i :: 0 <= i < |a| && cosine(a[i], v) >= threshold
  {
    if |a| > 1 {
      var n := |a| - 1;
      ColumnMaxReaches(cosine, a[..n], v, threshold);
      if i :| 0 <= i < n && cosine(a[..n][i], v) >= threshold { assert cosine(a[i], v) >= threshold; }
      if i :| 0 <= i < |a| && cosine(a[i], v) >= threshold && i < n { assert cosine(a[..n][i], v) >= threshold; }
    }
  }

  /** The matrix entry reaches a threshold exactly when some chunk pair does, so it is their maximum. */
  lemma {:induction false} MatrixMaxReaches(cosine: Cosine, a: Chunks, b: Chunks, threshold: real)
    requires a != [] && b != []
    ensures MatrixMax(cosine, a, b) >= threshold <==> SomePair(cosine, a, b, threshold)
  {
    var n := |a| - 1;
    RowMaxReaches(cosine, a[n], b, threshold);
    if n == 0 {
      if j :| 0 <= j < |b| && cosine(a[0], b[j]) >= threshold { assert SomePair(cosine, a, b, threshold); }
    } else {
      MatrixMaxReaches(cosine, a[..n], b, threshold);
      if i, j :| 0 <= i < n && 0 <= j < |b| && cosine(a[..n][i], b[j]) >= threshold {
        assert cosine(a[i], b[j]) >= threshold;
      }
      if j :| 0 <= j < |b| && cosine(a[n], b[j]) >= threshold { assert SomePair(cosine, a, b, threshold); }
      if i, j :| 0 <= i < |a| && 0 <= j < |b| && cosine(a[i], b[j]) >= threshold && i < n {
        assert cosine(a[..n][i], b[j]) >= threshold;
      }
    }
  }

  // ---------------------------------------------------------------- filling the matrix

  /** What each cell must hold: 1 on the diagonal, else the peak of the pair taken in list order. */
  function Cell(cosine: Cosine, docs: seq<Chunks>, i: nat, j: nat): real
    requires i < |docs| && j < |docs|
  {
    if i == j then 1.0 else if i < j then Peak(cosine, docs[i], docs[j]) else Peak(cosine, docs[j], docs[i])
  }

  /** The cell has its final value: it was reached itself or written as the mirror of a cell reached. */
  ghost predicate Written(n: nat, i: nat, j: nat, row: nat, column: nat) {
    (i < row || (i == row && j < column)) || (j < i && (j < row || (j == row && i < column)))
  }

  /** The matrix is symmetric whatever the similarity function is, has a unit diagonal, and is 0 off the diagonal
      where a side has no chunk. */
  method FillChunkMatrix(docs: seq<Chunks>, cosine: Cosine) returns (m: array2<real>)
    ensures fresh(m) && m.Length0 == |docs| == m.Length1
    ensures forall i, j :: 0 <= i < |docs| && 0 <= j < |docs| ==> m[i, j] == Cell(cosine, docs, i, j)
    ensures forall i, j :: 0 <= i < |docs| && 0 <= j < |docs| ==> m[i, j] == m[j, i]
    ensures forall i :: 0 <= i < |docs| ==> m[i, i] == 1.0
    ensures forall i, j :: 0 <= i < |docs| && 0 <= j < |docs| && i != j && (docs[i] == [] || docs[j] == []) ==>
      m[i, j] == 0.0
  {
    var n := |docs|;
    m := new real[n, n]((i, j) => 0.0);
    for i := 0 to n
      invariant forall x: nat, y: nat :: x < n && y < n && Written(n, x, y, i, 0) ==>
        m[x, y] == Cell(cosine, docs, x, y)
    {
      for j := 0 to n
        invariant forall x: nat, y: nat :: x < n && y < n && Written(n, x, y, i, j) ==>
          m[x, y] == Cell(cosine, docs, x, y)
      {
        if i == j {
          m[i, j] := 1.0;
        } else if j > i {
          var score := Peak(cosine, docs[i], docs[j]);
          m[i, j] := score;
          m[j, i] := score;
        }
      }
    }
  }

  // ---------------------------------------------------------------- densities

  function RowsReaching(cosine: Cosine, a: Chunks, b: Chunks, threshold: real): nat
    requires b != []
  {
    if a == [] then 0
    else RowsReaching(cosine, a[..|a| - 1], b, threshold) + if RowMax(cosine, a[|a| - 1], b) >= threshold then 1 else 0
  }

  function ColumnsReaching(cosine: Cosine, a: Chunks, b: Chunks, threshold: real): nat
    requires a != []
  {
    if b == [] then 0
    else
      ColumnsReaching(cosine, a, b[..|b| - 1], threshold)
      + if ColumnMax(cosine, a, b[|b| - 1]) >= threshold then 1 else 0
  }

  /** Percentage of the chunks of a that reach the threshold against b; 0 when a side has no chunk. */
  function DensityA(cosine: Cosine, a: Chunks, b: Chunks, threshold: real): real {
    if a != [] && b != [] then RowsReaching(cosine, a, b, threshold) as real / |a| as real * 100.0 else 0.0
  }

  function DensityB(cosine: Cosine, a: Chunks, b: Chunks, threshold: real): real {
    if a != [] && b != [] then ColumnsReaching(cosine, a, b, threshold) as real / |b| as real * 100.0 else 0.0
  }

  lemma {:induction false} RowsReachingCounts(cosine: Cosine, a: Chunks, b: Chunks, threshold: real)
    requires b != []
    ensures RowsReaching(cosine, a, b, threshold) <= |a|
    ensures RowsReaching(cosine, a, b, threshold) > 0 <==> SomePair(cosine, a, b, threshold)
  {
    if a != [] {
      var n := |a| - 1;
      RowsReachingCounts(cosine, a[..n], b, threshold);
      RowMaxReaches(cosine, a[n], b, threshold);
      if i, j :| 0 <= i < n && 0 <= j < |b| && cosine(a[..n][i], b[j]) >= threshold {
        assert cosine(a[i], b[j]) >= threshold;
      }
      if j :| 0 <= j < |b| && cosine(a[n], b[j]) >= threshold { assert SomePair(cosine, a, b, threshold); }
      if i, j :| 0 <= i < |a| && 0 <= j < |b| && cosine(a[i], b[j]) >= threshold && i < n {
        assert cosine(a[..n][i], b[j]) >= threshold;
      }
    }
  }

  lemma {:induction false} ColumnsReachingCounts(cosine: Cosine, a: Chunks, b: Chunks, threshold: real)
    requires a != []
    ensures ColumnsReaching(cosine, a, b, threshold) <= |b|
    ensures ColumnsReaching(cosine, a, b, threshold) > 0 <==> SomePair(cosine, a, b, threshold)
  {
    if b != [] {
      var n := |b| - 1;
      ColumnsReachingCounts(cosine, a, b[..n], threshold);
      ColumnMaxReaches(cosine, a, b[n], threshold);
      if i, j :| 0 <= i < |a| && 0 <= j < n && cosine(a[i], b[..n][j]) >= threshold {
        assert cosine(a[i], b[j]) >= threshold;
      }
      if i :| 0 <= i < |a| && cosine(a[i], b[n]) >= threshold { assert SomePair(cosine, a, b, threshold); }
      if i, j :| 0 <= i < |a| && 0 <= j < |b| && cosine(a[i], b[j]) >= threshold && j < n {
        assert cosine(a[i], b[..n][j]) >= threshold;
      }
    }
  }

  ghost predicate ReachesSome(cosine: Cosine, u: Vector, b: Chunks, threshold: real) {
    exists j :: 0 <= j < |b| && cosine(u, b[j]) >= threshold
  }

  ghost predicate ReachedBySome(cosine: Cosine, a: Chunks, v: Vector, threshold: real) {
    exists i :: 0 <= i < |a| && cosine(a[i], v) >= threshold
  }

  /** The chunks of a, by position, that reach the threshold against a chunk of b. */
  ghost function ReachingRows(cosine: Cosine, a: Chunks, b: Chunks, threshold: real): set<nat> {
    set i: nat | i < |a| && ReachesSome(cosine, a[i], b, threshold)
  }

  /** The chunks of b that a chunk of a reaches the threshold against. */
  ghost function ReachingColumns(cosine: Cosine, a: Chunks, b: Chunks, threshold: real): set<nat> {
    set j: nat | j < |b| && ReachedBySome(cosine, a, b[j], threshold)
  }

  lemma {:induction false} RowsReachingAre(cosine: Cosine, a: Chunks, b: Chunks, threshold: real)
    requires b != []
    ensures RowsReaching(cosine, a, b, threshold) == |ReachingRows(cosine, a, b, threshold)|
  {
    if a != [] {
      var n := |a| - 1;
      RowsReachingAre(cosine, a[..n], b, threshold);
      RowMaxReaches(cosine, a[n], b, threshold);
      assert ReachingRows(cosine, a, b, threshold)
        == ReachingRows(cosine, a[..n], b, threshold) + if ReachesSome(cosine, a[n], b, threshold) then {n} else {};
    }
  }

  lemma {:induction false} ColumnsReachingAre(cosine: Cosine, a: Chunks, b: Chunks, threshold: real)
    requires a != []
    ensures ColumnsReaching(cosine, a, b, threshold) == |ReachingColumns(cosine, a, b, threshold)|
  {
    if b != [] {
      var n := |b| - 1;
      ColumnsReachingAre(cosine, a, b[..n], threshold);
      ColumnMaxReaches(cosine, a, b[n], threshold);
      assert ReachingColumns(cosine, a, b, threshold)
        == ReachingColumns(cosine, a, b[..n], threshold)
           + if ReachedBySome(cosine, a, b[n], threshold) then {n} else {};
    }
  }

  /** Each density, times the size of its side, is 100 times the number of chunks of that side that reach the threshold;
      it is 0 when a side has no chunk. */
  lemma DensitiesArePercentages(cosine: Cosine, a: Chunks, b: Chunks, threshold: real)
    ensures IsPercentage(|ReachingRows(cosine, a, b, threshold)|, |a|, DensityA(cosine, a, b, threshold))
    ensures IsPercentage(|ReachingColumns(cosine, a, b, threshold)|, |b|, DensityB(cosine, a, b, threshold))
    ensures a == [] || b == [] ==> DensityA(cosine, a, b, threshold) == 0.0 == DensityB(cosine, a, b, threshold)
  {
    if a != [] && b != [] {
      RowsReachingAre(cosine, a, b, threshold);
      ColumnsReachingAre(cosine, a, b, threshold);
      ShareIsPercentage(RowsReaching(cosine, a, b, threshold), |a|);
      ShareIsPercentage(ColumnsReaching(cosine, a, b, threshold), |b|);
    } else {
      assert ReachingRows(cosine, a, b, threshold) == {} && ReachingColumns(cosine, a, b, threshold) == {};
    }
  }

  ghost predicate IsPercentage(count: nat, size: nat, p: real) {
    p * size as real == 100.0 * count as real
  }

  lemma ShareIsPercentage(count: nat, size: nat)
    requires size > 0
    ensures IsPercentage(count, size, count as real / size as real * 100.0)
  {
    var share := count as real / size as real;
    assert share * size as real == count as real;
  }

  lemma PositiveShare(count: nat, size: nat)
    requires count <= size && size > 0
    ensures 0.0 <= count as real / size as real * 100.0 <= 100.0
    ensures count as real / size as real * 100.0 > 0.0 <==> count > 0
  {
    var share := count as real / size as real;
    assert share * size as real == count as real;
    assert 0.0 <= share <= 1.0;
  }

  ghost predicate Symmetric(cosine: Cosine) {
    forall u, v :: cosine(u, v) == cosine(v, u)
  }

  lemma PeakIsSymmetric(cosine: Cosine, a: Chunks, b: Chunks, threshold: real)
    requires Symmetric(cosine) && a != [] && b != []
    ensures Peak(cosine, a, b) >= threshold <==> Peak(cosine, b, a) >= threshold
  {
    MatrixMaxReaches(cosine, a, b, threshold);
    MatrixMaxReaches(cosine, b, a, threshold);
    if i, j :| 0 <= i < |a| && 0 <= j < |b| && cosine(a[i], b[j]) >= threshold {
      assert cosine(b[j], a[i]) >= threshold;
    }
    if i, j :| 0 <= i < |b| && 0 <= j < |a| && cosine(b[i], a[j]) >= threshold {
      assert cosine(a[j], b[i]) >= threshold;
    }
  }

  /** For two different documents that have chunks, the matrix entry reaches the threshold exactly when the density of
      either side is positive; both densities are percentages. */
  lemma EntryReachesIffDense(cosine: Cosine, docs: seq<Chunks>, i: nat, j: nat, threshold: real)
    requires i < |docs| && j < |docs| && i != j && docs[i] != [] && docs[j] != []
    requires Symmetric(cosine)
    ensures Cell(cosine, docs, i, j) >= threshold <==> DensityA(cosine, docs[i], docs[j], threshold) > 0.0
    ensures DensityA(cosine, docs[i], docs[j], threshold) > 0.0 <==> DensityB(cosine, docs[i], docs[j], threshold) > 0.0
    ensures 0.0 <= DensityA(cosine, docs[i], docs[j], threshold) <= 100.0
    ensures 0.0 <= DensityB(cosine, docs[i], docs[j], threshold) <= 100.0
  {
    var a, b := docs[i], docs[j];
    MatrixMaxReaches(cosine, a, b, threshold);
    PeakIsSymmetric(cosine, a, b, threshold);
    RowsReachingCounts(cosine, a, b, threshold);
    ColumnsReachingCounts(cosine, a, b, threshold);
    PositiveShare(RowsReaching(cosine, a, b, threshold), |a|);
    PositiveShare(ColumnsReaching(cosine, a, b, threshold), |b|);
  }
}
