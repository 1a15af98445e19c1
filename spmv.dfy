/** Compressed-sparse-row (CSR) storage of a square matrix and the sparse
    matrix-vector product over it (4_Openacc/tut/spmv-seq.cpp). */
module Spmv {
  import opened Dense

  // ---------------------------------------------------------------------
  // Reference definitions: what compress produces. Each is given for a
  // prefix (the first `j` elements of a row, the first `i` rows), the
  // order in which compress visits the matrix.
  // ---------------------------------------------------------------------

  /** Number of non-zeros among the first `j` elements of a row. */
  function RowCount(row: seq<int>, j: nat): nat
    requires j <= |row|
  {
    if j == 0 then 0 else RowCount(row, j - 1) + (if row[j - 1] != 0 then 1 else 0)
  }

  /** The columns of the non-zeros among the first `j` elements, left to right. */
  function RowCols(row: seq<int>, j: nat): (cs: seq<nat>)
    requires j <= |row|
    ensures |cs| == RowCount(row, j)
  {
    if j == 0 then [] else RowCols(row, j - 1) + (if row[j - 1] != 0 then [j - 1] else [])
  }

  /** The non-zeros among the first `j` elements, left to right. */
  function RowVals(row: seq<int>, j: nat): (vs: seq<int>)
    requires j <= |row|
    ensures |vs| == RowCount(row, j)
  {
    if j == 0 then [] else RowVals(row, j - 1) + (if row[j - 1] != 0 then [row[j - 1]] else [])
  }

  /** Number of non-zeros in the first `i` rows. */
  function Count(m: Matrix, i: nat): nat
    requires i <= |m|
  {
    if i == 0 then 0 else Count(m, i - 1) + RowCount(m[i - 1], |m[i - 1]|)
  }

  /** `col_idx` as compress leaves it after the first `i` rows. */
  function FlatCols(m: Matrix, i: nat): (cs: seq<nat>)
    requires i <= |m|
    ensures |cs| == Count(m, i)
  {
    if i == 0 then [] else FlatCols(m, i - 1) + RowCols(m[i - 1], |m[i - 1]|)
  }

  /** `v` as compress leaves it after the first `i` rows. */
  function FlatVals(m: Matrix, i: nat): (vs: seq<int>)
    requires i <= |m|
    ensures |vs| == Count(m, i)
  {
    if i == 0 then [] else FlatVals(m, i - 1) + RowVals(m[i - 1], |m[i - 1]|)
  }

  /** `row_idx` as compress builds it: entry i counts the non-zeros of rows 0..i-1. */
  function RowPtr(m: Matrix): (r: seq<nat>)
    ensures |r| == |m| + 1
  {
    seq(|m| + 1, i requires 0 <= i <= |m| => Count(m, i))
  }

  // ---------------------------------------------------------------------
  // What a reader of a CSR structure relies on, and what it stands for.
  // ---------------------------------------------------------------------

  /** The shape `spmv` relies on: `n + 1` row pointers from 0 to `nnz`,
      non-decreasing, and every column index inside the matrix. */
  ghost predicate WellFormed(v: seq<int>, col: seq<nat>, row: seq<nat>, n: nat)
  {
    && |row| == n + 1
    && row[0] == 0
    && row[n] == |v| == |col|
    && (forall i, i' :: 0 <= i <= i' <= n ==> row[i] <= row[i'])
    && (forall k :: 0 <= k < |col| ==> col[k] < n)
  }

  /** The value stored for column `j` among the parallel `cols`/`vals`, 0 if none. */
  function Lookup(cols: seq<nat>, vals: seq<int>, j: nat): int
    requires |cols| == |vals|
  {
    if cols == [] then 0
    else if cols[|cols| - 1] == j then vals[|vals| - 1]
    else Lookup(cols[..|cols| - 1], vals[..|vals| - 1], j)
  }

  /** The dense matrix a CSR structure stands for: stored values at their
      columns, zero elsewhere. */
  ghost function Decompress(v: seq<int>, col: seq<nat>, row: seq<nat>, n: nat): (m: Matrix)
    requires WellFormed(v, col, row, n)
    ensures |m| == n
  {
    seq(n, i requires 0 <= i < n => DecompressRow(v, col, row, n, i))
  }

  /** Row `i` of the dense matrix a CSR structure stands for. */
  ghost function DecompressRow(v: seq<int>, col: seq<nat>, row: seq<nat>, n: nat, i: nat): (r: seq<int>)
    requires WellFormed(v, col, row, n) && i < n
    ensures |r| == n
  {
    seq(n, j requires 0 <= j < n => Lookup(col[row[i]..row[i + 1]], v[row[i]..row[i + 1]], j))
  }

  /** Sum of `vals[k] * b[cols[k]]` over one row's stored elements. */
  function SparseDot(vals: seq<int>, cols: seq<nat>, b: seq<int>): int
    requires |vals| == |cols|
    requires forall k :: 0 <= k < |cols| ==> cols[k] < |b|
  {
    if vals == [] then 0
    else SparseDot(vals[..|vals| - 1], cols[..|cols| - 1], b) + vals[|vals| - 1] * b[cols[|cols| - 1]]
  }

  /** Row `i` of the product of a CSR matrix with `b`. */
  ghost function RowProduct(v: seq<int>, col: seq<nat>, row: seq<nat>, b: seq<int>, i: nat): int
    requires WellFormed(v, col, row, |b|) && i < |b|
  {
    SparseDot(v[row[i]..row[i + 1]], col[row[i]..row[i + 1]], b)
  }

  /** The dense matrix-vector product, row by row. */
  ghost function MatVec(m: Matrix, b: seq<int>): (r: seq<int>)
    requires IsSquare(m, |b|)
    ensures |r| == |b|
  {
    seq(|b|, i requires 0 <= i < |b| => Dot(m[i], b, |b|))
  }

  // ---------------------------------------------------------------------
  // Properties of the reference definitions.
  // ---------------------------------------------------------------------

  /** The value kept for each stored column is the row's element there,
      and it is non-zero. */
  lemma {:induction false} RowValsAt(row: seq<int>, j: nat)
    requires j <= |row|
    ensures forall k :: 0 <= k < |RowVals(row, j)| ==>
              RowCols(row, j)[k] < j && RowVals(row, j)[k] == row[RowCols(row, j)[k]] != 0
  {
    if j > 0 {
      RowValsAt(row, j - 1);
    }
  }

  /** The columns kept for a row strictly increase. */
  lemma {:induction false} RowColsIncreasing(row: seq<int>, j: nat)
    requires j <= |row|
    ensures forall k :: 0 <= k < |RowCols(row, j)| - 1 ==> RowCols(row, j)[k] < RowCols(row, j)[k + 1]
  {
    if j > 0 {
      RowColsIncreasing(row, j - 1);
      RowColsBelow(row, j - 1);
    }
  }

  /** The columns kept for a row's first `j` elements are below `j`. */
  lemma {:induction false} RowColsBelow(row: seq<int>, j: nat)
    requires j <= |row|
    ensures forall k :: 0 <= k < |RowCols(row, j)| ==> RowCols(row, j)[k] < j
  {
    if j > 0 {
      RowColsBelow(row, j - 1);
    }
  }

  /** Fewer elements of a row hold no more non-zeros. */
  lemma {:induction false} RowCountMonotone(row: seq<int>, j: nat, j': nat)
    requires j <= j' <= |row|
    ensures RowCount(row, j) <= RowCount(row, j')
    decreases j' - j
  {
    if j < j' {
      RowCountMonotone(row, j, j' - 1);
    }
  }

  /** Fewer rows hold no more non-zeros. */
  lemma {:induction false} CountMonotone(m: Matrix, i: nat, i': nat)
    requires i <= i' <= |m|
    ensures Count(m, i) <= Count(m, i')
    decreases i' - i
  {
    if i < i' {
      CountMonotone(m, i, i' - 1);
    }
  }

  /** What compress stores for the first `i` rows is a prefix of what it
      stores for the first `i'`. */
  lemma {:induction false} FlatPrefix(m: Matrix, i: nat, i': nat)
    requires i <= i' <= |m|
    ensures Count(m, i) <= Count(m, i')
    ensures FlatCols(m, i) == FlatCols(m, i')[..Count(m, i)]
    ensures FlatVals(m, i) == FlatVals(m, i')[..Count(m, i)]
    decreases i' - i
  {
    if i == i' {
      assert FlatCols(m, i')[..Count(m, i)] == FlatCols(m, i');
      assert FlatVals(m, i')[..Count(m, i)] == FlatVals(m, i');
    } else {
      FlatPrefix(m, i, i' - 1);
      TakeAppend(FlatCols(m, i' - 1), RowCols(m[i' - 1], |m[i' - 1]|), Count(m, i));
      TakeAppend(FlatVals(m, i' - 1), RowVals(m[i' - 1], |m[i' - 1]|), Count(m, i));
    }
  }

  /** A prefix of `a + b` no longer than `a` is a prefix of `a`. */
  lemma TakeAppend<T>(a: seq<T>, b: seq<T>, c: nat)
    requires c <= |a|
    ensures (a + b)[..c] == a[..c]
  {
  }

  /** Row `i`'s stretch of the compressed arrays is exactly that row's
      columns and values. */
  lemma RowSlice(m: Matrix, i: nat)
    requires i < |m|
    ensures RowPtr(m)[i] <= RowPtr(m)[i + 1] <= Count(m, |m|)
    ensures RowPtr(m)[i + 1] - RowPtr(m)[i] == RowCount(m[i], |m[i]|)
    ensures FlatCols(m, |m|)[RowPtr(m)[i]..RowPtr(m)[i + 1]] == RowCols(m[i], |m[i]|)
    ensures FlatVals(m, |m|)[RowPtr(m)[i]..RowPtr(m)[i + 1]] == RowVals(m[i], |m[i]|)
  {
    FlatPrefix(m, i + 1, |m|);
    var lo, hi := Count(m, i), Count(m, i + 1);
    var cs, vs := FlatCols(m, |m|), FlatVals(m, |m|);
    assert cs[lo..hi] == cs[..hi][lo..];
    assert vs[lo..hi] == vs[..hi][lo..];
    assert FlatCols(m, i + 1)[lo..] == RowCols(m[i], |m[i]|);
    assert FlatVals(m, i + 1)[lo..] == RowVals(m[i], |m[i]|);
  }

  /** Every column stored for a matrix with rows of width `n` is below `n`. */
  lemma {:induction false} FlatBounds(m: Matrix, n: nat, i: nat)
    requires i <= |m| && forall r :: 0 <= r < |m| ==> |m[r]| == n
    ensures forall k :: 0 <= k < |FlatCols(m, i)| ==> FlatCols(m, i)[k] < n
  {
    if i > 0 {
      FlatBounds(m, n, i - 1);
      RowColsBelow(m[i - 1], n);
    }
  }

  /** What `compress` promises of `row_idx`: it runs from 0 to `nnz`, never
      decreases, and row i owns one stored element per non-zero of row i;
      together with every stored column being in range, this is the shape
      `spmv` relies on. */
  lemma CompressShape(m: Matrix, n: nat)
    requires IsSquare(m, n)
    ensures WellFormed(FlatVals(m, n), FlatCols(m, n), RowPtr(m), n)
    ensures RowPtr(m)[0] == 0 && RowPtr(m)[n] == Count(m, n)
    ensures forall i :: 0 <= i < n ==> RowPtr(m)[i + 1] - RowPtr(m)[i] == RowCount(m[i], n)
  {
    forall i, i' | 0 <= i <= i' <= n ensures RowPtr(m)[i] <= RowPtr(m)[i'] {
      CountMonotone(m, i, i');
    }
    FlatBounds(m, n, n);
  }

  /** Every element stored for row `i` is in range, non-zero, and is the
      matrix element at the stored column. */
  lemma CompressEntry(m: Matrix, n: nat, i: nat, k: nat)
    requires IsSquare(m, n) && i < n && RowPtr(m)[i] <= k < RowPtr(m)[i + 1]
    ensures k < Count(m, n) && FlatCols(m, n)[k] < n
    ensures FlatVals(m, n)[k] == m[i][FlatCols(m, n)[k]] && FlatVals(m, n)[k] != 0
  {
    RowSlice(m, i);
    RowValsAt(m[i], n);
    var r := k - RowPtr(m)[i];
    assert FlatCols(m, n)[k] == RowCols(m[i], n)[r];
    assert FlatVals(m, n)[k] == RowVals(m[i], n)[r];
  }

  /** Within a row the stored columns strictly increase, so no element is
      stored twice. */
  lemma CompressSorted(m: Matrix, n: nat, i: nat, k: nat)
    requires IsSquare(m, n) && i < n && RowPtr(m)[i] <= k && k + 1 < RowPtr(m)[i + 1]
    ensures k + 1 < |FlatCols(m, n)|
    ensures FlatCols(m, n)[k] < FlatCols(m, n)[k + 1]
  {
    RowSlice(m, i);
    RowColsIncreasing(m[i], n);
    var r := k - RowPtr(m)[i];
    assert FlatCols(m, n)[k] == RowCols(m[i], n)[r];
    assert FlatCols(m, n)[k + 1] == RowCols(m[i], n)[r + 1];
  }

  /** Looking a column up among the non-zeros of a row's first `j` elements
      gives the row's element there if it is among them, and 0 otherwise. */
  lemma {:induction false} LookupRow(row: seq<int>, j: nat, c: nat)
    requires j <= |row| && c < |row|
    ensures Lookup(RowCols(row, j), RowVals(row, j), c) == if c < j then row[c] else 0
  {
    if j > 0 {
      var cs0, vs0 := RowCols(row, j - 1), RowVals(row, j - 1);
      var cs, vs := RowCols(row, j), RowVals(row, j);
      if row[j - 1] != 0 {
        assert cs == cs0 + [j - 1] && vs == vs0 + [row[j - 1]];
        assert cs[..|cs| - 1] == cs0 && vs[..|vs| - 1] == vs0;
        if c != j - 1 {
          LookupRow(row, j - 1, c);
        }
      } else {
        assert cs == cs0 && vs == vs0;
        if c == j - 1 {
          RowColsBelow(row, j - 1);
          LookupAbsent(cs0, vs0, c);
        } else {
          LookupRow(row, j - 1, c);
        }
      }
    }
  }

  /** A column greater than every stored one is read as zero. */
  lemma {:induction false} LookupAbsent(cols: seq<nat>, vals: seq<int>, j: nat)
    requires |cols| == |vals|
    requires forall k :: 0 <= k < |cols| ==> cols[k] < j
    ensures Lookup(cols, vals, j) == 0
  {
    if cols != [] {
      LookupAbsent(cols[..|cols| - 1], vals[..|vals| - 1], j);
    }
  }

  /** Round trip: rebuilding the dense matrix from what compress stores,
      with zeros elsewhere, gives back exactly the matrix. */
  lemma CompressRoundTrip(m: Matrix, n: nat)
    requires IsSquare(m, n)
    ensures WellFormed(FlatVals(m, n), FlatCols(m, n), RowPtr(m), n)
    ensures Decompress(FlatVals(m, n), FlatCols(m, n), RowPtr(m), n) == m
  {
    CompressShape(m, n);
    var d := Decompress(FlatVals(m, n), FlatCols(m, n), RowPtr(m), n);
    forall i | 0 <= i < n ensures d[i] == m[i] {
      RoundTripRow(m, n, i);
    }
  }

  /** One row of the round trip. */
  lemma RoundTripRow(m: Matrix, n: nat, i: nat)
    requires IsSquare(m, n) && i < n
    requires WellFormed(FlatVals(m, n), FlatCols(m, n), RowPtr(m), n)
    ensures DecompressRow(FlatVals(m, n), FlatCols(m, n), RowPtr(m), n, i) == m[i]
  {
    RowSlice(m, i);
    var r := DecompressRow(FlatVals(m, n), FlatCols(m, n), RowPtr(m), n, i);
    forall j | 0 <= j < n ensures r[j] == m[i][j] {
      LookupRow(m[i], n, j);
    }
  }

  /** The sparse dot product over the non-zeros of a row's first `j`
      elements equals the dense dot product of those elements. */
  lemma {:induction false} SparseDotRow(row: seq<int>, b: seq<int>, j: nat)
    requires |row| == |b| && j <= |row|
    ensures forall k :: 0 <= k < |RowCols(row, j)| ==> RowCols(row, j)[k] < |b|
    ensures SparseDot(RowVals(row, j), RowCols(row, j), b) == Dot(row, b, j)
  {
    RowColsBelow(row, j);
    if j > 0 {
      SparseDotRow(row, b, j - 1);
      var cs0, vs0 := RowCols(row, j - 1), RowVals(row, j - 1);
      assert Dot(row, b, j) == Dot(row, b, j - 1) + row[j - 1] * b[j - 1];
      if row[j - 1] != 0 {
        assert RowCols(row, j) == cs0 + [j - 1] && RowVals(row, j) == vs0 + [row[j - 1]];
        SparseDotSnoc(vs0, cs0, b, row[j - 1], j - 1);
      } else {
        assert RowCols(row, j) == RowCols(row, j - 1) && RowVals(row, j) == RowVals(row, j - 1);
      }
    }
  }

  /** Appending one stored element adds its product to the sparse dot product. */
  lemma SparseDotSnoc(vals: seq<int>, cols: seq<nat>, b: seq<int>, x: int, c: nat)
    requires |vals| == |cols| && c < |b|
    requires forall k :: 0 <= k < |cols| ==> cols[k] < |b|
    ensures forall k :: 0 <= k < |cols + [c]| ==> (cols + [c])[k] < |b|
    ensures SparseDot(vals + [x], cols + [c], b) == SparseDot(vals, cols, b) + x * b[c]
  {
    assert (vals + [x])[..|vals|] == vals;
    assert (cols + [c])[..|cols|] == cols;
  }

  /** The headline theorem: the sparse product over the compressed matrix is
      the dense matrix-vector product of the original matrix, row by row. */
  lemma SpmvOfCompress(m: Matrix, b: seq<int>, i: nat)
    requires IsSquare(m, |b|) && i < |b|
    ensures WellFormed(FlatVals(m, |b|), FlatCols(m, |b|), RowPtr(m), |b|)
    ensures RowProduct(FlatVals(m, |b|), FlatCols(m, |b|), RowPtr(m), b, i) == Dot(m[i], b, |b|)
  {
    CompressShape(m, |b|);
    RowSlice(m, i);
    SparseDotRow(m[i], b, |b|);
  }

  // ---------------------------------------------------------------------
  // The program: the csr_matrix record, compress, spmv, check_vector.
  // ---------------------------------------------------------------------

  /** The `csr_matrix` record: values, their columns, row pointers, count. */
  class CsrMatrix {
    var v: array<int>
    var colIdx: array<nat>
    var rowIdx: array<nat>
    var nnz: nat

    /** The record describes an `n x n` matrix in CSR form. */
    ghost predicate Valid(n: nat)
      reads this, v, colIdx, rowIdx
    {
      v.Length == nnz && WellFormed(v[..], colIdx[..], rowIdx[..], n)
    }

    /** `compress`: count the non-zeros, then store each row's non-zeros
        left to right and close row i with the running count in
        `row_idx[i+1]`. */
    constructor Compress(m: array2<int>)
      requires m.Length0 == m.Length1
      ensures fresh(v) && fresh(colIdx) && fresh(rowIdx)
      ensures nnz == Count(Entries(m), m.Length0)
      ensures v[..] == FlatVals(Entries(m), m.Length0)
      ensures colIdx[..] == FlatCols(Entries(m), m.Length0)
      ensures rowIdx[..] == RowPtr(Entries(m))
      ensures Valid(m.Length0)
    {
      var n := m.Length0;
      var M := Entries(m);
      var count := CountNonZeros(m);
      var vals := new int[count];
      var cols := new nat[count];
      var rows := new nat[n + 1];
      FillRows(M, n, vals, cols, rows);
      v, colIdx, rowIdx, nnz := vals, cols, rows, count;
      CompressShape(M, n);
    }
  }

  /** The first pass of `compress`: the number of non-zero elements. */
  method CountNonZeros(m: array2<int>) returns (count: nat)
    ensures count == Count(Entries(m), m.Length0)
  {
    ghost var M := Entries(m);
    count := 0;
    var i := 0;
    while i < m.Length0
      invariant 0 <= i <= m.Length0
      invariant count == Count(M, i)
    {
      var j := 0;
      while j < m.Length1
        invariant 0 <= j <= m.Length1
        invariant count == Count(M, i) + RowCount(M[i], j)
      {
        if m[i, j] != 0 {
          count := count + 1;
        }
        j := j + 1;
      }
      i := i + 1;
    }
  }

  /** The second pass of `compress`: store every row's non-zeros and their
      columns, and the running count at the end of each row. The matrix is
      only read, so it is passed as its contents. */
  method FillRows(M: Matrix, n: nat, vals: array<int>, cols: array<nat>, rows: array<nat>)
    requires |M| == n
    requires rows.Length == n + 1 && vals.Length == cols.Length == Count(M, n)
    requires rows != cols
    modifies vals, cols, rows
    ensures vals[..] == FlatVals(M, n) && cols[..] == FlatCols(M, n)
    ensures rows[..] == RowPtr(M)
  {
    var k := 0;
    rows[0] := 0;
    var i := 0;
    while i < n
      invariant 0 <= i <= n
      invariant k == Count(M, i) && k <= vals.Length
      invariant vals[..k] == FlatVals(M, i) && cols[..k] == FlatCols(M, i)
      invariant rows[..i + 1] == RowPtr(M)[..i + 1]
    {
      CountMonotone(M, i + 1, n);
      ghost var rows0 := rows[..];
      k := FillRow(M[i], vals, cols, k, FlatVals(M, i), FlatCols(M, i));
      assert rows[..] == rows0;
      rows[i + 1] := k;
      assert rows[..i + 2] == rows0[..i + 1] + [k];
      assert RowPtr(M)[..i + 2] == RowPtr(M)[..i + 1] + [Count(M, i + 1)];
      i := i + 1;
    }
    TakeAll(rows[..], n + 1);
    TakeAll(RowPtr(M), n + 1);
    TakeAll(vals[..], k);
    TakeAll(cols[..], k);
  }

  /** A prefix as long as the sequence is the sequence. */
  lemma TakeAll<T>(s: seq<T>, k: nat)
    requires k == |s|
    ensures s[..k] == s
  {
  }

  /** The second pass of `compress` for one row: append the row's non-zeros
      and their columns after the `k0` elements already stored, returning the
      new running count; `pv`/`pc` are what the earlier rows left in
      `vals`/`cols`. */
  method FillRow(row: seq<int>, vals: array<int>, cols: array<nat>,
                 k0: nat, ghost pv: seq<int>, ghost pc: seq<nat>) returns (k: nat)
    requires vals.Length == cols.Length && k0 == |pv| == |pc|
    requires k0 + RowCount(row, |row|) <= vals.Length
    requires vals[..k0] == pv && cols[..k0] == pc
    modifies vals, cols
    ensures k == k0 + RowCount(row, |row|)
    ensures vals[..k] == pv + RowVals(row, |row|) && cols[..k] == pc + RowCols(row, |row|)
  {
    k := k0;
    var j := 0;
    while j < |row|
      invariant 0 <= j <= |row|
      invariant k == k0 + RowCount(row, j) && k <= vals.Length
      invariant vals[..k] == pv + RowVals(row, j)
      invariant cols[..k] == pc + RowCols(row, j)
    {
      RowCountMonotone(row, j + 1, |row|);
      if row[j] != 0 {
        vals[k] := row[j];
        cols[k] := j;
        assert vals[..k + 1] == vals[..k] + [row[j]];
        assert cols[..k + 1] == cols[..k] + [j];
        k := k + 1;
      }
      j := j + 1;
    }
  }

  /** `spmv`: every `result[i]` becomes row i's sparse dot product with `b`;
      the matrix and `b` are only read. */
  method Multiply(a: CsrMatrix, b: array<int>, result: array<int>)
    requires a.Valid(result.Length) && b.Length == result.Length
    requires result != b && result != a.v
    modifies result
    ensures forall i :: 0 <= i < result.Length ==>
              result[i] == RowProduct(a.v[..], a.colIdx[..], a.rowIdx[..], b[..], i)
    ensures unchanged(a) && unchanged(a.v) && unchanged(a.colIdx) && unchanged(a.rowIdx) && unchanged(b)
  {
    var n := result.Length;
    ghost var V, C, R, B := a.v[..], a.colIdx[..], a.rowIdx[..], b[..];
    var i := 0;
    while i < n
      invariant 0 <= i <= n
      invariant a.v[..] == V && a.colIdx[..] == C && a.rowIdx[..] == R && b[..] == B
      invariant forall r :: 0 <= r < i ==> result[r] == RowProduct(V, C, R, B, r)
    {
      var rowStart := a.rowIdx[i];
      var rowEnd := a.rowIdx[i + 1];
      assert rowStart <= rowEnd <= |V|;
      var sum := 0;
      var j := rowStart;
      while j < rowEnd
        invariant rowStart <= j <= rowEnd
        invariant sum == SparseDot(V[rowStart..j], C[rowStart..j], B)
      {
        var aCol := a.colIdx[j];
        var aCoef := a.v[j];
        var bCoef := b[aCol];
        assert V[rowStart..j + 1][..j - rowStart] == V[rowStart..j];
        assert C[rowStart..j + 1][..j - rowStart] == C[rowStart..j];
        sum := sum + aCoef * bCoef;
        j := j + 1;
      }
      result[i] := sum;
      i := i + 1;
    }
  }

  /** The multiplication step of `work`: compress `m`, then multiply; the
      result is the exact dense product `m * b`. */
  method CompressAndMultiply(m: array2<int>, b: array<int>, result: array<int>)
    requires m.Length0 == m.Length1 == b.Length == result.Length
    requires result != b
    modifies result
    ensures result[..] == MatVec(Entries(m), old(b[..]))
  {
    var c := new CsrMatrix.Compress(m);
    Multiply(c, b, result);
    forall i | 0 <= i < result.Length ensures result[i] == MatVec(Entries(m), b[..])[i] {
      SpmvOfCompress(Entries(m), b[..], i);
    }
  }

  /** `check_vector`: the sum of the vector's entries, starting from 0. */
  method CheckVector(v: array<int>) returns (t: int)
    ensures t == Sum(v[..])
  {
    t := 0;
    var i := 0;
    while i < v.Length
      invariant 0 <= i <= v.Length
      invariant t == Sum(v[..i])
    {
      SumStep(v[..], i);
      t := t + v[i];
      i := i + 1;
    }
    assert v[..v.Length] == v[..];
  }
}
