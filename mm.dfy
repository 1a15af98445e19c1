/** Dense matrix multiplication with the O(n^3) algorithm, its
    initialisers and its check value (4_OpenACC/tut/mm-seq.cpp). All three
    matrices are `size x size`, written `n` here. */
module MatMul {
  import opened Dense

  // ---------------------------------------------------------------------
  // Reference definitions.
  // ---------------------------------------------------------------------

  /** `sum_{t < k} A[i][t] * B[t][j]`: the first `k` terms of entry (i, j)
      of the product, in the order the innermost loop adds them. */
  function ColDot(A: Matrix, B: Matrix, n: nat, i: nat, j: nat, k: nat): int
    requires IsSquare(A, n) && IsSquare(B, n) && i < n && j < n && k <= n
  {
    if k == 0 then 0 else ColDot(A, B, n, i, j, k - 1) + A[i][k - 1] * B[k - 1][j]
  }

  /** The matrix product `A * B`. */
  ghost function Product(A: Matrix, B: Matrix, n: nat): (P: Matrix)
    requires IsSquare(A, n) && IsSquare(B, n)
    ensures IsSquare(P, n)
  {
    seq(n, i requires 0 <= i < n => seq(n, j requires 0 <= j < n => ColDot(A, B, n, i, j, n)))
  }

  /** The entrywise sum `X + Y`. */
  ghost function Add(X: Matrix, Y: Matrix, n: nat): (S: Matrix)
    requires IsSquare(X, n) && IsSquare(Y, n)
    ensures IsSquare(S, n)
  {
    seq(n, i requires 0 <= i < n => seq(n, j requires 0 <= j < n => X[i][j] + Y[i][j]))
  }

  /** Every element of `m` lies in `lo..hi`. */
  ghost predicate Bounded(m: Matrix, lo: int, hi: int)
  {
    forall i, j :: 0 <= i < |m| && 0 <= j < |m[i]| ==> lo <= m[i][j] <= hi
  }

  // ---------------------------------------------------------------------
  // Properties of the reference definitions.
  // ---------------------------------------------------------------------

  /** With factors in `0..9` (what `init_matrix` produces), every partial
      sum of a product entry lies in `0..81k`. */
  lemma {:induction false} ColDotBounds(A: Matrix, B: Matrix, n: nat, i: nat, j: nat, k: nat)
    requires IsSquare(A, n) && IsSquare(B, n) && i < n && j < n && k <= n
    requires Bounded(A, 0, 9) && Bounded(B, 0, 9)
    ensures 0 <= ColDot(A, B, n, i, j, k) <= 81 * k
  {
    if k > 0 {
      ColDotBounds(A, B, n, i, j, k - 1);
      var x, y := A[i][k - 1], B[k - 1][j];
      assert 0 <= x <= 9 && 0 <= y <= 9;
      assert 0 <= x * y <= 81 by {
        assert x * y <= 9 * y <= 81;
      }
    }
  }

  /** The product of two matrices with elements in `0..9` has every
      element in `0..81n`. */
  lemma ProductBounds(A: Matrix, B: Matrix, n: nat)
    requires IsSquare(A, n) && IsSquare(B, n) && Bounded(A, 0, 9) && Bounded(B, 0, 9)
    ensures Bounded(Product(A, B, n), 0, 81 * n)
  {
    var P := Product(A, B, n);
    forall i, j | 0 <= i < n && 0 <= j < n ensures 0 <= P[i][j] <= 81 * n {
      ColDotBounds(A, B, n, i, j, n);
    }
  }

  /** The sum of a row is additive. */
  lemma {:induction false} SumAdd(x: seq<int>, y: seq<int>, s: seq<int>)
    requires |x| == |y| == |s| && forall j :: 0 <= j < |s| ==> s[j] == x[j] + y[j]
    ensures Sum(s) == Sum(x) + Sum(y)
  {
    if s != [] {
      var k := |s| - 1;
      SumAdd(x[..k], y[..k], s[..k]);
    }
  }

  /** The total of a matrix is additive: the check value of `X + Y` is the
      check value of `X` plus that of `Y`. */
  lemma {:induction false} TotalAdd(X: Matrix, Y: Matrix, n: nat)
    requires IsSquare(X, n) && IsSquare(Y, n)
    ensures Total(Add(X, Y, n)) == Total(X) + Total(Y)
  {
    TotalAddRows(X, Y, Add(X, Y, n), n);
  }

  /** `TotalAdd` for any number of rows of width `n`. */
  lemma {:induction false} TotalAddRows(X: Matrix, Y: Matrix, S: Matrix, n: nat)
    requires |X| == |Y| == |S|
    requires forall i :: 0 <= i < |S| ==> |X[i]| == |Y[i]| == |S[i]| == n
    requires forall i, j :: 0 <= i < |S| && 0 <= j < n ==> S[i][j] == X[i][j] + Y[i][j]
    ensures Total(S) == Total(X) + Total(Y)
  {
    if S != [] {
      var k := |S| - 1;
      TotalAddRows(X[..k], Y[..k], S[..k], n);
      SumAdd(X[k], Y[k], S[k]);
    }
  }

  /** A row of elements in `lo..hi` sums to between `lo` and `hi` times
      its length. */
  lemma {:induction false} SumBounds(s: seq<int>, lo: int, hi: int)
    requires forall j :: 0 <= j < |s| ==> lo <= s[j] <= hi
    ensures lo * |s| <= Sum(s) <= hi * |s|
  {
    if s != [] {
      var k := |s| - 1;
      SumBounds(s[..k], lo, hi);
      MulSucc(k, lo);
      MulSucc(k, hi);
    }
  }

  /** A matrix of `r` rows of width `n` with elements in `0..hi` totals
      between 0 and `r * (hi * n)`. */
  lemma {:induction false} TotalBounds(m: Matrix, n: nat, hi: int)
    requires forall i :: 0 <= i < |m| ==> |m[i]| == n
    requires Bounded(m, 0, hi)
    ensures 0 <= Total(m) <= |m| * (hi * n)
  {
    if m != [] {
      var k := |m| - 1;
      var rest := m[..k];
      assert Bounded(rest, 0, hi) by {
        forall i, j | 0 <= i < |rest| && 0 <= j < |rest[i]| ensures 0 <= rest[i][j] <= hi {
          assert rest[i] == m[i];
        }
      }
      TotalBounds(rest, n, hi);
      SumBounds(m[k], 0, hi);
      MulSucc(k, hi * n);
    }
  }

  /** `(r + 1) * c == r * c + c`. */
  lemma MulSucc(r: nat, c: int)
    ensures (r + 1) * c == r * c + c
  {
  }

  // ---------------------------------------------------------------------
  // The program.
  // ---------------------------------------------------------------------

  /** `init_matrix_zero`: every element becomes 0. */
  method InitMatrixZero(m: array2<int>)
    modifies m
    ensures forall i, j :: 0 <= i < m.Length0 && 0 <= j < m.Length1 ==> m[i, j] == 0
  {
    var i := 0;
    while i < m.Length0
      invariant 0 <= i <= m.Length0
      invariant forall r, c :: 0 <= r < i && 0 <= c < m.Length1 ==> m[r, c] == 0
    {
      var j := 0;
      while j < m.Length1
        invariant 0 <= j <= m.Length1
        invariant forall r, c :: 0 <= r < i && 0 <= c < m.Length1 ==> m[r, c] == 0
        invariant forall c :: 0 <= c < j ==> m[i, c] == 0
      {
        m[i, j] := 0;
        j := j + 1;
      }
      i := i + 1;
    }
  }

  /** `init_matrix`: element (i, j) becomes `rand() % 10`, where
      `draws[i][j]` is the value `rand()` returns for it (the calls happen
      in row-major order); every element ends up in `0..9`. */
  method InitMatrix(m: array2<int>, draws: seq<seq<nat>>)
    requires |draws| == m.Length0 && forall i :: 0 <= i < |draws| ==> |draws[i]| == m.Length1
    modifies m
    ensures forall i, j :: 0 <= i < m.Length0 && 0 <= j < m.Length1 ==> m[i, j] == draws[i][j] % 10
    ensures Bounded(Entries(m), 0, 9)
  {
    var i := 0;
    while i < m.Length0
      invariant 0 <= i <= m.Length0
      invariant forall r, c :: 0 <= r < i && 0 <= c < m.Length1 ==> m[r, c] == draws[r][c] % 10
    {
      var j := 0;
      while j < m.Length1
        invariant 0 <= j <= m.Length1
        invariant forall r, c :: 0 <= r < i && 0 <= c < m.Length1 ==> m[r, c] == draws[r][c] % 10
        invariant forall c :: 0 <= c < j ==> m[i, c] == draws[i][c] % 10
      {
        m[i, j] := draws[i][j] % 10;
        j := j + 1;
      }
      i := i + 1;
    }
  }

  /** `mm`: every `result[i][j]` has `sum_k a[i][k] * b[k][j]` added to
      what it held before; `a` and `b` are only read. */
  method Mm(a: array2<int>, b: array2<int>, result: array2<int>, n: nat)
    requires a.Length0 == a.Length1 == b.Length0 == b.Length1 == result.Length0 == result.Length1 == n
    requires result != a && result != b
    modifies result
    ensures Entries(result) == Add(old(Entries(result)), Product(Entries(a), Entries(b), n), n)
  {
    ghost var A, B, R0 := Entries(a), Entries(b), Entries(result);
    var i := 0;
    while i < n
      invariant 0 <= i <= n
      invariant forall r, c :: 0 <= r < n && 0 <= c < n ==>
                  result[r, c] == if r < i then R0[r][c] + ColDot(A, B, n, r, c, n) else R0[r][c]
    {
      var j := 0;
      while j < n
        invariant 0 <= j <= n
        invariant forall r, c :: 0 <= r < n && 0 <= c < n ==>
                    result[r, c] == if r < i || (r == i && c < j) then R0[r][c] + ColDot(A, B, n, r, c, n) else R0[r][c]
      {
        AccumulateEntry(a, b, result, n, i, j, A, B);
        j := j + 1;
      }
      i := i + 1;
    }
    ghost var P := Product(A, B, n);
    ghost var S := Add(R0, P, n);
    ghost var E := Entries(result);
    forall r | 0 <= r < n ensures E[r] == S[r] {
      assert forall c :: 0 <= c < n ==> E[r][c] == S[r][c];
    }
  }

  /** The innermost loop of `mm` for entry (i, j): add
      `a[i][k] * b[k][j]` for `k = 0 .. n-1` to `result[i][j]`, leaving the
      other entries alone. `A` and `B` are the contents of `a` and `b`. */
  method AccumulateEntry(a: array2<int>, b: array2<int>, result: array2<int>, n: nat, i: nat, j: nat,
                         ghost A: Matrix, ghost B: Matrix)
    requires a.Length0 == a.Length1 == b.Length0 == b.Length1 == result.Length0 == result.Length1 == n
    requires result != a && result != b && i < n && j < n
    requires IsSquare(A, n) && IsSquare(B, n)
    requires forall r, c :: 0 <= r < n && 0 <= c < n ==> A[r][c] == a[r, c] && B[r][c] == b[r, c]
    modifies result
    ensures result[i, j] == old(result[i, j]) + ColDot(A, B, n, i, j, n)
    ensures forall r, c :: 0 <= r < n && 0 <= c < n && (r != i || c != j) ==> result[r, c] == old(result[r, c])
  {
    var k := 0;
    while k < n
      invariant 0 <= k <= n
      invariant result[i, j] == old(result[i, j]) + ColDot(A, B, n, i, j, k)
      invariant forall r, c :: 0 <= r < n && 0 <= c < n && (r != i || c != j) ==> result[r, c] == old(result[r, c])
    {
      result[i, j] := result[i, j] + a[i, k] * b[k, j];
      k := k + 1;
    }
  }

  /** `check_matrix` with its sum started at 0: the total of all elements. */
  method CheckMatrix(m: array2<int>) returns (t: int)
    ensures t == Total(Entries(m))
  {
    ghost var M := Entries(m);
    t := 0;
    var i := 0;
    while i < m.Length0
      invariant 0 <= i <= m.Length0
      invariant t == Total(M[..i])
    {
      var j := 0;
      while j < m.Length1
        invariant 0 <= j <= m.Length1
        invariant t == Total(M[..i]) + Sum(M[i][..j])
      {
        SumStep(M[i], j);
        t := t + m[i, j];
        j := j + 1;
      }
      assert M[i][..m.Length1] == M[i];
      TotalStep(M, i);
      i := i + 1;
    }
    assert M[..m.Length0] == M;
  }

  /** `check_matrix` as written: the accumulator is never initialised, so
      the result is whatever it held (`t0`) plus the total. */
  method CheckMatrixAsWritten(m: array2<int>, t0: int) returns (t: int)
    ensures t == t0 + Total(Entries(m))
  {
    ghost var M := Entries(m);
    t := t0;
    var i := 0;
    while i < m.Length0
      invariant 0 <= i <= m.Length0
      invariant t == t0 + Total(M[..i])
    {
      var j := 0;
      while j < m.Length1
        invariant 0 <= j <= m.Length1
        invariant t == t0 + Total(M[..i]) + Sum(M[i][..j])
      {
        SumStep(M[i], j);
        t := t + m[i, j];
        j := j + 1;
      }
      assert M[i][..m.Length1] == M[i];
      TotalStep(M, i);
      i := i + 1;
    }
    assert M[..m.Length0] == M;
  }

  /** The defect of `check_matrix`, on one matrix: the value the code as
      written returns exceeds the intended total by exactly the leftover
      accumulator `t0`, so the two differ exactly when `t0` is not 0. */
  method CheckMatrixDefect(m: array2<int>, t0: int) returns (asWritten: int, intended: int)
    ensures asWritten - intended == t0
    ensures asWritten != intended <==> t0 != 0
  {
    asWritten := CheckMatrixAsWritten(m, t0);
    intended := CheckMatrix(m);
  }

  /** `work`: fill `a`, `b` and `result` from `rand()`, multiply (adding the
      product onto the random `result`), and report the check value. The
      check value is the one `check_matrix` returns with its sum started at
      0 (`CheckMatrix`; as written it also adds the uninitialised `t`, see
      `CheckMatrixAsWritten`): the total of the starting `result` plus the
      total of `a * b`, and so it lies in `0..9n^2 + 81n^3`. */
  method Work(a: array2<int>, b: array2<int>, result: array2<int>, n: nat,
              drawsA: seq<seq<nat>>, drawsB: seq<seq<nat>>, drawsR: seq<seq<nat>>)
    returns (check: int)
    requires a.Length0 == a.Length1 == b.Length0 == b.Length1 == result.Length0 == result.Length1 == n
    requires result != a && result != b && a != b
    requires |drawsA| == |drawsB| == |drawsR| == n
    requires forall i :: 0 <= i < n ==> |drawsA[i]| == |drawsB[i]| == |drawsR[i]| == n
    modifies a, b, result
    ensures Entries(a) == RandomFill(drawsA, n) && Entries(b) == RandomFill(drawsB, n)
    ensures Bounded(Entries(a), 0, 9) && Bounded(Entries(b), 0, 9)
    ensures Entries(result) == Add(RandomFill(drawsR, n), Product(Entries(a), Entries(b), n), n)
    ensures check == Total(RandomFill(drawsR, n)) + Total(Product(Entries(a), Entries(b), n))
    ensures 0 <= check <= n * (9 * n) + n * (81 * n * n)
  {
    InitMatrix(a, drawsA);
    FillEntries(a, drawsA, n);
    InitMatrix(b, drawsB);
    FillEntries(b, drawsB, n);
    InitMatrix(result, drawsR);
    FillEntries(result, drawsR, n);
    ghost var R0 := Entries(result);
    Mm(a, b, result, n);
    check := CheckMatrix(result);
    ghost var A, B := Entries(a), Entries(b);
    TotalAdd(R0, Product(A, B, n), n);
    TotalBounds(R0, n, 9);
    ProductBounds(A, B, n);
    TotalBounds(Product(A, B, n), n, 81 * n);
  }

  /** The matrix `init_matrix` produces from the given `rand()` values. */
  ghost function RandomFill(draws: seq<seq<nat>>, n: nat): (m: Matrix)
    requires |draws| == n && forall i :: 0 <= i < n ==> |draws[i]| == n
    ensures IsSquare(m, n) && Bounded(m, 0, 9)
  {
    seq(n, i requires 0 <= i < n => seq(n, j requires 0 <= j < n => draws[i][j] % 10))
  }

  /** An array filled by `init_matrix` from `draws` holds `RandomFill`. */
  lemma FillEntries(m: array2<int>, draws: seq<seq<nat>>, n: nat)
    requires m.Length0 == m.Length1 == n
    requires |draws| == n && forall i :: 0 <= i < n ==> |draws[i]| == n
    requires forall i, j :: 0 <= i < n && 0 <= j < n ==> m[i, j] == draws[i][j] % 10
    ensures Entries(m) == RandomFill(draws, n)
  {
    var E, R := Entries(m), RandomFill(draws, n);
    forall i | 0 <= i < n ensures E[i] == R[i] {
      assert forall j :: 0 <= j < n ==> E[i][j] == R[i][j];
    }
  }

  /** Multiplication into a zeroed `result` (`init_matrix_zero` then `mm`)
      leaves exactly the product `a * b`. */
  method MultiplyFromZero(a: array2<int>, b: array2<int>, result: array2<int>, n: nat)
    requires a.Length0 == a.Length1 == b.Length0 == b.Length1 == result.Length0 == result.Length1 == n
    requires result != a && result != b
    modifies result
    ensures Entries(result) == Product(Entries(a), Entries(b), n)
  {
    InitMatrixZero(result);
    ghost var Z := Entries(result);
    Mm(a, b, result, n);
    ghost var P := Product(Entries(a), Entries(b), n);
    ghost var S := Add(Z, P, n);
    forall i | 0 <= i < n ensures S[i] == P[i] {
      assert forall j :: 0 <= j < n ==> S[i][j] == P[i][j];
    }
  }
}
