/** Dense integer matrices and vectors as values, shared by the sparse and
    the dense matrix programs, and the contents of a two-dimensional array,
    shared by every program. Elements are mathematical integers, so every
    sum below is exact. */
module Dense {

  /** A matrix as a sequence of rows. */
  type Matrix = seq<seq<int>>

  /** `m` has `n` rows of `n` elements each (the programs' `size x size`). */
  ghost predicate IsSquare(m: Matrix, n: nat)
  {
    |m| == n && forall i :: 0 <= i < n ==> |m[i]| == n
  }

  /** The current contents of a two-dimensional array, row by row. */
  function Entries<T>(a: array2<T>): (m: seq<seq<T>>)
    reads a
    ensures |m| == a.Length0
    ensures forall i :: 0 <= i < a.Length0 ==> |m[i]| == a.Length1
  {
    seq(a.Length0, i requires 0 <= i < a.Length0 reads a =>
      seq(a.Length1, j requires 0 <= j < a.Length1 reads a => a[i, j]))
  }

  /** Sum of the elements, added from the first to the last. */
  function Sum(s: seq<int>): int
  {
    if s == [] then 0 else Sum(s[..|s| - 1]) + s[|s| - 1]
  }

  /** Inner product of the first `j` elements of two vectors. */
  function Dot(x: seq<int>, y: seq<int>, j: nat): int
    requires j <= |x| && j <= |y|
  {
    if j == 0 then 0 else Dot(x, y, j - 1) + x[j - 1] * y[j - 1]
  }

  /** Sum of all elements of a matrix, row after row. */
  function Total(m: Matrix): int
  {
    if m == [] then 0 else Total(m[..|m| - 1]) + Sum(m[|m| - 1])
  }

  /** Extending a prefix by one element adds that element to the sum. */
  lemma SumStep(s: seq<int>, k: nat)
    requires k < |s|
    ensures Sum(s[..k + 1]) == Sum(s[..k]) + s[k]
  {
    assert s[..k + 1][..k] == s[..k];
  }

  /** Extending a prefix of rows by one row adds that row's sum to the total. */
  lemma TotalStep(m: Matrix, i: nat)
    requires i < |m|
    ensures Total(m[..i + 1]) == Total(m[..i]) + Sum(m[i])
  {
    assert m[..i + 1][..i] == m[..i];
  }
}
