module Cholesky {
  // The Cholesky kernel of the case study, in place and over exact reals.

  /** A lower triangular matrix with a positive diagonal: row i has the entries 0 to i. */
  ghost predicate IsFactor(L: seq<seq<real>>) {
    forall i :: 0 <= i < |L| ==> |L[i]| == i + 1 && L[i][i] > 0.0
  }

  /** The product of the first m entries of rows i and j. */
  ghost function Dot(L: seq<seq<real>>, i: nat, j: nat, m: nat): real
    requires IsFactor(L) && m <= i + 1 && m <= j + 1 && i < |L| && j < |L|
  {
    if m == 0 then 0.0 else Dot(L, i, j, m - 1) + L[i][m - 1] * L[j][m - 1]
  }

  /** Entry (i, j), j <= i, of L times its transpose. */
  ghost function Product(L: seq<seq<real>>, i: nat, j: nat): real
    requires IsFactor(L) && j <= i < |L|
  {
    Dot(L, i, j, j + 1)
  }

  /** Rows 0 to i - 1 hold the factor's, row i its first j entries; the rest of the lower triangle is that of
      the product, and the strict upper triangle is as given. */
  ghost predicate Done(A: array2<real>, L: seq<seq<real>>, upper: (int, int) -> real, i: nat, j: nat)
    requires IsFactor(L)
    reads A
  {
    && A.Length0 == A.Length1 == |L|
    && (forall r, c ::
      0 <= c <= r < |L| ==> A[r, c] == if r < i || (r == i && c < j) then L[r][c] else Product(L, r, c))
    && (forall r, c :: 0 <= r < c < |L| ==> A[r, c] == upper(r, c))
  }

  /** The square root is exact on the square of x. */
  ghost predicate ExactAt(sqrt: real -> real, x: real) { x > 0.0 ==> sqrt(x * x) == x }

  lemma Divide(x: real, y: real)
    requires y != 0.0
    ensures (x * y) / y == x
  {}

  /** The loop over k. */
  method Subtract(A: array2<real>, i: nat, j: nat, ghost L: seq<seq<real>>, ghost upper: (int, int) -> real)
    requires IsFactor(L) && j <= i < |L| && Done(A, L, upper, i, j)
    modifies A
    ensures A[i, j] == L[i][j] * L[j][j]
    ensures forall r, c :: 0 <= r < |L| && 0 <= c < |L| && (r, c) != (i, j) ==> A[r, c] == old(A[r, c])
  {
    for k := 0 to j
      invariant A[i, j] == Product(L, i, j) - Dot(L, i, j, k)
      invariant forall r, c :: 0 <= r < |L| && 0 <= c < |L| && (r, c) != (i, j) ==> A[r, c] == old(A[r, c])
    {
      A[i, j] := A[i, j] - A[i, k] * A[j, k];
    }
  }

  /** Entry (i, j) left of the diagonal. */
  method OffDiagonal(A: array2<real>, i: nat, j: nat, ghost L: seq<seq<real>>, ghost upper: (int, int) -> real)
    requires IsFactor(L) && j < i < |L| && Done(A, L, upper, i, j)
    modifies A
    ensures Done(A, L, upper, i, j + 1)
  {
    hide Dot;
    Subtract(A, i, j, L, upper);
    Divide(L[i][j], L[j][j]);
    A[i, j] := A[i, j] / A[j, j];
  }

  /** Entry (i, i). */
  method Diagonal(A: array2<real>, i: nat, sqrt: real -> real, ghost L: seq<seq<real>>, ghost upper: (int, int) -> real)
    requires IsFactor(L) && i < |L| && Done(A, L, upper, i, i)
    requires forall x :: ExactAt(sqrt, x)
    modifies A
    ensures Done(A, L, upper, i + 1, 0)
  {
    hide Dot;
    Subtract(A, i, i, L, upper);
    assert ExactAt(sqrt, L[i][i]);
    A[i, i] := sqrt(A[i, i]);
  }

  /** kernel_cholesky: if the lower triangle of A is that of L times its transpose, the kernel leaves exactly L
      there, and the strict upper triangle is not touched.  `sqrt` is any function that is exact on squares. */
  method KernelCholesky(A: array2<real>, sqrt: real -> real, ghost L: seq<seq<real>>)
    requires IsFactor(L) && A.Length0 == A.Length1 == |L|
    requires forall i, j :: 0 <= j <= i < |L| ==> A[i, j] == Product(L, i, j)
    requires forall x :: ExactAt(sqrt, x)
    modifies A
    ensures forall i, j :: 0 <= j <= i < |L| ==> A[i, j] == L[i][j]
    ensures forall i, j :: 0 <= i < j < |L| ==> A[i, j] == old(A[i, j])
  {
    ghost var upper := (r: int, c: int) => if 0 <= r < |L| && 0 <= c < |L| then old(A[r, c]) else 0.0;
    for i := 0 to A.Length0
      invariant Done(A, L, upper, i, 0)
    {
      for j := 0 to i
        invariant Done(A, L, upper, i, j)
      {
        OffDiagonal(A, i, j, L, upper);
      }
      Diagonal(A, i, sqrt, L, upper);
    }
  }

  /** A factor with a positive diagonal is determined by its product with its transpose. */
  lemma {:induction false} FactorUnique(L: seq<seq<real>>, M: seq<seq<real>>, i: nat, j: nat)
    requires IsFactor(L) && IsFactor(M) && |L| == |M| && j <= i < |L|
    requires forall r, c :: 0 <= c <= r < |L| ==> Product(L, r, c) == Product(M, r, c)
    ensures L[i][j] == M[i][j]
    decreases i, j
  {
    SameDots(L, M, i, j, j);
    if j < i {
      FactorUnique(L, M, j, j);
      assert Product(L, i, j) == Dot(L, i, j, j) + L[i][j] * L[j][j]
        && Product(M, i, j) == Dot(M, i, j, j) + M[i][j] * M[j][j];
      Divide(L[i][j], L[j][j]);
      Divide(M[i][j], M[j][j]);
    } else {
      assert Product(L, i, i) == Dot(L, i, i, i) + L[i][i] * L[i][i]
        && Product(M, i, i) == Dot(M, i, i, i) + M[i][i] * M[i][i];
      SameRoot(L[i][i], M[i][i]);
    }
  }

  lemma {:induction false} SameDots(L: seq<seq<real>>, M: seq<seq<real>>, i: nat, j: nat, m: nat)
    requires IsFactor(L) && IsFactor(M) && |L| == |M| && m <= j <= i < |L|
    requires forall r, c :: 0 <= c <= r < |L| ==> Product(L, r, c) == Product(M, r, c)
    ensures Dot(L, i, j, m) == Dot(M, i, j, m)
    decreases i, j, 0, m
  {
    if m > 0 {
      SameDots(L, M, i, j, m - 1);
      FactorUnique(L, M, i, m - 1);
      FactorUnique(L, M, j, m - 1);
    }
  }

  lemma SameRoot(x: real, y: real)
    requires x > 0.0 && y > 0.0 && x * x == y * y
    ensures x == y
  {
    assert (x - y) * (x + y) == 0.0;
  }
}
