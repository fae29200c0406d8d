/** Finite sums over 0..n-1 and double sums over a grid. */
module Sums {

  function Sum(n: nat, f: nat -> real): real {
    if n == 0 then 0.0 else Sum(n - 1, f) + f(n - 1)
  }

  lemma {:induction false} SumCongruence(n: nat, f: nat -> real, g: nat -> real)
    requires forall i: nat :: i < n ==> f(i) == g(i)
    ensures Sum(n, f) == Sum(n, g)
  {
    if n > 0 { SumCongruence(n - 1, f, g); }
  }

  lemma {:induction false} SumAdd(n: nat, f: nat -> real, g: nat -> real, h: nat -> real)
    requires forall i: nat :: i < n ==> h(i) == f(i) + g(i)
    ensures Sum(n, h) == Sum(n, f) + Sum(n, g)
  {
    if n > 0 { SumAdd(n - 1, f, g, h); }
  }

  lemma {:induction false} SumZero(n: nat, f: nat -> real)
    requires forall i: nat :: i < n ==> f(i) == 0.0
    ensures Sum(n, f) == 0.0
  {
    if n > 0 { SumZero(n - 1, f); }
  }

  lemma {:induction false} SumMonotone(n: nat, f: nat -> real, g: nat -> real)
    requires forall i: nat :: i < n ==> f(i) <= g(i)
    ensures Sum(n, f) <= Sum(n, g)
  {
    if n > 0 { SumMonotone(n - 1, f, g); }
  }

  /** Two summands that differ at one index only. */
  lemma {:induction false} SumUpdate(n: nat, k: nat, f: nat -> real, g: nat -> real)
    requires k < n
    requires forall i: nat :: i < n && i != k ==> f(i) == g(i)
    ensures Sum(n, g) == Sum(n, f) - f(k) + g(k)
  {
    if k == n - 1 {
      SumCongruence(n - 1, f, g);
    } else {
      SumUpdate(n - 1, k, f, g);
    }
  }

  lemma {:induction false} SumSingle(n: nat, k: nat, f: nat -> real)
    requires k < n
    requires forall i: nat :: i < n && i != k ==> f(i) == 0.0
    ensures Sum(n, f) == f(k)
  {
    if k == n - 1 {
      SumZero(n - 1, f);
    } else {
      SumSingle(n - 1, k, f);
    }
  }

  // ----- double sums

  type Grid = (nat, nat) -> real

  function AtRow(a: Grid, i: nat): nat -> real { (j: nat) => a(i, j) }

  function RowSum(a: Grid, i: nat, m: nat): real { Sum(m, AtRow(a, i)) }

  function RowSums(a: Grid, m: nat): nat -> real { (i: nat) => RowSum(a, i, m) }

  function Total(a: Grid, n: nat, m: nat): real { Sum(n, RowSums(a, m)) }

  function Transpose(a: Grid): Grid { (i: nat, j: nat) => a(j, i) }

  /** The order of summation does not matter. */
  lemma {:induction false} TotalTranspose(a: Grid, n: nat, m: nat)
    ensures Total(a, n, m) == Total(Transpose(a), m, n)
  {
    if n == 0 {
      SumZero(m, RowSums(Transpose(a), 0));
    } else {
      TotalTranspose(a, n - 1, m);
      var b := Transpose(a);
      forall j: nat | j < m
        ensures RowSums(b, n)(j) == RowSums(b, n - 1)(j) + AtRow(a, n - 1)(j)
      {
      }
      SumAdd(m, RowSums(b, n - 1), AtRow(a, n - 1), RowSums(b, n));
    }
  }

  lemma {:induction false} TotalAdd(a: Grid, b: Grid, c: Grid, n: nat, m: nat)
    requires forall i: nat, j: nat :: i < n && j < m ==> c(i, j) == a(i, j) + b(i, j)
    ensures Total(c, n, m) == Total(a, n, m) + Total(b, n, m)
  {
    forall i: nat | i < n
      ensures RowSums(c, m)(i) == RowSums(a, m)(i) + RowSums(b, m)(i)
    {
      SumAdd(m, AtRow(a, i), AtRow(b, i), AtRow(c, i));
    }
    SumAdd(n, RowSums(a, m), RowSums(b, m), RowSums(c, m));
  }

  lemma {:induction false} TotalMonotone(a: Grid, b: Grid, n: nat, m: nat)
    requires forall i: nat, j: nat :: i < n && j < m ==> a(i, j) <= b(i, j)
    ensures Total(a, n, m) <= Total(b, n, m)
  {
    forall i: nat | i < n
      ensures RowSums(a, m)(i) <= RowSums(b, m)(i)
    {
      SumMonotone(m, AtRow(a, i), AtRow(b, i));
    }
    SumMonotone(n, RowSums(a, m), RowSums(b, m));
  }

  /** A skew-symmetric grid sums to zero. */
  lemma {:induction false} TotalSkew(a: Grid, n: nat)
    requires forall i: nat, j: nat :: i < n && j < n ==> a(i, j) == -a(j, i)
    ensures Total(a, n, n) == 0.0
  {
    TotalTranspose(a, n, n);
    var zero: Grid := (i: nat, j: nat) => 0.0;
    TotalAdd(a, Transpose(a), zero, n, n);
    forall i: nat | i < n
      ensures RowSums(zero, n)(i) == 0.0
    {
      SumZero(n, AtRow(zero, i));
    }
    SumZero(n, RowSums(zero, n));
  }
}
