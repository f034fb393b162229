/** Finite sums of reals over `0..n`. */
module Sums {

  ghost function Sum(n: nat, f: nat -> real): real {
    if n == 0 then 0.0 else Sum(n - 1, f) + f(n - 1)
  }

  lemma {:induction false} SumSame(n: nat, f: nat -> real, h: nat -> real)
    requires forall i: nat :: i < n ==> f(i) == h(i)
    ensures Sum(n, f) == Sum(n, h)
  {
    if n > 0 {
      SumSame(n - 1, f, h);
    }
  }

  lemma {:induction false} SumAtMost(n: nat, f: nat -> real, h: nat -> real)
    requires forall i: nat :: i < n ==> f(i) <= h(i)
    ensures Sum(n, f) <= Sum(n, h)
  {
    if n > 0 {
      SumAtMost(n - 1, f, h);
    }
  }

  lemma {:induction false} SumZero(n: nat, f: nat -> real)
    requires forall i: nat :: i < n ==> f(i) == 0.0
    ensures Sum(n, f) == 0.0
  {
    if n > 0 {
      SumZero(n - 1, f);
    }
  }

  lemma {:induction false} SumAdd(n: nat, f: nat -> real, h: nat -> real)
    ensures Sum(n, (i: nat) => f(i) + h(i)) == Sum(n, f) + Sum(n, h)
  {
    if n > 0 {
      SumAdd(n - 1, f, h);
    }
  }

  lemma {:induction false} SumScale(n: nat, a: real, f: nat -> real)
    ensures Sum(n, (i: nat) => a * f(i)) == a * Sum(n, f)
  {
    if n > 0 {
      SumScale(n - 1, a, f);
    }
  }

  /** Two sums that differ at one place only. */
  lemma {:induction false} SumChange(n: nat, f: nat -> real, h: nat -> real, k: nat)
    requires k < n && forall i: nat :: i < n && i != k ==> f(i) == h(i)
    ensures Sum(n, h) == Sum(n, f) - f(k) + h(k)
  {
    if k == n - 1 {
      SumSame(n - 1, f, h);
    } else {
      SumChange(n - 1, f, h, k);
    }
  }

  lemma SumSingle(n: nat, f: nat -> real, k: nat)
    requires k < n && forall i: nat :: i < n && i != k ==> f(i) == 0.0
    ensures Sum(n, f) == f(k)
  {
    var zero := (i: nat) => 0.0;
    SumZero(n, zero);
    SumChange(n, zero, f, k);
  }

  lemma {:induction false} SumSwap(n: nat, m: nat, f: (nat, nat) -> real)
    ensures Sum(n, (i: nat) => Sum(m, (j: nat) => f(i, j))) == Sum(m, (j: nat) => Sum(n, (i: nat) => f(i, j)))
  {
    if n == 0 {
      SumZero(m, (j: nat) => Sum(n, (i: nat) => f(i, j)));
    } else {
      SumSwap(n - 1, m, f);
      var last := (j: nat) => f(n - 1, j);
      var rest := (j: nat) => Sum(n - 1, (i: nat) => f(i, j));
      SumAdd(m, rest, last);
      SumSame(m, (j: nat) => rest(j) + last(j), (j: nat) => Sum(n, (i: nat) => f(i, j)));
    }
  }
}
