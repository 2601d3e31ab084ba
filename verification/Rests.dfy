/** Quotients and rests, behind names: the solver is slow on `/` and `%` with a divisor that is not a
    number, so that proofs about them go through these lemmas. */
module Rests {

  function Quot(a: nat, n: nat): nat
    requires n > 0
  {
    a / n
  }

  function Rest(a: nat, n: nat): (r: nat)
    requires n > 0
    ensures r < n
  {
    a % n
  }

  lemma Split(a: nat, n: nat)
    requires n > 0
    ensures a == Quot(a, n) * n + Rest(a, n)
  {
  }

  lemma MulAtLeast(k: nat, n: nat)
    requires k > 0
    ensures k * n >= n
  {
  }

  lemma Distribute(a: int, b: int, n: int)
    ensures (a + b) * n == a * n + b * n
  {
  }

  lemma SplitUnique(q: nat, r: nat, q': nat, r': nat, n: nat)
    requires q * n + r == q' * n + r' && r < n && r' < n
    ensures q == q' && r == r'
  {
    Distribute(q' - q, q, n);
    Distribute(q - q', q', n);
    if q < q' {
      MulAtLeast(q' - q, n);
    } else if q' < q {
      MulAtLeast(q - q', n);
    }
  }

  lemma SplitAs(q: nat, r: nat, n: nat, a: nat)
    requires a == q * n + r && r < n
    ensures Quot(a, n) == q && Rest(a, n) == r
  {
    Split(a, n);
    SplitUnique(q, r, Quot(a, n), Rest(a, n), n);
  }

  lemma RestStep(a: nat, n: nat)
    requires n > 0
    ensures Rest(a + n, n) == Rest(a, n)
  {
    Split(a, n);
    Distribute(Quot(a, n), 1, n);
    SplitAs(Quot(a, n) + 1, Rest(a, n), n, a + n);
  }

  lemma RestSum(a: nat, i: nat, n: nat)
    requires n > 0
    ensures Rest(Rest(a, n) + i, n) == Rest(a + i, n)
  {
    var x := Rest(a, n) + i;
    Split(a, n);
    Split(x, n);
    Distribute(Quot(a, n), Quot(x, n), n);
    SplitAs(Quot(a, n) + Quot(x, n), Rest(x, n), n, a + i);
  }

  lemma RestSmall(a: nat, n: nat)
    requires a < n
    ensures Rest(a, n) == a && Quot(a, n) == 0
  {
    SplitAs(0, a, n, a);
  }
}
