/** Remainders modulo n. */
module Residues {
  ghost predicate Divides(n: int, x: int) { exists q: int :: x == n * q }

  lemma MultipleGrows(n: int, q: int)
    requires n >= 0
    ensures q >= 1 ==> n * q >= n
    ensures q <= -1 ==> n * q <= -n
    ensures n * 0 == 0
  {
  }

  lemma SmallMultiple(n: int, d: int)
    requires n > 0 && Divides(n, d) && -n < d < n
    ensures d == 0
  {
    var q: int :| d == n * q;
    MultipleGrows(n, q);
  }

  lemma NextResidue(x: nat, n: nat)
    requires n > 1
    ensures (x + 1) % n == if x % n == n - 1 then 0 else x % n + 1
  {
    var q, r := x / n, x % n;
    assert x == n * q + r;
    if r == n - 1 {
      assert x + 1 == n * (q + 1);
      ResidueIs(x + 1, n, q + 1, 0);
    } else {
      ResidueIs(x + 1, n, q, r + 1);
    }
  }

  lemma ResidueIs(x: int, n: nat, q: int, r: nat)
    requires r < n && x == n * q + r
    ensures x % n == r
  {
    assert r - x % n == n * (x / n - q);
    SmallMultiple(n, r - x % n);
  }

  lemma SmallResidue(x: nat, n: nat)
    requires x < n
    ensures x % n == x
  {
  }
}
