/** The coprime-stride order in which shards go on the wire. */
module Interleaver {
  import opened Counting
  import opened Residues

  /** Euclid's algorithm. */
  function Gcd(a: nat, b: nat): nat
    decreases b
  {
    if b == 0 then a else Gcd(b, a % b)
  }

  lemma {:induction false} Bezout(a: nat, b: nat) returns (u: int, v: int)
    ensures u * a + v * b == Gcd(a, b)
    decreases b
  {
    if b == 0 {
      u, v := 1, 0;
    } else {
      var u', v' := Bezout(b, a % b);
      u, v := v', u' - v' * (a / b);
      calc {
        u * a + v * b;
        v' * a + u' * b - v' * (a / b) * b;
        { assert v' * (a - (a / b) * b) == v' * a - v' * (a / b) * b; }
        u' * b + v' * (a - (a / b) * b);
        { assert a == (a / b) * b + a % b; }
        u' * b + v' * (a % b);
      }
    }
  }

  /** The greatest common divisor: it divides both, and whatever divides both divides it. */
  lemma GcdIs(a: nat, b: nat)
    ensures Divides(Gcd(a, b), a) && Divides(Gcd(a, b), b)
    ensures forall d :: Divides(d, a) && Divides(d, b) ==> Divides(d, Gcd(a, b))
  {
    GcdDivides(a, b);
    hide Gcd, Divides;
    forall d | Divides(d, a) && Divides(d, b)
      ensures Divides(d, Gcd(a, b))
    {
      CommonDivides(d, a, b);
    }
  }

  lemma CommonDivides(d: int, a: nat, b: nat)
    requires Divides(d, a) && Divides(d, b)
    ensures Divides(d, Gcd(a, b))
  {
    hide Gcd;
    var u, v := Bezout(a, b);
    var p: int :| a == d * p;
    var q: int :| b == d * q;
    assert u * (d * p) == d * (u * p);
    assert v * (d * q) == d * (v * q);
    assert Gcd(a, b) == d * (u * p + v * q);
  }

  lemma {:induction false} GcdDivides(a: nat, b: nat)
    ensures Divides(Gcd(a, b), a) && Divides(Gcd(a, b), b)
    decreases b
  {
    var g := Gcd(a, b);
    if b == 0 {
      assert a == g * 1 && 0 == g * 0;
    } else {
      GcdDivides(b, a % b);
      var p: int :| b == g * p;
      var q: int :| a % b == g * q;
      assert g * p * (a / b) == g * (p * (a / b));
      assert a == g * (p * (a / b) + q);
    }
  }

  lemma Rearranged(u: int, v: int, step: int, n: int, d: int, q: int)
    requires u * step + v * n == 1 && d * step == n * q
    ensures d == n * (u * q + d * v)
  {
    assert d == d * (u * step + v * n) == u * (d * step) + n * (d * v);
    assert u * (n * q) == n * (u * q);
  }

  /** A number coprime to n cancels modulo n. */
  lemma CoprimeCancels(step: nat, n: nat, d: int)
    requires Gcd(step, n) == 1 && Divides(n, d * step)
    ensures Divides(n, d)
  {
    hide Gcd;
    var u, v := Bezout(step, n);
    var q: int :| d * step == n * q;
    Rearranged(u, v, step, n, d, q);
  }

  lemma SameResidueDivides(n: nat, x: int, y: int)
    requires n > 0 && x % n == y % n
    ensures Divides(n, y - x)
  {
    assert y - x == n * (y / n - x / n);
  }

  /** The multiples of a step coprime to n visit n different residues. */
  lemma MultiplesDiffer(step: nat, n: nat, i: nat, j: nat)
    requires n > 0 && Gcd(step, n) == 1 && i < j < n
    ensures i * step % n != j * step % n
  {
    hide Gcd;
    if i * step % n == j * step % n {
      SameResidueDivides(n, i * step, j * step);
      assert j * step - i * step == (j - i) * step;
      CoprimeCancels(step, n, j - i);
      SmallMultiple(n, j - i);
    }
  }

  // ---------- The search for a coprime step ----------

  /** How far it is to the next number that leaves remainder one. */
  function DistanceToOne(step: nat, n: nat): nat
    requires n > 1
  {
    var r := step % n;
    if r == 0 then 1 else if r == 1 then 0 else n - r + 1
  }

  lemma ResidueOneIsCoprime(step: nat, n: nat)
    requires n > 1 && step % n == 1
    ensures Gcd(step, n) == 1
  {
    assert Gcd(n, 1) == Gcd(1, n % 1) == 1;
  }

  lemma NotCoprimeAdvances(step: nat, n: nat)
    requires n > 1 && Gcd(step, n) != 1
    ensures DistanceToOne(step + 1, n) < DistanceToOne(step, n)
  {
    hide Gcd;
    NextResidue(step, n);
    if step % n == 1 {
      ResidueOneIsCoprime(step, n);
    }
  }

  /** The least step, from the given one on, that is coprime to n. */
  function FirstCoprime(step: nat, n: nat): (s: nat)
    requires n > 1
    ensures s >= step && Gcd(s, n) == 1
    ensures forall t :: step <= t < s ==> Gcd(t, n) != 1
    decreases DistanceToOne(step, n)
  {
    if Gcd(step, n) == 1 then step else NotCoprimeAdvances(step, n); FirstCoprime(step + 1, n)
  }

  // ---------- The order ----------

  /** Position i goes to i * step modulo n. */
  function StrideOrder(step: nat, n: nat, k: nat): (s: seq<nat>)
    requires n > 0
    ensures |s| == k
  {
    seq(k, i requires 0 <= i => i * step % n)
  }

  /** A stride order is a permutation: every index occurs, and none occurs twice. */
  lemma StrideOrderPermutes(step: nat, n: nat)
    requires n > 0 && Gcd(step, n) == 1
    ensures forall i, j :: 0 <= i < j < n ==> StrideOrder(step, n, n)[i] != StrideOrder(step, n, n)[j]
    ensures forall x: nat :: x in StrideOrder(step, n, n) <==> x < n
  {
    hide Gcd;
    var s := StrideOrder(step, n, n);
    forall i, j | 0 <= i < j < n
      ensures s[i] != s[j]
    {
      MultiplesDiffer(step, n, i, j);
    }
    InjectiveCovers(s, n);
  }

  function Elements(s: seq<nat>): set<nat> { set x | x in s }

  lemma {:induction false} ElementCount(s: seq<nat>)
    requires forall i, j :: 0 <= i < j < |s| ==> s[i] != s[j]
    ensures |Elements(s)| == |s|
  {
    if s != [] {
      var m := |s| - 1;
      ElementCount(s[..m]);
      assert Elements(s) == Elements(s[..m]) + {s[m]};
    }
  }

  function Below(n: nat): (s: set<nat>)
    ensures forall x: nat :: x in s <==> x < n
    ensures |s| == n
  {
    if n == 0 then {} else Below(n - 1) + {n - 1}
  }

  lemma InjectiveCovers(s: seq<nat>, n: nat)
    requires |s| == n && forall i :: 0 <= i < n ==> s[i] < n
    requires forall i, j :: 0 <= i < j < n ==> s[i] != s[j]
    ensures forall x: nat :: x in s <==> x < n
  {
    ElementCount(s);
    SubsetSize(Elements(s), Below(n));
    forall x: nat
      ensures x in s <==> x < n
    {
      assert x in s <==> x in Elements(s);
    }
  }

  lemma StrideAdvances(step: nat, n: nat, i: nat)
    requires n > 0
    ensures (i * step % n + step) % n == (i + 1) * step % n
  {
    var q, r := i * step / n, i * step % n;
    var q', r' := (r + step) / n, (r + step) % n;
    assert i * step == n * q + r && r + step == n * q' + r';
    assert (i + 1) * step == i * step + step == n * q + n * q' + r';
    assert n * q + n * q' == n * (q + q');
    ResidueIs((i + 1) * step, n, q + q', r');
  }

  /** How many steps of one it takes from idx round to a free index. */
  function Ahead(idx: nat, free: nat, n: nat): int { if idx <= free then free - idx else free + n - idx }

  lemma SomeFree(seen: set<nat>, n: nat) returns (free: nat)
    requires |seen| < n
    ensures free < n && free !in seen
  {
    if Below(n) <= seen {
      SubsetSize(Below(n), seen);
    }
    free :| free in Below(n) && free !in seen;
  }

  lemma OneStepAhead(idx: nat, free: nat, n: nat)
    requires n > 1 && idx < n && free < n && idx != free
    ensures 0 <= Ahead((idx + 1) % n, free, n) < Ahead(idx, free, n)
  {
    NextResidue(idx, n);
    SmallResidue(idx, n);
  }

  /** Skips over indices that are already in the order. */
  method SkipSeen(start: nat, seen: set<nat>, total: nat) returns (idx: nat)
    requires total > 1 && start < total && |seen| < total
    ensures idx < total && idx !in seen
    ensures start !in seen ==> idx == start
  {
    idx := start;
    ghost var free := SomeFree(seen, total);
    while idx in seen
      invariant idx < total && (idx == start || start in seen)
      decreases Ahead(idx, free, total)
    {
      OneStepAhead(idx, free, total);
      idx := (idx + 1) % total;
    }
  }

  /** The collision test never fires: the next multiple has not been visited. */
  lemma Unvisited(step: nat, n: nat, k: nat)
    requires k < n && Gcd(step, n) == 1
    ensures k * step % n !in StrideOrder(step, n, k)
  {
    hide Gcd;
    forall i | 0 <= i < k
      ensures i * step % n != k * step % n
    {
      MultiplesDiffer(step, n, i, k);
    }
  }

  method InterleavedIndexes(totalShards: int, stride: int) returns (order: seq<nat>)
    ensures totalShards <= 0 ==> order == []
    ensures totalShards == 1 ==> order == [0]
    ensures totalShards > 1 ==>
              order == StrideOrder(FirstCoprime(if stride < 1 then 1 else stride, totalShards), totalShards,
                                   totalShards)
    ensures totalShards > 1 ==>
              var step := FirstCoprime(if stride < 1 then 1 else stride, totalShards);
              |order| == totalShards && forall i :: 0 <= i < totalShards ==> order[i] == i * step % totalShards
  {
    hide Gcd, DistanceToOne;
    var total := if totalShards < 0 then 0 else totalShards;
    if total <= 1 {
      return if total == 1 then [0] else [];
    }
    var step := if stride < 1 then 1 else stride;
    ghost var first := FirstCoprime(step, total);
    while Gcd(step, total) != 1
      invariant step >= 1 && FirstCoprime(step, total) == first
      decreases DistanceToOne(step, total)
    {
      NotCoprimeAdvances(step, total);
      step := step + 1;
    }
    hide FirstCoprime;
    order := [];
    var seen: set<nat> := {};
    var idx := 0;
    for k := 0 to total
      invariant order == StrideOrder(step, total, k)
      invariant seen == Elements(order) && |seen| == k
      invariant idx < total && idx == k * step % total
    {
      Unvisited(step, total, k);
      StrideAdvances(step, total, k);
      idx := SkipSeen(idx, seen, total);
      order := order + [idx];
      seen := seen + {idx};
      idx := (idx + step) % total;
    }
  }
}
