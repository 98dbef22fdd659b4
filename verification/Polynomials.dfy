/** Polynomials over GF(2^8), lowest coefficient first: a non-zero one of length n has fewer than n roots. */
module Polynomials {
  import opened GaloisField
  import opened GeneratorPowers
  import opened LinearAlgebra

  function Eval(q: Vector, x: Elem): Elem {
    if q == [] then 0 else Add(q[0], Mul(x, Eval(q[1..], x)))
  }

  function PowerOf(b: Elem, c: nat): Elem { if c == 0 then 1 else Mul(PowerOf(b, c - 1), b) }

  /** Synthetic division by (x - b). */
  function Divide(q: Vector, b: Elem): (p: Vector)
    ensures |p| == if q == [] then 0 else |q| - 1
  {
    if |q| <= 1 then [] else [Eval(q[1..], b)] + Divide(q[1..], b)
  }

  /** q(x) = (x - b) p(x) + q(b). */
  lemma {:induction false} DivideCorrect(q: Vector, b: Elem, x: Elem)
    ensures Eval(q, x) == Add(Mul(Add(x, b), Eval(Divide(q, b), x)), Eval(q, b))
  {
    if |q| == 0 {
      hide Add, Mul;
      MulUnits(Add(x, b));
      AddLaws(0, 0, 0);
    } else if |q| == 1 {
      hide Add, Mul;
      assert Eval(q[1..], x) == 0 == Eval(q[1..], b);
      MulUnits(x);
      MulUnits(b);
      MulUnits(Add(x, b));
      AddLaws(q[0], 0, 0);
    } else {
      hide Add, Mul;
      DivideCorrect(q[1..], b, x);
      var p := Divide(q[1..], b);
      var e := Eval(q[1..], b);
      assert Divide(q, b)[0] == e && Divide(q, b)[1..] == p;
      DivideStep(q[0], x, b, Eval(p, x), e);
    }
  }

  lemma DivideStep(q0: Elem, x: Elem, b: Elem, p: Elem, e: Elem)
    ensures Add(q0, Mul(x, Add(Mul(Add(x, b), p), e)))
            == Add(Mul(Add(x, b), Add(e, Mul(x, p))), Add(q0, Mul(b, e)))
  {
    hide Add, Mul;
    var s := Add(x, b);
    var sp, xe, be := Mul(x, Mul(s, p)), Mul(x, e), Mul(b, e);
    MulRightAdds(x, Mul(s, p), e);
    MulRightAdds(s, e, Mul(x, p));
    MulLeftAdds(x, b, e);
    MulAssociates(s, x, p);
    MulAssociates(x, s, p);
    MulCommutes(s, x);
    // q0 + (sp + xe) == ((xe + be) + sp) + (q0 + be)
    AddLaws(Add(xe, be), sp, Add(q0, be));
    AddLaws(q0, be, 0);
    AddLaws(sp, be, q0);
    AddLaws(xe, be, Add(sp, Add(be, q0)));
    AddLaws(be, sp, Add(be, q0));
    AddLaws(be, sp, 0);
    AddLaws(be, be, Add(sp, q0));
    AddLaws(sp, be, Add(be, q0));
    AddLaws(be, be, q0);
    AddLaws(q0, 0, 0);
    AddLaws(xe, sp, q0);
    AddLaws(q0, Add(sp, xe), 0);
    AddLaws(sp, xe, 0);
    AddLaws(sp, q0, 0);
    assert Add(be, Add(sp, Add(be, q0))) == Add(sp, q0) by {
      assert Add(be, Add(sp, Add(be, q0))) == Add(Add(sp, be), Add(be, q0));
      assert Add(Add(sp, be), Add(be, q0)) == Add(sp, Add(be, Add(be, q0)));
      assert Add(be, Add(be, q0)) == Add(Add(be, be), q0) == q0;
    }
  }

  /** A polynomial whose quotient and remainder vanish is zero. */
  lemma {:induction false} DivideZero(q: Vector, b: Elem)
    requires Eval(q, b) == 0
    requires Divide(q, b) == Zeros(|Divide(q, b)|)
    ensures q == Zeros(|q|)
  {
    hide Add, Mul;
    if |q| >= 1 {
      if |q| > 1 {
        var d, t := Divide(q, b), Divide(q[1..], b);
        assert d[0] == 0 && t == d[1..] == Zeros(|t|);
        DivideZero(q[1..], b);
      }
      assert Eval(q[1..], b) == 0;
      assert q[1..] == Zeros(|q| - 1);
      MulUnits(b);
      AddLaws(q[0], 0, 0);
      assert q == [q[0]] + q[1..];
    }
  }

  ghost predicate Distinct(xs: seq<Elem>) { forall i, j :: 0 <= i < j < |xs| ==> xs[i] != xs[j] }

  /** As many distinct roots as coefficients force the zero polynomial. */
  lemma {:induction false} TooManyRoots(q: Vector, xs: seq<Elem>)
    requires |q| <= |xs| && Distinct(xs)
    requires forall i :: 0 <= i < |xs| ==> Eval(q, xs[i]) == 0
    ensures q == Zeros(|q|)
    decreases |q|
  {
    hide Add, Mul;
    if q != [] {
      var b, p := xs[0], Divide(q, xs[0]);
      var ys := xs[1..];
      forall i | 0 <= i < |ys|
        ensures Eval(p, ys[i]) == 0
      {
        var x := ys[i];
        DivideCorrect(q, b, x);
        AddLaws(Mul(Add(x, b), Eval(p, x)), 0, 0);
        AddLaws(x, b, 0);
        NoZeroDivisors(Add(x, b), Eval(p, x));
      }
      TooManyRoots(p, ys);
      DivideZero(q, b);
    }
  }

  // ---------- A row of powers evaluates the polynomial ----------

  function PowerRow(b: Elem, n: nat): (row: Vector)
    ensures |row| == n
  {
    seq(n, c requires 0 <= c => PowerOf(b, c))
  }

  lemma {:induction false} EvalAppend(q: Vector, c: Elem, x: Elem)
    ensures Eval(q + [c], x) == Add(Eval(q, x), Mul(PowerOf(x, |q|), c))
  {
    hide Add, Mul;
    if q == [] {
      assert Eval([c], x) == Add(c, Mul(x, Eval([c][1..], x)));
      MulUnits(x);
      MulUnits(c);
      AddLaws(c, 0, 0);
    } else {
      assert (q + [c])[1..] == q[1..] + [c];
      EvalAppend(q[1..], c, x);
      var n := |q| - 1;
      MulRightAdds(x, Eval(q[1..], x), Mul(PowerOf(x, n), c));
      MulAssociates(x, PowerOf(x, n), c);
      MulCommutes(x, PowerOf(x, n));
      AddLaws(q[0], Mul(x, Eval(q[1..], x)), Mul(PowerOf(x, |q|), c));
    }
  }

  lemma {:induction false} DotIsEval(b: Elem, w: Vector, k: nat)
    requires k <= |w|
    ensures DotTo(PowerRow(b, |w|), w, k) == Eval(w[..k], b)
  {
    hide Add, Mul;
    if k != 0 {
      DotIsEval(b, w, k - 1);
      EvalAppend(w[..k - 1], w[k - 1], b);
      assert w[..k] == w[..k - 1] + [w[k - 1]];
    }
  }

  lemma {:induction false} EvalLeadingZeros(w: Vector, s: nat, b: Elem)
    requires s <= |w| && forall i :: 0 <= i < s ==> w[i] == 0
    ensures Eval(w, b) == Mul(PowerOf(b, s), Eval(w[s..], b))
  {
    hide Add, Mul;
    if s == 0 {
      assert w[0..] == w;
      MulUnits(Eval(w, b));
    } else {
      assert w[1..][s - 1..] == w[s..];
      EvalLeadingZeros(w[1..], s - 1, b);
      var e := Eval(w[s..], b);
      AddLaws(Mul(b, Eval(w[1..], b)), 0, 0);
      MulAssociates(b, PowerOf(b, s - 1), e);
      MulCommutes(b, PowerOf(b, s - 1));
    }
  }

  lemma {:induction false} EvalTrailingZeros(w: Vector, r: nat, b: Elem)
    requires r <= |w| && forall i :: r <= i < |w| ==> w[i] == 0
    ensures Eval(w, b) == Eval(w[..r], b)
    decreases |w| - r
  {
    hide Add, Mul;
    if r == |w| {
      assert w[..r] == w;
    } else {
      EvalTrailingZeros(w, r + 1, b);
      assert w[..r + 1] == w[..r] + [0];
      EvalAppend(w[..r], 0, b);
      MulUnits(PowerOf(b, r));
      AddLaws(Eval(w[..r], b), 0, 0);
    }
  }

  lemma {:induction false} PowerNonZero(b: Elem, c: nat)
    requires b != 0
    ensures PowerOf(b, c) != 0
  {
    hide Mul;
    if c != 0 && PowerOf(b, c) == 0 {
      PowerNonZero(b, c - 1);
      NoZeroDivisors(PowerOf(b, c - 1), b);
    }
  }

  // ---------- A polynomial with given roots ----------

  lemma {:induction false} EvalCombined(u: Vector, f: Elem, w: Vector, x: Elem)
    requires |u| == |w|
    ensures Eval(Combined(u, f, w), x) == Add(Eval(u, x), Mul(f, Eval(w, x)))
  {
    hide Add, Mul;
    if u == [] {
      MulUnits(f);
      AddLaws(0, 0, 0);
    } else {
      EvalCombined(u[1..], f, w[1..], x);
      assert Combined(u, f, w)[1..] == Combined(u[1..], f, w[1..]);
      CombineHeads(u[0], w[0], f, x, Eval(u[1..], x), Eval(w[1..], x));
    }
  }

  lemma CombineHeads(u0: Elem, w0: Elem, f: Elem, x: Elem, eu: Elem, ew: Elem)
    ensures Add(Add(u0, Mul(f, w0)), Mul(x, Add(eu, Mul(f, ew))))
            == Add(Add(u0, Mul(x, eu)), Mul(f, Add(w0, Mul(x, ew))))
  {
    hide Add, Mul;
    MulRightAdds(x, eu, Mul(f, ew));
    MulRightAdds(f, w0, Mul(x, ew));
    MulAssociates(x, f, ew);
    MulAssociates(f, x, ew);
    MulCommutes(x, f);
    AddInterchange(u0, Mul(f, w0), Mul(x, eu), Mul(f, Mul(x, ew)));
  }

  /** (x + a) q. */
  function TimesLinear(q: Vector, a: Elem): (p: Vector)
    ensures |p| == |q| + 1
  {
    Combined([0] + q, a, q + [0])
  }

  lemma EvalTimesLinear(q: Vector, a: Elem, x: Elem)
    ensures Eval(TimesLinear(q, a), x) == Mul(Add(x, a), Eval(q, x))
  {
    hide Add, Mul;
    EvalCombined([0] + q, a, q + [0], x);
    assert ([0] + q)[1..] == q;
    AddLaws(Mul(x, Eval(q, x)), 0, 0);
    EvalTrailingZeros(q + [0], |q|, x);
    assert (q + [0])[..|q|] == q;
    MulLeftAdds(x, a, Eval(q, x));
  }

  /** The monic polynomial that is zero at the given places. */
  function RootPoly(xs: seq<Elem>): (q: Vector)
    ensures |q| == |xs| + 1
  {
    if xs == [] then [1] else TimesLinear(RootPoly(xs[..|xs| - 1]), xs[|xs| - 1])
  }

  lemma {:induction false} RootPolyHasRoots(xs: seq<Elem>)
    ensures RootPoly(xs)[|xs|] == 1
    ensures forall i :: 0 <= i < |xs| ==> Eval(RootPoly(xs), xs[i]) == 0
  {
    hide Add, Mul, Eval;
    if xs != [] {
      var n := |xs| - 1;
      var q := RootPoly(xs[..n]);
      RootPolyHasRoots(xs[..n]);
      MulUnits(xs[n]);
      AddLaws(1, 0, 0);
      forall i | 0 <= i < |xs|
        ensures Eval(RootPoly(xs), xs[i]) == 0
      {
        EvalTimesLinear(q, xs[n], xs[i]);
        if i < n {
          assert xs[..n][i] == xs[i];
          MulUnits(Add(xs[i], xs[n]));
        } else {
          AddLaws(xs[n], xs[n], 0);
          MulUnits(Eval(q, xs[n]));
        }
      }
    }
  }

  // ---------- Coefficients at equal distances ----------

  /** Products of indices and distances, kept folded so that the solver need not multiply. */
  function Times(i: nat, d: nat): nat { i * d }

  lemma TimesStep(i: nat, d: nat)
    ensures Times(0, d) == 0 && Times(i + 1, d) == Times(i, d) + d
  {
  }

  lemma TimesGrows(i: nat, j: nat, d: nat)
    requires i < j
    ensures Times(i, d) + d <= Times(j, d)
  {
    assert Times(j, d) == Times(i, d) + Times(j - i, d);
    assert (j - i) * d >= d;
  }

  /** The entries of v at multiples of d are those of q, and all others are zero. */
  ghost predicate Spread(v: Vector, d: nat, q: Vector) {
    && (forall i :: 0 <= i < |q| ==> Times(i, d) < |v| && v[Times(i, d)] == q[i])
    && forall c :: 0 <= c < |v| && (forall i :: 0 <= i < |q| ==> c != Times(i, d)) ==> v[c] == 0
  }

  lemma {:induction false} PowerAdds(b: Elem, i: nat, j: nat)
    ensures PowerOf(b, i + j) == Mul(PowerOf(b, i), PowerOf(b, j))
  {
    hide Mul;
    if j == 0 {
      MulUnits(PowerOf(b, i));
    } else {
      PowerAdds(b, i, j - 1);
      MulAssociates(PowerOf(b, i), PowerOf(b, j - 1), b);
    }
  }

  lemma EvalZeros(v: Vector, b: Elem)
    requires forall c :: 0 <= c < |v| ==> v[c] == 0
    ensures Eval(v, b) == 0
  {
    EvalTrailingZeros(v, 0, b);
  }

  lemma SpreadRest(v: Vector, d: nat, q: Vector)
    requires d > 0 && Spread(v, d, q) && |q| > 1
    ensures d < |v| && v[0] == q[0] && Spread(v[d..], d, q[1..])
    ensures forall c :: 0 < c < d ==> v[c] == 0
  {
    hide Times;
    TimesStep(0, d);
    assert Times(0, d) < |v| && Times(1, d) < |v|;
    forall i | 0 <= i < |q| - 1
      ensures Times(i, d) < |v[d..]| && v[d..][Times(i, d)] == q[1..][i]
    {
      TimesStep(i, d);
      assert v[Times(i + 1, d)] == q[i + 1];
    }
    forall c | 0 <= c < |v[d..]| && (forall i :: 0 <= i < |q| - 1 ==> c != Times(i, d))
      ensures v[d..][c] == 0
    {
      forall i | 0 <= i < |q|
        ensures c + d != Times(i, d)
      {
        if i > 0 {
          TimesStep(i - 1, d);
        }
      }
    }
    forall c | 0 < c < d
      ensures v[c] == 0
    {
      forall i | 0 <= i < |q|
        ensures c != Times(i, d)
      {
        if i > 0 {
          TimesGrows(0, i, d);
        }
      }
    }
  }

  /** Such a vector evaluates as q does at the d-th power. */
  lemma {:induction false} EvalSpread(v: Vector, d: nat, q: Vector, b: Elem)
    requires d > 0 && Spread(v, d, q)
    ensures Eval(v, b) == Eval(q, PowerOf(b, d))
    decreases |q|
  {
    hide Add, Mul, PowerOf, Times;
    TimesStep(0, d);
    if q == [] {
      EvalZeros(v, b);
    } else if |q| == 1 {
      assert Times(0, d) < |v| && v[Times(0, d)] == q[0];
      assert v == [v[0]] + v[1..];
      forall c | 1 <= c < |v|
        ensures v[c] == 0
      {
        assert c != Times(0, d);
      }
      EvalZeros(v[1..], b);
      assert q[1..] == [];
      MulUnits(b);
      MulUnits(PowerOf(b, d));
    } else {
      SpreadRest(v, d, q);
      EvalSpread(v[d..], d, q[1..], b);
      hide Spread;
      EvalLeadingZeros(v[1..], d - 1, b);
      assert v[1..][d - 1..] == v[d..];
      PowerAdds(b, 1, d - 1);
      FirstPower(b);
      MulAssociates(b, PowerOf(b, d - 1), Eval(v[d..], b));
    }
  }

  lemma FirstPower(b: Elem)
    ensures PowerOf(b, 1) == b
  {
    hide Mul;
    assert PowerOf(b, 1) == Mul(PowerOf(b, 0), b);
    MulUnits(b);
  }

  /** A row of powers meets a vector whose non-zero entries stand at s, s + d, s + 2d and so on. */
  lemma DotOnProgression(b: Elem, w: Vector, s: nat, d: nat, q: Vector)
    requires s <= |w| && d > 0 && (forall c :: 0 <= c < s ==> w[c] == 0) && Spread(w[s..], d, q)
    ensures Dot(PowerRow(b, |w|), w) == Mul(PowerOf(b, s), Eval(q, PowerOf(b, d)))
    ensures b != 0 ==> (Dot(PowerRow(b, |w|), w) == 0 <==> Eval(q, PowerOf(b, d)) == 0)
  {
    hide Add, Mul, DotTo, Eval, Spread, PowerOf;
    DotIsEval(b, w, |w|);
    assert w[..|w|] == w;
    EvalLeadingZeros(w, s, b);
    EvalSpread(w[s..], d, q, b);
    MulUnits(PowerOf(b, s));
    if b != 0 {
      PowerNonZero(b, s);
      if Mul(PowerOf(b, s), Eval(q, PowerOf(b, d))) == 0 {
        NoZeroDivisors(PowerOf(b, s), Eval(q, PowerOf(b, d)));
      }
    }
  }

  // ---------- Powers of powers of the generator ----------

  lemma {:induction false} PowerOfGenerator(i: nat, c: nat)
    ensures PowerOf(Generator(i), c) == Generator(i * c)
  {
    hide Mul, Generator;
    if c == 0 {
      GeneratorZero();
    } else {
      PowerOfGenerator(i, c - 1);
      assert i * (c - 1) >= 0 && i * (c - 1) + i == i * c;
      GeneratorAdds(i * (c - 1), i);
    }
  }

  lemma GeneratorZero()
    ensures Generator(0) == 1
  {
  }
}
