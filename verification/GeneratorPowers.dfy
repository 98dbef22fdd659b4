/** Doubling on machine bytes. Literals evaluate quickly here, which the order of the generator needs. */
module ByteWords {
  /** The shift and the conditional reduction on an eight-bit word. */
  function DoubleWord(a: bv8): bv8 { (a << 1) ^ (if a & 0x80 != 0 then 0x1D else 0) }

  /** From `a`, doubling `n` times leads to `b` and meets one nowhere before. */
  predicate Walk(a: bv8, n: nat, b: bv8)
    decreases n
  {
    if n == 0 then a == b else a != 1 && Walk(DoubleWord(a), n - 1, b)
  }

  lemma {:induction false} WalkOn(a: bv8, m: nat, b: bv8, n: nat, c: bv8)
    requires Walk(a, m, b) && Walk(b, n, c)
    ensures Walk(a, m + n, c)
    decreases m
  {
    if m != 0 {
      hide DoubleWord;
      WalkOn(DoubleWord(a), m - 1, b, n, c);
    }
  }

  lemma Milestones()
    ensures Walk(2, 12, 135) && Walk(135, 12, 3) && Walk(3, 12, 74)
    ensures Walk(74, 12, 140) && Walk(140, 12, 111) && Walk(111, 12, 202)
    ensures Walk(202, 12, 214) && Walk(214, 12, 175) && Walk(175, 12, 189)
    ensures Walk(189, 12, 118) && Walk(118, 12, 109) && Walk(109, 12, 77)
    ensures Walk(77, 12, 213) && Walk(213, 12, 229) && Walk(229, 12, 49)
    ensures Walk(49, 12, 25) && Walk(25, 12, 167) && Walk(167, 12, 155)
    ensures Walk(155, 12, 122) && Walk(122, 12, 88) && Walk(88, 12, 71)
    ensures Walk(71, 2, 1)
  {
  }

  /** The first 144 doublings from x on, and two places on the way. */
  lemma FirstWalk()
    ensures Walk(2, 144, 77) && Walk(2, 2, 8) && Walk(2, 50, 10)
  {
    assert Walk(2, 2, 8) && Walk(140, 2, 10);
    hide Walk;
    Milestones();
    WalkOn(2, 12, 135, 12, 3);
    WalkOn(2, 24, 3, 12, 74);
    WalkOn(2, 36, 74, 12, 140);
    WalkOn(2, 48, 140, 12, 111);
    WalkOn(2, 60, 111, 12, 202);
    WalkOn(2, 72, 202, 12, 214);
    WalkOn(2, 84, 214, 12, 175);
    WalkOn(2, 96, 175, 12, 189);
    WalkOn(2, 108, 189, 12, 118);
    WalkOn(2, 120, 118, 12, 109);
    WalkOn(2, 132, 109, 12, 77);
    WalkOn(2, 48, 140, 2, 10);
  }

  lemma SecondWalk()
    ensures Walk(77, 110, 1) && Walk(77, 53, 7) && Walk(77, 78, 9)
  {
    assert Walk(25, 5, 7) && Walk(155, 6, 9);
    hide Walk;
    Milestones();
    WalkOn(77, 12, 213, 12, 229);
    WalkOn(77, 24, 229, 12, 49);
    WalkOn(77, 36, 49, 12, 25);
    WalkOn(77, 48, 25, 12, 167);
    WalkOn(77, 60, 167, 12, 155);
    WalkOn(77, 72, 155, 12, 122);
    WalkOn(77, 84, 122, 12, 88);
    WalkOn(77, 96, 88, 12, 71);
    WalkOn(77, 108, 71, 2, 1);
    WalkOn(77, 48, 25, 5, 7);
    WalkOn(77, 72, 155, 6, 9);
  }

  /** The 254 doublings that lead from x back to one, and four places on the way. */
  lemma FullWalk()
    ensures Walk(2, 254, 1) && Walk(2, 2, 8) && Walk(2, 50, 10) && Walk(2, 197, 7) && Walk(2, 222, 9)
  {
    hide Walk;
    FirstWalk();
    SecondWalk();
    WalkOn(2, 144, 77, 110, 1);
    WalkOn(2, 144, 77, 53, 7);
    WalkOn(2, 144, 77, 78, 9);
  }

  function Num(b: bool): nat { if b then 1 else 0 }

  /** The number that a word stands for. */
  function Value(a: bv8): nat {
    Num(a & 1 != 0) + 2 * Num(a & 2 != 0) + 4 * Num(a & 4 != 0) + 8 * Num(a & 8 != 0)
    + 16 * Num(a & 16 != 0) + 32 * Num(a & 32 != 0) + 64 * Num(a & 64 != 0) + 128 * Num(a & 128 != 0)
  }

  lemma ValueFacts(a: bv8)
    ensures Value(a) < 256
    ensures Value(a) >= 128 <==> a & 128 != 0
    ensures Value(a) == 1 ==> a == 1
  {
  }

  lemma DoubleWordHigh(a: bv8)
    requires a & 128 != 0
    ensures Value(DoubleWord(a)) == 1 + 2 * Num(a & 1 != 0) + 4 * (1 - Num(a & 2 != 0)) + 8 * (1 - Num(a & 4 != 0))
      + 16 * (1 - Num(a & 8 != 0)) + 32 * Num(a & 16 != 0) + 64 * Num(a & 32 != 0) + 128 * Num(a & 64 != 0)
  {
  }

  lemma DoubleWordLow(a: bv8)
    requires a & 128 == 0
    ensures Value(DoubleWord(a)) == 2 * Value(a)
  {
  }
}

/** The powers of the generator x, and the proof that x has order exactly 255. */
module GeneratorPowers {
  import opened ByteWords
  import opened Counting
  import opened GaloisField

  /** x^i. */
  function Generator(i: nat): Elem { if i == 0 then 1 else Double(Generator(i - 1)) }

  lemma {:induction false} GeneratorAdds(i: nat, j: nat)
    ensures Mul(Generator(i), Generator(j)) == Generator(i + j)
  {
    hide Mul, Double;
    if i == 0 {
      MulUnits(Generator(j));
    } else {
      GeneratorAdds(i - 1, j);
      MulDoubleLeft(Generator(i - 1), Generator(j));
    }
  }

  lemma LowDigit(b: nat, h: nat)
    requires b < 2
    ensures (b + 2 * h) % 2 == b && (b + 2 * h) / 2 == h
  {
  }

  lemma XorDigit(b: nat, h: nat, c: nat, k: nat)
    requires b < 2 && c < 2
    ensures Xor(b + 2 * h, c + 2 * k) == (if b == c then 0 else 1) + 2 * Xor(h, k)
  {
    hide Xor;
    LowDigit(b, h);
    LowDigit(c, k);
    XorBits(b + 2 * h, c + 2 * k);
  }

  lemma XorEight(r: nat)
    requires r < 8
    ensures Xor(8 + r, 8) == r
  {
    XorUnit(1);
    XorUnit(0);
    hide Xor;
    var q := r / 2;
    XorDigit(0, 1, 0, 1);
    XorDigit(q / 2, 2 / 2, 0, 1);
    XorDigit(q % 2, 2 + q / 2, 0, 2);
    XorDigit(q / 2, 1, 0, 1);
    XorDigit(r % 2, 4 + q, 0, 4);
  }

  lemma DoubleDigits(b0: nat, b1: nat, b2: nat, b3: nat, r: nat)
    requires b0 < 2 && b1 < 2 && b2 < 2 && b3 < 2 && r < 8
    ensures Double(b0 + 2 * b1 + 4 * b2 + 8 * b3 + 16 * r + 128)
            == 1 + 2 * b0 + 4 * (1 - b1) + 8 * (1 - b2) + 16 * (1 - b3) + 32 * r
  {
    var h := 8 + r;
    var v3 := b3 + 2 * h;
    var v2 := b2 + 2 * v3;
    var v1 := b1 + 2 * v2;
    var v := b0 + 2 * v1;
    assert Double(v) == Xor(0 + 2 * v, 1 + 2 * 142) by {
      hide Xor;
    }
    hide Xor, Double;
    XorDigit(0, v, 1, 142);
    XorDigit(b0, v1, 0, 71);
    XorDigit(b1, v2, 1, 35);
    XorDigit(b2, v3, 1, 17);
    XorDigit(b3, h, 1, 8);
    XorEight(r);
  }

  /** The shift and the conditional reduction on a word is `Double`. */
  lemma DoubleWordValue(a: bv8)
    ensures Value(DoubleWord(a)) == Double(Value(a))
  {
    ValueFacts(a);
    if a & 128 != 0 {
      DoubleWordHigh(a);
      hide DoubleWord, Double;
      DoubleDigits(Num(a & 1 != 0), Num(a & 2 != 0), Num(a & 4 != 0), Num(a & 8 != 0),
                   Num(a & 16 != 0) + 2 * Num(a & 32 != 0) + 4 * Num(a & 64 != 0));
    } else {
      hide DoubleWord, Value;
      DoubleWordLow(a);
    }
  }

  lemma {:induction false} WalkMeets(a: bv8, i: nat, n: nat, b: bv8)
    requires Value(a) == Generator(i)
    requires Walk(a, n, b)
    ensures Value(b) == Generator(i + n)
    ensures forall j :: i <= j < i + n ==> Generator(j) != 1
    decreases n
  {
    if n != 0 {
      ValueFacts(a);
      assert Value(1) == 1;
      hide Value, Double, DoubleWord;
      DoubleWordValue(a);
      assert Generator(i + 1) == Double(Generator(i));
      WalkMeets(DoubleWord(a), i + 1, n - 1, b);
    }
  }

  /** x has order exactly 255. */
  lemma OrderOfGenerator()
    ensures Generator(255) == 1
    ensures forall d :: 0 < d < 255 ==> Generator(d) != 1
  {
    assert Value(2) == 2 && Value(1) == 1;
    assert DoubleWord(1) == 2;
    hide DoubleWord;
    DoubleWordValue(1);
    assert Generator(1) == Double(1) by {
      assert Generator(0) == 1;
      hide Double;
    }
    hide Double, Walk, Value, Generator;
    FullWalk();
    WalkMeets(2, 1, 254, 1);
  }

  lemma WalkFromOne(n: nat, b: bv8)
    requires Walk(2, n, b)
    ensures Generator(n + 1) == Value(b)
  {
    assert Value(2) == 2 && Value(1) == 1;
    hide Value, Walk, Double;
    assert DoubleWord(1) == 2;
    hide DoubleWord;
    DoubleWordValue(1);
    assert Generator(1) == Double(Generator(0));
    WalkMeets(2, 1, n, b);
  }

  /** Logarithms of a few bytes. */
  lemma SomeLogarithms()
    ensures Generator(0) == 1 && Generator(2) == 4 && Generator(3) == 8
    ensures Generator(51) == 10 && Generator(198) == 7 && Generator(223) == 9
  {
    assert Generator(0) == 1;
    assert Walk(2, 1, 4) by { hide Double, Generator; }
    hide Walk, Double, Generator, DoubleWord;
    FullWalk();
    assert Value(4) == 4 && Value(8) == 8 && Value(10) == 10 && Value(7) == 7 && Value(9) == 9;
    hide Value;
    WalkFromOne(1, 4);
    WalkFromOne(2, 8);
    WalkFromOne(50, 10);
    WalkFromOne(197, 7);
    WalkFromOne(222, 9);
  }

  lemma {:induction false} GeneratorPeriods(i: nat, n: nat)
    ensures Generator(i + 255 * n) == Generator(i)
  {
    hide Generator;
    if n != 0 {
      GeneratorPeriods(i, n - 1);
      GeneratorPeriod(i + 255 * (n - 1));
    }
  }

  lemma DoubleCancels(a: Elem, b: Elem)
    requires Double(a) == Double(b)
    ensures a == b
  {
    hide Xor, Double, Mul;
    DoubleAdds(a, b);
    AddLaws(Double(a), Double(b), 0);
    AddLaws(a, b, 0);
    DoubleOnlyZero(Add(a, b));
  }

  lemma DoubleOnlyZero(a: Elem)
    requires Double(a) == 0
    ensures a == 0
  {
    if a >= 128 {
      XorCancels(2 * a, GF_PRIMITIVE);
    }
  }

  lemma GeneratorStep(i: nat)
    ensures Generator(i + 1) == Double(Generator(i))
  {
    hide Double;
  }

  lemma GeneratorStarts()
    ensures Generator(0) == 1
  {
  }

  lemma {:induction false} GeneratorCancels(i: nat, d: nat)
    requires Generator(i + d) == Generator(i)
    ensures Generator(d) == 1
  {
    hide Generator, Double;
    if i == 0 {
      GeneratorStarts();
    } else {
      GeneratorStep(i - 1);
      GeneratorStep(i - 1 + d);
      DoubleCancels(Generator(i - 1 + d), Generator(i - 1));
      GeneratorCancels(i - 1, d);
    }
  }

  lemma {:induction false} GeneratorNonZero(i: nat)
    ensures Generator(i) != 0
  {
    if i != 0 {
      GeneratorNonZero(i - 1);
      if Generator(i) == 0 {
        DoubleOnlyZero(Generator(i - 1));
      }
    }
  }

  /** The first 255 powers are distinct. */
  lemma GeneratorInjective(i: nat, j: nat)
    requires i < j < 255
    ensures Generator(i) != Generator(j)
  {
    if Generator(i) == Generator(j) {
      GeneratorCancels(i, j - i);
      OrderOfGenerator();
    }
  }

  lemma GeneratorPeriod(i: nat)
    ensures Generator(i + 255) == Generator(i)
  {
    hide Mul, Double;
    GeneratorAdds(i, 255);
    OrderOfGenerator();
    MulUnits(Generator(i));
  }

  // ---------- Every non-zero byte is a power of x ----------

  ghost predicate IsPower(v: int) { exists i: nat :: i < 255 && Generator(i) == v }

  /** The first n powers are n different non-zero bytes. */
  lemma {:induction false} PowersBelow(n: nat) returns (s: set<int>)
    requires n <= 255
    ensures |s| == n
    ensures forall v :: v in s ==> 0 < v < 256 && IsPower(v)
    ensures forall i: nat :: n <= i < 255 ==> Generator(i) !in s
  {
    hide Double;
    if n == 0 {
      s := {};
    } else {
      var p := PowersBelow(n - 1);
      var g := Generator(n - 1);
      hide Generator;
      GeneratorNonZero(n - 1);
      s := p + {g};
      assert IsPower(g);
      forall i: nat | n <= i < 255
        ensures Generator(i) !in s
      {
        GeneratorInjective(n - 1, i);
      }
    }
  }

  /** Counting: 255 distinct powers fill the 255 non-zero bytes. */
  lemma PowersCover(a: Elem) returns (i: nat)
    requires a != 0
    ensures i < 255 && Generator(i) == a
  {
    hide Generator;
    var s := PowersBelow(255);
    if !IsPower(a) {
      var all := set v: int {:trigger IsPower(v)} | 1 <= v < 256 && v != a;
      RangeSize(all + {a}, 255);
      SubsetSize(s, all);
    }
    assert IsPower(a);
    i :| i < 255 && Generator(i) == a;
  }

  // ---------- Inverses ----------

  /** Every non-zero byte has a multiplicative inverse. */
  lemma InverseExists(a: Elem) returns (b: Elem)
    requires a != 0
    ensures Mul(a, b) == 1
  {
    hide Mul, Double;
    var i := PowersCover(a);
    b := Generator(255 - i);
    GeneratorAdds(i, 255 - i);
    OrderOfGenerator();
  }

  lemma NoZeroDivisors(a: Elem, b: Elem)
    requires a != 0 && Mul(a, b) == 0
    ensures b == 0
  {
    hide Mul, Double;
    var c := InverseExists(a);
    MulCommutes(a, c);
    MulAssociates(c, a, b);
    MulUnits(b);
    MulUnits(c);
  }
}
