/** The field GF(2^8) = GF(2)[x] / (x^8 + x^4 + x^3 + x^2 + 1). A polynomial over GF(2) is the natural
    number whose bit i is the coefficient of x^i; a byte is an element of the field. */
module GaloisField {

  const GF_PRIMITIVE := 0x11D
  const GF_SIZE := 256

  type Elem = x: nat | x < 256

  // ---------- Exclusive or ----------

  function Xor(a: nat, b: nat): nat {
    if a == 0 && b == 0 then 0 else 2 * Xor(a / 2, b / 2) + (if a % 2 == b % 2 then 0 else 1)
  }

  lemma {:induction false} XorUnit(a: nat)
    ensures Xor(a, 0) == a == Xor(0, a)
    ensures Xor(a, a) == 0
  {
    if a != 0 {
      XorUnit(a / 2);
    }
  }

  lemma {:induction false} XorCommutes(a: nat, b: nat)
    ensures Xor(a, b) == Xor(b, a)
    decreases a + b
  {
    if a != 0 || b != 0 {
      XorCommutes(a / 2, b / 2);
    }
  }

  /** The upper bits and the lowest bit of an exclusive or. */
  lemma XorBits(a: nat, b: nat)
    ensures Xor(a, b) / 2 == Xor(a / 2, b / 2)
    ensures Xor(a, b) % 2 == if a % 2 == b % 2 then 0 else 1
  {
    XorUnit(0);
  }

  lemma {:induction false} XorAssociates(a: nat, b: nat, c: nat)
    ensures Xor(Xor(a, b), c) == Xor(a, Xor(b, c))
    decreases a + b + c
  {
    if a != 0 || b != 0 || c != 0 {
      hide Xor;
      XorAssociates(a / 2, b / 2, c / 2);
      XorBits(a, b);
      XorBits(b, c);
      XorBits(Xor(a, b), c);
      XorBits(a, Xor(b, c));
    }
  }

  /** Exchanges the middle two of four summands. */
  lemma XorInterchange(a: nat, b: nat, c: nat, d: nat)
    ensures Xor(Xor(a, b), Xor(c, d)) == Xor(Xor(a, c), Xor(b, d))
  {
    XorAssociates(a, b, Xor(c, d));
    XorAssociates(b, c, d);
    XorCommutes(b, c);
    XorAssociates(c, b, d);
    XorAssociates(a, c, Xor(b, d));
  }

  /** Exclusive or is its own inverse. */
  lemma XorCancels(a: nat, b: nat)
    ensures Xor(Xor(a, b), b) == a
    ensures Xor(a, b) == 0 <==> a == b
  {
    XorAssociates(a, b, b);
    XorUnit(a);
    XorUnit(b);
  }

  lemma XorDoubles(x: nat, y: nat)
    ensures 2 * Xor(x, y) == Xor(2 * x, 2 * y)
  {
    XorUnit(0);
  }

  function Pow2(k: nat): nat { if k == 0 then 1 else 2 * Pow2(k - 1) }

  lemma {:induction false} XorTopBit(a: nat, b: nat, k: nat)
    requires a < 2 * Pow2(k) && b < 2 * Pow2(k)
    ensures Xor(a, b) < 2 * Pow2(k)
    ensures Xor(a, b) >= Pow2(k) <==> (a >= Pow2(k)) != (b >= Pow2(k))
  {
    if k == 0 {
      XorUnit(a);
      XorUnit(b);
    } else {
      XorTopBit(a / 2, b / 2, k - 1);
    }
  }

  /** Field addition, and subtraction. */
  function Add(a: Elem, b: Elem): Elem {
    assert Xor(a, b) < 256 by {
      assert Pow2(7) == 128;
      XorTopBit(a, b, 7);
    }
    Xor(a, b)
  }

  // ---------- The product ----------

  function Gate(c: bool, v: nat): nat { if c then v else 0 }

  /** Multiplication by x: the shift and the conditional reduction of the table-building loop. */
  function Double(a: Elem): (d: Elem)
    ensures 2 * a == Xor(d, Gate(a >= 128, GF_PRIMITIVE))
  {
    if 2 * a < GF_SIZE then
      XorUnit(2 * a);
      2 * a
    else
      assert Xor(2 * a, GF_PRIMITIVE) < 256 by {
        assert Pow2(8) == 256;
        XorTopBit(2 * a, GF_PRIMITIVE, 8);
      }
      XorCancels(2 * a, GF_PRIMITIVE);
      Xor(2 * a, GF_PRIMITIVE)
  }

  /** The field product, by Horner's rule over the bits of `b`. */
  function Mul(a: Elem, b: Elem): Elem
    decreases b
  {
    if b == 0 then 0 else Add(Double(Mul(a, b / 2)), Gate(b % 2 == 1, a))
  }

  // ---------- Mul is multiplication of polynomials over GF(2), reduced modulo GF_PRIMITIVE ----------

  /** The product of two polynomials over GF(2), without any reduction. */
  ghost function CarryLess(p: nat, q: nat): nat
    decreases q
  {
    if q == 0 then 0 else Xor(2 * CarryLess(p, q / 2), Gate(q % 2 == 1, p))
  }

  ghost function Quotient(a: Elem, b: Elem): nat
    decreases b
  {
    if b == 0 then 0 else 2 * Quotient(a, b / 2) + Gate(Mul(a, b / 2) >= 128, 1)
  }

  lemma CarryLessStep(p: nat, q: nat, odd: bool)
    ensures CarryLess(p, 2 * q + Gate(odd, 1)) == Xor(2 * CarryLess(p, q), Gate(odd, p))
  {
    XorUnit(0);
  }

  lemma RemainderStep(c: nat, m: nat, d: nat, t: nat, u: nat)
    requires 2 * m == Xor(d, t)
    ensures Xor(2 * Xor(c, m), u) == Xor(Xor(2 * c, t), Xor(d, u))
  {
    XorDoubles(c, m);
    XorCommutes(d, t);
    XorAssociates(2 * c, t, d);
    XorAssociates(Xor(2 * c, t), d, u);
  }

  /** The full product of two bytes is a multiple of the primitive polynomial plus `Mul(a, b)`, which
      has degree below 8: `Mul(a, b)` is the remainder of the polynomial division. */
  lemma {:induction false} MulIsRemainder(a: Elem, b: Elem)
    ensures CarryLess(a, b) == Xor(CarryLess(GF_PRIMITIVE, Quotient(a, b)), Mul(a, b))
    decreases b
  {
    if b == 0 {
      XorUnit(0);
    } else {
      var q, m := Quotient(a, b / 2), Mul(a, b / 2);
      var c, top, u := CarryLess(GF_PRIMITIVE, q), m >= 128, Gate(b % 2 == 1, a);
      assert Quotient(a, b) == 2 * q + Gate(top, 1);
      assert Mul(a, b) == Xor(Double(m), u) by {
        hide Xor, Double;
      }
      assert CarryLess(a, b) == Xor(2 * CarryLess(a, b / 2), u) by {
        hide Xor, Double, Mul;
      }
      hide Xor, CarryLess, Quotient, Mul, Double;
      MulIsRemainder(a, b / 2);
      CarryLessStep(GF_PRIMITIVE, q, top);
      RemainderStep(c, m, Double(m), Gate(top, GF_PRIMITIVE), u);
    }
  }

  // ---------- Ring laws ----------

  lemma AddLaws(a: Elem, b: Elem, c: Elem)
    ensures Add(a, b) == Add(b, a) && Add(Add(a, b), c) == Add(a, Add(b, c))
    ensures Add(a, 0) == a == Add(0, a)
    ensures Add(a, b) == 0 <==> a == b
  {
    hide Xor;
    XorCommutes(a, b);
    XorAssociates(a, b, c);
    XorUnit(a);
    XorCancels(a, b);
  }

  lemma DoubleAdds(a: Elem, b: Elem)
    ensures Double(Add(a, b)) == Add(Double(a), Double(b))
  {
    var ta, tb := Gate(a >= 128, GF_PRIMITIVE), Gate(b >= 128, GF_PRIMITIVE);
    var s := Add(a, b);
    var ts := Gate(s >= 128, GF_PRIMITIVE);
    assert Xor(ta, tb) == ts by {
      assert Pow2(7) == 128;
      XorTopBit(a, b, 7);
      XorUnit(GF_PRIMITIVE);
      hide Xor, Double;
    }
    hide Xor, Double;
    XorDoubles(a, b);
    XorInterchange(Double(a), ta, Double(b), tb);
    XorCancels(Double(s), ts);
    XorCancels(Xor(Double(a), Double(b)), ts);
  }

  lemma {:induction false} MulLeftAdds(a: Elem, b: Elem, c: Elem)
    ensures Mul(Add(a, b), c) == Add(Mul(a, c), Mul(b, c))
    decreases c
  {
    if c == 0 {
      XorUnit(0);
    } else {
      MulLeftAdds(a, b, c / 2);
      DoubleAdds(Mul(a, c / 2), Mul(b, c / 2));
      var o := c % 2 == 1;
      XorUnit(0);
      XorInterchange(Double(Mul(a, c / 2)), Gate(o, a), Double(Mul(b, c / 2)), Gate(o, b));
    }
  }

  /** Horner's step holds for zero as well. */
  lemma MulHorner(a: Elem, b: Elem)
    ensures Mul(a, b) == Add(Double(Mul(a, b / 2)), Gate(b % 2 == 1, a))
  {
    XorUnit(0);
  }

  lemma {:induction false} MulRightAdds(a: Elem, b: Elem, c: Elem)
    ensures Mul(a, Add(b, c)) == Add(Mul(a, b), Mul(a, c))
    decreases b + c
  {
    XorUnit(0);
    if b != 0 || c != 0 {
      MulRightAdds(a, b / 2, c / 2);
      var x, y := Mul(a, b / 2), Mul(a, c / 2);
      DoubleAdds(x, y);
      MulHorner(a, b);
      MulHorner(a, c);
      MulHorner(a, Add(b, c));
      XorBits(b, c);
      XorUnit(a);
      XorInterchange(Double(x), Gate(b % 2 == 1, a), Double(y), Gate(c % 2 == 1, a));
      hide Xor, Double, Mul;
    }
  }

  lemma {:induction false} MulDoubleLeft(a: Elem, b: Elem)
    ensures Mul(Double(a), b) == Double(Mul(a, b))
    decreases b
  {
    if b != 0 {
      MulDoubleLeft(a, b / 2);
      DoubleAdds(Double(Mul(a, b / 2)), Gate(b % 2 == 1, a));
    }
  }

  lemma {:induction false} MulOneLeft(b: Elem)
    ensures Mul(1, b) == b
    decreases b
  {
    if b != 0 {
      MulOneLeft(b / 2);
      XorUnit(0);
      XorUnit(b / 2);
    }
  }

  lemma MulUnits(a: Elem)
    ensures Mul(a, 0) == 0 == Mul(0, a)
    ensures Mul(a, 1) == a == Mul(1, a)
  {
    MulLeftAdds(0, 0, a);
    XorUnit(0);
    XorUnit(Mul(0, a));
    XorUnit(a);
    MulOneLeft(a);
  }

  /** Every byte is its low bit plus x times its upper bits. */
  lemma Halves(a: Elem)
    ensures a == Add(a % 2, Double(a / 2))
  {
    XorUnit(0);
    XorUnit(a / 2);
  }

  lemma MulBit(r: Elem, b: Elem)
    requires r < 2
    ensures Mul(r, b) == Gate(r == 1, b) == Mul(b, r)
    ensures Double(0) == 0
  {
    MulUnits(b);
  }

  lemma {:induction false} MulDoubleRight(a: Elem, b: Elem)
    ensures Mul(a, Double(b)) == Double(Mul(a, b))
    decreases a
  {
    if a == 0 {
      MulUnits(Double(b));
      MulUnits(b);
    } else {
      hide Xor, Mul, Double;
      var r := a % 2;
      MulDoubleRight(a / 2, b);
      Halves(a);
      MulLeftAdds(r, Double(a / 2), Double(b));
      MulLeftAdds(r, Double(a / 2), b);
      MulDoubleLeft(a / 2, b);
      MulDoubleLeft(a / 2, Double(b));
      DoubleAdds(Mul(r, b), Double(Mul(a / 2, b)));
      MulBit(r, b);
      MulBit(r, Double(b));
    }
  }

  lemma {:induction false} MulCommutes(a: Elem, b: Elem)
    ensures Mul(a, b) == Mul(b, a)
    decreases b
  {
    if b == 0 {
      MulUnits(a);
    } else {
      hide Xor, Mul, Double;
      var r := b % 2;
      Halves(b);
      MulCommutes(a, b / 2);
      MulDoubleRight(a, b / 2);
      MulDoubleLeft(b / 2, a);
      MulRightAdds(a, r, Double(b / 2));
      MulLeftAdds(r, Double(b / 2), a);
      MulBit(r, a);
    }
  }

  lemma {:induction false} MulAssociates(a: Elem, b: Elem, c: Elem)
    ensures Mul(Mul(a, b), c) == Mul(a, Mul(b, c))
    decreases c
  {
    if c == 0 {
      MulUnits(a);
    } else {
      MulAssociates(a, b, c / 2);
      MulDoubleRight(a, Mul(b, c / 2));
      MulRightAdds(a, Double(Mul(b, c / 2)), Gate(c % 2 == 1, b));
      MulUnits(a);
    }
  }
}
