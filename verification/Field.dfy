/**
 The field GF(2^8) of section 4.2 of FIPS 197: bytes as polynomials over GF(2), multiplied
 without carries and reduced by x^8 + x^4 + x^3 + x + 1 (0x11b). Nothing here mentions the
 log and exp tables; this is what they are checked against.
 */
module Field {
  import opened Bits
  import opened Gf2

  const POLY: nat := 0x11b

  /** What reduction takes away after multiplying `a` by x. */
  function Overflow(a: byte): nat {
    if a < 128 then 0 else POLY
  }

  /** Multiplication by x, reduced. */
  function Xtime(a: byte): byte {
    XtimeIsByte(a);
    Xor(2 * a, Overflow(a))
  }

  /** Shift-and-add multiplication, reducing at every step. */
  function Times(a: byte, b: byte): byte
    decreases b
  {
    if b == 0 then 0 else Plus(Select(b, a), Xtime(Times(a, b / 2)))
  }

  /** Addition, and subtraction, is xor. */
  function Plus(a: byte, b: byte): byte {
    XorIsByte(a, b);
    Xor(a, b)
  }

  lemma XorIsByte(a: byte, b: byte)
    ensures Xor(a, b) < 256
  {
    assert Pow2(8) == 256;
    XorBelow(a, b, 8);
  }

  lemma XtimeIsByte(a: byte)
    ensures Xor(2 * a, Overflow(a)) < 256
  {
    assert Pow2(8) == 256;
    XorTop(2 * a, Overflow(a), 8);
  }

  /** The reduced product is congruent to the carry-less product. */
  lemma {:induction false} TimesIsCongruent(a: byte, b: byte)
    ensures Congruent(Carryless(a, b), Times(a, b), POLY)
    decreases b
  {
    hide Xor;
    if b == 0 {
      CongruentToItself(0, POLY);
    } else {
      var c, r := Carryless(a, b / 2), Times(a, b / 2);
      TimesIsCongruent(a, b / 2);
      DoubleRemainder(c, r, POLY, if r < 128 then 0 else 1);
      AddToRemainder(2 * c, Xtime(r), POLY, Select(b, a));
    }
  }

  /** Multiplication is the remainder of the carry-less product by 0x11b, and nothing else is. */
  lemma TimesIsRemainder(a: byte, b: byte, r: byte)
    ensures r == Times(a, b) <==> Congruent(Carryless(a, b), r, POLY)
  {
    TimesIsCongruent(a, b);
    assert Pow2(8) == 256;
    if Congruent(Carryless(a, b), r, POLY) {
      RemainderUnique(Carryless(a, b), r, Times(a, b), POLY, 8);
    }
  }

  lemma OverflowPlus(a: byte, b: byte)
    ensures Overflow(Plus(a, b)) == Xor(Overflow(a), Overflow(b))
  {
    assert Pow2(7) == 128;
    XorTop(a, b, 7);
    XorZero(POLY);
    XorSelf(POLY);
  }

  lemma XtimePlus(a: byte, b: byte)
    ensures Xtime(Plus(a, b)) == Plus(Xtime(a), Xtime(b))
  {
    hide Xor;
    OverflowPlus(a, b);
    DoubleXor(a, b);
    XorRegroup(2 * a, Overflow(a), 2 * b, Overflow(b));
  }

  lemma {:induction false} TimesPlusLeft(a: byte, b: byte, c: byte)
    ensures Times(Plus(a, b), c) == Plus(Times(a, c), Times(b, c))
    decreases c
  {
    hide Xor;
    XorZero(0);
    if c != 0 {
      var (ha, hb) := (Times(a, c / 2), Times(b, c / 2));
      TimesPlusLeft(a, b, c / 2);
      XtimePlus(ha, hb);
      XorRegroup(Select(c, a), Xtime(ha), Select(c, b), Xtime(hb));
    }
  }

  lemma {:induction false} TimesXtimeLeft(a: byte, b: byte)
    ensures Times(Xtime(a), b) == Xtime(Times(a, b))
    decreases b
  {
    if b != 0 {
      TimesXtimeLeft(a, b / 2);
      XtimePlus(Select(b, a), Xtime(Times(a, b / 2)));
    }
  }

  lemma {:induction false} TimesZeroOne(a: byte)
    ensures Times(0, a) == 0 && Times(1, a) == a
    ensures Times(a, 0) == 0 && Times(a, 1) == a
  {
    XorZero(a);
    if a != 0 {
      TimesZeroOne(a / 2);
      XorZero(0);
      XorZero(2 * (a / 2));
      XorStep(1, 2 * (a / 2));
      XorZero(a / 2);
    }
  }

  lemma TimesUnfolds(a: byte, b: byte)
    requires b != 0
    ensures Times(a, b) == Plus(Select(b, a), Xtime(Times(a, b / 2)))
  {
    hide Xor;
  }

  /** A byte is its low bit plus its half, doubled. */
  lemma LowBitAndHalf(b: byte)
    ensures Plus(b % 2, Xtime(b / 2)) == b
  {
    XorStep(b % 2, 2 * (b / 2));
    XorZero(b / 2);
  }

  lemma {:induction false} TimesCommutes(a: byte, b: byte)
    ensures Times(a, b) == Times(b, a)
    decreases b
  {
    TimesZeroOne(a);
    if b != 0 {
      var h: byte := b / 2;
      TimesCommutes(a, h);
      TimesXtimeLeft(h, a);
      TimesPlusLeft(b % 2, Xtime(h), a);
      LowBitAndHalf(b);
      TimesUnfolds(a, b);
      hide Times, Xor;
      assert Times(b % 2, a) == Select(b, a);
    }
  }

  lemma TimesPlusRight(a: byte, b: byte, c: byte)
    ensures Times(a, Plus(b, c)) == Plus(Times(a, b), Times(a, c))
  {
    TimesCommutes(a, Plus(b, c));
    TimesCommutes(a, b);
    TimesCommutes(a, c);
    TimesPlusLeft(b, c, a);
  }

  lemma TimesXtimeRight(a: byte, b: byte)
    ensures Times(a, Xtime(b)) == Xtime(Times(a, b))
  {
    TimesCommutes(a, Xtime(b));
    TimesCommutes(a, b);
    TimesXtimeLeft(b, a);
  }

  lemma {:induction false} TimesAssociates(a: byte, b: byte, c: byte)
    ensures Times(a, Times(b, c)) == Times(Times(a, b), c)
    decreases c
  {
    hide Xor;
    TimesZeroOne(a);
    if c != 0 {
      var h := Times(b, c / 2);
      TimesAssociates(a, b, c / 2);
      TimesPlusRight(a, Select(c, b), Xtime(h));
      TimesXtimeRight(a, h);
    }
  }
}
