/**
 Polynomials over GF(2), coded as naturals (bit i is the coefficient of x^i): carry-less
 products, and remainders by a modulus. The field and the CRC are both checked against this.
 */
module Gf2 {
  import opened Bits

  /** `a` if the low bit of `b` is set. */
  function Select(b: nat, a: nat): nat {
    if b % 2 == 1 then a else 0
  }

  /** The product of two polynomials. */
  function Carryless(a: nat, b: nat): nat
    decreases b
  {
    if b == 0 then 0 else Xor(Select(b, a), 2 * Carryless(a, b / 2))
  }

  /** `p` and `r` differ by a multiple of `g`. */
  ghost predicate Congruent(p: nat, r: nat, g: nat) {
    exists q: nat :: p == Xor(r, Carryless(g, q))
  }

  lemma CarrylessUnfolds(a: nat, b: nat)
    ensures Carryless(a, b) == Xor(Select(b, a), 2 * Carryless(a, b / 2))
  {
    XorZero(0);
  }

  lemma SelectXor(b: nat, c: nat, a: nat)
    ensures Xor(Select(b, a), Select(c, a)) == Select(Xor(b, c), a)
  {
    XorStep(b, c);
    XorZero(a);
    XorSelf(a);
  }

  lemma DoubleXor(a: nat, b: nat)
    ensures Xor(2 * a, 2 * b) == 2 * Xor(a, b)
  {
    XorStep(2 * a, 2 * b);
  }

  lemma {:induction false} CarrylessXorRight(a: nat, b: nat, c: nat)
    ensures Carryless(a, Xor(b, c)) == Xor(Carryless(a, b), Carryless(a, c))
    decreases b + c
  {
    hide Xor, Carryless;
    if b == 0 && c == 0 {
      XorZero(0);
      CarrylessByZero(a);
    } else {
      var hb, hc := Carryless(a, b / 2), Carryless(a, c / 2);
      CarrylessXorRight(a, b / 2, c / 2);
      XorStep(b, c);
      SelectXor(b, c, a);
      DoubleXor(hb, hc);
      XorRegroup(Select(b, a), 2 * hb, Select(c, a), 2 * hc);
      CarrylessUnfolds(a, b);
      CarrylessUnfolds(a, c);
      CarrylessUnfolds(a, Xor(b, c));
    }
  }

  lemma CarrylessByZero(a: nat)
    ensures Carryless(a, 0) == 0
  {
  }

  /** A nonzero multiple of a polynomial of degree k has degree at least k. */
  lemma {:induction false} CarrylessIsLong(g: nat, k: nat, q: nat)
    requires Pow2(k) <= g < 2 * Pow2(k) && q > 0
    ensures Carryless(g, q) >= Pow2(k)
  {
    hide Xor;
    if q / 2 > 0 {
      var high := 2 * Carryless(g, q / 2);
      CarrylessIsLong(g, k, q / 2);
      assert Pow2(k + 1) == 2 * Pow2(k);
      XorAbove(Select(q, g), high, k + 1);
    } else {
      XorZero(g);
    }
  }

  /** Only one polynomial below the degree of the modulus is congruent to p: its remainder. */
  lemma RemainderUnique(p: nat, r: nat, s: nat, g: nat, k: nat)
    requires Pow2(k) <= g < 2 * Pow2(k) && r < Pow2(k) && s < Pow2(k)
    requires Congruent(p, r, g) && Congruent(p, s, g)
    ensures r == s
  {
    hide Xor, Carryless;
    var q: nat :| p == Xor(r, Carryless(g, q));
    var t: nat :| p == Xor(s, Carryless(g, t));
    var c, d := Carryless(g, q), Carryless(g, t);
    CarrylessXorRight(g, q, t);
    XorRegroup(r, c, s, d);
    XorSelf(p);
    XorDiffers(Xor(r, s), Xor(c, d));
    XorBelow(r, s, k);
    CarrylessByZero(g);
    if Xor(q, t) > 0 {
      CarrylessIsLong(g, k, Xor(q, t));
    }
    XorDiffers(r, s);
  }

  /** Multiplying by x and cancelling the carry keeps the congruence. */
  lemma DoubleRemainder(p: nat, r: nat, g: nat, carry: nat)
    requires Congruent(p, r, g) && carry <= 1
    ensures Congruent(2 * p, Xor(2 * r, Select(carry, g)), g)
  {
    hide Xor, Carryless;
    var q: nat :| p == Xor(r, Carryless(g, q));
    var m, c := Carryless(g, q), Select(carry, g);
    DoubleXor(r, m);
    XorCancels(2 * r, c);
    XorAssociates(Xor(2 * r, c), c, 2 * m);
    CarrylessUnfolds(g, 2 * q + carry);
    assert 2 * p == Xor(Xor(2 * r, c), Carryless(g, 2 * q + carry));
  }

  /** Adding the same polynomial on both sides keeps the congruence. */
  lemma AddToRemainder(p: nat, r: nat, g: nat, a: nat)
    requires Congruent(p, r, g)
    ensures Congruent(Xor(a, p), Xor(a, r), g)
  {
    hide Xor, Carryless;
    var q: nat :| p == Xor(r, Carryless(g, q));
    XorAssociates(a, r, Carryless(g, q));
  }

  lemma CongruentToItself(p: nat, g: nat)
    ensures Congruent(p, p, g)
  {
    hide Xor;
    XorZero(p);
    CarrylessByZero(g);
    assert p == Xor(p, Carryless(g, 0));
  }
}
