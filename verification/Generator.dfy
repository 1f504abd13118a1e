/**
 The powers of 3 in GF(2^8), and the fact the log and exp tables rest on: 3 has order
 exactly 255, so its powers run through every nonzero byte once.
 */
module Generator {
  import opened Bits
  import opened Field

  /** The i-th power of the generator 3. */
  function Power(i: nat): byte {
    if i == 0 then 1 else Times(3, Power(i - 1))
  }

  lemma {:induction false} PowerAdds(i: nat, j: nat)
    ensures Power(i + j) == Times(Power(i), Power(j))
  {
    hide Times;
    if i == 0 {
      TimesZeroOne(Power(j));
    } else {
      var p, q, r := Power(i - 1), Power(j), Power(i - 1 + j);
      PowerAdds(i - 1, j);
      TimesAssociates(3, p, q);
      assert Power(i + j) == Times(3, r);
    }
  }

  // ---- bit-level evaluation of the few products the order needs

  function Bit(b: bool): nat {
    if b then 1 else 0
  }

  function ByteOf(a: bool, b: bool, c: bool, d: bool, e: bool, f: bool, g: bool, h: bool): byte {
    128 * Bit(a) + 64 * Bit(b) + 32 * Bit(c) + 16 * Bit(d) + 8 * Bit(e) + 4 * Bit(f) + 2 * Bit(g) + Bit(h)
  }

  lemma XorAppend(x: nat, y: nat, p: bool, q: bool)
    ensures Xor(2 * x + Bit(p), 2 * y + Bit(q)) == 2 * Xor(x, y) + Bit(p != q)
  {
    var u, v, w := 2 * x + Bit(p), 2 * y + Bit(q), Xor(x, y);
    assert u / 2 == x && u % 2 == Bit(p) && v / 2 == y && v % 2 == Bit(q);
    XorStep(u, v);
    SameWord(Xor(u, v), 2 * w + Bit(p != q));
  }

  lemma XorAppend2(x: nat, y: nat, a: bool, b: bool, s: bool, t: bool)
    ensures Xor(4 * x + 2 * Bit(a) + Bit(b), 4 * y + 2 * Bit(s) + Bit(t))
         == 4 * Xor(x, y) + 2 * Bit(a != s) + Bit(b != t)
  {
    hide Xor;
    XorAppend(x, y, a, s);
    XorAppend(2 * x + Bit(a), 2 * y + Bit(s), b, t);
  }

  function NibbleOf(a: bool, b: bool, c: bool, d: bool): nat {
    8 * Bit(a) + 4 * Bit(b) + 2 * Bit(c) + Bit(d)
  }

  lemma XorAppend4(x: nat, y: nat, a: bool, b: bool, c: bool, d: bool, s: bool, t: bool, u: bool, v: bool)
    ensures Xor(16 * x + NibbleOf(a, b, c, d), 16 * y + NibbleOf(s, t, u, v))
         == 16 * Xor(x, y) + NibbleOf(a != s, b != t, c != u, d != v)
  {
    hide Xor;
    XorAppend2(x, y, a, b, s, t);
    XorAppend2(4 * x + 2 * Bit(a) + Bit(b), 4 * y + 2 * Bit(s) + Bit(t), c, d, u, v);
  }

  lemma ByteOfNibbles(a: bool, b: bool, c: bool, d: bool, e: bool, f: bool, g: bool, h: bool)
    ensures ByteOf(a, b, c, d, e, f, g, h) == 16 * NibbleOf(a, b, c, d) + NibbleOf(e, f, g, h)
  {
    hide Bit;
  }

  lemma XorAppend8(m: nat, n: nat,
                   a: bool, b: bool, c: bool, d: bool, e: bool, f: bool, g: bool, h: bool,
                   s: bool, t: bool, u: bool, v: bool, w: bool, x: bool, y: bool, z: bool)
    ensures Xor(256 * m + ByteOf(a, b, c, d, e, f, g, h), 256 * n + ByteOf(s, t, u, v, w, x, y, z))
         == 256 * Xor(m, n) + ByteOf(a != s, b != t, c != u, d != v, e != w, f != x, g != y, h != z)
  {
    hide Xor, NibbleOf, ByteOf;
    ByteOfNibbles(a, b, c, d, e, f, g, h);
    ByteOfNibbles(s, t, u, v, w, x, y, z);
    ByteOfNibbles(a != s, b != t, c != u, d != v, e != w, f != x, g != y, h != z);
    XorAppend4(m, n, a, b, c, d, s, t, u, v);
    XorAppend4(16 * m + NibbleOf(a, b, c, d), 16 * n + NibbleOf(s, t, u, v), e, f, g, h, w, x, y, z);
  }

  lemma XtimeBits(a: bool, b: bool, c: bool, d: bool, e: bool, f: bool, g: bool, h: bool)
    ensures Xtime(ByteOf(a, b, c, d, e, f, g, h)) == ByteOf(b, c, d, e != a, f != a, g, h != a, a)
  {
    hide Xor;
    if a {
      XorAppend8(1, 1, b, c, d, e, f, g, h, false, false, false, false, true, true, false, true, true);
      XorSelf(1);
    } else {
      XorZero(ByteOf(b, c, d, e, f, g, h, false));
    }
  }

  lemma PlusBits(a: bool, b: bool, c: bool, d: bool, e: bool, f: bool, g: bool, h: bool,
                 s: bool, t: bool, u: bool, v: bool, w: bool, x: bool, y: bool, z: bool)
    ensures Plus(ByteOf(a, b, c, d, e, f, g, h), ByteOf(s, t, u, v, w, x, y, z))
         == ByteOf(a != s, b != t, c != u, d != v, e != w, f != x, g != y, h != z)
  {
    hide Xor;
    XorAppend8(0, 0, a, b, c, d, e, f, g, h, s, t, u, v, w, x, y, z);
    XorZero(0);
  }

  lemma TimesThree(a: byte)
    ensures Times(3, a) == Plus(a, Xtime(a))
  {
    TimesCommutes(3, a);
    TimesZeroOne(a);
  }

  lemma TripleBits(a: bool, b: bool, c: bool, d: bool, e: bool, f: bool, g: bool, h: bool)
    ensures Times(3, ByteOf(a, b, c, d, e, f, g, h))
         == ByteOf(a != b, b != c, c != d, d != (e != a), e != (f != a), f != g, g != (h != a), h != a)
  {
    hide Xor, Times;
    TimesThree(ByteOf(a, b, c, d, e, f, g, h));
    XtimeBits(a, b, c, d, e, f, g, h);
    PlusBits(a, b, c, d, e, f, g, h, b, c, d, e != a, f != a, g, h != a, a);
  }

  function Square(a: byte): byte {
    Times(a, a)
  }

  /** Squaring is linear, so it can be done bit by bit from the top. */
  lemma SquareUnfolds(a: byte)
    ensures Square(a) == Plus(a % 2, Xtime(Xtime(Square(a / 2))))
  {
    var h, low := (a / 2) as byte, a % 2;
    assert a == Plus(low, Xtime(h)) by { XorStep(low, 2 * h); XorZero(h); XorZero(2 * h); }
    TimesPlusLeft(low, Xtime(h), a);
    TimesPlusRight(low, low, Xtime(h));
    TimesPlusRight(Xtime(h), low, Xtime(h));
    TimesXtimeLeft(h, Xtime(h));
    TimesXtimeRight(h, h);
    TimesCommutes(Xtime(h), low);
    TimesZeroOne(low);
    TimesZeroOne(Xtime(h));
    var m, s := Times(low, Xtime(h)), Xtime(Xtime(Square(h)));
    XorAssociates(Xor(low, m), m, s);
    XorCancels(low, m);
    XorAssociates(low, m, Xor(m, s));
    XorCancels(m, s);
    XorCommutes(m, s);
  }

  /** One step of the squaring above, on the bits `a`..`h` of the square so far. */
  lemma SquareStep(y: byte, a: bool, b: bool, c: bool, d: bool, e: bool, f: bool, g: bool, h: bool, low: bool)
    requires y < 128 && Square(y) == ByteOf(a, b, c, d, e, f, g, h)
    ensures Square(2 * y + Bit(low)) == ByteOf(c, d, e != a, f != (a != b), g != b, h != a, a != b, b != low)
  {
    hide Times, Xor;
    SquareUnfolds(2 * y + Bit(low));
    XtimeBits(a, b, c, d, e, f, g, h);
    XtimeBits(b, c, d, e != a, f != a, g, h != a, a);
    PlusBits(false, false, false, false, false, false, false, low, c, d, e != a, f != (a != b), g != b, h != a, a != b, b);
  }

  /** Squaring the high nibble. */
  lemma SquareNibble(a: bool, b: bool, c: bool, d: bool)
    ensures Square(8 * Bit(a) + 4 * Bit(b) + 2 * Bit(c) + Bit(d)) == ByteOf(false, a, false, b, false, c, false, d)
  {
    hide Times, Xor;
    var x := false;
    TimesZeroOne(0);
    SquareStep(0, x, x, x, x, x, x, x, x, a);
    SquareStep(Bit(a), x, x, x, x, x, x, x, a, b);
    SquareStep(2 * Bit(a) + Bit(b), x, x, x, x, x, a, x, b, c);
    SquareStep(4 * Bit(a) + 2 * Bit(b) + Bit(c), x, x, x, a, x, b, x, c, d);
  }

  /** Squaring, bit by bit. */
  lemma SquareBits(a: bool, b: bool, c: bool, d: bool, e: bool, f: bool, g: bool, h: bool)
    ensures Square(ByteOf(a, b, c, d, e, f, g, h))
         == ByteOf(a != b, e != c, b != c, a != (d != f), (a != b) != (c != d), c != g, (a != b) != d, (h != d) != b)
  {
    hide Times, Xor, ByteOf, Bit;
    var x := false;
    var y := 8 * Bit(a) + 4 * Bit(b) + 2 * Bit(c) + Bit(d);
    var z := 2 * y + Bit(e);
    var w := 2 * z + Bit(f);
    var v := 2 * w + Bit(g);
    Nibbles(a, b, c, d, e, f, g, h);
    SquareNibble(a, b, c, d);
    SquareStep(y, x, a, x, b, x, c, x, d, e);
    SquareStep(z, x, b, x, c != a, a, d, a, a != e, f);
    SquareStep(w, x, c != a, a, d != b, a != b, a != e, b, b != f, g);
    SquareStep(v, a, d != b, a != b, e != c, (a != b) != c, b != f, c != a, (c != a) != g, h);
  }

  lemma Nibbles(a: bool, b: bool, c: bool, d: bool, e: bool, f: bool, g: bool, h: bool)
    ensures var y := 8 * Bit(a) + 4 * Bit(b) + 2 * Bit(c) + Bit(d);
            ByteOf(a, b, c, d, e, f, g, h) == 2 * (2 * (2 * (2 * y + Bit(e)) + Bit(f)) + Bit(g)) + Bit(h)
    ensures Bit(a) <= 1 && Bit(b) <= 1 && Bit(c) <= 1 && Bit(d) <= 1
    ensures Bit(e) <= 1 && Bit(f) <= 1 && Bit(g) <= 1 && Bit(h) <= 1
  {
  }

  // ---- the order of 3

  lemma PowerDoubles(i: nat)
    ensures Power(2 * i) == Square(Power(i))
  {
    hide Times;
    PowerAdds(i, i);
  }

  /** Repeated squaring from 3; the last square comes back to 3. */
  lemma PowersOfTwo()
    ensures Power(16) == 0x5f && Power(32) == 0xe5 && Power(64) == 0x4c && Power(128) == 0xfb
    ensures Power(1) == 3 && Power(256) == 3
  {
    hide Times;
    var o, l := false, true;
    TripleBits(o, o, o, o, o, o, o, l);
    assert Power(1) == Times(3, Power(0));
    PowerDoubles(1);
    SquareBits(o, o, o, o, o, o, l, l);
    PowerDoubles(2);
    SquareBits(o, o, o, o, o, l, o, l);
    PowerDoubles(4);
    SquareBits(o, o, o, l, o, o, o, l);
    PowerDoubles(8);
    SquareBits(o, o, o, l, l, o, l, o);
    PowerDoubles(16);
    SquareBits(o, l, o, l, l, l, l, l);
    PowerDoubles(32);
    SquareBits(l, l, l, o, o, l, o, l);
    PowerDoubles(64);
    SquareBits(o, l, o, o, l, l, o, o);
    PowerDoubles(128);
    SquareBits(l, l, l, l, l, o, l, l);
  }

  lemma PowerNext(i: nat, x: byte)
    requires Power(i) == x
    ensures Power(i + 1) == Times(3, x)
  {
    hide Times;
  }

  lemma PowerOrder()
    ensures Power(255) == 1
  {
    hide Times;
    var o, l := false, true;
    PowersOfTwo();
    TripleBits(l, l, l, l, o, l, l, o);
    TimesCommutes(3, 0xf6);
    PowerNext(255, Power(255));
    TimesAssociates(0xf6, 3, Power(255));
    TimesZeroOne(Power(255));
  }

  /** The maximal proper divisors of 255 are not periods. */
  lemma NotEarlyPeriods()
    ensures Power(15) != 1 && Power(51) != 1 && Power(85) != 1
  {
    hide Times, Power;
    PowersOfTwo();
    TimesZeroOne(3);
    PowerNext(15, Power(15));
    PowerAdds(16, 51);
    PowerAdds(43, 85);
    TimesZeroOne(Power(16));
    TimesZeroOne(Power(43));
    PowersAbove64();
    PowersAbove32();
  }

  lemma PowersAbove64()
    ensures Power(67) == 0xa9
  {
    hide Times, Power;
    var o, l := false, true;
    PowersOfTwo();
    PowerNext(64, 0x4c);
    TripleBits(o, l, o, o, l, l, o, o);
    PowerNext(65, 0xd4);
    TripleBits(l, l, o, l, o, l, o, o);
    PowerNext(66, 0x67);
    TripleBits(o, l, l, o, o, l, l, l);
  }

  lemma PowersAbove32()
    ensures Power(43) == 0x70
  {
    hide Times, Power;
    var o, l := false, true;
    PowersOfTwo();
    PowerNext(32, 0xe5);
    TripleBits(l, l, l, o, o, l, o, l);
    PowerNext(33, 0x34);
    TripleBits(o, o, l, l, o, l, o, o);
    PowerNext(34, 0x5c);
    TripleBits(o, l, o, l, l, l, o, o);
    PowerNext(35, 0xe4);
    TripleBits(l, l, l, o, o, l, o, o);
    PowerNext(36, 0x37);
    TripleBits(o, o, l, l, o, l, l, l);
    PowerNext(37, 0x59);
    TripleBits(o, l, o, l, l, o, o, l);
    PowerNext(38, 0xeb);
    TripleBits(l, l, l, o, l, o, l, l);
    PowerNext(39, 0x26);
    TripleBits(o, o, l, o, o, l, l, o);
    PowerNext(40, 0x6a);
    TripleBits(o, l, l, o, l, o, l, o);
    PowerNext(41, 0xbe);
    TripleBits(l, o, l, l, l, l, l, o);
    PowerNext(42, 0xd9);
    TripleBits(l, l, o, l, l, o, o, l);
  }

  lemma {:induction false} PowerOfMultiple(d: nat, k: nat)
    requires Power(d) == 1
    ensures Power(k * d) == 1
  {
    hide Times;
    if k > 0 {
      PowerOfMultiple(d, k - 1);
      PowerAdds(d, (k - 1) * d);
      TimesZeroOne(1);
      assert k * d == d + (k - 1) * d;
    }
  }

  /** A proper divisor of 255 divides 15, 51 or 85. */
  lemma ProperDivisors(d: nat, q: nat) returns (k: nat)
    requires d * q == 255 && d < 255
    ensures k * d == 15 || k * d == 51 || k * d == 85
  {
    if d <= 15 {
      SmallDivisors(d, q);
      k := 15 / d;
    } else {
      if q >= 16 {
        ProductOfLarge(d, q);
      }
      SmallDivisors(q, d);
      k := if d == 85 || d == 51 then 1 else 15 / d;
      k := if d == 17 then 3 else k;
    }
  }

  lemma ProductOfLarge(d: nat, q: nat)
    requires d >= 16 && q >= 16
    ensures d * q >= 256
  {
    assert (d - 16) * q >= 0;
  }

  lemma SmallDivisors(d: nat, q: nat)
    requires d * q == 255 && d <= 15
    ensures (d == 1 && q == 255) || (d == 3 && q == 85) || (d == 5 && q == 51) || (d == 15 && q == 17)
  {
    assert d == 0 || d == 1 || d == 2 || d == 3 || d == 4 || d == 5 || d == 6 || d == 7 || d == 8
      || d == 9 || d == 10 || d == 11 || d == 12 || d == 13 || d == 14 || d == 15;
  }

  /** No earlier power of 3 is 1: an early period would divide a maximal one. */
  lemma {:induction false} NoEarlierReturn(d: nat)
    requires 0 < d < 255
    ensures Power(d) != 1
  {
    hide Times, Power;
    if Power(d) == 1 {
      var q, r := 255 / d, 255 % d;
      PowerOrder();
      PowerOfMultiple(d, q);
      assert q * d + r == 255;
      PowerAdds(q * d, r);
      TimesZeroOne(Power(r));
      if r > 0 {
        NoEarlierReturn(r);
      } else {
        var k := ProperDivisors(d, q);
        PowerOfMultiple(d, k);
        NotEarlyPeriods();
      }
    }
  }

  lemma PowerPeriodic(i: nat)
    ensures Power(i + 255) == Power(i)
  {
    hide Times, Power;
    PowerOrder();
    PowerAdds(i, 255);
    TimesZeroOne(Power(i));
  }

  /** The first 255 powers of 3 are pairwise distinct. */
  lemma PowersDistinct(i: nat, j: nat)
    requires i < j < 255
    ensures Power(i) != Power(j)
  {
    hide Times, Power;
    if Power(i) == Power(j) {
      PowerOrder();
      PowerAdds(i, 255 - i);
      PowerAdds(j, 255 - i);
      PowerPeriodic(j - i);
      NoEarlierReturn(j - i);
    }
  }

  lemma PowerNonzero(i: nat)
    ensures Power(i) != 0
  {
    hide Times, Power;
    if i < 255 {
      PowerOrder();
      PowerAdds(i, 255 - i);
      TimesZeroOne(Power(255 - i));
    } else {
      PowerNonzero(i - 255);
      PowerPeriodic(i - 255);
    }
  }

  // ---- every nonzero byte is a power of 3, by counting

  ghost function Powers(n: nat): set<nat> {
    set i: nat | i < n :: Power(i)
  }

  function UpTo(n: nat): (s: set<nat>)
    ensures |s| == n && forall x :: x in s <==> 1 <= x <= n
  {
    if n == 0 then {} else UpTo(n - 1) + {n}
  }

  lemma {:induction false} PowersCounted(n: nat)
    requires n <= 255
    ensures |Powers(n)| == n && Powers(n) <= UpTo(255)
  {
    hide Times, Power, UpTo;
    if n == 0 {
      assert Powers(0) == {};
    } else {
      PowersCounted(n - 1);
      PowerNonzero(n - 1);
      forall i: nat | i < n - 1
        ensures Power(i) != Power(n - 1)
      {
        PowersDistinct(i, n - 1);
      }
      assert Powers(n) == Powers(n - 1) + {Power(n - 1)};
    }
  }

  lemma SubsetOfSameSize(a: set<nat>, b: set<nat>)
    requires a <= b && |a| == |b|
    ensures a == b
  {
    if x :| x in b && x !in a {
      assert a <= b - {x};
      SubsetIsSmaller(a, b - {x});
    }
  }

  lemma {:induction false} SubsetIsSmaller(a: set<nat>, b: set<nat>)
    requires a <= b
    ensures |a| <= |b|
  {
    if x :| x in a {
      SubsetIsSmaller(a - {x}, b - {x});
    }
  }

  /** 3 generates every nonzero byte. */
  lemma EveryByteIsAPower(a: byte)
    requires a > 0
    ensures exists i: nat :: i < 255 && Power(i) == a
  {
    hide Times, Power, UpTo;
    PowersCounted(255);
    SubsetOfSameSize(Powers(255), UpTo(255));
    assert a in Powers(255);
  }
}
