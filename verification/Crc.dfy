/**
 The CRC-32 of crates/keybuild/src/gpt.rs: the reflected, bit-at-a-time form of the IEEE 802.3
 frame check sequence. Registers are 32-bit words, so naturals below 2^32.
 */
module Crc {
  import opened Bits
  import opened Gf2

  const REFLECTED: nat := 0xEDB8_8320

  /** The generator polynomial x^32 + x^26 + ... + 1, highest bit first. */
  const GENERATOR: nat := 0x1_04C1_1DB7

  const ALL_ONES: nat := 0xFFFF_FFFF

  predicate IsWord(c: nat) {
    c < 0x1_0000_0000
  }

  /** One bit of the register update. */
  function Step(c: nat): nat {
    Xor(c / 2, Select(c, REFLECTED))
  }

  function Steps(c: nat, n: nat): nat
    decreases n
  {
    if n == 0 then c else Steps(Step(c), n - 1)
  }

  /** The register after feeding a whole message. */
  function Register(c: nat, data: seq<byte>): nat
    decreases data
  {
    if data == [] then c else Register(Steps(Xor(c, data[0]), 8), data[1..])
  }

  function Crc32(data: seq<byte>): nat {
    Xor(Register(ALL_ONES, data), ALL_ONES)
  }

  lemma StepIsWord(c: nat)
    requires IsWord(c)
    ensures IsWord(Step(c))
  {
    hide Xor, Pow2;
    Pow2Values();
    XorBelow(c / 2, Select(c, REFLECTED), 32);
  }

  lemma {:induction false} RegisterAppend(c: nat, data: seq<byte>, b: byte)
    ensures Register(c, data + [b]) == Steps(Xor(Register(c, data), b), 8)
    decreases data
  {
    hide Xor, Steps;
    if data == [] {
      assert ([] + [b])[1..] == [];
    } else {
      assert (data + [b])[1..] == data[1..] + [b];
      RegisterAppend(Steps(Xor(c, data[0]), 8), data[1..], b);
    }
  }

  lemma {:induction false} StepsAppend(c: nat, n: nat)
    ensures Steps(c, n + 1) == Step(Steps(c, n))
    decreases n
  {
    hide Step;
    if n > 0 {
      StepsAppend(Step(c), n - 1);
    }
  }

  /** `!crc` on a 32-bit word. */
  function Complement(c: nat): nat
    requires IsWord(c)
  {
    ALL_ONES - c
  }

  lemma {:induction false} ComplementIsXor(c: nat, k: nat)
    requires c < Pow2(k)
    ensures Xor(c, Pow2(k) - 1) == Pow2(k) - 1 - c
  {
    if k == 0 {
      XorZero(0);
    } else {
      ComplementIsXor(c / 2, k - 1);
      XorStep(c, Pow2(k) - 1);
      SameWord(Xor(c, Pow2(k) - 1), Pow2(k) - 1 - c);
    }
  }

  method ComputeCrc32(data: seq<byte>) returns (crc: nat)
    ensures crc == Crc32(data) && IsWord(crc)
  {
    hide Xor, Steps;
    crc := ALL_ONES;
    for i := 0 to |data|
      invariant IsWord(crc) && crc == Register(ALL_ONES, data[..i])
    {
      ghost var before := Xor(crc, data[i]);
      assert IsWord(before) by { Pow2Values(); XorBelow(crc, data[i], 32); }
      crc := Xor(crc, data[i]);
      StepsZero(crc);
      for j := 0 to 8
        invariant IsWord(crc) && crc == Steps(before, j)
      {
        StepIsWord(crc);
        StepsAppend(before, j);
        crc := Xor(crc / 2, Select(crc, REFLECTED));
      }
      RegisterAppend(ALL_ONES, data[..i], data[i]);
      assert data[..i + 1] == data[..i] + [data[i]];
    }
    assert data[..|data|] == data;
    Pow2Values();
    ComplementIsXor(crc, 32);
    crc := Complement(crc);
  }

  lemma CrcIsWord(data: seq<byte>)
    ensures IsWord(Crc32(data))
  {
    hide Steps, Xor;
    if data == [] {
      Pow2Values();
      XorBelow(ALL_ONES, ALL_ONES, 32);
    } else {
      RegisterIsWord(ALL_ONES, data);
      Pow2Values();
      XorBelow(Register(ALL_ONES, data), ALL_ONES, 32);
    }
  }

  lemma {:induction false} RegisterIsWord(c: nat, data: seq<byte>)
    requires IsWord(c)
    ensures IsWord(Register(c, data))
    decreases data
  {
    hide Steps, Xor;
    if data != [] {
      Pow2Values();
      XorBelow(c, data[0], 32);
      StepsAreWords(Xor(c, data[0]), 8);
      RegisterIsWord(Steps(Xor(c, data[0]), 8), data[1..]);
    }
  }

  lemma {:induction false} StepsAreWords(c: nat, n: nat)
    requires IsWord(c)
    ensures IsWord(Steps(c, n))
    decreases n
  {
    hide Step;
    if n > 0 {
      StepIsWord(c);
      StepsAreWords(Step(c), n - 1);
    }
  }

  lemma StepsZero(c: nat)
    ensures Steps(c, 0) == c
  {
  }

  // ---- the same register fed one message bit at a time

  type Bit = b: nat | b < 2

  /** The bits of a byte in the order the CRC takes them, lowest first. */
  function ByteBits(b: nat, n: nat): (s: seq<Bit>)
    ensures |s| == n
  {
    if n == 0 then [] else [b % 2] + ByteBits(b / 2, n - 1)
  }

  function MessageBits(data: seq<byte>): (s: seq<Bit>)
    ensures |s| == 8 * |data|
  {
    if data == [] then [] else ByteBits(data[0], 8) + MessageBits(data[1..])
  }

  function Feed(c: nat, bits: seq<Bit>): nat
    decreases bits
  {
    if bits == [] then c else Feed(Step(Xor(c, bits[0])), bits[1..])
  }

  lemma StepXor(c: nat, d: nat)
    ensures Step(Xor(c, d)) == Xor(Step(c), Step(d))
  {
    hide Xor;
    XorStep(c, d);
    SelectXor(c, d, REFLECTED);
    XorRegroup(c / 2, Select(c, REFLECTED), d / 2, Select(d, REFLECTED));
  }

  /** Xoring in a whole byte and stepping is feeding its bits, lowest first. */
  lemma {:induction false} FeedByte(c: nat, b: nat, n: nat)
    requires b < Pow2(n)
    ensures Steps(Xor(c, b), n) == Feed(c, ByteBits(b, n))
    decreases n
  {
    hide Xor, Step;
    if n == 0 {
      XorZero(c);
    } else {
      var low, high := b % 2, b / 2;
      assert b == Xor(low, 2 * high) by { AppendIsXor(high, low); XorCommutes(low, 2 * high); }
      XorAssociates(c, low, 2 * high);
      StepXor(Xor(c, low), 2 * high);
      StepOfEven(high);
      FeedByte(Step(Xor(c, low)), high, n - 1);
      assert ByteBits(b, n)[1..] == ByteBits(high, n - 1);
    }
  }

  lemma StepOfEven(h: nat)
    ensures Step(2 * h) == h
  {
    hide Xor;
    XorZero(h);
  }

  lemma AppendIsXor(h: nat, low: nat)
    requires low < 2
    ensures 2 * h + low == Xor(2 * h, low)
  {
    XorStep(2 * h, low);
    XorZero(h);
  }

  lemma {:induction false} FeedConcat(c: nat, s: seq<Bit>, t: seq<Bit>)
    ensures Feed(c, s + t) == Feed(Feed(c, s), t)
    decreases s
  {
    hide Xor, Step;
    if s == [] {
      assert [] + t == t;
    } else {
      assert (s + t)[1..] == s[1..] + t;
      FeedConcat(Step(Xor(c, s[0])), s[1..], t);
    }
  }

  lemma {:induction false} RegisterIsFeed(c: nat, data: seq<byte>)
    ensures Register(c, data) == Feed(c, MessageBits(data))
    decreases data
  {
    hide Xor, Step, Steps, ByteBits;
    if data != [] {
      assert Pow2(8) == 256;
      FeedByte(c, data[0], 8);
      FeedConcat(c, ByteBits(data[0], 8), MessageBits(data[1..]));
      RegisterIsFeed(Steps(Xor(c, data[0]), 8), data[1..]);
    }
  }

  // ---- detection of bursts

  function XorBits(s: seq<Bit>, t: seq<Bit>): (d: seq<Bit>)
    requires |s| == |t|
    ensures |d| == |s|
  {
    seq(|s|, i requires 0 <= i < |s| => if s[i] == t[i] then 0 else 1)
  }

  /** The register is linear in its start and its input together. */
  lemma {:induction false} FeedXor(c: nat, d: nat, s: seq<Bit>, t: seq<Bit>)
    requires |s| == |t|
    ensures Feed(Xor(c, d), XorBits(s, t)) == Xor(Feed(c, s), Feed(d, t))
    decreases s
  {
    hide Step;
    if s != [] {
      hide Xor;
      var e := XorBits(s, t);
      assert e[1..] == XorBits(s[1..], t[1..]);
      assert e[0] == Xor(s[0], t[0]) by { XorOfBits(s[0], t[0]); }
      XorRegroup(c, d, s[0], t[0]);
      StepXor(Xor(c, s[0]), Xor(d, t[0]));
      FeedXor(Step(Xor(c, s[0])), Step(Xor(d, t[0])), s[1..], t[1..]);
    }
  }

  lemma XorOfBits(a: Bit, b: Bit)
    ensures Xor(a, b) == if a == b then 0 else 1
  {
    XorSelf(a);
    XorZero(1);
  }

  /** No nonzero word steps to zero: the top bit shows whether the generator went in. */
  lemma StepKeepsNonzero(c: nat)
    requires IsWord(c) && c > 0
    ensures IsWord(Step(c)) && Step(c) > 0
  {
    hide Xor;
    StepIsWord(c);
    XorDiffers(c / 2, Select(c, REFLECTED));
  }

  lemma {:induction false} StepsKeepNonzero(c: nat, n: nat)
    requires IsWord(c) && c > 0
    ensures IsWord(Steps(c, n)) && Steps(c, n) > 0
    decreases n
  {
    hide Step;
    if n > 0 {
      StepKeepsNonzero(c);
      StepsKeepNonzero(Step(c), n - 1);
    }
  }

  predicate AllZero(s: seq<Bit>) {
    forall i :: 0 <= i < |s| ==> s[i] == 0
  }

  /** Feeding zero bits only steps. */
  lemma {:induction false} FeedZeros(c: nat, s: seq<Bit>)
    requires AllZero(s)
    ensures Feed(c, s) == Steps(c, |s|)
    decreases s
  {
    hide Xor, Step;
    if s != [] {
      XorZero(c);
      FeedZeros(Step(c), s[1..]);
    }
  }

  lemma {:induction false} StepsOfZero(n: nat)
    ensures Steps(0, n) == 0
  {
    if n > 0 {
      XorZero(0);
      StepsOfZero(n - 1);
    }
  }

  /** The number whose bits, lowest first, are `s`. */
  function Number(s: seq<Bit>): nat {
    if s == [] then 0 else s[0] + 2 * Number(s[1..])
  }

  lemma {:induction false} NumberBits(s: seq<Bit>)
    ensures Number(s) < Pow2(|s|) && ByteBits(Number(s), |s|) == s
    ensures Number(s) == 0 ==> AllZero(s)
  {
    if s != [] {
      NumberBits(s[1..]);
      var m, n := Number(s[1..]), Number(s);
      assert n / 2 == m && n % 2 == s[0];
      assert s == [s[0]] + s[1..];
    }
  }

  lemma {:induction false} Pow2Monotonic(i: nat, j: nat)
    requires i <= j
    ensures Pow2(i) <= Pow2(j)
  {
    if i < j {
      Pow2Monotonic(i, j - 1);
    }
  }

  /** From the zero register, up to 32 bits that are not all zero leave a nonzero register. */
  lemma ShortInputShows(w: seq<Bit>)
    requires |w| <= 32 && !AllZero(w)
    ensures IsWord(Feed(0, w)) && Feed(0, w) > 0
  {
    hide Xor, Step, Steps, Feed;
    var m := Number(w);
    NumberBits(w);
    Pow2Monotonic(|w|, 32);
    Pow2Values();
    FeedByte(0, m, |w|);
    XorZero(m);
    StepsKeepNonzero(m, |w|);
  }

  lemma {:induction false} MessageBitsInjective(a: seq<byte>, b: seq<byte>)
    requires |a| == |b| && MessageBits(a) == MessageBits(b)
    ensures a == b
  {
    hide ByteBits;
    if a != [] {
      var (ha, hb) := (ByteBits(a[0], 8), ByteBits(b[0], 8));
      assert ha == MessageBits(a)[..8] && hb == MessageBits(b)[..8];
      assert MessageBits(a[1..]) == MessageBits(a)[8..] && MessageBits(b[1..]) == MessageBits(b)[8..];
      assert Pow2(8) == 256;
      ByteBitsInjective(a[0], b[0], 8);
      MessageBitsInjective(a[1..], b[1..]);
    }
  }

  lemma {:induction false} ByteBitsInjective(a: nat, b: nat, n: nat)
    requires a < Pow2(n) && b < Pow2(n) && ByteBits(a, n) == ByteBits(b, n)
    ensures a == b
    decreases n
  {
    if n > 0 {
      assert ByteBits(a, n)[0] == ByteBits(b, n)[0];
      assert ByteBits(a, n)[1..] == ByteBits(a / 2, n - 1) && ByteBits(b, n)[1..] == ByteBits(b / 2, n - 1);
      ByteBitsInjective(a / 2, b / 2, n - 1);
    }
  }

  /** The two messages agree outside the 32 bits from `lo`. */
  predicate DifferWithin32(a: seq<Bit>, b: seq<Bit>, lo: nat)
    requires |a| == |b|
  {
    forall i :: 0 <= i < |a| && !(lo <= i < lo + 32) ==> a[i] == b[i]
  }

  lemma HeadIsZero(d: seq<Bit>, lo: nat)
    requires lo <= |d| && forall i :: 0 <= i < lo ==> d[i] == 0
    ensures AllZero(d[..lo])
  {
  }

  lemma TailIsZero(d: seq<Bit>, lo: nat, hi: nat)
    requires lo <= hi <= |d| && (hi == |d| || hi == lo + 32)
    requires forall i :: 0 <= i < |d| && !(lo <= i < lo + 32) ==> d[i] == 0
    ensures AllZero(d[hi..])
  {
  }

  lemma WindowIsNotZero(d: seq<Bit>, lo: nat, hi: nat, i: nat)
    requires lo <= i < hi <= |d| && d[i] != 0
    ensures !AllZero(d[lo..hi])
  {
    var window := d[lo..hi];
    assert window[i - lo] == d[i];
  }

  /** A difference confined to 32 bits, and not empty, leaves a nonzero register. */
  lemma WindowShows(d: seq<Bit>, lo: nat)
    requires !AllZero(d) && forall i :: 0 <= i < |d| && !(lo <= i < lo + 32) ==> d[i] == 0
    ensures Feed(0, d) != 0
  {
    hide Xor, Step, Steps, Feed;
    var i :| 0 <= i < |d| && d[i] != 0;
    assert lo <= i < lo + 32;
    var hi := if lo + 32 <= |d| then lo + 32 else |d|;
    var before, window, after := d[..lo], d[lo..hi], d[hi..];
    WindowIsNotZero(d, lo, hi, i);
    HeadIsZero(d, lo);
    assert d == (before + window) + after;
    FeedConcat(0, before + window, after);
    FeedConcat(0, before, window);
    FeedZeros(0, before);
    StepsOfZero(|before|);
    ShortInputShows(window);
    TailIsZero(d, lo, hi);
    FeedZeros(Feed(0, window), after);
    StepsKeepNonzero(Feed(0, window), |after|);
  }

  lemma SameBits(s: seq<Bit>, t: seq<Bit>)
    requires |s| == |t| && AllZero(XorBits(s, t))
    ensures s == t
  {
    forall i | 0 <= i < |s|
      ensures s[i] == t[i]
    {
      assert XorBits(s, t)[i] == 0;
    }
  }

  lemma DifferenceIsNotZero(a: seq<byte>, b: seq<byte>)
    requires |a| == |b| && a != b
    ensures !AllZero(XorBits(MessageBits(a), MessageBits(b)))
  {
    hide MessageBits, XorBits, AllZero;
    if AllZero(XorBits(MessageBits(a), MessageBits(b))) {
      SameBits(MessageBits(a), MessageBits(b));
      MessageBitsInjective(a, b);
    }
  }

  /** Different messages that differ only inside 32 consecutive bits never share a CRC. */
  lemma BurstDetected(a: seq<byte>, b: seq<byte>, lo: nat)
    requires |a| == |b| && a != b && DifferWithin32(MessageBits(a), MessageBits(b), lo)
    ensures Crc32(a) != Crc32(b)
  {
    hide Xor, Feed, Register, MessageBits;
    var s, t := MessageBits(a), MessageBits(b);
    var x, y := Register(ALL_ONES, a), Register(ALL_ONES, b);
    DifferenceIsNotZero(a, b);
    WindowShows(XorBits(s, t), lo);
    FeedXor(ALL_ONES, ALL_ONES, s, t);
    XorSelf(ALL_ONES);
    RegisterIsFeed(ALL_ONES, a);
    RegisterIsFeed(ALL_ONES, b);
    XorDiffers(x, y);
    if Xor(x, ALL_ONES) == Xor(y, ALL_ONES) {
      XorInjective(x, y, ALL_ONES);
    }
  }

  lemma {:induction false} MessageBitsAt(a: seq<byte>, p: nat, j: nat)
    requires p < |a| && j < 8
    ensures MessageBits(a)[8 * p + j] == ByteBits(a[p], 8)[j]
  {
    hide ByteBits;
    if p > 0 {
      MessageBitsAt(a[1..], p - 1, j);
    }
  }

  /** In bytes: corrupting any four consecutive bytes changes the CRC. */
  lemma FourBytesDetected(a: seq<byte>, b: seq<byte>, p: nat)
    requires |a| == |b| && a != b
    requires forall i :: 0 <= i < |a| && !(p <= i < p + 4) ==> a[i] == b[i]
    ensures Crc32(a) != Crc32(b)
  {
    hide ByteBits, MessageBits, Crc32;
    forall i | 0 <= i < |MessageBits(a)| && !(8 * p <= i < 8 * p + 32)
      ensures MessageBits(a)[i] == MessageBits(b)[i]
    {
      MessageBitsAt(a, i / 8, i % 8);
      MessageBitsAt(b, i / 8, i % 8);
    }
    BurstDetected(a, b, 8 * p);
  }

  // ---- the polynomial form

  /** The low n bits in reverse order. */
  function Mirror(c: nat, n: nat): nat {
    if n == 0 then 0 else (c % 2) * Pow2(n - 1) + Mirror(c / 2, n - 1)
  }

  lemma {:induction false} MirrorBelow(c: nat, n: nat)
    ensures Mirror(c, n) < Pow2(n)
  {
    if n > 0 {
      hide Mirror, Pow2;
      MirrorBelow(c / 2, n - 1);
      MirrorUnfolds(c, n);
      Pow2Doubles(n - 1);
      BitTimes(c % 2, Pow2(n - 1));
    }
  }

  lemma BitTimes(b: Bit, m: nat)
    ensures 0 <= b * m <= m
  {
    assert b == 0 || b == 1;
  }

  lemma Pow2Doubles(n: nat)
    ensures Pow2(n + 1) == 2 * Pow2(n)
  {
  }

  lemma XorSplitStep(p: nat, q: nat, z: nat, r: nat, s: nat)
    requires Xor(p + r / 2, q + s / 2) == z + Xor(r / 2, s / 2)
    ensures Xor(2 * (p + r / 2) + r % 2, 2 * (q + s / 2) + s % 2) == 2 * (z + Xor(r, s) / 2) + Xor(r, s) % 2
  {
    hide Xor;
    XorStep(2 * (p + r / 2) + r % 2, 2 * (q + s / 2) + s % 2);
    XorStep(r, s);
  }

  /** A word shifted left n bits. */
  function Shifted(p: nat, n: nat): nat {
    if n == 0 then p else 2 * Shifted(p, n - 1)
  }

  lemma {:induction false} ShiftedIsProduct(p: nat, n: nat)
    ensures Shifted(p, n) == p * Pow2(n)
  {
    if n == 0 {
      PowZero();
    } else {
      ShiftedIsProduct(p, n - 1);
      hide Pow2;
      Pow2Doubles(n - 1);
      SwapTwo(p, Pow2(n - 1));
    }
  }

  lemma {:induction false} XorShifted(p: nat, q: nat, r: nat, s: nat, n: nat)
    requires r < Pow2(n) && s < Pow2(n)
    ensures Xor(Shifted(p, n) + r, Shifted(q, n) + s) == Shifted(Xor(p, q), n) + Xor(r, s)
  {
    hide Xor, Pow2;
    if n == 0 {
      PowZero();
      XorZero(0);
    } else {
      Pow2Doubles(n - 1);
      XorShifted(p, q, r / 2, s / 2, n - 1);
      XorSplitStep(Shifted(p, n - 1), Shifted(q, n - 1), Shifted(Xor(p, q), n - 1), r, s);
      assert r == 2 * (r / 2) + r % 2 && s == 2 * (s / 2) + s % 2;
    }
  }

  /** Words split at bit n are xored piece by piece. */
  lemma XorSplit(p: nat, q: nat, r: nat, s: nat, n: nat)
    requires r < Pow2(n) && s < Pow2(n)
    ensures Xor(p * Pow2(n) + r, q * Pow2(n) + s) == Xor(p, q) * Pow2(n) + Xor(r, s)
  {
    hide Xor, Pow2, Shifted;
    ShiftedIsProduct(p, n);
    ShiftedIsProduct(q, n);
    ShiftedIsProduct(Xor(p, q), n);
    XorShifted(p, q, r, s, n);
  }

  lemma {:induction false} MirrorXor(c: nat, d: nat, n: nat)
    ensures Mirror(Xor(c, d), n) == Xor(Mirror(c, n), Mirror(d, n))
  {
    if n == 0 {
      XorZero(0);
    } else {
      hide Xor;
      XorStep(c, d);
      MirrorXor(c / 2, d / 2, n - 1);
      MirrorBelow(c / 2, n - 1);
      MirrorBelow(d / 2, n - 1);
      XorSplit(c % 2, d % 2, Mirror(c / 2, n - 1), Mirror(d / 2, n - 1), n - 1);
      XorOfBits(c % 2, d % 2);
    }
  }

  /** Mirrored in one bit more, a word is doubled. */
  lemma {:induction false} MirrorWider(c: nat, n: nat)
    requires c < Pow2(n)
    ensures Mirror(c, n + 1) == 2 * Mirror(c, n)
  {
    if n > 0 {
      MirrorWider(c / 2, n - 1);
    }
  }

  lemma {:induction false} MirrorOfZero(n: nat)
    ensures Mirror(0, n) == 0
  {
    if n > 0 {
      MirrorOfZero(n - 1);
    }
  }

  lemma {:induction false} MirrorNonzero(c: nat, n: nat)
    requires c < Pow2(n) && Mirror(c, n) == 0
    ensures c == 0
  {
    if n > 0 {
      MirrorNonzero(c / 2, n - 1);
    }
  }

  lemma {:induction false} MirrorOfOnes(n: nat)
    ensures Mirror(Pow2(n) - 1, n) == Pow2(n) - 1
  {
    if n > 0 {
      assert (Pow2(n) - 1) / 2 == Pow2(n - 1) - 1;
      MirrorOfOnes(n - 1);
    }
  }

  lemma {:induction false} MirrorConcat(c: nat, d: nat, m: nat, n: nat, w: nat)
    requires c < Pow2(m) && w == c + Pow2(m) * d
    ensures Mirror(w, m + n) == Mirror(c, m) * Pow2(n) + Mirror(d, n)
  {
    if m > 0 {
      var e, p, q := Pow2(m - 1) * d, Pow2(m - 1), Pow2(n);
      assert Pow2(m) * d == 2 * e;
      assert w / 2 == c / 2 + e && w % 2 == c % 2;
      MirrorConcat(c / 2, d, m - 1, n, w / 2);
      Pow2Adds(m - 1, n);
      MirrorUnfolds(w, m + n);
      MirrorUnfolds(c, m);
      Distribute(c % 2, p, Mirror(c / 2, m - 1), q);
    }
  }

  lemma MirrorUnfolds(c: nat, n: nat)
    requires n > 0
    ensures Mirror(c, n) == (c % 2) * Pow2(n - 1) + Mirror(c / 2, n - 1)
  {
  }

  lemma Distribute(b: nat, p: nat, m: nat, q: nat)
    ensures (b * p + m) * q == b * (p * q) + m * q
  {
  }

  lemma MirrorOfNibbles()
    ensures Mirror(0x0, 4) == 0x0 && Mirror(0x2, 4) == 0x4 && Mirror(0x3, 4) == 0xC && Mirror(0x8, 4) == 0x1
    ensures Mirror(0xB, 4) == 0xD && Mirror(0xD, 4) == 0xB && Mirror(0xE, 4) == 0x7
  {
  }

  lemma MirrorOfReflectedBytes()
    ensures Mirror(0x20, 8) == 0x04 && Mirror(0x83, 8) == 0xC1
    ensures Mirror(0xB8, 8) == 0x1D && Mirror(0xED, 8) == 0xB7
  {
    assert Pow2(4) == 16;
    MirrorOfNibbles();
    hide Mirror, Pow2;
    MirrorConcat(0x0, 0x2, 4, 4, 0x20);
    MirrorConcat(0x3, 0x8, 4, 4, 0x83);
    MirrorConcat(0x8, 0xB, 4, 4, 0xB8);
    MirrorConcat(0xD, 0xE, 4, 4, 0xED);
  }

  /** The reflected constant is the generator without its top term, bits reversed. */
  lemma MirrorOfReflected()
    ensures Mirror(REFLECTED, 32) + 0x1_0000_0000 == GENERATOR
  {
    hide Mirror, Pow2;
    MirrorOfReflectedBytes();
    Pow2Values();
    MirrorConcat(0xB8, 0xED, 8, 8, 0xEDB8);
    MirrorConcat(0x83, 0xEDB8, 8, 16, 0xEDB883);
    MirrorConcat(0x20, 0xEDB883, 8, 24, 0xEDB88320);
  }

  // ---- the register as a remainder

  /** The message as a polynomial, first bit highest. */
  function MessagePoly(bits: seq<Bit>): nat {
    if bits == [] then 0 else 2 * MessagePoly(bits[..|bits| - 1]) + bits[|bits| - 1]
  }

  lemma {:induction false} ScaleXor(a: nat, b: nat, k: nat)
    ensures Xor(Pow2(k) * a, Pow2(k) * b) == Pow2(k) * Xor(a, b)
  {
    hide Xor;
    if k > 0 {
      var p := Pow2(k - 1);
      ScaleXor(a, b, k - 1);
      Pow2Doubles(k - 1);
      hide Pow2;
      DoubleXor(p * a, p * b);
      DoubleTimes(p, a);
      DoubleTimes(p, b);
      DoubleTimes(p, Xor(a, b));
    }
  }

  lemma DoubleTimes(p: nat, x: nat)
    ensures (2 * p) * x == 2 * (p * x)
  {
  }

  /** Mirrored, a step is multiplication by x with the carry cancelled by the generator. */
  lemma MirrorOfStep(c: nat)
    requires IsWord(c)
    ensures Mirror(Step(c), 32) == Xor(2 * Mirror(c, 32), Select(c, GENERATOR))
  {
    hide Xor, Pow2, Mirror;
    Pow2Values();
    var h := Mirror(c / 2, 32);
    MirrorXor(c / 2, Select(c, REFLECTED), 32);
    HalfAndMirror(c);
    MirrorBelow(c / 2, 32);
    MirrorOfReflected();
    if c % 2 == 1 {
      XorSplit(1, 1, h, GENERATOR - 0x1_0000_0000, 32);
      XorSelf(1);
    } else {
      MirrorOfZero(32);
    }
  }

  lemma Pow2Of31()
    ensures Pow2(32) == 2 * Pow2(31)
  {
  }

  lemma HalfAndMirror(c: nat)
    requires IsWord(c)
    ensures 2 * Mirror(c, 32) == (c % 2) * 0x1_0000_0000 + Mirror(c / 2, 32)
  {
    hide Pow2, Mirror;
    Pow2Values();
    Pow2Of31();
    MirrorWider(c / 2, 31);
    MirrorUnfolds(c, 32);
  }

  /** What is divided: the message times x^32, with the start value above it. */
  function Dividend(start: nat, bits: seq<Bit>): nat {
    Xor(Pow2(32) * MessagePoly(bits), Pow2(|bits|) * start)
  }

  lemma DividendAppend(start: nat, s: seq<Bit>, b: Bit)
    ensures Dividend(start, s + [b]) == 2 * Xor(b * Pow2(31), Dividend(start, s))
  {
    hide Xor, Pow2, MessagePoly;
    var m, k, low := MessagePoly(s), Pow2(32), Pow2(|s|) * start;
    MessagePolyAppend(s, b);
    Pow2Of31();
    Pow2Next(|s|, start);
    DoubleXor(k * m, low);
    DoubleXor(b * Pow2(31), Dividend(start, s));
    AppendIsXor(m, b);
    ScaleXor(2 * m, b, 32);
    XorCommutes(k * (2 * m), k * b);
    XorAssociates(k * b, k * (2 * m), 2 * low);
    SwapTwo(k, m);
    assert 2 * (b * Pow2(31)) == k * b;
  }

  lemma SwapTwo(k: nat, m: nat)
    ensures 2 * (k * m) == k * (2 * m)
  {
  }

  lemma Pow2Next(n: nat, start: nat)
    ensures Pow2(n + 1) * start == 2 * (Pow2(n) * start)
  {
  }

  lemma MessagePolyAppend(s: seq<Bit>, b: Bit)
    ensures MessagePoly(s + [b]) == 2 * MessagePoly(s) + b
  {
    assert (s + [b])[..|s|] == s;
  }

  lemma MirrorOfBit(b: Bit)
    ensures Mirror(b, 32) == b * Pow2(31)
  {
    hide Pow2, Mirror;
    MirrorOfZero(31);
    MirrorUnfolds(b, 32);
  }

  /** The mirrored register is the remainder of the dividend by the generator. */
  lemma {:induction false} FeedIsRemainder(c: nat, bits: seq<Bit>)
    requires IsWord(c)
    ensures IsWord(Feed(c, bits))
    ensures Congruent(Dividend(Mirror(c, 32), bits), Mirror(Feed(c, bits), 32), GENERATOR)
    decreases bits
  {
    hide Xor, Step, Mirror, Pow2, Congruent;
    var start := Mirror(c, 32);
    if bits == [] {
      PowZero();
      XorZero(start);
      CongruentToItself(start, GENERATOR);
    } else {
      var n := |bits| - 1;
      var s, b := bits[..n], bits[n];
      assert bits == s + [b];
      FeedIsRemainder(c, s);
      FeedConcat(c, s, [b]);
      var r := Feed(c, s);
      FeedOne(r, b);
      FedWord(r, b);
      StepIsWord(Xor(r, b));
      DividendAppend(start, s, b);
      AddToRemainder(Dividend(start, s), Mirror(r, 32), GENERATOR, b * Pow2(31));
      MirrorXor(r, b, 32);
      MirrorOfBit(b);
      XorCommutes(Mirror(r, 32), b * Pow2(31));
      MirrorOfStep(Xor(r, b));
      DoubleRemainder(Xor(b * Pow2(31), Dividend(start, s)), Mirror(Xor(r, b), 32), GENERATOR, Xor(r, b) % 2);
    }
  }

  lemma PowZero()
    ensures Pow2(0) == 1
  {
  }

  lemma FeedOne(c: nat, b: Bit)
    ensures Feed(c, [b]) == Step(Xor(c, b))
  {
    assert [b][1..] == [];
  }

  lemma FedWord(c: nat, b: Bit)
    requires IsWord(c)
    ensures IsWord(Xor(c, b))
  {
    hide Xor;
    Pow2Values();
    XorBelow(c, b, 32);
  }

  /**
   The CRC is the frame check sequence of IEEE 802.3: complemented and read top bit first, it
   is the remainder by the generator of the message times x^32, its first 32 bits complemented.
   No other word is.
   */
  lemma CrcIsRemainder(data: seq<byte>, w: nat)
    requires IsWord(w)
    ensures w == Crc32(data) <==>
      Congruent(Dividend(ALL_ONES, MessageBits(data)), Mirror(Xor(w, ALL_ONES), 32), GENERATOR)
  {
    hide Xor, Step, Mirror, Pow2, Congruent, Register, Feed, Dividend;
    Pow2Values();
    MirrorOfOnes(32);
    RegisterIsFeed(ALL_ONES, data);
    FeedIsRemainder(ALL_ONES, MessageBits(data));
    var r, v, p := Register(ALL_ONES, data), Xor(w, ALL_ONES), Dividend(ALL_ONES, MessageBits(data));
    XorCancels(r, ALL_ONES);
    XorCancels(w, ALL_ONES);
    XorBelow(w, ALL_ONES, 32);
    if Congruent(p, Mirror(v, 32), GENERATOR) {
      MirrorBelow(v, 32);
      MirrorBelow(r, 32);
      RemainderUnique(p, Mirror(v, 32), Mirror(r, 32), GENERATOR, 32);
      MirrorInjective(v, r);
    }
  }

  lemma MirrorInjective(c: nat, d: nat)
    requires IsWord(d) && Mirror(c, 32) == Mirror(d, 32) && IsWord(c)
    ensures c == d
  {
    hide Xor, Mirror, Pow2;
    Pow2Values();
    MirrorXor(c, d, 32);
    XorSelf(Mirror(c, 32));
    XorBelow(c, d, 32);
    MirrorNonzero(Xor(c, d), 32);
    XorDiffers(c, d);
  }
}
