/** UTF-16: encoding, and the lossy decoding that replaces unpaired surrogates. */
module Utf16 {
  import opened Bits

  type Unit = u: nat | u < 0x1_0000

  const REPLACEMENT: char := '\U{FFFD}'

  function EncodeChar(c: char): (s: seq<Unit>)
    ensures 1 <= |s| <= 2
  {
    var n := c as int;
    if n < 0x1_0000 then [n]
    else [0xD800 + (n - 0x1_0000) / 0x400, 0xDC00 + (n - 0x1_0000) % 0x400]
  }

  function Encode(s: string): seq<Unit> {
    if s == [] then [] else EncodeChar(s[0]) + Encode(s[1..])
  }

  predicate IsHigh(u: Unit) {
    0xD800 <= u < 0xDC00
  }

  predicate IsLow(u: Unit) {
    0xDC00 <= u < 0xE000
  }

  function Pair(high: Unit, low: Unit): char
    requires IsHigh(high) && IsLow(low)
  {
    (0x1_0000 + (high - 0xD800) * 0x400 + (low - 0xDC00)) as char
  }

  /** A surrogate without its partner becomes the replacement character, and is one unit. */
  function DecodeLossy(s: seq<Unit>): string {
    if s == [] then []
    else if !IsHigh(s[0]) && !IsLow(s[0]) then [s[0] as char] + DecodeLossy(s[1..])
    else if IsHigh(s[0]) && |s| > 1 && IsLow(s[1]) then [Pair(s[0], s[1])] + DecodeLossy(s[2..])
    else [REPLACEMENT] + DecodeLossy(s[1..])
  }

  lemma DecodeFirst(c: char, rest: seq<Unit>)
    ensures DecodeLossy(EncodeChar(c) + rest) == [c] + DecodeLossy(rest)
  {
    hide DecodeLossy;
    var n, e := c as int, EncodeChar(c);
    if n < 0x1_0000 {
      DecodeOne(n, rest);
    } else {
      assert e + rest == [e[0], e[1]] + rest;
      DecodeTwo(e[0], e[1], rest);
    }
  }

  lemma DecodeOne(u: Unit, rest: seq<Unit>)
    requires !IsHigh(u) && !IsLow(u)
    ensures DecodeLossy([u] + rest) == [u as char] + DecodeLossy(rest)
  {
    assert ([u] + rest)[1..] == rest;
  }

  lemma DecodeTwo(u: Unit, v: Unit, rest: seq<Unit>)
    requires IsHigh(u) && IsLow(v)
    ensures DecodeLossy([u, v] + rest) == [Pair(u, v)] + DecodeLossy(rest)
  {
    assert ([u, v] + rest)[2..] == rest;
  }

  /** Decoding an encoded string gives it back. */
  lemma {:induction false} DecodeEncode(s: string)
    ensures DecodeLossy(Encode(s)) == s
  {
    hide DecodeLossy, EncodeChar;
    if s == [] {
      DecodeNothing();
    } else {
      DecodeEncode(s[1..]);
      DecodeFirst(s[0], Encode(s[1..]));
      assert s == [s[0]] + s[1..];
    }
  }

  /** A character is one unit, its own code, or a high and a low surrogate that add up to it. */
  lemma UnitsOfChar(c: char)
    ensures
      var n, s := c as int, Encode([c]);
      if n <= 0xFFFF then s == [n]
      else
        && |s| == 2 && 0xD800 <= s[0] <= 0xDBFF && 0xDC00 <= s[1] <= 0xDFFF
        && n == 0x1_0000 + (s[0] as int - 0xD800) * 1024 + (s[1] as int - 0xDC00)
  {
    EncodeFirst(c, []);
    EncodeNothing();
    assert [c] + [] == [c];
  }

  /** A surrogate that no partner follows, or that follows none, is lost, and nothing else with it. */
  lemma UnpairedIsLost(u: Unit, rest: seq<Unit>)
    requires 0xDC00 <= u <= 0xDFFF || (0xD800 <= u <= 0xDBFF && (rest == [] || !(0xDC00 <= rest[0] <= 0xDFFF)))
    ensures DecodeLossy([u] + rest) == ['\U{FFFD}'] + DecodeLossy(rest)
  {
    assert ([u] + rest)[1..] == rest;
    assert |rest| > 0 ==> ([u] + rest)[1] == rest[0];
  }

  lemma DecodeNothing()
    ensures DecodeLossy([]) == []
  {
  }

  lemma EncodeFirst(c: char, s: string)
    ensures Encode([c] + s) == EncodeChar(c) + Encode(s)
  {
    assert ([c] + s)[1..] == s;
  }

  /** Whatever is lost in decoding, the number of units is not. */
  lemma {:induction false} DecodedLength(s: seq<Unit>)
    ensures |Encode(DecodeLossy(s))| == |s|
  {
    hide Encode;
    if s == [] {
      EncodeNothing();
    } else if !IsHigh(s[0]) && !IsLow(s[0]) {
      DecodedLength(s[1..]);
      EncodeFirst(s[0] as char, DecodeLossy(s[1..]));
    } else if IsHigh(s[0]) && |s| > 1 && IsLow(s[1]) {
      DecodedLength(s[2..]);
      EncodeFirst(Pair(s[0], s[1]), DecodeLossy(s[2..]));
    } else {
      DecodedLength(s[1..]);
      EncodeFirst(REPLACEMENT, DecodeLossy(s[1..]));
    }
  }

  lemma EncodeNothing()
    ensures Encode([]) == []
  {
  }

  /** Only the NUL character encodes to a zero unit. */
  lemma {:induction false} ZeroUnits(s: string)
    ensures 0 in Encode(s) <==> '\0' in s
  {
    hide Encode;
    if s == [] {
      EncodeNothing();
    } else {
      ZeroUnits(s[1..]);
      assert s == [s[0]] + s[1..];
      EncodeFirst(s[0], s[1..]);
    }
  }
}
