/**
 UTF-8 (RFC 3629): how a string becomes bytes, and the validation a reader makes before it
 takes bytes for a string. A char is a Unicode scalar value.
 */
module Utf8 {
  import opened Outcomes
  import opened Bits

  /** The bytes of a code below 0x200000, by its size. */
  function EncodeCode(n: nat): (s: seq<byte>)
    requires n < 0x20_0000
    ensures 1 <= |s| <= 4
  {
    if n < 0x80 then [n]
    else if n < 0x800 then [0xC0 + n / 0x40, 0x80 + n % 0x40]
    else if n < 0x1_0000 then [0xE0 + n / 0x1000, 0x80 + n / 0x40 % 0x40, 0x80 + n % 0x40]
    else [0xF0 + n / 0x4_0000, 0x80 + n / 0x1000 % 0x40, 0x80 + n / 0x40 % 0x40, 0x80 + n % 0x40]
  }

  function EncodeChar(c: char): (s: seq<byte>)
    ensures 1 <= |s| <= 4
  {
    EncodeCode(c as int)
  }

  function Encode(s: string): seq<byte> {
    if s == [] then [] else EncodeChar(s[0]) + Encode(s[1..])
  }

  predicate IsContinuation(b: byte) {
    0x80 <= b < 0xC0
  }

  /** A code that stands for a character: in range and not a surrogate. */
  predicate IsScalar(n: int) {
    0 <= n < 0xD800 || 0xE000 <= n < 0x11_0000
  }

  /** The length a lead byte announces; 1 for a byte that cannot lead. */
  function LeadLength(b: byte): (n: nat)
    ensures 1 <= n <= 4
  {
    if b < 0x80 then 1
    else if 0xC0 <= b < 0xE0 then 2
    else if 0xE0 <= b < 0xF0 then 3
    else if 0xF0 <= b < 0xF8 then 4
    else 1
  }

  /** The code spelt by a lead byte's low bits and the continuation bytes after it. */
  function Code(s: seq<byte>, n: nat): int
    requires 1 <= n <= 4 && n <= |s|
  {
    var a := s[0] as int;
    if n == 1 then a
    else
      var b := s[1] as int - 0x80;
      if n == 2 then (a - 0xC0) * 0x40 + b
      else
        var c := s[2] as int - 0x80;
        if n == 3 then (a - 0xE0) * 0x1000 + b * 0x40 + c
        else
          var d := s[3] as int - 0x80;
          (a - 0xF0) * 0x4_0000 + b * 0x1000 + c * 0x40 + d
  }

  /** The smallest code that needs n bytes: shorter ones would be overlong. */
  function Smallest(n: nat): nat {
    if n <= 1 then 0 else if n == 2 then 0x80 else if n == 3 then 0x800 else 0x1_0000
  }

  predicate AllContinue(s: seq<byte>, n: nat)
    requires n <= |s|
  {
    && (n > 1 ==> IsContinuation(s[1]))
    && (n > 2 ==> IsContinuation(s[2]))
    && (n > 3 ==> IsContinuation(s[3]))
  }

  /** The character at the front and how many bytes it takes. */
  function DecodeChar(s: seq<byte>): (r: Option<(char, nat)>)
    ensures r.Some? ==> 1 <= r.value.1 <= |s| && r.value.1 <= 4
  {
    if s == [] then None
    else
      var n := LeadLength(s[0]);
      if n > |s| || (n == 1 && s[0] >= 0x80) || n > 4 || !AllContinue(s, n) then None
      else
        var code := Code(s, n);
        if code < Smallest(n) || !IsScalar(code) then None else Some((code as char, n))
  }

  /** The string the bytes spell, if they are well formed. */
  function Decode(s: seq<byte>): Option<string> {
    if s == [] then Some([])
    else
      match DecodeChar(s)
      case None => None
      case Some((c, n)) =>
        match Decode(s[n..])
        case None => None
        case Some(rest) => Some([c] + rest)
  }

  /** Section 3 of RFC 3629: what the bits of a character's bytes add up to, for each range of codes. */
  lemma BitsOfCode(c: char)
    ensures
      var n, s := c as int, Encode([c]);
      if n <= 0x7F then s == [n]
      else if n <= 0x7FF then
        && |s| == 2 && 0xC2 <= s[0] <= 0xDF && 0x80 <= s[1] <= 0xBF
        && n == (s[0] as int - 0xC0) * 64 + (s[1] as int - 0x80)
      else if n <= 0xFFFF then
        && |s| == 3 && 0xE0 <= s[0] <= 0xEF && 0x80 <= s[1] <= 0xBF && 0x80 <= s[2] <= 0xBF
        && n == (s[0] as int - 0xE0) * 4096 + (s[1] as int - 0x80) * 64 + (s[2] as int - 0x80)
      else
        && |s| == 4 && 0xF0 <= s[0] <= 0xF4 && 0x80 <= s[1] <= 0xBF && 0x80 <= s[2] <= 0xBF && 0x80 <= s[3] <= 0xBF
        && n == (s[0] as int - 0xF0) * 262144 + (s[1] as int - 0x80) * 4096 + (s[2] as int - 0x80) * 64 + (s[3] as int - 0x80)
  {
    var n := c as int;
    assert [c][1..] == [] && Encode([]) == [];
    assert Encode([c]) == EncodeCode(n);
    SixBits(n);
    SixBits(n / 0x40);
    SixBits(n / 0x1000);
    assert n / 0x40 / 0x40 == n / 0x1000 && n / 0x1000 / 0x40 == n / 0x4_0000;
  }

  lemma EncodedShape(n: nat)
    requires n < 0x20_0000
    ensures
      var e := EncodeCode(n);
      && LeadLength(e[0]) == |e| && (|e| == 1 ==> e[0] < 0x80) && AllContinue(e, |e|)
      && Code(e, |e|) == n && Smallest(|e|) <= n
  {
    SixBits(n);
    SixBits(n / 0x40);
    SixBits(n / 0x1000);
    assert n / 0x40 / 0x40 == n / 0x1000 && n / 0x1000 / 0x40 == n / 0x4_0000;
  }

  lemma SixBits(n: nat)
    ensures n == n / 0x40 * 0x40 + n % 0x40 && n % 0x40 < 0x40
  {
  }

  lemma DecodeEncodedChar(c: char, rest: seq<byte>)
    ensures DecodeChar(EncodeChar(c) + rest) == Some((c, |EncodeChar(c)|))
  {
    var e := EncodeChar(c);
    var s := e + rest;
    EncodedShape(c as int);
    assert s[0] == e[0] && (|e| > 1 ==> s[1] == e[1]) && (|e| > 2 ==> s[2] == e[2]) && (|e| > 3 ==> s[3] == e[3]);
    assert Code(s, |e|) == Code(e, |e|);
  }

  lemma DecodeStep(s: seq<byte>, c: char, n: nat)
    requires DecodeChar(s) == Some((c, n)) && Decode(s[n..]).Some?
    ensures Decode(s) == Some([c] + Decode(s[n..]).value)
  {
    hide DecodeChar;
  }

  lemma {:induction false} DecodeEncodedPrefix(s: string, rest: seq<byte>)
    requires Decode(rest).Some?
    ensures Decode(Encode(s) + rest) == Some(s + Decode(rest).value)
  {
    hide EncodeChar, DecodeChar, Decode;
    if s == [] {
      assert Encode(s) + rest == rest;
      assert s + Decode(rest).value == Decode(rest).value;
    } else {
      var e, tail := EncodeChar(s[0]), Encode(s[1..]) + rest;
      assert Encode(s) + rest == e + tail;
      DecodeEncodedChar(s[0], tail);
      DecodeEncodedPrefix(s[1..], rest);
      assert (e + tail)[|e|..] == tail;
      DecodeStep(e + tail, s[0], |e|);
      assert [s[0]] + (s[1..] + Decode(rest).value) == s + Decode(rest).value;
    }
  }

  /** Encoding then decoding gives the string back. */
  lemma DecodeEncode(s: string)
    ensures Decode(Encode(s)) == Some(s)
  {
    hide EncodeChar, DecodeChar, Encode;
    DecodeEncodedPrefix(s, []);
    assert Encode(s) + [] == Encode(s) && s + [] == s;
  }

  lemma EncodeTwo(a: int, b: int)
    requires 2 <= a < 0x20 && 0 <= b < 0x40
    ensures EncodeCode(a * 0x40 + b) == [(0xC0 + a) as byte, (0x80 + b) as byte]
  {
  }

  lemma EncodeThree(a: int, b: int, c: int)
    requires 0 <= a < 0x10 && 0 <= b < 0x40 && 0 <= c < 0x40 && a * 0x1000 + b * 0x40 + c >= 0x800
    ensures EncodeCode(a * 0x1000 + b * 0x40 + c) == [(0xE0 + a) as byte, (0x80 + b) as byte, (0x80 + c) as byte]
  {
    var n := a * 0x1000 + b * 0x40 + c;
    assert n / 0x40 == a * 0x40 + b && n % 0x40 == c && n / 0x1000 == a;
  }

  lemma EncodeFour(a: int, b: int, c: int, d: int)
    requires 0 <= a < 8 && 0 <= b < 0x40 && 0 <= c < 0x40 && 0 <= d < 0x40
    requires a * 0x4_0000 + b * 0x1000 + c * 0x40 + d >= 0x1_0000
    ensures EncodeCode(a * 0x4_0000 + b * 0x1000 + c * 0x40 + d)
         == [(0xF0 + a) as byte, (0x80 + b) as byte, (0x80 + c) as byte, (0x80 + d) as byte]
  {
    var n := a * 0x4_0000 + b * 0x1000 + c * 0x40 + d;
    assert n % 0x40 == d && n / 0x40 == a * 0x1000 + b * 0x40 + c;
    assert n / 0x40 % 0x40 == c && n / 0x1000 == a * 0x40 + b && n / 0x4_0000 == a;
  }

  lemma EncodeDecodedCode(s: seq<byte>, n: nat)
    requires s != [] && n == LeadLength(s[0]) && n <= |s| && (n == 1 ==> s[0] < 0x80) && AllContinue(s, n)
    requires Smallest(n) <= Code(s, n)
    ensures 0 <= Code(s, n) < 0x20_0000 && EncodeCode(Code(s, n)) == s[..n]
  {
    hide EncodeCode;
    var a := s[0] as int;
    if n == 1 {
      EncodeOne(a);
      assert s[..1] == [s[0]];
    } else if n == 2 {
      EncodeTwo(a - 0xC0, s[1] as int - 0x80);
      assert s[..2] == [s[0], s[1]];
    } else if n == 3 {
      EncodeThree(a - 0xE0, s[1] as int - 0x80, s[2] as int - 0x80);
      assert s[..3] == [s[0], s[1], s[2]];
    } else {
      EncodeFour(a - 0xF0, s[1] as int - 0x80, s[2] as int - 0x80, s[3] as int - 0x80);
      assert s[..4] == [s[0], s[1], s[2], s[3]];
    }
  }

  lemma EncodeOne(a: int)
    requires 0 <= a < 0x80
    ensures EncodeCode(a) == [a as byte]
  {
  }

  lemma EncodeDecodedChar(s: seq<byte>)
    requires DecodeChar(s).Some?
    ensures EncodeChar(DecodeChar(s).value.0) == s[..DecodeChar(s).value.1]
  {
    hide EncodeCode, Code, AllContinue;
    EncodeDecodedCode(s, LeadLength(s[0]));
  }

  /** Bytes that decode are exactly the encoding of what they decode to. */
  lemma {:induction false} EncodeDecode(s: seq<byte>)
    requires Decode(s).Some?
    ensures Encode(Decode(s).value) == s
  {
    hide EncodeChar, DecodeChar;
    if s != [] {
      var (c, n) := DecodeChar(s).value;
      EncodeDecodedChar(s);
      EncodeDecode(s[n..]);
      assert ([c] + Decode(s[n..]).value)[1..] == Decode(s[n..]).value;
      assert s[..n] + s[n..] == s;
    }
  }

  lemma {:induction false} EncodeConcat(s: string, t: string)
    ensures Encode(s + t) == Encode(s) + Encode(t)
  {
    hide EncodeChar;
    if s == [] {
      assert s + t == t;
    } else {
      assert (s + t)[1..] == s[1..] + t;
      EncodeConcat(s[1..], t);
    }
  }

  /** Seven-bit bytes are their own characters. */
  lemma {:induction false} AsciiDecodes(s: seq<byte>)
    requires forall i :: 0 <= i < |s| ==> s[i] < 0x80
    ensures Decode(s).Some?
  {
    if s != [] {
      AsciiDecodes(s[1..]);
    }
  }
}
