/**
 JSON as it is written: trees of literals, arrays and objects, their tokens, and texts that
 space the tokens out. The reader takes every spacing of every tree for that tree's meaning.
 */
module JsonText {
  import opened Bits
  import opened Json
  import Utf8

  /** A text literal is kept as it is spelt, between its quotes. */
  datatype Tree =
    | Text(body: string)
    | Bare(word: string)
    | List(items: seq<Tree>)
    | Record(members: seq<Member>)

  datatype Member = Member(key: string, value: Tree)

  // ---- string literals

  predicate IsHex(c: char) {
    '0' <= c <= '9' || 'a' <= c <= 'f' || 'A' <= c <= 'F'
  }

  function HexValue(c: char): nat
    requires IsHex(c)
  {
    if c <= '9' then c as int - '0' as int
    else if c <= 'F' then c as int - 'A' as int + 10
    else c as int - 'a' as int + 10
  }

  predicate IsEscapable(c: char) {
    c in "\"\\/bfnrt"
  }

  function Escaped(c: char): char
    requires IsEscapable(c)
  {
    if c == 'b' then '\U{0008}'
    else if c == 'f' then '\U{000C}'
    else if c == 'n' then '\n'
    else if c == 'r' then '\r'
    else if c == 't' then '\t'
    else c
  }

  /** Characters other than quote and backslash, and well-formed escapes. */
  predicate IsBody(s: string)
    decreases |s|
  {
    if s == [] then true
    else if s[0] != '\\' then s[0] != '"' && IsBody(s[1..])
    else if |s| < 2 then false
    else if s[1] == 'u' then |s| >= 6 && IsHex(s[2]) && IsHex(s[3]) && IsHex(s[4]) && IsHex(s[5]) && IsBody(s[6..])
    else IsEscapable(s[1]) && IsBody(s[2..])
  }

  function CodeOf(a: char, b: char, c: char, d: char): nat
    requires IsHex(a) && IsHex(b) && IsHex(c) && IsHex(d)
  {
    0x1000 * HexValue(a) + 0x100 * HexValue(b) + 0x10 * HexValue(c) + HexValue(d)
  }

  /** The string a literal denotes. */
  function Unescape(s: string): string
    requires IsBody(s)
    decreases |s|
  {
    if s == [] then []
    else if s[0] != '\\' then [s[0]] + Unescape(s[1..])
    else if s[1] == 'u' then [CharOf(CodeOf(s[2], s[3], s[4], s[5]))] + Unescape(s[6..])
    else [Escaped(s[1])] + Unescape(s[2..])
  }

  /** A plain text spells itself. */
  lemma {:induction false} PlainBody(s: string)
    requires '"' !in s && '\\' !in s
    ensures IsBody(s) && Unescape(s) == s
  {
    if s != [] {
      PlainBody(s[1..]);
      assert s == [s[0]] + s[1..];
    }
  }

  function AsciiByte(c: char): byte
    requires c as int < 128
  {
    c as int
  }

  lemma EncodeAscii(c: char, rest: string)
    requires c as int < 128
    ensures Utf8.Encode([c] + rest) == [AsciiByte(c)] + Utf8.Encode(rest)
    ensures Utf8.EncodeChar(c) == [AsciiByte(c)]
  {
    assert ([c] + rest)[1..] == rest;
  }

  lemma EncodeNothing()
    ensures Utf8.Encode("") == []
  {
  }

  lemma EncodeFirst(c: char, rest: string)
    ensures Utf8.Encode([c] + rest) == Utf8.EncodeChar(c) + Utf8.Encode(rest)
  {
    assert ([c] + rest)[1..] == rest;
  }

  /** A character copied whole is one piece. */
  lemma PieceOfChar(c: char, rest: seq<byte>)
    requires c != '"' && c != '\\'
    ensures
      var b := Utf8.EncodeChar(c) + rest;
      b[0] != QUOTE && Piece(b) == Got([c], rest)
  {
    hide Utf8.EncodeChar, Utf8.Decode, Utf8.DecodeChar;
    var e := Utf8.EncodeChar(c);
    var b := e + rest;
    Utf8.EncodedShape(c as int);
    LeadOf(c, rest);
    assert Chunk(b) == e;
    Utf8.DecodeEncode([c]);
    EncodeFirst(c, "");
    assert [c] + "" == [c];
    EncodeNothing();
    assert e + [] == e;
    assert b[|e|..] == rest;
  }

  lemma LeadOf(c: char, rest: seq<byte>)
    ensures
      var e := Utf8.EncodeChar(c);
      && Utf8.LeadLength((e + rest)[0]) == |e|
      && ((e + rest)[0] == QUOTE ==> c == '"') && ((e + rest)[0] == BACKSLASH ==> c == '\\')
  {
    hide Utf8.LeadLength;
    Utf8.EncodedShape(c as int);
    if c as int < 128 {
      EncodeAscii(c, "");
    }
  }

  lemma HexDigitOf(c: char)
    requires IsHex(c)
    ensures HexDigit(AsciiByte(c)) == Outcomes.Some(HexValue(c))
    ensures AsciiByte(c) != 0x2B
  {
  }

  lemma Hex4Of(a: char, b: char, c: char, d: char)
    requires IsHex(a) && IsHex(b) && IsHex(c) && IsHex(d)
    ensures Hex4([AsciiByte(a), AsciiByte(b), AsciiByte(c), AsciiByte(d)]) == Outcomes.Some(CodeOf(a, b, c, d))
  {
    hide HexDigit, HexValue;
    HexDigitOf(a);
    HexDigitOf(b);
    HexDigitOf(c);
    HexDigitOf(d);
    HexStep(AsciiByte(a), [AsciiByte(b), AsciiByte(c), AsciiByte(d)], 0);
    HexStep(AsciiByte(b), [AsciiByte(c), AsciiByte(d)], HexValue(a));
    HexStep(AsciiByte(c), [AsciiByte(d)], 16 * HexValue(a) + HexValue(b));
    HexStep(AsciiByte(d), [], 16 * (16 * HexValue(a) + HexValue(b)) + HexValue(c));
  }

  lemma HexStep(c: byte, rest: seq<byte>, acc: nat)
    requires HexDigit(c).Some?
    ensures HexNumber([c] + rest, acc) == HexNumber(rest, 16 * acc + HexDigit(c).value)
    ensures HexNumber([], acc) == Outcomes.Some(acc)
  {
    hide HexDigit;
    assert ([c] + rest)[1..] == rest;
  }

  lemma PieceSimple(c: byte, tail: seq<byte>)
    requires SimpleEscape(c).Some? && c != LETTER_U
    ensures Piece([BACKSLASH, c] + tail) == Got([SimpleEscape(c).value], tail)
  {
    hide SimpleEscape;
    var b := [BACKSLASH, c] + tail;
    assert b[1..] == [c] + tail && ([c] + tail)[1..] == tail;
  }

  lemma PieceUnicode(h: seq<byte>, tail: seq<byte>)
    requires |h| == 4 && Hex4(h).Some?
    ensures Piece([BACKSLASH, LETTER_U] + h + tail) == Got([CharOf(Hex4(h).value)], tail)
  {
    hide Hex4, CharOf;
    var b := [BACKSLASH, LETTER_U] + h + tail;
    var e := [LETTER_U] + h + tail;
    assert b[1..] == e && e[1..5] == h && e[5..] == tail;
  }

  lemma EncodeHex(a: char, b: char, c: char, d: char, t: string)
    requires IsHex(a) && IsHex(b) && IsHex(c) && IsHex(d)
    ensures Utf8.Encode([a, b, c, d] + t) == [AsciiByte(a), AsciiByte(b), AsciiByte(c), AsciiByte(d)] + Utf8.Encode(t)
  {
    hide Utf8.Encode;
    assert [a, b, c, d] + t == [a] + ([b] + ([c] + ([d] + t)));
    EncodeAscii(a, [b] + ([c] + ([d] + t)));
    EncodeAscii(b, [c] + ([d] + t));
    EncodeAscii(c, [d] + t);
    EncodeAscii(d, t);
  }

  lemma EncodeEscape(c: char, t: string)
    requires c as int < 128
    ensures Utf8.Encode(['\\', c] + t) == [BACKSLASH, AsciiByte(c)] + Utf8.Encode(t)
  {
    hide Utf8.Encode;
    assert ['\\', c] + t == ['\\'] + ([c] + t);
    EncodeAscii('\\', [c] + t);
    EncodeAscii(c, t);
  }

  /** How long the escape at the front is. */
  function EscapeLength(s: string): nat
    requires |s| >= 2
  {
    if s[1] == 'u' then 6 else 2
  }

  /** The character the escape at the front denotes. */
  function EscapeChar(s: string): char
    requires IsBody(s) && s != [] && s[0] == '\\'
  {
    if s[1] == 'u' then CharOf(CodeOf(s[2], s[3], s[4], s[5])) else Escaped(s[1])
  }

  /** An escape is one piece. */
  lemma PieceOfEscape(s: string, rest: seq<byte>)
    requires IsBody(s) && s != [] && s[0] == '\\'
    ensures
      var b := Utf8.Encode(s) + rest;
      b != [] && b[0] == BACKSLASH && Piece(b) == Got([EscapeChar(s)], Utf8.Encode(s[EscapeLength(s)..]) + rest)
  {
    hide Utf8.Encode, Hex4, CodeOf, HexValue, Piece, SimpleEscape, Escaped;
    var tail := Utf8.Encode(s[EscapeLength(s)..]) + rest;
    if s[1] == 'u' {
      var h := [AsciiByte(s[2]), AsciiByte(s[3]), AsciiByte(s[4]), AsciiByte(s[5])];
      var t := [s[2], s[3], s[4], s[5]] + s[6..];
      assert s == ['\\', 'u'] + t;
      EncodeEscape('u', t);
      EncodeHex(s[2], s[3], s[4], s[5], s[6..]);
      assert Utf8.Encode(s) + rest == [BACKSLASH, LETTER_U] + h + tail;
      Hex4Of(s[2], s[3], s[4], s[5]);
      PieceUnicode(h, tail);
    } else {
      assert s == ['\\', s[1]] + s[2..];
      SimpleEscapeOf(s[1]);
      EncodeEscape(s[1], s[2..]);
      assert Utf8.Encode(s) + rest == [BACKSLASH, AsciiByte(s[1])] + tail;
      PieceSimple(AsciiByte(s[1]), tail);
    }
  }

  lemma UnescapeSteps(s: string)
    requires IsBody(s) && s != [] && s[0] == '\\'
    ensures 2 <= EscapeLength(s) <= |s|
    ensures IsBody(s[EscapeLength(s)..]) && Unescape(s) == [EscapeChar(s)] + Unescape(s[EscapeLength(s)..])
  {
    hide CodeOf, Escaped, CharOf;
  }

  lemma SimpleEscapeOf(c: char)
    requires IsEscapable(c)
    ensures c as int < 128 && AsciiByte(c) != LETTER_U
    ensures SimpleEscape(AsciiByte(c)) == Outcomes.Some(Escaped(c))
  {
  }

  // ---- what a literal denotes, said without the reader

  /** The digit of that value, in either case. */
  predicate IsDigitOf(d: char, v: int) {
    0 <= v < 16 && (d == "0123456789abcdef"[v] || d == "0123456789ABCDEF"[v])
  }

  /** A backslash, a u and the four digits of the code, highest first. */
  predicate IsCodeEscape(piece: string, code: nat) {
    && |piece| == 6 && piece[0] == '\\' && piece[1] == 'u' && code < 0x10000
    && IsDigitOf(piece[2], code / 0x1000) && IsDigitOf(piece[3], code / 0x100 % 16)
    && IsDigitOf(piece[4], code / 0x10 % 16) && IsDigitOf(piece[5], code % 16)
  }

  /**
   The ways to spell a character in a literal: itself, unless it is a quote or a backslash; the short
   escape it has; its code. The codes that are no character's spell the replacement character.
   */
  ghost predicate SpellsChar(piece: string, c: char) {
    || (piece == [c] && c != '"' && c != '\\')
    || (piece == "\\\"" && c == '"') || (piece == "\\\\" && c == '\\') || (piece == "\\/" && c == '/')
    || (piece == "\\b" && c == '\U{0008}') || (piece == "\\f" && c == '\U{000C}') || (piece == "\\n" && c == '\U{000A}')
    || (piece == "\\r" && c == '\U{000D}') || (piece == "\\t" && c == '\U{0009}')
    || IsCodeEscape(piece, c as int)
    || (c == '\U{FFFD}' && exists code :: 0xD800 <= code <= 0xDFFF && IsCodeEscape(piece, code))
  }

  ghost predicate SpellsText(body: string, text: string)
    decreases |text|
  {
    if text == "" then body == ""
    else exists k :: 0 < k <= |body| && SpellsChar(body[..k], text[0]) && SpellsText(body[k..], text[1..])
  }

  lemma DigitValue(d: char, v: int)
    requires IsDigitOf(d, v)
    ensures IsHex(d) && HexValue(d) == v
  {
    var lower, upper := "0123456789abcdef", "0123456789ABCDEF";
    assert v < 10 ==> lower[v] == upper[v] && lower[v] as int == '0' as int + v;
    assert v >= 10 ==> lower[v] as int == 'a' as int + (v - 10) && upper[v] as int == 'A' as int + (v - 10);
  }

  lemma DigitOfValue(d: char)
    requires IsHex(d)
    ensures IsDigitOf(d, HexValue(d))
  {
    var v := HexValue(d);
    var lower, upper := "0123456789abcdef", "0123456789ABCDEF";
    assert v < 10 ==> lower[v] as int == '0' as int + v;
    assert v >= 10 ==> lower[v] as int == 'a' as int + (v - 10) && upper[v] as int == 'A' as int + (v - 10);
  }

  lemma CodeEscapeDigits(piece: string, code: nat)
    requires IsCodeEscape(piece, code)
    ensures IsHex(piece[2]) && IsHex(piece[3]) && IsHex(piece[4]) && IsHex(piece[5])
    ensures CodeOf(piece[2], piece[3], piece[4], piece[5]) == code
  {
    hide IsHex, HexValue, IsDigitOf;
    DigitValue(piece[2], code / 0x1000);
    DigitValue(piece[3], code / 0x100 % 16);
    DigitValue(piece[4], code / 0x10 % 16);
    DigitValue(piece[5], code % 16);
    PlacesSum(code);
  }

  lemma PlacesSum(code: nat)
    ensures code == 0x1000 * (code / 0x1000) + 0x100 * (code / 0x100 % 16) + 0x10 * (code / 0x10 % 16) + code % 16
  {
    var a := code / 0x10;
    var b := a / 0x10;
    assert code / 0x100 == b && code / 0x1000 == b / 0x10;
  }

  lemma DigitsCodeEscape(a: char, b: char, c: char, d: char)
    requires IsHex(a) && IsHex(b) && IsHex(c) && IsHex(d)
    ensures IsCodeEscape(['\\', 'u', a, b, c, d], CodeOf(a, b, c, d))
  {
    hide IsHex, HexValue, IsDigitOf;
    DigitOfValue(a);
    DigitOfValue(b);
    DigitOfValue(c);
    DigitOfValue(d);
    PlacesOf(HexValue(a), HexValue(b), HexValue(c), HexValue(d));
  }

  lemma PlacesOf(a: nat, b: nat, c: nat, d: nat)
    requires a < 16 && b < 16 && c < 16 && d < 16
    ensures
      var code := 0x1000 * a + 0x100 * b + 0x10 * c + d;
      code < 0x10000 && code / 0x1000 == a && code / 0x100 % 16 == b && code / 0x10 % 16 == c && code % 16 == d
  {
    var x := 0x10 * a + b;
    var y := 0x10 * x + c;
    var code := 0x10 * y + d;
    assert code / 0x10 == y && y / 0x10 == x && x / 0x10 == a;
    assert code / 0x100 == x && code / 0x1000 == a;
  }

  /** The code of a character below 0x10000 reads as that character, in digits of either case. */
  lemma CodeReads(piece: string, c: char, rest: string)
    requires IsCodeEscape(piece, c as int) && IsBody(rest)
    ensures IsBody(piece + rest) && Unescape(piece + rest) == [c] + Unescape(rest)
  {
    hide IsHex, CodeOf, IsCodeEscape;
    assert |piece| == 6 && piece[0] == '\\' && piece[1] == 'u' by { CodeEscapeShape(piece, c as int); }
    CodeEscapeDigits(piece, c as int);
    assert (piece + rest)[6..] == rest;
  }

  /** The code of a surrogate, which is no character, reads as the replacement character. */
  lemma SurrogateReads(piece: string, code: nat, rest: string)
    requires 0xD800 <= code <= 0xDFFF && IsCodeEscape(piece, code) && IsBody(rest)
    ensures IsBody(piece + rest) && Unescape(piece + rest) == ['\U{FFFD}'] + Unescape(rest)
  {
    hide IsHex, CodeOf, IsCodeEscape;
    CodeEscapeShape(piece, code);
    CodeEscapeDigits(piece, code);
    assert (piece + rest)[6..] == rest;
  }

  lemma CodeEscapeShape(piece: string, code: nat)
    requires IsCodeEscape(piece, code)
    ensures |piece| == 6 && piece[0] == '\\' && piece[1] == 'u' && code < 0x10000
  {
  }

  lemma SpelledReads(piece: string, c: char, rest: string)
    requires SpellsChar(piece, c) && IsBody(rest)
    ensures IsBody(piece + rest) && Unescape(piece + rest) == [c] + Unescape(rest)
  {
    hide IsHex, CodeOf, IsCodeEscape, IsDigitOf, CharOf;
    if IsCodeEscape(piece, c as int) {
      CodeReads(piece, c, rest);
    } else if code :| 0xD800 <= code <= 0xDFFF && IsCodeEscape(piece, code) {
      SurrogateReads(piece, code, rest);
    } else {
      assert (piece + rest)[|piece|..] == rest;
    }
  }

  /** Every body spells its first character by its first piece. */
  lemma FirstSpelled(body: string) returns (k: nat)
    requires IsBody(body) && body != ""
    ensures 0 < k <= |body| && IsBody(body[k..]) && Unescape(body) != "" && SpellsChar(body[..k], Unescape(body)[0])
    ensures Unescape(body)[1..] == Unescape(body[k..])
  {
    hide IsHex, CodeOf, IsDigitOf, IsCodeEscape, HexValue;
    if body[0] != '\\' {
      k := 1;
    } else if body[1] == 'u' {
      k := 6;
      DigitsCodeEscape(body[2], body[3], body[4], body[5]);
      assert body[..6] == ['\\', 'u', body[2], body[3], body[4], body[5]];
      var code := CodeOf(body[2], body[3], body[4], body[5]);
      CodeEscapeShape(body[..6], code);
    } else {
      k := 2;
    }
  }

  /** What the body of a literal denotes: exactly the text it spells. */
  lemma {:induction false} UnescapeIsSpelled(body: string, text: string)
    ensures SpellsText(body, text) <==> IsBody(body) && Unescape(body) == text
    decreases |body| + |text|
  {
    hide SpellsChar, IsHex, CodeOf, CharOf, Escaped;
    if SpellsText(body, text) {
      if text != "" {
        var k :| 0 < k <= |body| && SpellsChar(body[..k], text[0]) && SpellsText(body[k..], text[1..]);
        UnescapeIsSpelled(body[k..], text[1..]);
        SpelledReads(body[..k], text[0], body[k..]);
        assert body == body[..k] + body[k..] && text == [text[0]] + text[1..];
      }
    }
    if IsBody(body) && Unescape(body) == text && body != "" {
      var k := FirstSpelled(body);
      UnescapeIsSpelled(body[k..], text[1..]);
    }
  }

  /** A literal is read as the text it spells, whatever spelling it takes. */
  lemma SpelledIsRead(body: string, text: string, rest: seq<byte>)
    requires SpellsText(body, text)
    ensures StringBody(Utf8.Encode(body) + [QUOTE] + rest) == Got(text, rest)
  {
    hide StringBody, Utf8.Encode, SpellsText;
    UnescapeIsSpelled(body, text);
    ReadBody(body, rest);
  }

  /** A literal's bytes, up to its closing quote, read as the string it denotes. */
  lemma {:induction false} ReadBody(s: string, rest: seq<byte>)
    requires IsBody(s)
    ensures StringBody(Utf8.Encode(s) + [QUOTE] + rest) == Got(Unescape(s), rest)
    decreases |s|
  {
    hide Piece, Utf8.EncodeChar, Utf8.Encode, EscapeChar, EscapeLength;
    var b := Utf8.Encode(s) + [QUOTE] + rest;
    if s == [] {
      EncodeNothing();
      assert b == [QUOTE] + rest;
    } else if s[0] == '\\' {
      var n := EscapeLength(s);
      UnescapeSteps(s);
      PieceOfEscape(s, [QUOTE] + rest);
      assert b == Utf8.Encode(s) + ([QUOTE] + rest);
      var b' := Utf8.Encode(s[n..]) + [QUOTE] + rest;
      assert b' == Utf8.Encode(s[n..]) + ([QUOTE] + rest);
      ReadBody(s[n..], rest);
    } else {
      assert s == [s[0]] + s[1..];
      EncodeFirst(s[0], s[1..]);
      var b' := Utf8.Encode(s[1..]) + [QUOTE] + rest;
      assert b == Utf8.EncodeChar(s[0]) + b';
      PieceOfChar(s[0], b');
      ReadBody(s[1..], rest);
    }
  }

  // ---- tokens and spacing

  function Quoted(body: string): string {
    "\"" + body + "\""
  }

  function Tokens(t: Tree): seq<string> {
    match t
    case Text(body) => [Quoted(body)]
    case Bare(word) => [word]
    case List(items) => ["["] + ItemTokens(items) + ["]"]
    case Record(members) => ["{"] + MemberTokens(members) + ["}"]
  }

  function ItemTokens(items: seq<Tree>): seq<string> {
    if items == [] then []
    else if |items| == 1 then Tokens(items[0])
    else Tokens(items[0]) + [","] + ItemTokens(items[1..])
  }

  function MemberTokens(members: seq<Member>): seq<string> {
    if members == [] then []
    else
      var first := [Quoted(members[0].key), ":"] + Tokens(members[0].value);
      if |members| == 1 then first else first + [","] + MemberTokens(members[1..])
  }

  /** What the reader takes for a number: it looks no closer than at the first character and at which follow. */
  predicate IsNumber(s: string) {
    s != "" && (s[0] == '-' || '0' <= s[0] <= '9') && InNumber(s)
  }

  predicate InNumber(s: string) {
    forall i :: 0 <= i < |s| ==> s[i] in "0123456789+-.eE"
  }

  predicate WellFormed(t: Tree) {
    match t
    case Text(body) => IsBody(body)
    case Bare(word) => word == "true" || word == "false" || word == "null" || IsNumber(word)
    case List(items) => forall i :: 0 <= i < |items| ==> WellFormed(items[i])
    case Record(members) => forall i :: 0 <= i < |members| ==> IsBody(members[i].key) && WellFormed(members[i].value)
  }

  /** The value a tree denotes. */
  function Meaning(t: Tree): Value
    requires WellFormed(t)
  {
    match t
    case Text(body) => Str(Unescape(body))
    case Bare(word) => if word == "null" then Null else if word == "true" || word == "false" then Bool else Num
    case List(items) => Array(seq(|items|, i requires 0 <= i < |items| => Meaning(items[i])))
    case Record(members) =>
      Object(seq(|members|, i requires 0 <= i < |members| => (Unescape(members[i].key), Meaning(members[i].value))))
  }

  predicate IsSpace(c: char) {
    c == ' ' || c == '\t' || c == '\n' || c == '\r'
  }

  predicate AllSpace(s: string) {
    forall i :: 0 <= i < |s| ==> IsSpace(s[i])
  }

  /** The text is these tokens, with white space anywhere around them. */
  ghost predicate Spaced(s: string, tokens: seq<string>)
    decreases |tokens|
  {
    if tokens == [] then AllSpace(s)
    else exists w, r :: AllSpace(w) && Spaced(r, tokens[1..]) && s == w + tokens[0] + r
  }

  lemma {:induction false} SkipSpace(w: string, s: string)
    requires AllSpace(w)
    ensures SkipWs(Utf8.Encode(w + s)) == SkipWs(Utf8.Encode(s))
  {
    hide Utf8.Encode;
    if w == [] {
      assert w + s == s;
    } else {
      SkipSpace(w[1..], s);
      assert w + s == [w[0]] + (w[1..] + s);
      EncodeAscii(w[0], w[1..] + s);
      assert Utf8.Encode(w + s)[1..] == Utf8.Encode(w[1..] + s);
    }
  }

  /** Skipping to a token and past it. */
  lemma TakeToken(s: string, token: string, tokens: seq<string>) returns (r: string)
    requires Spaced(s, [token] + tokens)
    requires token != "" && token[0] as int < 128 && !IsSpace(token[0])
    ensures Spaced(r, tokens)
    ensures SkipWs(Utf8.Encode(s)) == Utf8.Encode(token) + Utf8.Encode(r)
  {
    hide Utf8.Encode;
    assert ([token] + tokens)[1..] == tokens;
    var w, r' :| AllSpace(w) && Spaced(r', tokens) && s == w + token + r';
    r := r';
    assert s == w + (token + r);
    SkipSpace(w, token + r);
    assert token + r == [token[0]] + (token[1..] + r);
    EncodeAscii(token[0], token[1..] + r);
    Utf8.EncodeConcat(token, r);
  }

  lemma OneByteToken(c: char)
    requires c as int < 128
    ensures Utf8.Encode([c]) == [AsciiByte(c)]
  {
    EncodeNothing();
  }

  lemma {:induction false} SkipTwice(b: seq<byte>)
    ensures SkipWs(SkipWs(b)) == SkipWs(b)
  {
    if b != [] && IsWhite(b[0]) {
      SkipTwice(b[1..]);
    }
  }

  /** A literal token reads as a string. */
  lemma TakeLiteral(s: string, body: string, tokens: seq<string>) returns (r: string)
    requires Spaced(s, [Quoted(body)] + tokens) && IsBody(body)
    ensures Spaced(r, tokens)
    ensures
      var b := SkipWs(Utf8.Encode(s));
      b != [] && b[0] == QUOTE && StringBody(b[1..]) == Got(Unescape(body), Utf8.Encode(r))
  {
    hide Utf8.Encode, StringBody, SkipWs;
    r := TakeToken(s, Quoted(body), tokens);
    QuotedBytes(body);
    ReadBody(body, Utf8.Encode(r));
    assert ([QUOTE] + Utf8.Encode(body) + [QUOTE] + Utf8.Encode(r))[1..] == Utf8.Encode(body) + [QUOTE] + Utf8.Encode(r);
  }

  lemma QuotedBytes(body: string)
    ensures Utf8.Encode(Quoted(body)) == [QUOTE] + Utf8.Encode(body) + [QUOTE]
  {
    hide Utf8.Encode;
    assert Quoted(body) == ['"'] + (body + ['"']);
    EncodeAscii('"', body + ['"']);
    Utf8.EncodeConcat(body, ['"']);
    OneByteToken('"');
  }

  /** A punctuation token is its byte. */
  lemma TakeMark(s: string, c: char, tokens: seq<string>) returns (r: string)
    requires Spaced(s, [[c]] + tokens) && c as int < 128 && !IsSpace(c)
    ensures Spaced(r, tokens)
    ensures SkipWs(Utf8.Encode(s)) == [AsciiByte(c)] + Utf8.Encode(r)
    ensures SkipWs(Utf8.Encode(s))[1..] == Utf8.Encode(r)
  {
    hide Utf8.Encode;
    r := TakeToken(s, [c], tokens);
    OneByteToken(c);
  }

  /** A value is at the end of the text, or a comma or a closing bracket or brace follows it. */
  predicate CanFollow(tokens: seq<string>) {
    tokens == [] || tokens[0] == "," || tokens[0] == "]" || tokens[0] == "}"
  }

  /** A number is read up to where it ends. */
  lemma {:induction false} NumberRead(word: string, rest: seq<byte>)
    requires InNumber(word) && (rest == [] || !IsNumberByte(rest[0]))
    ensures SkipNumber(Utf8.Encode(word) + rest) == rest
  {
    hide Utf8.Encode;
    if word == "" {
      EncodeNothing();
      assert [] + rest == rest;
    } else {
      assert word == [word[0]] + word[1..];
      NumberByte(word[0]);
      EncodeAscii(word[0], word[1..]);
      NumberRead(word[1..], rest);
      assert (Utf8.Encode(word) + rest)[1..] == Utf8.Encode(word[1..]) + rest;
    }
  }

  lemma NumberByte(c: char)
    requires c in "0123456789+-.eE"
    ensures c as int < 128 && IsNumberByte(AsciiByte(c))
  {
  }

  /** What may follow a value is no part of a number. */
  lemma NumberEnds(r: string, tokens: seq<string>)
    requires Spaced(r, tokens) && CanFollow(tokens)
    ensures Utf8.Encode(r) == [] || !IsNumberByte(Utf8.Encode(r)[0])
  {
    hide Utf8.Encode;
    if r == "" {
      EncodeNothing();
    } else {
      if tokens != [] {
        var w, r' :| AllSpace(w) && Spaced(r', tokens[1..]) && r == w + tokens[0] + r';
        assert w == "" ==> r[0] == tokens[0][0];
        assert w != "" ==> r[0] == w[0];
      }
      assert r == [r[0]] + r[1..];
      EncodeAscii(r[0], r[1..]);
    }
  }

  lemma WordBytes()
    ensures Utf8.Encode("true") == TRUE_WORD && Utf8.Encode("false") == FALSE_WORD && Utf8.Encode("null") == NULL_WORD
  {
    AsciiBytes("true");
    AsciiBytes("false");
    AsciiBytes("null");
    hide Utf8.Encode;
  }

  lemma {:induction false} AsciiBytes(s: string)
    requires forall i :: 0 <= i < |s| ==> s[i] as int < 128
    ensures |Utf8.Encode(s)| == |s| && forall i :: 0 <= i < |s| ==> Utf8.Encode(s)[i] == AsciiByte(s[i])
  {
    if s != "" {
      assert s == [s[0]] + s[1..];
      EncodeAscii(s[0], s[1..]);
      AsciiBytes(s[1..]);
    }
  }

  /** A word or a number reads as one. */
  lemma TakeBare(s: string, word: string, tokens: seq<string>) returns (r: string)
    requires Spaced(s, [word] + tokens) && WellFormed(Bare(word)) && CanFollow(tokens)
    ensures Spaced(r, tokens)
    ensures ValueOf(SkipWs(Utf8.Encode(s))) == Got(Meaning(Bare(word)), Utf8.Encode(r))
  {
    hide Utf8.Encode, Spaced, SkipWs, SkipNumber, ObjectOf, ArrayOf, StringBody, InNumber;
    assert word != "" && word[0] as int < 128 && !IsSpace(word[0]);
    r := TakeToken(s, word, tokens);
    var b := Utf8.Encode(word) + Utf8.Encode(r);
    if IsNumber(word) {
      NumberEnds(r, tokens);
      NumberRead(word, Utf8.Encode(r));
      assert word == [word[0]] + word[1..];
      EncodeAscii(word[0], word[1..]);
      assert b[0] == AsciiByte(word[0]);
    } else {
      WordBytes();
      var n := |Utf8.Encode(word)|;
      assert b[..n] == Utf8.Encode(word) && b[n..] == Utf8.Encode(r);
    }
  }

  /** The reader takes any spacing of a tree's tokens for the tree's meaning, and stops right behind it. */
  lemma {:induction false} ReadTree(t: Tree, tokens: seq<string>, s: string) returns (r: string)
    requires WellFormed(t) && CanFollow(tokens) && Spaced(s, Tokens(t) + tokens)
    ensures Spaced(r, tokens)
    ensures ValueOf(SkipWs(Utf8.Encode(s))) == Got(Meaning(t), Utf8.Encode(r))
    decreases t
  {
    hide SkipWs, Utf8.Encode, StringBody, Spaced, Items, Entries, ItemTokens, MemberTokens, Unescape;
    match t {
      case Text(body) =>
        r := TakeLiteral(s, body, tokens);
      case Bare(word) =>
        r := TakeBare(s, word, tokens);
      case List(items) =>
        assert Tokens(t) + tokens == [['[']] + (ItemTokens(items) + ["]"] + tokens);
        var r0 := TakeMark(s, '[', ItemTokens(items) + ["]"] + tokens);
        r := ReadList(items, tokens, r0);
      case Record(members) =>
        assert Tokens(t) + tokens == [['{']] + (MemberTokens(members) + ["}"] + tokens);
        var r0 := TakeMark(s, '{', MemberTokens(members) + ["}"] + tokens);
        r := ReadRecord(members, tokens, r0);
    }
  }

  lemma {:induction false} ReadList(items: seq<Tree>, tokens: seq<string>, s: string) returns (r: string)
    requires forall i :: 0 <= i < |items| ==> WellFormed(items[i])
    requires Spaced(s, ItemTokens(items) + ["]"] + tokens)
    ensures Spaced(r, tokens)
    ensures ArrayOf([OPEN_BRACKET] + Utf8.Encode(s)) == Got(Meaning(List(items)), Utf8.Encode(r))
    decreases items, 1
  {
    hide SkipWs, Utf8.Encode, Spaced, Items;
    var b := [OPEN_BRACKET] + Utf8.Encode(s);
    assert b[1..] == Utf8.Encode(s);
    if items == [] {
      assert ItemTokens(items) + ["]"] + tokens == [[']']] + tokens;
      r := TakeMark(s, ']', tokens);
      assert Meaning(List(items)) == Array([]);
    } else {
      r := ReadItems(items, tokens, s);
      ItemsAfterSpace(Utf8.Encode(s));
      NotClosed(Utf8.Encode(s));
    }
  }

  lemma {:induction false} ReadItems(items: seq<Tree>, tokens: seq<string>, s: string) returns (r: string)
    requires items != [] && forall i :: 0 <= i < |items| ==> WellFormed(items[i])
    requires Spaced(s, ItemTokens(items) + ["]"] + tokens)
    ensures Spaced(r, tokens)
    ensures Items(Utf8.Encode(s)) == Got(Meaning(List(items)).items, Utf8.Encode(r))
    decreases items, 0
  {
    hide SkipWs, Utf8.Encode, Spaced, ValueOf, Tokens;
    var first, rest := items[0], items[1..];
    if rest == [] {
      assert ItemTokens(items) + ["]"] + tokens == Tokens(first) + ([[']']] + tokens);
      var r0 := ReadTree(first, [[']']] + tokens, s);
      r := TakeMark(r0, ']', tokens);
      assert Meaning(List(items)).items == [Meaning(first)];
    } else {
      var after := ItemTokens(rest) + ["]"] + tokens;
      assert ItemTokens(items) + ["]"] + tokens == Tokens(first) + ([[',']] + after);
      var r0 := ReadTree(first, [[',']] + after, s);
      var r1 := TakeMark(r0, ',', after);
      r := ReadItems(rest, tokens, r1);
      assert Meaning(List(items)).items == [Meaning(first)] + Meaning(List(rest)).items;
    }
  }

  lemma ItemsAfterSpace(b: seq<byte>)
    ensures Items(SkipWs(b)) == Items(b)
    ensures Entries(SkipWs(b)) == Entries(b)
  {
    hide ValueOf, Entry, SkipWs;
    SkipTwice(b);
  }

  lemma NotClosed(b: seq<byte>)
    ensures Items(b).Got? ==> !Starts(SkipWs(b), CLOSE_BRACKET)
    ensures Entries(b).Got? ==> !Starts(SkipWs(b), CLOSE_BRACE)
  {
    hide SkipWs;
    var w := SkipWs(b);
    if Starts(w, CLOSE_BRACKET) {
      assert ValueOf(w) == Bad(ExpectedValue);
    }
    if Starts(w, CLOSE_BRACE) {
      assert Entry(w) == Bad(ExpectedKey);
    }
  }

  lemma {:induction false} ReadRecord(members: seq<Member>, tokens: seq<string>, s: string) returns (r: string)
    requires forall i :: 0 <= i < |members| ==> IsBody(members[i].key) && WellFormed(members[i].value)
    requires Spaced(s, MemberTokens(members) + ["}"] + tokens)
    ensures Spaced(r, tokens)
    ensures ObjectOf([OPEN_BRACE] + Utf8.Encode(s)) == Got(Meaning(Record(members)), Utf8.Encode(r))
    decreases members, 1
  {
    hide SkipWs, Utf8.Encode, Spaced, Entries;
    var b := [OPEN_BRACE] + Utf8.Encode(s);
    assert b[1..] == Utf8.Encode(s);
    if members == [] {
      assert MemberTokens(members) + ["}"] + tokens == [['}']] + tokens;
      r := TakeMark(s, '}', tokens);
      assert Meaning(Record(members)) == Object([]);
    } else {
      r := ReadMembers(members, tokens, s);
      ItemsAfterSpace(Utf8.Encode(s));
      NotClosed(Utf8.Encode(s));
    }
  }

  lemma {:induction false} ReadMembers(members: seq<Member>, tokens: seq<string>, s: string) returns (r: string)
    requires members != [] && forall i :: 0 <= i < |members| ==> IsBody(members[i].key) && WellFormed(members[i].value)
    requires Spaced(s, MemberTokens(members) + ["}"] + tokens)
    ensures Spaced(r, tokens)
    ensures Entries(Utf8.Encode(s)) == Got(Meaning(Record(members)).entries, Utf8.Encode(r))
    decreases members, 0
  {
    hide SkipWs, Utf8.Encode, Spaced, Entry, Tokens, Unescape, IsBody, Quoted;
    var first, rest := members[0], members[1..];
    var entry := (Unescape(first.key), Meaning(first.value));
    if rest == [] {
      assert MemberTokens(members) + ["}"] + tokens
          == [Quoted(first.key)] + ([[':']] + (Tokens(first.value) + ([['}']] + tokens)));
      var r0 := ReadMember(first, [['}']] + tokens, s);
      r := TakeMark(r0, '}', tokens);
      assert Meaning(Record(members)).entries == [entry];
    } else {
      var after := MemberTokens(rest) + ["}"] + tokens;
      assert MemberTokens(members) + ["}"] + tokens
          == [Quoted(first.key)] + ([[':']] + (Tokens(first.value) + ([[',']] + after)));
      var r0 := ReadMember(first, [[',']] + after, s);
      var r1 := TakeMark(r0, ',', after);
      r := ReadMembers(rest, tokens, r1);
      assert Meaning(Record(members)).entries == [entry] + Meaning(Record(rest)).entries;
    }
  }

  lemma {:induction false} ReadMember(m: Member, tokens: seq<string>, s: string) returns (r: string)
    requires IsBody(m.key) && WellFormed(m.value) && CanFollow(tokens)
    requires Spaced(s, [Quoted(m.key)] + ([[':']] + (Tokens(m.value) + tokens)))
    ensures Spaced(r, tokens)
    ensures Entry(SkipWs(Utf8.Encode(s))) == Got((Unescape(m.key), Meaning(m.value)), Utf8.Encode(r))
    decreases m
  {
    hide SkipWs, Utf8.Encode, Spaced, ValueOf, StringBody, Unescape, Meaning, Tokens;
    var r0 := TakeLiteral(s, m.key, [[':']] + (Tokens(m.value) + tokens));
    var r1 := TakeMark(r0, ':', Tokens(m.value) + tokens);
    r := ReadTree(m.value, tokens, r1);
  }

  /** Parsing a text that spaces out a tree gives the tree's meaning, whatever follows it. */
  lemma ParsesSpaced(t: Tree, s: string)
    requires WellFormed(t) && Spaced(s, Tokens(t))
    ensures ParseText(Utf8.Encode(s)) == Outcomes.Ok(Meaning(t))
  {
    hide SkipWs, Utf8.Encode, Spaced, ValueOf, Meaning, Tokens;
    assert Tokens(t) + [] == Tokens(t);
    var r := ReadTree(t, [], s);
  }
}
