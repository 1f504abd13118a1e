/**
 What the planner's JSON reader accepts (crates/aura/src/llama.rs, `mod json`): a text it takes for a value
 begins with a spacing of that value's tokens. It is looser than JSON in numbers, of which it looks at no
 more than the characters, in characters it lets stand unescaped, and in one escape: the standard library's
 parser of a code takes a plus sign for its first digit.
 */
module JsonAccepted {
  import opened Bits
  import opened Json
  import opened JsonText
  import Utf8

  /** The piece spells the character, or would with a zero where the first digit of its code is a plus. */
  ghost predicate ReadsChar(piece: string, c: char) {
    SpellsChar(piece, c) || (|piece| == 6 && piece[2] == '+' && SpellsChar(piece[2 := '0'], c))
  }

  ghost predicate ReadsText(body: string, text: string)
    decreases |text|
  {
    if text == "" then body == ""
    else exists k :: 0 < k <= |body| && ReadsChar(body[..k], text[0]) && ReadsText(body[k..], text[1..])
  }

  /** The tree is written as the reader wants it, and the value is what it says. */
  ghost predicate Reads(t: Tree, v: Value) {
    match t
    case Text(body) => v.Str? && ReadsText(body, v.text)
    case Bare(word) =>
      (v == Bool && (word == "true" || word == "false")) || (v == Null && word == "null") || (v == Num && IsNumber(word))
    case List(items) =>
      v.Array? && |v.items| == |items| && forall i :: 0 <= i < |items| ==> Reads(items[i], v.items[i])
    case Record(members) =>
      && v.Object? && |v.entries| == |members|
      && forall i :: 0 <= i < |members| ==>
           ReadsText(members[i].key, v.entries[i].0) && Reads(members[i].value, v.entries[i].1)
  }

  // ---- strings

  lemma HexChar(h: byte)
    requires HexDigit(h).Some?
    ensures h < 128 && IsHex(h as char) && HexValue(h as char) == HexDigit(h).value
  {
  }

  lemma HexNumberIs(h: seq<byte>)
    requires |h| == 4 && HexNumber(h, 0).Some?
    ensures forall i :: 0 <= i < 4 ==> HexDigit(h[i]).Some?
    ensures HexNumber(h, 0).value ==
      0x1000 * HexDigit(h[0]).value + 0x100 * HexDigit(h[1]).value + 0x10 * HexDigit(h[2]).value + HexDigit(h[3]).value
  {
    hide HexDigit;
    HexNumberNext(h, 0);
    HexNumberNext(h[1..], HexDigit(h[0]).value);
    HexNumberNext(h[2..], 16 * HexDigit(h[0]).value + HexDigit(h[1]).value);
    HexNumberNext(h[3..], 16 * (16 * HexDigit(h[0]).value + HexDigit(h[1]).value) + HexDigit(h[2]).value);
    assert h[1..][1..] == h[2..] && h[2..][1..] == h[3..] && h[3..][1..] == [];
  }

  lemma HexNumberNext(b: seq<byte>, acc: nat)
    requires b != [] && HexNumber(b, acc).Some?
    ensures HexDigit(b[0]).Some? && HexNumber(b, acc) == HexNumber(b[1..], 16 * acc + HexDigit(b[0]).value)
    ensures |b| == 1 ==> HexNumber(b, acc).value == 16 * acc + HexDigit(b[0]).value
  {
    hide HexDigit;
  }

  /** A leading plus reads as a zero. */
  lemma PlusIsZero(h: seq<byte>)
    requires |h| == 4
    ensures h[0] == 0x2B ==> Hex4(h) == HexNumber(h[0 := 0x30], 0)
    ensures h[0] != 0x2B ==> Hex4(h) == HexNumber(h, 0)
  {
    if h[0] == 0x2B {
      assert h[0 := 0x30][1..] == h[1..];
      assert HexDigit(0x30) == Outcomes.Some(0);
    }
  }

  /** The four digits of an escape, as characters, are those of the code read. */
  lemma CodeAhead(h: seq<byte>)
    requires |h| == 4 && Hex4(h).Some?
    ensures h[0] < 128 && h[1] < 128 && h[2] < 128 && h[3] < 128
    ensures
      var piece := ['\\', 'u', h[0] as char, h[1] as char, h[2] as char, h[3] as char];
      IsCodeEscape(if h[0] == 0x2B then piece[2 := '0'] else piece, Hex4(h).value)
  {
    hide HexDigit, Hex4, HexNumber, IsCodeEscape, IsHex, HexValue;
    PlusIsZero(h);
    var g := if h[0] == 0x2B then h[0 := 0x30] else h;
    HexNumberIs(g);
    HexChar(g[0]);
    HexChar(g[1]);
    HexChar(g[2]);
    HexChar(g[3]);
    DigitsCodeEscape(g[0] as char, g[1] as char, g[2] as char, g[3] as char);
    var piece := ['\\', 'u', h[0] as char, h[1] as char, h[2] as char, h[3] as char];
    assert (if h[0] == 0x2B then piece[2 := '0'] else piece)
        == ['\\', 'u', g[0] as char, g[1] as char, g[2] as char, g[3] as char];
  }

  /** An escape stands ahead of what the reader leaves. */
  lemma EscapeAhead(b: seq<byte>) returns (piece: string)
    requires Escape(b).Got?
    ensures piece != "" && ReadsChar(piece, Escape(b).value)
    ensures [BACKSLASH] + b == Utf8.Encode(piece) + Escape(b).rest
  {
    hide Utf8.Encode, Hex4;
    if b[0] == LETTER_U {
      piece := CodeEscapeAhead(b);
    } else {
      hide ReadsChar;
      piece := ['\\', b[0] as char];
      AsciiBytes(piece);
      assert Utf8.Encode(piece) == [BACKSLASH, b[0]];
      assert [BACKSLASH] + b == [BACKSLASH, b[0]] + b[1..];
      LetterReads(b[0]);
    }
  }

  lemma LetterReads(c: byte)
    requires SimpleEscape(c).Some?
    ensures c < 128 && ReadsChar(['\\', c as char], SimpleEscape(c).value)
  {
    hide IsCodeEscape;
  }

  lemma CodeEscapeAhead(b: seq<byte>) returns (piece: string)
    requires b != [] && b[0] == LETTER_U && Escape(b).Got?
    ensures piece != "" && ReadsChar(piece, Escape(b).value)
    ensures [BACKSLASH] + b == Utf8.Encode(piece) + Escape(b).rest
  {
    hide Utf8.Encode, Hex4, IsCodeEscape, HexDigit, SimpleEscape;
    var h := b[1..5];
    CodeAhead(h);
    piece := ['\\', 'u', h[0] as char, h[1] as char, h[2] as char, h[3] as char];
    AsciiBytes(piece);
    assert Utf8.Encode(piece) == [BACKSLASH, LETTER_U, h[0], h[1], h[2], h[3]];
    assert [BACKSLASH] + b == [BACKSLASH, LETTER_U, h[0], h[1], h[2], h[3]] + b[5..];
    CodeEscapeShape(if h[0] == 0x2B then piece[2 := '0'] else piece, Hex4(h).value);
  }

  /** So does a character copied whole. */
  lemma PlainAhead(b: seq<byte>)
    requires b != [] && b[0] != QUOTE && b[0] != BACKSLASH && Utf8.Decode(Chunk(b)).Some?
    ensures
      var t := Utf8.Decode(Chunk(b)).value;
      && |t| == 1 && ReadsChar(t, t[0])
      && b == Utf8.Encode(t) + b[|Chunk(b)|..] && |Chunk(b)| == Utf8.LeadLength(b[0])
  {
    hide Utf8.Decode, Utf8.DecodeChar, Utf8.Encode, Utf8.LeadLength;
    var s := Chunk(b);
    ChunkIsWhole(b);
    assert s[0] == b[0];
    OneCharacter(s);
    assert b == s + b[|s|..];
    OneByteToken('"');
    OneByteToken('\\');
    var t := Utf8.Decode(s).value;
    assert t == [t[0]];
    hide IsCodeEscape;
    assert SpellsChar(t, t[0]);
  }

  /** Bytes as many as the first one announces decode to one character. */
  lemma OneCharacter(s: seq<byte>)
    requires s != [] && |s| == Utf8.LeadLength(s[0]) && Utf8.Decode(s).Some?
    ensures |Utf8.Decode(s).value| == 1 && Utf8.Encode(Utf8.Decode(s).value) == s
  {
    Utf8.EncodeDecode(s);
    assert s[|s|..] == [];
    assert Utf8.Decode([]) == Outcomes.Some([]);
    hide Utf8.Encode, Utf8.Code, Utf8.AllContinue, Utf8.IsScalar;
  }

  lemma PieceAhead(b: seq<byte>) returns (piece: string)
    requires b != [] && b[0] != QUOTE && Piece(b).Got?
    ensures piece != "" && |Piece(b).value| == 1 && ReadsChar(piece, Piece(b).value[0])
    ensures b == Utf8.Encode(piece) + Piece(b).rest
  {
    hide Utf8.Encode, Utf8.Decode, ReadsChar, Escape, Chunk;
    if b[0] == BACKSLASH {
      piece := EscapeAhead(b[1..]);
      assert b == [BACKSLASH] + b[1..];
    } else {
      PlainAhead(b);
      piece := Piece(b).value;
    }
  }

  /** A string the reader takes is spelled ahead of its closing quote. */
  lemma {:induction false} StringAhead(b: seq<byte>) returns (body: string)
    requires StringBody(b).Got?
    ensures ReadsText(body, StringBody(b).value)
    ensures b == Utf8.Encode(body) + [QUOTE] + StringBody(b).rest
    decreases |b|
  {
    hide Utf8.Encode, ReadsChar, Piece;
    if b[0] == QUOTE {
      body := "";
      EncodeNothing();
    } else {
      var piece := PieceAhead(b);
      var rest := Piece(b).rest;
      var more := StringAhead(rest);
      body := piece + more;
      Utf8.EncodeConcat(piece, more);
      var text := StringBody(b).value;
      assert text == [text[0]] + StringBody(rest).value;
      OneMoreRead(piece, text[0], more, StringBody(rest).value);
    }
  }

  lemma OneMoreRead(piece: string, c: char, more: string, text: string)
    requires piece != "" && ReadsChar(piece, c) && ReadsText(more, text)
    ensures ReadsText(piece + more, [c] + text)
  {
    hide ReadsChar;
    var body := piece + more;
    assert body[..|piece|] == piece && body[|piece|..] == more && ([c] + text)[1..] == text;
  }

  // ---- spacing

  lemma {:induction false} SpaceAhead(b: seq<byte>) returns (w: string)
    ensures AllSpace(w) && b == Utf8.Encode(w) + SkipWs(b)
  {
    hide Utf8.Encode;
    w := "";
    EncodeNothing();
    if b != [] && IsWhite(b[0]) {
      var more := SpaceAhead(b[1..]);
      w := [b[0] as char] + more;
      EncodeAscii(b[0] as char, more);
      assert b == [b[0]] + b[1..];
    }
  }

  lemma {:induction false} SpacedConcat(s: string, tokens: seq<string>, t: string, more: seq<string>)
    requires Spaced(s, tokens) && Spaced(t, more)
    ensures Spaced(s + t, tokens + more)
    decreases |tokens|
  {
    if tokens == [] {
      assert tokens + more == more;
      if more != [] {
        var w, r :| AllSpace(w) && Spaced(r, more[1..]) && t == w + more[0] + r;
        assert s + t == (s + w) + more[0] + r;
      }
    } else {
      var w, r :| AllSpace(w) && Spaced(r, tokens[1..]) && s == w + tokens[0] + r;
      SpacedConcat(r, tokens[1..], t, more);
      assert (tokens + more)[1..] == tokens[1..] + more && (tokens + more)[0] == tokens[0];
      assert s + t == w + tokens[0] + (r + t);
    }
  }

  lemma SpacedToken(token: string)
    ensures Spaced(token, [token])
  {
    assert [token][1..] == [] && AllSpace("") && Spaced("", []);
    assert token == "" + token + "";
  }

  lemma SpacedSpace(w: string)
    requires AllSpace(w)
    ensures Spaced(w, [])
  {
  }

  /** The bytes begin with a spacing of the tokens. */
  ghost predicate Ahead(b: seq<byte>, s: string, tokens: seq<string>, rest: seq<byte>) {
    Spaced(s, tokens) && b == Utf8.Encode(s) + rest
  }

  lemma AheadConcat(b: seq<byte>, s: string, tokens: seq<string>, mid: seq<byte>, t: string, more: seq<string>, rest: seq<byte>)
    requires Ahead(b, s, tokens, mid) && Ahead(mid, t, more, rest)
    ensures Ahead(b, s + t, tokens + more, rest)
  {
    hide Utf8.Encode, Spaced;
    SpacedConcat(s, tokens, t, more);
    Utf8.EncodeConcat(s, t);
  }

  /** White space in front of it changes nothing. */
  lemma AfterSpace(b: seq<byte>, s: string, tokens: seq<string>, rest: seq<byte>) returns (t: string)
    requires Ahead(SkipWs(b), s, tokens, rest)
    ensures Ahead(b, t, tokens, rest)
  {
    hide Utf8.Encode, Spaced, SkipWs;
    var w := SpaceAhead(b);
    SpacedSpace(w);
    AheadConcat(b, w, [], SkipWs(b), s, tokens, rest);
    assert [] + tokens == tokens;
    t := w + s;
  }

  /** A mark, with white space before it. */
  lemma MarkAhead(b: seq<byte>, c: char) returns (s: string)
    requires c as int < 128 && Starts(SkipWs(b), AsciiByte(c))
    ensures Ahead(b, s, [[c]], SkipWs(b)[1..])
  {
    hide Utf8.Encode, Spaced, SkipWs;
    SpacedToken([c]);
    OneByteToken(c);
    assert SkipWs(b) == [AsciiByte(c)] + SkipWs(b)[1..];
    s := AfterSpace(b, [c], [[c]], SkipWs(b)[1..]);
  }

  // ---- values

  lemma {:induction false} NumberAhead(b: seq<byte>) returns (word: string)
    ensures InNumber(word) && b == Utf8.Encode(word) + SkipNumber(b)
    ensures b != [] && IsNumberByte(b[0]) ==> word != "" && word[0] as int == b[0] as int
  {
    hide Utf8.Encode;
    word := "";
    EncodeNothing();
    if b != [] && IsNumberByte(b[0]) {
      var more := NumberAhead(b[1..]);
      word := [b[0] as char] + more;
      NumberChar(b[0]);
      EncodeAscii(b[0] as char, more);
      assert b == [b[0]] + b[1..];
    }
  }

  lemma NumberChar(c: byte)
    requires IsNumberByte(c)
    ensures c < 128 && (c as char) in "0123456789+-.eE"
  {
    var digits := "0123456789+-.eE";
    assert IsDigit(c) ==> digits[c - 0x30] == c as char;
    assert digits[10] == '+' && digits[11] == '-' && digits[12] == '.' && digits[13] == 'e' && digits[14] == 'E';
  }

  /** A word or a number. */
  lemma BareAhead(b: seq<byte>) returns (word: string)
    requires ValueOf(b).Got? && b[0] != OPEN_BRACE && b[0] != OPEN_BRACKET && b[0] != QUOTE
    ensures Reads(Bare(word), ValueOf(b).value) && b == Utf8.Encode(word) + ValueOf(b).rest
  {
    hide Utf8.Encode, InNumber, SkipNumber;
    WordBytes();
    if b[0] == 0x74 {
      word := "true";
      assert b == b[..4] + b[4..];
    } else if b[0] == 0x66 {
      word := "false";
      assert b == b[..5] + b[5..];
    } else if b[0] == 0x6E {
      word := "null";
      assert b == b[..4] + b[4..];
    } else {
      word := NumberAhead(b);
    }
  }

  /** A value the reader takes is written ahead of what it leaves. */
  lemma {:induction false} ValueAhead(b: seq<byte>) returns (t: Tree, s: string)
    requires ValueOf(b).Got?
    ensures Reads(t, ValueOf(b).value) && Ahead(b, s, Tokens(t), ValueOf(b).rest)
    decreases |b|, 1
  {
    hide Utf8.Encode, Spaced, StringBody, SkipNumber, Word, ReadsText, ArrayOf, ObjectOf;
    if b[0] == OPEN_BRACE {
      var members: seq<Member>;
      members, s := ObjectAhead(b);
      t := Record(members);
    } else if b[0] == OPEN_BRACKET {
      var items: seq<Tree>;
      items, s := ArrayAhead(b);
      t := List(items);
    } else if b[0] == QUOTE {
      var body := StringAhead(b[1..]);
      t, s := Text(body), Quoted(body);
      QuotedBytes(body);
      SpacedToken(s);
      assert b == [QUOTE] + b[1..];
    } else {
      var word := BareAhead(b);
      t, s := Bare(word), word;
      SpacedToken(s);
    }
  }

  lemma {:induction false} ArrayAhead(b: seq<byte>) returns (items: seq<Tree>, s: string)
    requires b != [] && b[0] == OPEN_BRACKET && ArrayOf(b).Got?
    ensures Reads(List(items), ArrayOf(b).value) && Ahead(b, s, Tokens(List(items)), ArrayOf(b).rest)
    decreases |b|, 0
  {
    hide Utf8.Encode, Spaced, SkipWs, Items, Ahead;
    var open := OpenAhead(b, '[');
    var rest, inner := ArrayOf(b).rest, "";
    items := [];
    if Starts(SkipWs(b[1..]), CLOSE_BRACKET) {
      inner := MarkAhead(b[1..], ']');
      assert ItemTokens([]) + ["]"] == [[']']];
    } else {
      items, inner := ItemsAhead(SkipWs(b[1..]));
      inner := AfterSpace(b[1..], inner, ItemTokens(items) + ["]"], rest);
    }
    AheadConcat(b, open, [['[']], b[1..], inner, ItemTokens(items) + ["]"], rest);
    s := open + inner;
    assert Tokens(List(items)) == [['[']] + (ItemTokens(items) + ["]"]);
  }

  lemma OpenAhead(b: seq<byte>, c: char) returns (s: string)
    requires c as int < 128 && b != [] && b[0] == AsciiByte(c)
    ensures Ahead(b, s, [[c]], b[1..])
  {
    hide Utf8.Encode, Spaced;
    s := [c];
    SpacedToken(s);
    OneByteToken(c);
    assert b == [b[0]] + b[1..];
  }

  lemma {:induction false} ItemsAhead(b: seq<byte>) returns (items: seq<Tree>, s: string)
    requires Items(b).Got?
    ensures items != [] && Reads(List(items), Array(Items(b).value)) && Ahead(b, s, ItemTokens(items) + ["]"], Items(b).rest)
    decreases |b|, 2
  {
    hide Utf8.Encode, Spaced, SkipWs, ValueOf, Ahead, Tokens;
    var t: Tree;
    t, s := ValueAhead(SkipWs(b));
    var first := ValueOf(SkipWs(b));
    s := AfterSpace(b, s, Tokens(t), first.rest);
    var w := SkipWs(first.rest);
    if Starts(w, COMMA) {
      var comma := MarkAhead(first.rest, ',');
      var more, after := ItemsAhead(w[1..]);
      AheadConcat(b, s, Tokens(t), first.rest, comma, [[',']], w[1..]);
      AheadConcat(b, s + comma, Tokens(t) + [[',']], w[1..], after, ItemTokens(more) + ["]"], Items(b).rest);
      items, s := [t] + more, s + comma + after;
      assert items[1..] == more;
      assert ItemTokens(items) + ["]"] == Tokens(t) + [[',']] + (ItemTokens(more) + ["]"]);
    } else {
      var close := MarkAhead(first.rest, ']');
      AheadConcat(b, s, Tokens(t), first.rest, close, [[']']], w[1..]);
      items, s := [t], s + close;
      assert ItemTokens(items) + ["]"] == Tokens(t) + [[']']];
    }
  }

  lemma {:induction false} ObjectAhead(b: seq<byte>) returns (members: seq<Member>, s: string)
    requires b != [] && b[0] == OPEN_BRACE && ObjectOf(b).Got?
    ensures Reads(Record(members), ObjectOf(b).value) && Ahead(b, s, Tokens(Record(members)), ObjectOf(b).rest)
    decreases |b|, 0
  {
    hide Utf8.Encode, Spaced, SkipWs, Entries, Ahead;
    var open := OpenAhead(b, '{');
    var rest, inner := ObjectOf(b).rest, "";
    members := [];
    if Starts(SkipWs(b[1..]), CLOSE_BRACE) {
      inner := MarkAhead(b[1..], '}');
      assert MemberTokens([]) + ["}"] == [['}']];
    } else {
      members, inner := EntriesAhead(SkipWs(b[1..]));
      inner := AfterSpace(b[1..], inner, MemberTokens(members) + ["}"], rest);
    }
    AheadConcat(b, open, [['{']], b[1..], inner, MemberTokens(members) + ["}"], rest);
    s := open + inner;
    assert Tokens(Record(members)) == [['{']] + (MemberTokens(members) + ["}"]);
  }

  lemma {:induction false} EntryAhead(b: seq<byte>) returns (m: Member, s: string)
    requires Entry(b).Got?
    ensures ReadsText(m.key, Entry(b).value.0) && Reads(m.value, Entry(b).value.1)
    ensures Ahead(b, s, [Quoted(m.key), ":"] + Tokens(m.value), Entry(b).rest)
    decreases |b|, 0
  {
    hide Utf8.Encode, Spaced, SkipWs, ValueOf, StringBody, Ahead, Tokens, ReadsText;
    var key := StringAhead(b[1..]);
    var rest := StringBody(b[1..]).rest;
    KeyAhead(b, key, rest);
    var colon := MarkAhead(rest, ':');
    var k := SkipWs(rest);
    var t, inner := ValueAhead(SkipWs(k[1..]));
    inner := AfterSpace(k[1..], inner, Tokens(t), Entry(b).rest);
    AheadConcat(b, Quoted(key), [Quoted(key)], rest, colon, [[':']], k[1..]);
    AheadConcat(b, Quoted(key) + colon, [Quoted(key)] + [[':']], k[1..], inner, Tokens(t), Entry(b).rest);
    m, s := Member(key, t), Quoted(key) + colon + inner;
    assert [Quoted(key), ":"] == [Quoted(key)] + [[':']];
  }

  lemma KeyAhead(b: seq<byte>, key: string, rest: seq<byte>)
    requires Starts(b, QUOTE) && b[1..] == Utf8.Encode(key) + [QUOTE] + rest
    ensures Ahead(b, Quoted(key), [Quoted(key)], rest)
  {
    hide Utf8.Encode, Spaced;
    QuotedBytes(key);
    SpacedToken(Quoted(key));
    assert b == [QUOTE] + b[1..];
  }

  lemma {:induction false} EntriesAhead(b: seq<byte>) returns (members: seq<Member>, s: string)
    requires Entries(b).Got?
    ensures members != [] && Reads(Record(members), Object(Entries(b).value))
    ensures Ahead(b, s, MemberTokens(members) + ["}"], Entries(b).rest)
    decreases |b|, 1
  {
    hide Utf8.Encode, Spaced, SkipWs, Entry, Ahead, Tokens, ReadsText, Quoted;
    var m: Member;
    m, s := EntryAhead(SkipWs(b));
    var first, tokens := Entry(SkipWs(b)), [Quoted(m.key), ":"] + Tokens(m.value);
    s := AfterSpace(b, s, tokens, first.rest);
    var w := SkipWs(first.rest);
    if Starts(w, COMMA) {
      var comma := MarkAhead(first.rest, ',');
      var more, after := EntriesAhead(w[1..]);
      AheadConcat(b, s, tokens, first.rest, comma, [[',']], w[1..]);
      AheadConcat(b, s + comma, tokens + [[',']], w[1..], after, MemberTokens(more) + ["}"], Entries(b).rest);
      members, s := [m] + more, s + comma + after;
      assert members[1..] == more;
      assert MemberTokens(members) + ["}"] == tokens + [[',']] + (MemberTokens(more) + ["}"]);
    } else {
      var close := MarkAhead(first.rest, '}');
      AheadConcat(b, s, tokens, first.rest, close, [['}']], w[1..]);
      members, s := [m], s + close;
      assert MemberTokens(members) + ["}"] == tokens + [['}']];
    }
  }

  /** A text is taken for a value only if it begins with a spacing of the value's tokens. */
  lemma AcceptsOnlyWritten(b: seq<byte>) returns (t: Tree, s: string, rest: seq<byte>)
    requires ParseText(b).Ok?
    ensures Reads(t, ParseText(b).value) && Spaced(s, Tokens(t)) && b == Utf8.Encode(s) + rest
  {
    hide Utf8.Encode, Spaced, SkipWs, ValueOf, Tokens;
    t, s := ValueAhead(SkipWs(b));
    rest := ValueOf(SkipWs(b)).rest;
    s := AfterSpace(b, s, Tokens(t), rest);
  }

  // ---- without a plus sign in a literal, that is the tree's meaning

  predicate PlusFree(t: Tree) {
    match t
    case Text(body) => '+' !in body
    case Bare(_) => true
    case List(items) => forall i :: 0 <= i < |items| ==> PlusFree(items[i])
    case Record(members) => forall i :: 0 <= i < |members| ==> '+' !in members[i].key && PlusFree(members[i].value)
  }

  lemma {:induction false} PlusFreeText(body: string, text: string)
    requires '+' !in body
    ensures ReadsText(body, text) <==> SpellsText(body, text)
    decreases |text|
  {
    hide SpellsChar;
    if text != "" {
      forall k | 0 < k <= |body|
        ensures ReadsChar(body[..k], text[0]) <==> SpellsChar(body[..k], text[0])
        ensures ReadsText(body[k..], text[1..]) <==> SpellsText(body[k..], text[1..])
      {
        PlusFreeText(body[k..], text[1..]);
      }
    }
  }

  /** Such a tree reads as a value exactly when it is well formed and means it. */
  lemma {:induction false} ReadsItsMeaning(t: Tree, v: Value)
    requires PlusFree(t)
    ensures Reads(t, v) <==> WellFormed(t) && Meaning(t) == v
  {
    hide ReadsText, SpellsText, Unescape, IsBody;
    match t
    case Text(body) =>
      if v.Str? {
        PlusFreeText(body, v.text);
        UnescapeIsSpelled(body, v.text);
      }
    case Bare(word) =>
      assert word == "true" || word == "false" || word == "null" ==> !IsNumber(word);
    case List(items) =>
      if v.Array? && |v.items| == |items| {
        forall i | 0 <= i < |items|
          ensures Reads(items[i], v.items[i]) <==> WellFormed(items[i]) && Meaning(items[i]) == v.items[i]
        {
          ReadsItsMeaning(items[i], v.items[i]);
        }
        assert WellFormed(t) ==> (Meaning(t) == v <==> Meaning(t).items == v.items);
      }
    case Record(members) =>
      if v.Object? && |v.entries| == |members| {
        forall i | 0 <= i < |members|
          ensures ReadsText(members[i].key, v.entries[i].0) <==> IsBody(members[i].key) && Unescape(members[i].key) == v.entries[i].0
          ensures Reads(members[i].value, v.entries[i].1)
            <==> WellFormed(members[i].value) && Meaning(members[i].value) == v.entries[i].1
        {
          PlusFreeText(members[i].key, v.entries[i].0);
          UnescapeIsSpelled(members[i].key, v.entries[i].0);
          ReadsItsMeaning(members[i].value, v.entries[i].1);
        }
        assert WellFormed(t) ==> (Meaning(t) == v <==> Meaning(t).entries == v.entries);
      }
  }

  // ---- what follows a value is not looked at

  lemma {:induction false} SkipWsMore(b: seq<byte>, x: seq<byte>)
    requires SkipWs(b) != []
    ensures SkipWs(b + x) == SkipWs(b) + x
  {
    if b != [] && IsWhite(b[0]) {
      SkipWsMore(b[1..], x);
      assert (b + x)[1..] == b[1..] + x;
    }
  }

  lemma {:induction false} SkipNumberMore(b: seq<byte>, x: seq<byte>)
    requires SkipNumber(b) != []
    ensures SkipNumber(b + x) == SkipNumber(b) + x
  {
    if b != [] && IsNumberByte(b[0]) {
      SkipNumberMore(b[1..], x);
      assert (b + x)[1..] == b[1..] + x;
    }
  }

  lemma EscapeMore(b: seq<byte>, x: seq<byte>)
    requires Escape(b).Got?
    ensures Escape(b + x) == Got(Escape(b).value, Escape(b).rest + x)
  {
    hide Hex4, SimpleEscape;
    assert (b + x)[1..] == b[1..] + x;
    if |b| >= 5 {
      assert (b + x)[1..5] == b[1..5] && (b + x)[5..] == b[5..] + x;
    }
  }

  lemma PieceMore(b: seq<byte>, x: seq<byte>)
    requires b != [] && Piece(b).Got?
    ensures Piece(b + x) == Got(Piece(b).value, Piece(b).rest + x)
  {
    hide Escape, Utf8.Decode;
    assert (b + x)[0] == b[0] && (b + x)[1..] == b[1..] + x;
    if b[0] == BACKSLASH {
      EscapeMore(b[1..], x);
    } else {
      ChunkIsWhole(b);
      var n := Utf8.LeadLength(b[0]);
      assert (b + x)[..n] == b[..n] && (b + x)[n..] == b[n..] + x;
    }
  }

  lemma {:induction false} StringMore(b: seq<byte>, x: seq<byte>)
    requires StringBody(b).Got?
    ensures StringBody(b + x) == Got(StringBody(b).value, StringBody(b).rest + x)
    decreases |b|
  {
    hide Piece;
    assert (b + x)[0] == b[0] && (b + x)[1..] == b[1..] + x;
    if b[0] != QUOTE {
      PieceMore(b, x);
      StringMore(Piece(b).rest, x);
    }
  }

  lemma WordMore(b: seq<byte>, x: seq<byte>, word: seq<byte>, v: Value)
    requires Word(b, word, v).Got?
    ensures Word(b, word, v).value == v && Word(b + x, word, v) == Got(v, Word(b, word, v).rest + x)
  {
    assert (b + x)[..|word|] == b[..|word|] && (b + x)[|word|..] == b[|word|..] + x;
  }

  /** A value is read alike whatever follows; only a number at the very end is read on. */
  lemma {:induction false} ValueMore(b: seq<byte>, x: seq<byte>)
    requires ValueOf(b).Got?
    ensures ValueOf(b + x).Got? && ValueOf(b + x).value == ValueOf(b).value
    ensures ValueOf(b).value != Num || ValueOf(b).rest != [] ==> ValueOf(b + x).rest == ValueOf(b).rest + x
    decreases |b|, 1
  {
    hide StringBody, SkipNumber, Word, ArrayOf, ObjectOf;
    assert (b + x)[0] == b[0] && (b + x)[1..] == b[1..] + x;
    if b[0] == OPEN_BRACE {
      ObjectMore(b, x);
    } else if b[0] == OPEN_BRACKET {
      ArrayMore(b, x);
    } else if b[0] == QUOTE {
      StringMore(b[1..], x);
    } else if b[0] == 0x74 {
      WordMore(b, x, TRUE_WORD, Bool);
    } else if b[0] == 0x66 {
      WordMore(b, x, FALSE_WORD, Bool);
    } else if b[0] == 0x6E {
      WordMore(b, x, NULL_WORD, Null);
    } else if SkipNumber(b) != [] {
      SkipNumberMore(b, x);
    }
  }

  lemma {:induction false} ArrayMore(b: seq<byte>, x: seq<byte>)
    requires b != [] && ArrayOf(b).Got?
    ensures ArrayOf(b + x) == Got(ArrayOf(b).value, ArrayOf(b).rest + x)
    decreases |b|, 0
  {
    hide Items, SkipWs;
    var w := SkipWs(b[1..]);
    assert (b + x)[1..] == b[1..] + x;
    SomeItems(w);
    SkipWsMore(b[1..], x);
    if Starts(w, CLOSE_BRACKET) {
      assert (w + x)[1..] == w[1..] + x;
    } else {
      ItemsMore(w, x);
    }
  }

  lemma SomeItems(b: seq<byte>)
    ensures b == [] ==> Items(b).Bad? && Entries(b).Bad?
  {
  }

  lemma {:induction false} ItemsMore(b: seq<byte>, x: seq<byte>)
    requires Items(b).Got?
    ensures Items(b + x) == Got(Items(b).value, Items(b).rest + x)
    decreases |b|, 2
  {
    hide ValueOf, SkipWs;
    assert ValueOf([]).Bad? by { NoValue(); }
    SkipWsMore(b, x);
    ValueMore(SkipWs(b), x);
    var rest := ValueOf(SkipWs(b)).rest;
    var t := SkipWs(rest);
    assert rest != [] by { NoSpace(); }
    SkipWsMore(rest, x);
    assert (t + x)[0] == t[0] && (t + x)[1..] == t[1..] + x;
    if Starts(t, COMMA) {
      ItemsMore(t[1..], x);
    }
  }

  lemma NoValue()
    ensures ValueOf([]).Bad?
  {
  }

  lemma NoSpace()
    ensures SkipWs([]) == []
  {
  }

  lemma {:induction false} ObjectMore(b: seq<byte>, x: seq<byte>)
    requires b != [] && ObjectOf(b).Got?
    ensures ObjectOf(b + x) == Got(ObjectOf(b).value, ObjectOf(b).rest + x)
    decreases |b|, 0
  {
    hide Entries, SkipWs;
    var w := SkipWs(b[1..]);
    assert (b + x)[1..] == b[1..] + x;
    SomeItems(w);
    SkipWsMore(b[1..], x);
    if Starts(w, CLOSE_BRACE) {
      assert (w + x)[1..] == w[1..] + x;
    } else {
      EntriesMore(w, x);
    }
  }

  lemma {:induction false} EntryMore(b: seq<byte>, x: seq<byte>)
    requires Entry(b).Got?
    ensures Entry(b + x).Got? && Entry(b + x).value == Entry(b).value
    ensures Entry(b).rest != [] ==> Entry(b + x).rest == Entry(b).rest + x
    decreases |b|, 0
  {
    hide ValueOf, SkipWs, StringBody;
    assert (b + x)[0] == b[0] && (b + x)[1..] == b[1..] + x;
    StringMore(b[1..], x);
    var rest := StringBody(b[1..]).rest;
    var k := SkipWs(rest);
    SkipWsMore(rest, x);
    assert (k + x)[0] == k[0] && (k + x)[1..] == k[1..] + x;
    assert ValueOf([]).Bad? by { NoValue(); }
    SkipWsMore(k[1..], x);
    ValueMore(SkipWs(k[1..]), x);
  }

  lemma {:induction false} EntriesMore(b: seq<byte>, x: seq<byte>)
    requires Entries(b).Got?
    ensures Entries(b + x) == Got(Entries(b).value, Entries(b).rest + x)
    decreases |b|, 1
  {
    hide Entry, SkipWs;
    assert Entry([]).Bad? by { NoEntry(); }
    SkipWsMore(b, x);
    EntryMore(SkipWs(b), x);
    var rest := Entry(SkipWs(b)).rest;
    var t := SkipWs(rest);
    assert rest != [] by { NoSpace(); }
    SkipWsMore(rest, x);
    assert (t + x)[0] == t[0] && (t + x)[1..] == t[1..] + x;
    if Starts(t, COMMA) {
      EntriesMore(t[1..], x);
    }
  }

  lemma NoEntry()
    ensures Entry([]).Bad?
  {
  }

  /** A text that is taken for a value is taken for it whatever bytes follow. */
  lemma TrailingIsIgnored(b: seq<byte>, x: seq<byte>)
    requires ParseText(b).Ok?
    ensures ParseText(b + x) == ParseText(b)
  {
    hide ValueOf, SkipWs;
    NoValue();
    SkipWsMore(b, x);
    ValueMore(SkipWs(b), x);
  }
}
