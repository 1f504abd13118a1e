/**
 The planner's JSON reader (crates/aura/src/llama.rs, `mod json`): what it takes for a value, as
 functions of the bytes still to be read, and the recursive-descent parser that computes them.
 Numbers, booleans and null carry no payload. Nesting is not bounded here; the program's stack is.
 */
module Json {
  import opened Outcomes
  import opened Bits
  import Utf8

  datatype Value =
    | Null | Bool | Num
    | Str(text: string)
    | Array(items: seq<Value>)
    | Object(entries: seq<(string, Value)>)

  datatype Error =
    | ExpectedValue | ExpectedWord | Unterminated | BadEscape | ShortEscape | BadUnicodeEscape | InvalidUtf8
    | ExpectedCommaOrBracket | ExpectedKey | ExpectedColon | ExpectedCommaOrBrace

  /** What a reading function took off the front, and what it left. */
  datatype Read<+T> = Got(value: T, rest: seq<byte>) | Bad(error: Error)

  const QUOTE: byte := 0x22
  const BACKSLASH: byte := 0x5C
  const OPEN_BRACE: byte := 0x7B
  const CLOSE_BRACE: byte := 0x7D
  const OPEN_BRACKET: byte := 0x5B
  const CLOSE_BRACKET: byte := 0x5D
  const COMMA: byte := 0x2C
  const COLON: byte := 0x3A
  const LETTER_U: byte := 0x75

  const TRUE_WORD: seq<byte> := [0x74, 0x72, 0x75, 0x65]
  const FALSE_WORD: seq<byte> := [0x66, 0x61, 0x6C, 0x73, 0x65]
  const NULL_WORD: seq<byte> := [0x6E, 0x75, 0x6C, 0x6C]

  predicate Starts(b: seq<byte>, c: byte) {
    b != [] && b[0] == c
  }

  predicate IsWhite(c: byte) {
    c == 0x20 || c == 0x09 || c == 0x0A || c == 0x0D
  }

  function SkipWs(b: seq<byte>): (r: seq<byte>)
    ensures |r| <= |b|
  {
    if b != [] && IsWhite(b[0]) then SkipWs(b[1..]) else b
  }

  predicate IsDigit(c: byte) {
    0x30 <= c <= 0x39
  }

  /** - + . e E and the digits. */
  predicate IsNumberByte(c: byte) {
    c == 0x2D || c == 0x2B || c == 0x2E || c == 0x65 || c == 0x45 || IsDigit(c)
  }

  function SkipNumber(b: seq<byte>): (r: seq<byte>)
    ensures |r| <= |b|
    ensures b != [] && IsNumberByte(b[0]) ==> |r| < |b|
  {
    if b != [] && IsNumberByte(b[0]) then SkipNumber(b[1..]) else b
  }

  function Word(b: seq<byte>, word: seq<byte>, v: Value): Read<Value> {
    if |word| <= |b| && b[..|word|] == word then Got(v, b[|word|..]) else Bad(ExpectedWord)
  }

  // ---- strings

  function HexDigit(c: byte): Option<nat> {
    if IsDigit(c) then Some(c - 0x30)
    else if 0x61 <= c <= 0x66 then Some(c - 0x61 + 10)
    else if 0x41 <= c <= 0x46 then Some(c - 0x41 + 10)
    else None
  }

  function HexNumber(b: seq<byte>, acc: nat): Option<nat>
    decreases b
  {
    if b == [] then Some(acc)
    else
      match HexDigit(b[0])
      case None => None
      case Some(d) => HexNumber(b[1..], 16 * acc + d)
  }

  /** Four bytes as the standard library reads a base-16 number: a leading plus sign is allowed. */
  function Hex4(b: seq<byte>): Option<nat>
    requires |b| == 4
  {
    if b[0] == 0x2B then HexNumber(b[1..], 0) else HexNumber(b, 0)
  }

  /** The character of a code, or the replacement character where there is none. */
  function CharOf(code: nat): char {
    if Utf8.IsScalar(code) then code as char else '\U{FFFD}'
  }

  /** What a backslash followed by this byte stands for. */
  function SimpleEscape(c: byte): Option<char> {
    if c == QUOTE then Some('"')
    else if c == BACKSLASH then Some('\\')
    else if c == 0x2F then Some('/')
    else if c == 0x62 then Some('\U{0008}')
    else if c == 0x66 then Some('\U{000C}')
    else if c == 0x6E then Some('\n')
    else if c == 0x72 then Some('\r')
    else if c == 0x74 then Some('\t')
    else None
  }

  /** The escape after a backslash. */
  function Escape(b: seq<byte>): (r: Read<char>)
    ensures r.Got? ==> |r.rest| < |b|
  {
    if b == [] then Bad(BadEscape)
    else if b[0] == LETTER_U then
      if |b| < 5 then Bad(ShortEscape)
      else
        match Hex4(b[1..5])
        case None => Bad(BadUnicodeEscape)
        case Some(code) => Got(CharOf(code), b[5..])
    else
      match SimpleEscape(b[0])
      case None => Bad(BadEscape)
      case Some(c) => Got(c, b[1..])
  }

  function Prepend<T>(s: seq<T>, r: Read<seq<T>>): Read<seq<T>> {
    match r
    case Bad(e) => Bad(e)
    case Got(v, rest) => Got(s + v, rest)
  }

  /** The bytes of the scalar at the front, as far as they go. */
  function Chunk(b: seq<byte>): (chunk: seq<byte>)
    requires b != []
    ensures chunk != []
  {
    var n := Utf8.LeadLength(b[0]);
    if n <= |b| then b[..n] else b
  }

  lemma ChunkIsWhole(b: seq<byte>)
    requires b != [] && Utf8.Decode(Chunk(b)).Some?
    ensures Utf8.LeadLength(b[0]) <= |b|
  {
    assert Chunk(b)[0] == b[0];
  }

  /** One character of a string, escaped or copied whole. */
  function Piece(b: seq<byte>): (r: Read<string>)
    requires b != []
    ensures r.Got? ==> |r.rest| < |b|
  {
    if b[0] == BACKSLASH then
      match Escape(b[1..])
      case Bad(e) => Bad(e)
      case Got(c, rest) => Got([c], rest)
    else
      match Utf8.Decode(Chunk(b))
      case None => Bad(InvalidUtf8)
      case Some(t) =>
        ChunkIsWhole(b);
        Got(t, b[Utf8.LeadLength(b[0])..])
  }

  /** A string after its opening quote. */
  function StringBody(b: seq<byte>): (r: Read<string>)
    ensures r.Got? ==> |r.rest| < |b|
    decreases |b|
  {
    if b == [] then Bad(Unterminated)
    else if b[0] == QUOTE then Got("", b[1..])
    else
      match Piece(b)
      case Bad(e) => Bad(e)
      case Got(t, rest) => Prepend(t, StringBody(rest))
  }

  // ---- values

  function ValueOf(b: seq<byte>): (r: Read<Value>)
    ensures r.Got? ==> |r.rest| < |b|
    decreases |b|, 1
  {
    if b == [] then Bad(ExpectedValue)
    else if b[0] == OPEN_BRACE then ObjectOf(b)
    else if b[0] == OPEN_BRACKET then ArrayOf(b)
    else if b[0] == QUOTE then
      match StringBody(b[1..])
      case Bad(e) => Bad(e)
      case Got(s, rest) => Got(Str(s), rest)
    else if b[0] == TRUE_WORD[0] then Word(b, TRUE_WORD, Bool)
    else if b[0] == FALSE_WORD[0] then Word(b, FALSE_WORD, Bool)
    else if b[0] == NULL_WORD[0] then Word(b, NULL_WORD, Null)
    else if b[0] == 0x2D || IsDigit(b[0]) then Got(Num, SkipNumber(b))
    else Bad(ExpectedValue)
  }

  function ArrayOf(b: seq<byte>): (r: Read<Value>)
    requires b != []
    ensures r.Got? ==> |r.rest| < |b|
    decreases |b|, 0
  {
    var w := SkipWs(b[1..]);
    if Starts(w, CLOSE_BRACKET) then Got(Array([]), w[1..])
    else
      match Items(w)
      case Bad(e) => Bad(e)
      case Got(items, rest) => Got(Array(items), rest)
  }

  /** The elements of an array and its closing bracket. */
  function Items(b: seq<byte>): (r: Read<seq<Value>>)
    ensures r.Got? ==> |r.rest| < |b|
    decreases |b|, 2
  {
    match ValueOf(SkipWs(b))
    case Bad(e) => Bad(e)
    case Got(v, rest) =>
      var t := SkipWs(rest);
      if Starts(t, COMMA) then Prepend([v], Items(t[1..]))
      else if Starts(t, CLOSE_BRACKET) then Got([v], t[1..])
      else Bad(ExpectedCommaOrBracket)
  }

  function ObjectOf(b: seq<byte>): (r: Read<Value>)
    requires b != []
    ensures r.Got? ==> |r.rest| < |b|
    decreases |b|, 0
  {
    var w := SkipWs(b[1..]);
    if Starts(w, CLOSE_BRACE) then Got(Object([]), w[1..])
    else
      match Entries(w)
      case Bad(e) => Bad(e)
      case Got(entries, rest) => Got(Object(entries), rest)
  }

  /** A key, a colon and a value. */
  function Entry(b: seq<byte>): (r: Read<(string, Value)>)
    ensures r.Got? ==> |r.rest| < |b|
    decreases |b|, 0
  {
    if !Starts(b, QUOTE) then Bad(ExpectedKey)
    else
      match StringBody(b[1..])
      case Bad(e) => Bad(e)
      case Got(key, rest) =>
        var k := SkipWs(rest);
        if !Starts(k, COLON) then Bad(ExpectedColon)
        else
          match ValueOf(SkipWs(k[1..]))
          case Bad(e) => Bad(e)
          case Got(v, after) => Got((key, v), after)
  }

  /** The members of an object and its closing brace. */
  function Entries(b: seq<byte>): (r: Read<seq<(string, Value)>>)
    ensures r.Got? ==> |r.rest| < |b|
    decreases |b|, 1
  {
    match Entry(SkipWs(b))
    case Bad(e) => Bad(e)
    case Got(entry, rest) =>
      var t := SkipWs(rest);
      if Starts(t, COMMA) then Prepend([entry], Entries(t[1..]))
      else if Starts(t, CLOSE_BRACE) then Got([entry], t[1..])
      else Bad(ExpectedCommaOrBrace)
  }

  /** A text's first value; what follows it is not looked at. */
  function ParseText(b: seq<byte>): Result<Value, Error> {
    match ValueOf(SkipWs(b))
    case Bad(e) => Err(e)
    case Got(v, _) => Ok(v)
  }

  /** What a parsing method did, against what the function says of the bytes ahead of it. */
  ghost predicate Agrees<T>(r: Result<T, Error>, rest: seq<byte>, expected: Read<T>) {
    match expected
    case Bad(e) => r == Err(e)
    case Got(v, after) => r == Ok(v) && rest == after
  }

  class Parser {
    const bytes: seq<byte>
    var pos: nat

    constructor (bytes: seq<byte>)
      ensures this.bytes == bytes && pos == 0
    {
      this.bytes := bytes;
      pos := 0;
    }

    ghost predicate InBounds()
      reads this
    {
      pos <= |bytes|
    }

    method Ws()
      requires InBounds()
      modifies this
      ensures InBounds() && pos >= old(pos)
      ensures bytes[pos..] == SkipWs(bytes[old(pos)..])
    {
      while pos < |bytes| && IsWhite(bytes[pos])
        invariant old(pos) <= pos <= |bytes|
        invariant SkipWs(bytes[old(pos)..]) == SkipWs(bytes[pos..])
      {
        assert bytes[pos..][1..] == bytes[pos + 1..];
        pos := pos + 1;
      }
    }

    method SkipNumberBytes()
      requires InBounds()
      modifies this
      ensures InBounds() && pos >= old(pos)
      ensures bytes[pos..] == SkipNumber(bytes[old(pos)..])
    {
      while pos < |bytes| && IsNumberByte(bytes[pos])
        invariant old(pos) <= pos <= |bytes|
        invariant SkipNumber(bytes[old(pos)..]) == SkipNumber(bytes[pos..])
      {
        assert bytes[pos..][1..] == bytes[pos + 1..];
        pos := pos + 1;
      }
    }

    method Literal(word: seq<byte>, v: Value) returns (r: Result<Value, Error>)
      requires InBounds()
      modifies this
      ensures InBounds() && pos >= old(pos)
      ensures Agrees(r, bytes[pos..], Word(bytes[old(pos)..], word, v))
    {
      if |word| <= |bytes| - pos && bytes[pos..][..|word|] == word {
        pos := pos + |word|;
        return Ok(v);
      }
      return Err(ExpectedWord);
    }

    /** The escape at the position after a backslash. */
    method EscapedChar() returns (r: Result<char, Error>)
      requires InBounds()
      modifies this
      ensures InBounds() && pos >= old(pos)
      ensures Agrees(r, bytes[pos..], Escape(bytes[old(pos)..]))
      ensures r.Ok? ==> pos > old(pos)
    {
      hide Hex4, SimpleEscape;
      if pos == |bytes| {
        return Err(BadEscape);
      }
      ghost var b := bytes[pos..];
      if bytes[pos] == LETTER_U {
        if pos + 5 > |bytes| {
          return Err(ShortEscape);
        }
        assert bytes[pos + 1..pos + 5] == b[1..5];
        var code := Hex4(bytes[pos + 1..pos + 5]);
        if code == None {
          return Err(BadUnicodeEscape);
        }
        pos := pos + 5;
        return Ok(CharOf(code.value));
      }
      var c := SimpleEscape(bytes[pos]);
      if c == None {
        return Err(BadEscape);
      }
      pos := pos + 1;
      return Ok(c.value);
    }

    method PieceText() returns (r: Result<string, Error>)
      requires InBounds() && pos < |bytes|
      modifies this
      ensures InBounds() && pos >= old(pos)
      ensures Agrees(r, bytes[pos..], Piece(bytes[old(pos)..]))
      ensures r.Ok? ==> pos > old(pos)
    {
      hide Escape, Utf8.Decode;
      ghost var b := bytes[pos..];
      if bytes[pos] == BACKSLASH {
        pos := pos + 1;
        assert bytes[pos..] == b[1..];
        var c := EscapedChar();
        r := if c.Ok? then Ok([c.value]) else Err(c.error);
      } else {
        var n := Utf8.LeadLength(bytes[pos]);
        var chunk := if n <= |bytes| - pos then bytes[pos..pos + n] else bytes[pos..];
        assert chunk == Chunk(b);
        var t := Utf8.Decode(chunk);
        if t == None {
          return Err(InvalidUtf8);
        }
        ChunkIsWhole(b);
        pos := pos + n;
        assert bytes[pos..] == b[n..];
        r := Ok(t.value);
      }
    }

    method StringText() returns (r: Result<string, Error>)
      requires InBounds() && pos < |bytes|
      modifies this
      ensures InBounds() && pos >= old(pos)
      ensures Agrees(r, bytes[pos..], StringBody(bytes[old(pos) + 1..]))
      ensures r.Ok? ==> pos > old(pos)
    {
      hide Piece;
      pos := pos + 1;
      var out := "";
      PrependNothing(StringBody(bytes[pos..]));
      while true
        invariant old(pos) < pos <= |bytes|
        invariant StringBody(bytes[old(pos) + 1..]) == Prepend(out, StringBody(bytes[pos..]))
        decreases |bytes| - pos
      {
        if pos == |bytes| {
          return Err(Unterminated);
        }
        if bytes[pos] == QUOTE {
          pos := pos + 1;
          assert out + "" == out;
          return Ok(out);
        }
        var t := PieceText();
        if t.Err? {
          return t;
        }
        PrependTwice(out, t.value, StringBody(bytes[pos..]));
        out := out + t.value;
      }
    }

    method ParseValue() returns (r: Result<Value, Error>)
      requires InBounds()
      modifies this
      ensures InBounds() && pos >= old(pos)
      ensures Agrees(r, bytes[pos..], ValueOf(bytes[old(pos)..]))
      ensures r.Ok? ==> pos > old(pos)
      decreases |bytes| - pos, 2
    {
      hide StringBody, Items, Entries, Word, SkipNumber, SkipWs;
      if pos == |bytes| {
        return Err(ExpectedValue);
      }
      var c := bytes[pos];
      if c == OPEN_BRACE {
        r := ParseObject();
      } else if c == OPEN_BRACKET {
        r := ParseArray();
      } else if c == QUOTE {
        var s := StringText();
        assert bytes[old(pos)..][1..] == bytes[old(pos) + 1..];
        r := if s.Ok? then Ok(Str(s.value)) else Err(s.error);
      } else if c == TRUE_WORD[0] {
        r := Literal(TRUE_WORD, Bool);
      } else if c == FALSE_WORD[0] {
        r := Literal(FALSE_WORD, Bool);
      } else if c == NULL_WORD[0] {
        r := Literal(NULL_WORD, Null);
      } else if c == 0x2D || IsDigit(c) {
        SkipNumberBytes();
        r := Ok(Num);
      } else {
        r := Err(ExpectedValue);
      }
    }

    method ParseArray() returns (r: Result<Value, Error>)
      requires InBounds() && pos < |bytes|
      modifies this
      ensures InBounds() && pos >= old(pos)
      ensures Agrees(r, bytes[pos..], ArrayOf(bytes[old(pos)..]))
      ensures r.Ok? ==> pos > old(pos)
      decreases |bytes| - pos, 1
    {
      hide ValueOf, SkipWs, Items;
      assert bytes[pos..][1..] == bytes[pos + 1..];
      pos := pos + 1;
      Ws();
      if pos < |bytes| && bytes[pos] == CLOSE_BRACKET {
        assert bytes[pos..][1..] == bytes[pos + 1..];
        pos := pos + 1;
        return Ok(Array([]));
      }
      var items := ParseItems();
      r := if items.Ok? then Ok(Array(items.value)) else Err(items.error);
    }

    method ParseItems() returns (r: Result<seq<Value>, Error>)
      requires InBounds()
      modifies this
      ensures InBounds() && pos >= old(pos)
      ensures Agrees(r, bytes[pos..], Items(bytes[old(pos)..]))
      ensures r.Ok? ==> pos > old(pos)
      decreases |bytes| - pos, 3
    {
      hide ValueOf, SkipWs;
      var items: seq<Value> := [];
      PrependNothing(Items(bytes[pos..]));
      while true
        invariant old(pos) <= pos <= |bytes|
        invariant Items(bytes[old(pos)..]) == Prepend(items, Items(bytes[pos..]))
        decreases |bytes| - pos
      {
        Ws();
        var v := ParseValue();
        if v.Err? {
          return Err(v.error);
        }
        Ws();
        if pos < |bytes| && bytes[pos] == COMMA {
          assert bytes[pos..][1..] == bytes[pos + 1..];
          pos := pos + 1;
          PrependTwice(items, [v.value], Items(bytes[pos..]));
          items := items + [v.value];
        } else if pos < |bytes| && bytes[pos] == CLOSE_BRACKET {
          assert bytes[pos..][1..] == bytes[pos + 1..];
          pos := pos + 1;
          return Ok(items + [v.value]);
        } else {
          return Err(ExpectedCommaOrBracket);
        }
      }
    }

    method ParseObject() returns (r: Result<Value, Error>)
      requires InBounds() && pos < |bytes|
      modifies this
      ensures InBounds() && pos >= old(pos)
      ensures Agrees(r, bytes[pos..], ObjectOf(bytes[old(pos)..]))
      ensures r.Ok? ==> pos > old(pos)
      decreases |bytes| - pos, 1
    {
      hide ValueOf, SkipWs, Entries;
      assert bytes[pos..][1..] == bytes[pos + 1..];
      pos := pos + 1;
      Ws();
      if pos < |bytes| && bytes[pos] == CLOSE_BRACE {
        assert bytes[pos..][1..] == bytes[pos + 1..];
        pos := pos + 1;
        return Ok(Object([]));
      }
      var entries := ParseEntries();
      r := if entries.Ok? then Ok(Object(entries.value)) else Err(entries.error);
    }

    method ParseEntry() returns (r: Result<(string, Value), Error>)
      requires InBounds()
      modifies this
      ensures InBounds() && pos >= old(pos)
      ensures Agrees(r, bytes[pos..], Entry(bytes[old(pos)..]))
      ensures r.Ok? ==> pos > old(pos)
      decreases |bytes| - pos, 2
    {
      hide ValueOf, SkipWs, StringBody;
      if pos == |bytes| || bytes[pos] != QUOTE {
        return Err(ExpectedKey);
      }
      assert bytes[pos..][1..] == bytes[pos + 1..];
      var key := StringText();
      if key.Err? {
        return Err(key.error);
      }
      Ws();
      if pos == |bytes| || bytes[pos] != COLON {
        return Err(ExpectedColon);
      }
      assert bytes[pos..][1..] == bytes[pos + 1..];
      pos := pos + 1;
      Ws();
      var v := ParseValue();
      r := if v.Ok? then Ok((key.value, v.value)) else Err(v.error);
    }

    method ParseEntries() returns (r: Result<seq<(string, Value)>, Error>)
      requires InBounds()
      modifies this
      ensures InBounds() && pos >= old(pos)
      ensures Agrees(r, bytes[pos..], Entries(bytes[old(pos)..]))
      ensures r.Ok? ==> pos > old(pos)
      decreases |bytes| - pos, 3
    {
      hide ValueOf, SkipWs, Entry;
      var entries: seq<(string, Value)> := [];
      PrependNothing(Entries(bytes[pos..]));
      while true
        invariant old(pos) <= pos <= |bytes|
        invariant Entries(bytes[old(pos)..]) == Prepend(entries, Entries(bytes[pos..]))
        decreases |bytes| - pos
      {
        Ws();
        var e := ParseEntry();
        if e.Err? {
          return Err(e.error);
        }
        Ws();
        if pos < |bytes| && bytes[pos] == COMMA {
          assert bytes[pos..][1..] == bytes[pos + 1..];
          pos := pos + 1;
          PrependTwice(entries, [e.value], Entries(bytes[pos..]));
          entries := entries + [e.value];
        } else if pos < |bytes| && bytes[pos] == CLOSE_BRACE {
          assert bytes[pos..][1..] == bytes[pos + 1..];
          pos := pos + 1;
          return Ok(entries + [e.value]);
        } else {
          return Err(ExpectedCommaOrBrace);
        }
      }
    }
  }

  lemma PrependTwice<T>(s: seq<T>, t: seq<T>, r: Read<seq<T>>)
    ensures Prepend(s, Prepend(t, r)) == Prepend(s + t, r)
  {
    if r.Got? {
      assert s + (t + r.value) == s + t + r.value;
    }
  }

  lemma PrependNothing<T>(r: Read<seq<T>>)
    ensures Prepend([], r) == r
  {
    if r.Got? {
      assert [] + r.value == r.value;
    }
  }

  method Parse(bytes: seq<byte>) returns (r: Result<Value, Error>)
    ensures r == ParseText(bytes)
  {
    hide ValueOf, SkipWs;
    var p := new Parser(bytes);
    assert p.bytes[0..] == bytes;
    p.Ws();
    r := p.ParseValue();
    p.Ws();
  }

  /** The first member of that name. */
  function Get(v: Value, key: string): Option<Value> {
    if v.Object? then Lookup(v.entries, key) else None
  }

  function Lookup(entries: seq<(string, Value)>, key: string): Option<Value> {
    if entries == [] then None
    else if entries[0].0 == key then Some(entries[0].1)
    else Lookup(entries[1..], key)
  }
}
