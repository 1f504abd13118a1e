/**
 The other direction of the planner's grammar (crates/aura/src/llama.rs): whatever spells valid calls,
 with the grammar's white space anywhere between its tokens, is derived. With that, the texts the
 grammar admits are exactly those arrays of calls.
 */
module GrammarDerives {
  import opened Outcomes
  import opened Tools
  import opened JsonText
  import opened Grammar
  import opened ToolCalls
  import opened GrammarAccepted

  // ---- tokens, each with the blank after it

  function Trail(tokens: seq<string>, blanks: seq<string>): string
    requires |tokens| == |blanks|
  {
    if tokens == [] then "" else tokens[0] + blanks[0] + Trail(tokens[1..], blanks[1..])
  }

  lemma {:induction false} TrailConcat(a: seq<string>, b: seq<string>, u: seq<string>, v: seq<string>)
    requires |a| == |u| && |b| == |v|
    ensures Trail(a + b, u + v) == Trail(a, u) + Trail(b, v)
    decreases |a|
  {
    if a == [] {
      assert a + b == b && u + v == v;
    } else {
      assert (a + b)[1..] == a[1..] + b && (u + v)[1..] == u[1..] + v;
      TrailConcat(a[1..], b, u[1..], v);
    }
  }

  predicate AllBlanks(blanks: seq<string>) {
    forall i :: 0 <= i < |blanks| ==> AllBlank(blanks[i])
  }

  /** A text set apart is a blank and a trail. */
  lemma {:induction false} ApartIsTrail(s: string, tokens: seq<string>) returns (w: string, blanks: seq<string>)
    requires SetApart(s, tokens)
    ensures |blanks| == |tokens| && AllBlank(w) && AllBlanks(blanks) && s == w + Trail(tokens, blanks)
    decreases |tokens|
  {
    if tokens == [] {
      w, blanks := s, [];
    } else {
      var v, r :| AllBlank(v) && SetApart(r, tokens[1..]) && s == v + tokens[0] + r;
      var u, rest := ApartIsTrail(r, tokens[1..]);
      w, blanks := v, [u] + rest;
      assert blanks[1..] == rest;
    }
  }

  // ---- what the fixed rules derive

  lemma {:induction false} BlankParts(g: Rules, w: string, n: nat)
    requires AllBlank(w)
    ensures Derives(g, WS_RULE, w, n)
  {
    var parts := seq(|w|, i requires 0 <= i < |w| => [w[i]]);
    Singles(w, parts);
  }

  lemma {:induction false} Singles(w: string, parts: seq<string>)
    requires |parts| == |w| && forall i :: 0 <= i < |w| ==> parts[i] == [w[i]]
    ensures Concat(parts) == w
  {
    if w != "" {
      Singles(w[1..], parts[1..]);
    }
  }

  lemma BlankDerives(g: Rules, w: string, n: nat)
    requires Tokenized(g) && AllBlank(w) && n > 0
    ensures Derives(g, WS, w, n)
  {
    hide Derives, AllBlank, Tokenized;
    WsRule(g);
    BlankParts(g, w, n - 1);
    RefDerives(g, "ws", w, n - 1);
  }

  lemma HexCharDerives(g: Rules, c: char, n: nat)
    requires Tokenized(g) && IsHex(c) && n > 0
    ensures Derives(g, HEX, [c], n)
  {
    hide Derives, Tokenized;
    HexRule(g);
    ClassDerives(g, "0123456789abcdefABCDEF", c, n - 1);
    RefDerives(g, "hex", [c], n - 1);
  }

  lemma UnicodeDerived(g: Rules, s: string, n: nat)
    requires Tokenized(g) && n > 0
    requires |s| == 5 && s[0] == 'u' && IsHex(s[1]) && IsHex(s[2]) && IsHex(s[3]) && IsHex(s[4])
    ensures Derives(g, UNICODE, s, n)
  {
    hide Derives, OthersTokenLevel, IsHex, Concat;
    var parts: seq<string> := [[s[0]], [s[1]], [s[2]], [s[3]], [s[4]]];
    LitDerives(g, "u", n);
    HexCharDerives(g, s[1], n);
    HexCharDerives(g, s[2], n);
    HexCharDerives(g, s[3], n);
    HexCharDerives(g, s[4], n);
    ConcatFive(parts);
    DerivesParts(g, UNICODE.parts, parts, n);
    assert Concat(parts) == s;
  }

  lemma AltDerives(g: Rules, es: seq<Expr>, i: nat, s: string, n: nat)
    requires i < |es| && Derives(g, es[i], s, n)
    ensures Derives(g, Alt(es), s, n)
  {
  }

  lemma ClassDerives(g: Rules, chars: string, c: char, n: nat)
    ensures c in chars ==> Derives(g, AnyOf(chars), [c], n)
    ensures c !in chars ==> Derives(g, NoneOf(chars), [c], n)
  {
  }

  lemma EscapeDerived(g: Rules, s: string, n: nat)
    requires Tokenized(g) && n > 0 && (|s| == 2 || |s| == 6) && s[0] == '\\'
    requires |s| == 2 ==> IsEscapable(s[1])
    requires |s| == 6 ==> s[1] == 'u' && IsHex(s[2]) && IsHex(s[3]) && IsHex(s[4]) && IsHex(s[5])
    ensures Derives(g, ESCAPE, s, n)
  {
    hide Derives, OthersTokenLevel, IsHex, Concat;
    var choices := [AnyOf("\"\\/bfnrt"), UNICODE];
    if |s| == 2 {
      ClassDerives(g, "\"\\/bfnrt", s[1], n);
      assert s[1..] == [s[1]];
      AltDerives(g, choices, 0, s[1..], n);
    } else {
      UnicodeDerived(g, s[1..], n);
      AltDerives(g, choices, 1, s[1..], n);
    }
    var parts: seq<string> := ["\\", s[1..]];
    LitDerives(g, "\\", n);
    ConcatTwo(parts);
    DerivesParts(g, ESCAPE.parts, parts, n);
    assert Concat(parts) == s;
  }

  lemma CharDerived(g: Rules, s: string, n: nat)
    requires Tokenized(g) && n > 1
    requires (|s| == 1 && s[0] !in "\"\\") || (|s| == 2 && s[0] == '\\' && IsEscapable(s[1]))
      || (|s| == 6 && s[0] == '\\' && s[1] == 'u' && IsHex(s[2]) && IsHex(s[3]) && IsHex(s[4]) && IsHex(s[5]))
    ensures Derives(g, Ref("char"), s, n)
  {
    hide Derives, OthersTokenLevel, IsHex;
    if |s| == 1 {
      ClassDerives(g, "\"\\", s[0], n - 1);
      assert s == [s[0]];
      AltDerives(g, CHAR_RULE.choices, 0, s, n - 1);
    } else {
      EscapeDerived(g, s, n - 1);
      AltDerives(g, CHAR_RULE.choices, 1, s, n - 1);
    }
    RefDerives(g, "char", s, n - 1);
  }

  /** The characters and escapes of a literal, one by one. */
  lemma {:induction false} BodyDerived(g: Rules, body: string, n: nat) returns (parts: seq<string>)
    requires Tokenized(g) && IsBody(body) && n > 1
    ensures Concat(parts) == body && forall i :: 0 <= i < |parts| ==> Derives(g, Ref("char"), parts[i], n)
    decreases |body|
  {
    hide Derives, Tokenized, IsHex;
    if body == "" {
      parts := [];
    } else {
      var k := if body[0] != '\\' then 1 else if body[1] == 'u' then 6 else 2;
      CharDerived(g, body[..k], n);
      var rest := BodyDerived(g, body[k..], n);
      parts := [body[..k]] + rest;
      assert parts[1..] == rest && body == body[..k] + body[k..];
    }
  }

  lemma StringDerived(g: Rules, body: string, n: nat)
    requires Tokenized(g) && IsBody(body) && n >= 3
    ensures Derives(g, STRING, Quoted(body), n)
  {
    hide Derives, OthersTokenLevel, IsBody, Concat;
    var chars := BodyDerived(g, body, n - 1);
    StarDerives(g, Ref("char"), chars, n - 1);
    LitDerives(g, "\"", n - 1);
    var parts: seq<string> := ["\"", body, "\""];
    ConcatThree(parts);
    DerivesParts(g, STRING_RULE.parts, parts, n - 1);
    RefDerives(g, "string", Quoted(body), n - 1);
  }

  lemma StarDerives(g: Rules, x: Expr, parts: seq<string>, n: nat)
    requires forall i :: 0 <= i < |parts| ==> Derives(g, x, parts[i], n)
    ensures Derives(g, Star(x), Concat(parts), n)
  {
  }

  // ---- expressions that derive every trail of their tokens

  /** Blanks for k tokens, the last of them empty unless the expression ends in white space. */
  ghost predicate Fit(blanks: seq<string>, k: nat, ends: bool) {
    |blanks| == k && AllBlanks(blanks) && (!ends && k > 0 ==> blanks[k - 1] == "")
  }

  /** Whatever the blanks between them, the expression derives the tokens. */
  ghost predicate Covers(g: Rules, e: Expr, tokens: seq<string>, ends: bool, n: nat) {
    forall blanks :: Fit(blanks, |tokens|, ends) ==> Derives(g, e, Trail(tokens, blanks), n)
  }

  lemma TrailOne(t: string, blanks: seq<string>)
    requires Fit(blanks, 1, false)
    ensures Trail([t], blanks) == t
  {
    assert Trail([t], blanks) == t + blanks[0] + Trail([], []);
  }

  lemma CoversLit(g: Rules, t: string, n: nat)
    ensures Covers(g, Lit(t), [t], false, n)
  {
    forall blanks | Fit(blanks, 1, false)
      ensures Derives(g, Lit(t), Trail([t], blanks), n)
    {
      TrailOne(t, blanks);
    }
  }

  lemma CoversString(g: Rules, body: string, n: nat)
    requires Tokenized(g) && IsBody(body) && n >= 3
    ensures Covers(g, STRING, [Quoted(body)], false, n)
  {
    hide Derives, OthersTokenLevel, IsBody;
    StringDerived(g, body, n);
    forall blanks | Fit(blanks, 1, false)
      ensures Derives(g, STRING, Trail([Quoted(body)], blanks), n)
    {
      TrailOne(Quoted(body), blanks);
    }
  }

  lemma CoversNothing(g: Rules, n: nat)
    ensures Covers(g, Cat([]), [], true, n)
  {
    hide Derives;
    forall blanks | Fit(blanks, 0, true)
      ensures Derives(g, Cat([]), Trail([], blanks), n)
    {
      DerivesParts(g, [], [], n);
      assert Concat<char>([]) == "";
    }
  }

  lemma ConsDerives(g: Rules, e: Expr, s: string, es: seq<Expr>, t: string, n: nat)
    requires Derives(g, e, s, n) && Derives(g, Cat(es), t, n)
    ensures Derives(g, Cat([e] + es), s + t, n)
  {
    hide Derives, Concat;
    var parts := DerivesCat(g, es, t, n);
    var all := [s] + parts;
    assert Concat(all) == s + t by { ConcatCons(s, parts); }
    DerivesParts(g, [e] + es, all, n);
  }

  lemma ConcatCons(s: string, parts: seq<string>)
    ensures Concat([s] + parts) == s + Concat(parts)
  {
    assert ([s] + parts)[1..] == parts;
  }

  lemma ThenAt(g: Rules, e: Expr, a: seq<string>, es: seq<Expr>, b: seq<string>, ends: bool, n: nat, blanks: seq<string>)
    requires Covers(g, e, a, true, n) && Covers(g, Cat(es), b, ends, n) && (b != [] || ends)
    requires Fit(blanks, |a + b|, ends)
    ensures Derives(g, Cat([e] + es), Trail(a + b, blanks), n)
  {
    hide Derives, AllBlanks, Covers, Trail;
    var u, v := blanks[..|a|], blanks[|a|..];
    FitParts(blanks, |a|, |b|, ends);
    TrailConcat(a, b, u, v);
    assert u + v == blanks;
    CoversAt(g, e, a, true, n, u);
    CoversAt(g, Cat(es), b, ends, n, v);
    ConsDerives(g, e, Trail(a, u), es, Trail(b, v), n);
  }

  /** An expression that ends in white space, then the rest. */
  lemma CoversThen(g: Rules, e: Expr, a: seq<string>, es: seq<Expr>, b: seq<string>, ends: bool, n: nat)
    requires Covers(g, e, a, true, n) && Covers(g, Cat(es), b, ends, n) && (b != [] || ends)
    ensures Covers(g, Cat([e] + es), a + b, ends, n)
  {
    hide Derives, Trail, AllBlanks;
    forall blanks | Fit(blanks, |a + b|, ends)
      ensures Derives(g, Cat([e] + es), Trail(a + b, blanks), n)
    {
      ThenAt(g, e, a, es, b, ends, n, blanks);
    }
  }

  lemma FitParts(blanks: seq<string>, j: nat, k: nat, ends: bool)
    requires Fit(blanks, j + k, ends) && (k > 0 || ends)
    ensures Fit(blanks[..j], j, true) && Fit(blanks[j..], k, ends)
  {
  }

  lemma SpacedAt(g: Rules, e: Expr, a: seq<string>, es: seq<Expr>, b: seq<string>, ends: bool, n: nat, blanks: seq<string>)
    requires Tokenized(g) && n > 0 && a != [] && (b != [] || ends) && Fit(blanks, |a + b|, ends)
    requires Covers(g, e, a, false, n) && Covers(g, Cat(es), b, ends, n)
    ensures Derives(g, Cat([e, WS] + es), Trail(a + b, blanks), n)
  {
    hide Derives, Tokenized, AllBlank, Covers, Trail;
    var k := |a|;
    var u, v := blanks[..k], blanks[k..];
    FitParts(blanks, k, |b|, ends);
    var w := u[k - 1];
    var bare := u[..k - 1] + [""];
    BlankDerives(g, w, n);
    LastBlank(a, u);
    TrailConcat(a, b, u, v);
    assert u + v == blanks;
    EmptyBlank();
    assert Fit(bare, k, false);
    CoversAt(g, e, a, false, n, bare);
    CoversAt(g, Cat(es), b, ends, n, v);
    ConsDerives(g, WS, w, es, Trail(b, v), n);
    ConsDerives(g, e, Trail(a, bare), [WS] + es, w + Trail(b, v), n);
    assert [e] + ([WS] + es) == [e, WS] + es;
    Regroup(Trail(a, bare), w, Trail(b, v));
  }

  lemma Regroup(x: string, y: string, z: string)
    ensures x + (y + z) == x + y + z
  {
  }

  /** An expression that ends in a token, white space, then the rest. */
  lemma CoversSpaced(g: Rules, e: Expr, a: seq<string>, es: seq<Expr>, b: seq<string>, ends: bool, n: nat)
    requires Tokenized(g) && n > 0 && a != [] && (b != [] || ends)
    requires Covers(g, e, a, false, n) && Covers(g, Cat(es), b, ends, n)
    ensures Covers(g, Cat([e, WS] + es), a + b, ends, n)
  {
    hide Derives, Trail, AllBlanks, Tokenized;
    forall blanks | Fit(blanks, |a + b|, ends)
      ensures Derives(g, Cat([e, WS] + es), Trail(a + b, blanks), n)
    {
      SpacedAt(g, e, a, es, b, ends, n, blanks);
    }
  }

  lemma EmptyBlank()
    ensures AllBlank("")
  {
  }

  lemma SplitLast(a: seq<string>, u: seq<string>, k: nat)
    requires |a| == |u| == k + 1
    ensures Trail(a, u) == Trail(a[..k], u[..k]) + (a[k] + u[k])
  {
    hide Trail;
    TrailConcat(a[..k], [a[k]], u[..k], [u[k]]);
    OneTrail(a[k], u[k]);
    assert a[..k] + [a[k]] == a && u[..k] + [u[k]] == u;
  }

  /** The last blank of a trail can stand apart. */
  lemma LastBlank(a: seq<string>, u: seq<string>)
    requires a != [] && |a| == |u|
    ensures Trail(a, u) == Trail(a, u[..|u| - 1] + [""]) + u[|u| - 1]
  {
    hide Trail;
    var k := |a| - 1;
    var bare := u[..k] + [""];
    SplitLast(a, u, k);
    SplitLast(a, bare, k);
    assert bare[..k] == u[..k];
    Append(Trail(a[..k], u[..k]), a[k], u[k]);
  }

  lemma Append(x: string, t: string, w: string)
    ensures x + (t + w) == x + (t + "") + w
  {
  }

  lemma OneTrail(t: string, w: string)
    ensures Trail([t], [w]) == t + w
  {
    assert Trail([t], [w]) == t + w + Trail([], []);
  }

  lemma CoversAt(g: Rules, e: Expr, tokens: seq<string>, ends: bool, n: nat, blanks: seq<string>)
    requires Covers(g, e, tokens, ends, n) && Fit(blanks, |tokens|, ends)
    ensures Derives(g, e, Trail(tokens, blanks), n)
  {
  }

  /** An expression that ends in a token closes the sequence. */
  lemma CoversLast(g: Rules, e: Expr, a: seq<string>, ends: bool, n: nat)
    requires Covers(g, e, a, ends, n)
    ensures Covers(g, Cat([e]), a, ends, n)
  {
    hide Derives, AllBlanks;
    forall blanks | Fit(blanks, |a|, ends)
      ensures Derives(g, Cat([e]), Trail(a, blanks), n)
    {
      var s := Trail(a, blanks);
      DerivesParts(g, [e], [s], n);
      assert Concat([s]) == s;
    }
  }

  /** A token and the white space after it. */
  lemma CoversEnd(g: Rules, e: Expr, a: seq<string>, n: nat)
    requires Tokenized(g) && n > 0 && a != [] && Covers(g, e, a, false, n)
    ensures Covers(g, Cat([e, WS]), a, true, n)
  {
    hide Covers, Tokenized;
    CoversNothing(g, n);
    CoversSpaced(g, e, a, [], [], true, n);
    assert [e, WS] + [] == [e, WS] && a + [] == a;
  }

  // ---- the catalog's rules

  lemma CoversPair(g: Rules, key: string, value: Expr, v: seq<string>, n: nat)
    requires Tokenized(g) && n > 0 && v != [] && Covers(g, value, v, false, n)
    ensures Covers(g, Pair(key, value), [Quoted(key), ":"] + v, false, n)
  {
    hide Covers, Tokenized, Quoted;
    CoversLast(g, value, v, false, n);
    CoversLit(g, ":", n);
    CoversSpaced(g, Lit(":"), [":"], [value], v, false, n);
    CoversLit(g, Quoted(key), n);
    assert [Lit(":"), WS] + [value] == [Lit(":"), WS, value];
    CoversSpaced(g, Lit(Quoted(key)), [Quoted(key)], [Lit(":"), WS, value], [":"] + v, false, n);
    assert [Lit(Quoted(key)), WS] + [Lit(":"), WS, value] == [Lit(Quoted(key)), WS, Lit(":"), WS, value];
    assert [Quoted(key)] + ([":"] + v) == [Quoted(key), ":"] + v;
  }

  lemma CoversArg(g: Rules, a: Arg, n: nat)
    requires Tokenized(g) && n >= 3 && IsBody(a.body)
    ensures Covers(g, Pair(a.name, STRING), PairTokens(a), false, n)
  {
    hide Covers, Tokenized, Pair, IsBody, Quoted;
    CoversString(g, a.body, n);
    CoversPair(g, a.name, STRING, [Quoted(a.body)], n);
    assert [Quoted(a.name), ":"] + [Quoted(a.body)] == PairTokens(a);
  }

  lemma CoversAnchor(g: Rules, a: Arg, n: nat)
    requires Tokenized(g) && n >= 3 && IsBody(a.body)
    ensures Covers(g, Cat([Pair(a.name, STRING), WS]), PairTokens(a), true, n)
  {
    hide Covers, Tokenized, Pair, IsBody;
    CoversArg(g, a, n);
    CoversEnd(g, Pair(a.name, STRING), PairTokens(a), n);
  }

  lemma CoversNextArg(g: Rules, a: Arg, n: nat)
    requires Tokenized(g) && n >= 3 && IsBody(a.body)
    ensures Covers(g, Cat([Lit(","), WS, Pair(a.name, STRING), WS]), [","] + PairTokens(a), true, n)
  {
    hide Covers, Tokenized, Pair, IsBody, PairTokens;
    CoversAnchor(g, a, n);
    CoversLit(g, ",", n);
    CoversSpaced(g, Lit(","), [","], [Pair(a.name, STRING), WS], PairTokens(a), true, n);
    assert [Lit(","), WS] + [Pair(a.name, STRING), WS] == [Lit(","), WS, Pair(a.name, STRING), WS];
  }

  lemma {:induction false} CoversRequired(g: Rules, params: seq<ParamSpec>, args: seq<Arg>, n: nat)
    requires Tokenized(g) && n >= 3 && Named(params, args) && AllBodies(args)
    ensures Covers(g, Cat(MoreRequired(params)), TailTokens(args), true, n)
    decreases |params|
  {
    hide Covers, Tokenized, Pair, IsBody, PairTokens;
    if params == [] {
      CoversNothing(g, n);
    } else {
      CoversRequired(g, params[1..], args[1..], n);
      CoversNextArg(g, args[0], n);
      CoversThen(g, Cat([Lit(","), WS, Pair(args[0].name, STRING), WS]), [","] + PairTokens(args[0]),
                 MoreRequired(params[1..]), TailTokens(args[1..]), true, n);
    }
  }

  lemma CoversOpt(g: Rules, x: Expr, tokens: seq<string>, n: nat)
    ensures Covers(g, x, tokens, true, n) ==> Covers(g, Opt(x), tokens, true, n)
    ensures Covers(g, Opt(x), [], true, n)
  {
    forall blanks | Fit(blanks, 0, true)
      ensures Derives(g, Opt(x), Trail([], blanks), n)
    {
      assert Trail([], blanks) == "";
    }
    if Covers(g, x, tokens, true, n) {
      forall blanks | Fit(blanks, |tokens|, true)
        ensures Derives(g, Opt(x), Trail(tokens, blanks), n)
      {
        assert Derives(g, x, Trail(tokens, blanks), n);
      }
    }
  }

  lemma {:induction false} CoversOptional(g: Rules, params: seq<ParamSpec>, args: seq<Arg>, n: nat)
    requires Tokenized(g) && n >= 3 && SomeNamed(params, args) && AllBodies(args)
    ensures Covers(g, Cat(MoreOptional(params)), TailTokens(args), true, n)
    decreases |params|
  {
    hide Covers, Tokenized, Pair, IsBody, PairTokens;
    if params == [] {
      CoversNothing(g, n);
    } else {
      var x := Cat([Lit(","), WS, Pair(params[0].name, STRING), WS]);
      if args != [] && args[0].name == params[0].name && SomeNamed(params[1..], args[1..]) {
        CoversOptional(g, params[1..], args[1..], n);
        CoversNextArg(g, args[0], n);
        CoversOpt(g, x, [","] + PairTokens(args[0]), n);
        CoversThen(g, Opt(x), [","] + PairTokens(args[0]), MoreOptional(params[1..]), TailTokens(args[1..]), true, n);
      } else {
        CoversOptional(g, params[1..], args, n);
        CoversOpt(g, x, [], n);
        CoversThen(g, Opt(x), [], MoreOptional(params[1..]), TailTokens(args), true, n);
        assert [] + TailTokens(args) == TailTokens(args);
      }
    }
  }

  lemma CoversNoArgs(g: Rules, n: nat)
    requires Tokenized(g) && n > 0
    ensures Covers(g, Cat([Lit("{"), WS, Lit("}")]), ["{", "}"], false, n)
  {
    hide Covers, Tokenized;
    CoversLit(g, "{", n);
    CoversLit(g, "}", n);
    CoversLast(g, Lit("}"), ["}"], false, n);
    CoversSpaced(g, Lit("{"), ["{"], [Lit("}")], ["}"], false, n);
    assert [Lit("{"), WS] + [Lit("}")] == [Lit("{"), WS, Lit("}")] && ["{"] + ["}"] == ["{", "}"];
  }

  /** A brace, the pieces between, each ending in white space, and the closing brace. */
  lemma CoversBraced(g: Rules, es: seq<Expr>, tokens: seq<string>, n: nat)
    requires Tokenized(g) && n > 0 && tokens != [] && Covers(g, Cat(es), tokens, false, n)
    ensures Covers(g, Cat([Lit("{"), WS] + es), ["{"] + tokens, false, n)
  {
    hide Covers, Tokenized;
    CoversLit(g, "{", n);
    CoversSpaced(g, Lit("{"), ["{"], es, tokens, false, n);
  }

  lemma CoversRequiredArgs(g: Rules, params: seq<ParamSpec>, args: seq<Arg>, n: nat)
    requires Tokenized(g) && n >= 3 && Filter(params, true) != [] && FitsParams(params, args)
    ensures Covers(g, ArgsObject(params), Tokens(ArgsRecord(args)), false, n)
  {
    hide Covers, Tokenized, Pair, IsBody, PairTokens, TailTokens, Filter, MoreRequired, MoreOptional, Tokens, SomeNamed;
    var required, optional := Filter(params, true), Filter(params, false);
    FilterBounds(params);
    var k := |required|;
    var more, chosen := args[1..k], args[k..];
    CoversAnchor(g, args[0], n);
    CoversRequired(g, required[1..], more, n);
    CoversOptional(g, optional, chosen, n);
    assert args[..k][0] == args[0] && args[..k][1..] == more;
    CoversLit(g, "}", n);
    CoversLast(g, Lit("}"), ["}"], false, n);
    var anchor := Cat([Pair(required[0].name, STRING), WS]);
    var m, o := Cat(MoreRequired(required[1..])), Cat(MoreOptional(optional));
    CoversThen(g, o, TailTokens(chosen), [Lit("}")], ["}"], false, n);
    CoversThen(g, m, TailTokens(more), [o] + [Lit("}")], TailTokens(chosen) + ["}"], false, n);
    CoversThen(g, anchor, PairTokens(args[0]), [m] + ([o] + [Lit("}")]), TailTokens(more) + (TailTokens(chosen) + ["}"]), false, n);
    var inner := PairTokens(args[0]) + (TailTokens(more) + (TailTokens(chosen) + ["}"]));
    CoversBraced(g, [anchor] + ([m] + ([o] + [Lit("}")])), inner, n);
    assert [Lit("{"), WS] + ([anchor] + ([m] + ([o] + [Lit("}")]))) == [Lit("{"), WS, anchor, m, o, Lit("}")];
    TailConcat(more, chosen);
    assert args[1..] == more + chosen;
    RecordOfArgs(args);
    assert ArgsObject(params) == Cat([Lit("{"), WS, anchor, m, o, Lit("}")]);
    assert ["{"] + inner == ["{"] + PairTokens(args[0]) + TailTokens(args[1..]) + ["}"];
    assert Covers(g, ArgsObject(params), ["{"] + inner, false, n);
  }

  lemma CoversOptionalArgs(g: Rules, params: seq<ParamSpec>, args: seq<Arg>, n: nat)
    requires Tokenized(g) && n >= 3 && params != [] && Filter(params, true) == [] && FitsParams(params, args)
    ensures Covers(g, ArgsObject(params), Tokens(ArgsRecord(args)), false, n)
  {
    hide Covers, Tokenized, Pair, IsBody, PairTokens, TailTokens, Filter, MoreOptional, Tokens;
    var optional := Filter(params, false);
    FilterBounds(params);
    assert args[0..] == args;
    CoversLit(g, "}", n);
    CoversLast(g, Lit("}"), ["}"], false, n);
    var body := [Cat([Pair(optional[0].name, STRING), WS]), Cat(MoreOptional(optional[1..]))];
    var inner := CoversSome(g, optional, args, n);
    CoversThen(g, Opt(Cat(body)), inner, [Lit("}")], ["}"], false, n);
    CoversBraced(g, [Opt(Cat(body))] + [Lit("}")], inner + ["}"], n);
    assert [Lit("{"), WS] + ([Opt(Cat(body))] + [Lit("}")]) == [Lit("{"), WS, Opt(Cat(body)), Lit("}")];
    assert ArgsObject(params) == Cat([Lit("{"), WS, Opt(Cat(body)), Lit("}")]);
    RecordOfArgs(args);
    assert ["{"] + (inner + ["}"]) == Tokens(ArgsRecord(args));
  }

  /**
   The optional keys of a tool that requires none: the first anchors the rest, so any of them come with
   the first.
   */
  lemma CoversSome(g: Rules, optional: seq<ParamSpec>, args: seq<Arg>, n: nat) returns (inner: seq<string>)
    requires Tokenized(g) && n >= 3 && optional != [] && SomeNamed(optional, args) && AllBodies(args)
    requires args != [] ==> args[0].name == optional[0].name && SomeNamed(optional[1..], args[1..])
    ensures inner == if args == [] then [] else PairTokens(args[0]) + TailTokens(args[1..])
    ensures Covers(g, Opt(Cat([Cat([Pair(optional[0].name, STRING), WS]), Cat(MoreOptional(optional[1..]))])), inner, true, n)
  {
    hide Covers, Tokenized, Pair, IsBody, PairTokens, TailTokens, MoreOptional, SomeNamed;
    var body := [Cat([Pair(optional[0].name, STRING), WS]), Cat(MoreOptional(optional[1..]))];
    if args == [] {
      inner := [];
      CoversOpt(g, Cat(body), [], n);
    } else {
      inner := PairTokens(args[0]) + TailTokens(args[1..]);
      CoversAnchor(g, args[0], n);
      CoversOptional(g, optional[1..], args[1..], n);
      CoversLast(g, body[1], TailTokens(args[1..]), true, n);
      CoversThen(g, body[0], PairTokens(args[0]), [body[1]], TailTokens(args[1..]), true, n);
      assert [body[0]] + [body[1]] == body;
      CoversOpt(g, Cat(body), inner, n);
    }
  }

  lemma CoversArgs(g: Rules, params: seq<ParamSpec>, args: seq<Arg>, n: nat)
    requires Tokenized(g) && n >= 3 && FitsParams(params, args)
    ensures Covers(g, ArgsObject(params), Tokens(ArgsRecord(args)), false, n)
  {
    if params == [] {
      hide Covers, Tokenized, Tokens;
      assert args[0..] == args;
      CoversNoArgs(g, n);
      RecordOfArgs(args);
    } else {
      hide Covers, Tokenized, Tokens, Filter, FitsParams, ArgsObject;
      if Filter(params, true) != [] {
        CoversRequiredArgs(g, params, args, n);
      } else {
        CoversOptionalArgs(g, params, args, n);
      }
    }
  }

  /** A token or pair, white space, and what is covered behind it. */
  lemma CoversBehind(g: Rules, e: Expr, a: seq<string>, es: seq<Expr>, b: seq<string>, n: nat) returns (fs: seq<Expr>, c: seq<string>)
    requires Tokenized(g) && n > 0 && a != [] && b != [] && Covers(g, e, a, false, n) && Covers(g, Cat(es), b, false, n)
    ensures fs == [e, WS] + es && c == a + b && Covers(g, Cat(fs), c, false, n)
  {
    hide Covers, Tokenized;
    CoversSpaced(g, e, a, es, b, false, n);
    fs, c := [e, WS] + es, a + b;
  }

  lemma CoversWhy(g: Rules, body: string, n: nat) returns (es: seq<Expr>, ts: seq<string>)
    requires Tokenized(g) && n >= 3 && IsBody(body)
    ensures es == [Lit(","), WS, Pair("rationale", STRING), WS, Lit("}")]
    ensures ts == [",", Quoted("rationale"), ":", Quoted(body), "}"] && Covers(g, Cat(es), ts, false, n)
  {
    hide Covers, Tokenized, Pair, IsBody, Quoted;
    CoversLit(g, "}", n);
    CoversLast(g, Lit("}"), ["}"], false, n);
    CoversString(g, body, n);
    CoversPair(g, "rationale", STRING, [Quoted(body)], n);
    var why := [Quoted("rationale"), ":"] + [Quoted(body)];
    es, ts := CoversBehind(g, Pair("rationale", STRING), why, [Lit("}")], ["}"], n);
    CoversLit(g, ",", n);
    es, ts := CoversBehind(g, Lit(","), [","], es, ts, n);
  }

  lemma CoversCall(g: Rules, c: Call, n: nat)
    requires Tokenized(g) && n >= 3 && FitsParams(c.tool.params, c.args) && IsBody(c.rationale)
    ensures Covers(g, CallExpr(c.tool), Tokens(CallTree(c)), false, n)
  {
    hide Covers, Tokenized, Pair, IsBody, Quoted, FitsParams, ArgsObject, Tokens, ArgsRecord, CallTree;
    var args := ArgsObject(c.tool.params);
    var record := Tokens(ArgsRecord(c.args));
    var es, ts := CoversWhy(g, c.rationale, n);
    CoversArgs(g, c.tool.params, c.args, n);
    RecordHasTokens(c.args);
    CoversPair(g, "args", args, record, n);
    es, ts := CoversBehind(g, Pair("args", args), [Quoted("args"), ":"] + record, es, ts, n);
    CoversLast(g, Cat(es), ts, false, n);
    var later := Cat(es);
    assert later == Cat([Pair("args", args), WS, Lit(","), WS, Pair("rationale", STRING), WS, Lit("}")]);
    CoversLit(g, ",", n);
    es, ts := CoversBehind(g, Lit(","), [","], [later], ts, n);
    CoversLit(g, Quoted(c.tool.name), n);
    CoversPair(g, "tool", Lit(Quoted(c.tool.name)), [Quoted(c.tool.name)], n);
    es, ts := CoversBehind(g, Pair("tool", Lit(Quoted(c.tool.name))), [Quoted("tool"), ":"] + [Quoted(c.tool.name)], es, ts, n);
    CoversBraced(g, es, ts, n);
    CallTokens(c);
    assert ["{"] + ts == Tokens(CallTree(c));
    assert [Lit("{"), WS] + es == [Lit("{"), WS, Pair("tool", Lit(Quoted(c.tool.name))), WS, Lit(","), WS, later];
  }

  lemma RecordHasTokens(args: seq<Arg>)
    ensures Tokens(ArgsRecord(args)) != []
  {
  }

  lemma CoversRef(g: Rules, r: string, tokens: seq<string>, n: nat)
    requires r in g && Covers(g, g[r], tokens, false, n)
    ensures Covers(g, Ref(r), tokens, false, n + 1)
  {
    hide Trail;
    forall blanks | Fit(blanks, |tokens|, false)
      ensures Derives(g, Ref(r), Trail(tokens, blanks), n + 1)
    {
      CoversAt(g, g[r], tokens, false, n, blanks);
      hide Derives;
      RefDerives(g, r, Trail(tokens, blanks), n);
    }
  }

  lemma CoversAlt(g: Rules, es: seq<Expr>, i: nat, tokens: seq<string>, n: nat)
    requires i < |es| && Covers(g, es[i], tokens, false, n)
    ensures Covers(g, Alt(es), tokens, false, n)
  {
    hide Trail, Derives;
    forall blanks | Fit(blanks, |tokens|, false)
      ensures Derives(g, Alt(es), Trail(tokens, blanks), n)
    {
      CoversAt(g, es[i], tokens, false, n, blanks);
      AltDerives(g, es, i, Trail(tokens, blanks), n);
    }
  }

  /** A valid call is one of the call rule's alternatives. */
  lemma CoversValidCall(catalog: Catalog, c: Call)
    requires ValidCall(catalog, c)
    ensures Covers(ToolCallGrammar(catalog), Ref("call"), Tokens(CallTree(c)), false, 5)
  {
    hide Covers, Tokenized, CallExpr, CallRule, CallRules, CallTree, Tokens, IsBody, FitsParams;
    var g := ToolCallGrammar(catalog);
    GrammarIsTokenized(catalog);
    CoversCall(g, c, 3);
    RulesOf(catalog, c.tool);
    CoversRef(g, CallRule(c.tool.name), Tokens(CallTree(c)), 3);
    var i: nat :| RulesAt(catalog, c.tool, i);
    assert CallRefs(catalog)[i] == Ref(CallRule(c.tool.name));
    assert g["call"] == Alt(CallRefs(catalog));
    CoversAlt(g, CallRefs(catalog), i, Tokens(CallTree(c)), 4);
    CoversRef(g, "call", Tokens(CallTree(c)), 4);
  }

  // ---- the array

  const CLOSE: Expr := Cat([WS, Lit("]"), WS])

  /** A call's text, and the blank behind it. */
  lemma CallText(catalog: Catalog, c: Call, u: seq<string>) returns (text: string, w: string)
    requires ValidCall(catalog, c) && |u| == |Tokens(CallTree(c))| && AllBlanks(u)
    ensures Derives(ToolCallGrammar(catalog), Ref("call"), text, 5) && AllBlank(w)
    ensures Trail(Tokens(CallTree(c)), u) == text + w
  {
    hide Derives, Trail, ValidCall, AllBlank, ToolCallGrammar;
    var ts := Tokens(CallTree(c));
    var bare := u[..|u| - 1] + [""];
    EmptyBlank();
    assert Fit(bare, |ts|, false);
    hide Tokens;
    CoversValidCall(catalog, c);
    CoversAt(ToolCallGrammar(catalog), Ref("call"), ts, false, 5, bare);
    LastBlank(ts, u);
    text, w := Trail(ts, bare), u[|u| - 1];
  }

  lemma NextCallDerives(catalog: Catalog, b: string, w: string, text: string)
    requires AllBlank(b) && AllBlank(w) && Derives(ToolCallGrammar(catalog), Ref("call"), text, 5)
    ensures Derives(ToolCallGrammar(catalog), NEXT_CALL, b + "," + w + text, 5)
  {
    hide Derives, AllBlank, Tokenized, ToolCallGrammar, Concat;
    var g := ToolCallGrammar(catalog);
    GrammarIsTokenized(catalog);
    BlankDerives(g, b, 5);
    BlankDerives(g, w, 5);
    LitDerives(g, ",", 5);
    var parts: seq<string> := [b, ",", w, text];
    ConcatFour(parts);
    DerivesParts(g, [WS, Lit(","), WS, Ref("call")], parts, 5);
  }

  lemma CloseDerives(catalog: Catalog, b: string, w: string)
    requires AllBlank(b) && AllBlank(w)
    ensures Derives(ToolCallGrammar(catalog), CLOSE, b + "]" + w, 5)
  {
    hide Derives, AllBlank, Tokenized, ToolCallGrammar, Concat;
    var g := ToolCallGrammar(catalog);
    GrammarIsTokenized(catalog);
    BlankDerives(g, b, 5);
    BlankDerives(g, w, 5);
    LitDerives(g, "]", 5);
    var parts: seq<string> := [b, "]", w];
    ConcatThree(parts);
    DerivesParts(g, [WS, Lit("]"), WS], parts, 5);
  }

  /** What follows the first call: the others, each behind its comma, and the closing bracket. */
  lemma {:induction false} TailDerives(catalog: Catalog, calls: seq<Call>, b: string, ws: seq<string>)
    returns (parts: seq<string>, last: string)
    requires AllValid(catalog, calls) && AllBlank(b) && AllBlanks(ws) && |ws| == |TailItems(Trees(calls))| + 1
    ensures forall i :: 0 <= i < |parts| ==> Derives(ToolCallGrammar(catalog), NEXT_CALL, parts[i], 5)
    ensures Derives(ToolCallGrammar(catalog), CLOSE, last, 5)
    ensures b + Trail(TailItems(Trees(calls)) + ["]"], ws) == Concat(parts) + last
    decreases |calls|
  {
    hide Derives, AllBlank, ToolCallGrammar, Tokens, CallTree, ValidCall;
    if calls == [] {
      assert TailItems(Trees(calls)) + ["]"] == ["]"] && ws == [ws[0]];
      OneTrail("]", ws[0]);
      CloseDerives(catalog, b, ws[0]);
      parts, last := [], b + "]" + ws[0];
      Regroup(b, "]", ws[0]);
      assert Concat(parts) == "";
    } else {
      var c, rest := Tokens(CallTree(calls[0])), TailItems(Trees(calls[1..])) + ["]"];
      assert Trees(calls)[1..] == Trees(calls[1..]);
      assert TailItems(Trees(calls)) + ["]"] == [","] + c + rest;
      var k := 1 + |c|;
      var u, v := ws[1..k], ws[k..];
      var text, w := CallText(catalog, calls[0], u);
      NextCallDerives(catalog, b, ws[0], text);
      var more: seq<string>;
      more, last := TailDerives(catalog, calls[1..], w, v);
      parts := [b + "," + ws[0] + text] + more;
      TailText(c, rest, ws, b, text, w);
      ConcatCons(b + "," + ws[0] + text, more);
      Regroup(b + "," + ws[0] + text, Concat(more), last);
    }
  }

  lemma TailText(c: seq<string>, rest: seq<string>, ws: seq<string>, b: string, text: string, w: string)
    requires |ws| == 1 + |c| + |rest| && Trail(c, ws[1..1 + |c|]) == text + w
    ensures b + Trail([","] + c + rest, ws) == b + "," + ws[0] + text + (w + Trail(rest, ws[1 + |c|..]))
  {
    hide Trail;
    var u, v := ws[1..1 + |c|], ws[1 + |c|..];
    assert ws == [ws[0]] + u + v;
    TrailConcat([","] + c, rest, [ws[0]] + u, v);
    TrailConcat([","], c, [ws[0]], u);
    OneTrail(",", ws[0]);
    FivePieces(b, ws[0], text, w, Trail(rest, v));
  }

  lemma FivePieces(b: string, x: string, text: string, w: string, z: string)
    ensures b + ("," + x + (text + w) + z) == b + "," + x + text + (w + z)
  {
  }

  /** Whatever spells valid calls in an array, with the grammar's white space between its tokens, is derived. */
  lemma SpelledIsDerivable(catalog: Catalog, calls: seq<Call>, s: string)
    requires calls != [] && AllValid(catalog, calls) && SetApart(s, Tokens(List(Trees(calls))))
    ensures Derivable(ToolCallGrammar(catalog), Ref("root"), s)
  {
    hide Derives, AllBlank, ToolCallGrammar, CallTree, ValidCall, SetApart, Trail;
    var c, rest := Tokens(CallTree(calls[0])), TailItems(Trees(calls[1..])) + ["]"];
    assert Trees(calls)[1..] == Trees(calls[1..]) && Trees(calls)[0] == CallTree(calls[0]);
    ItemsTail(Trees(calls));
    assert Tokens(List(Trees(calls))) == ["["] + c + rest;
    hide Tokens;
    var w0, ws := ApartIsTrail(s, Tokens(List(Trees(calls))));
    var k := 1 + |c|;
    var text, w := CallText(catalog, calls[0], ws[1..k]);
    var nexts, last := TailDerives(catalog, calls[1..], w, ws[k..]);
    RootText(c, rest, ws, text, w);
    RootDerives(catalog, w0, ws[0], text, nexts, last);
    assert s == w0 + "[" + ws[0] + text + Concat(nexts) + last;
  }

  lemma RootText(c: seq<string>, rest: seq<string>, ws: seq<string>, text: string, w: string)
    requires |ws| == 1 + |c| + |rest| && Trail(c, ws[1..1 + |c|]) == text + w
    ensures Trail(["["] + c + rest, ws) == "[" + ws[0] + text + (w + Trail(rest, ws[1 + |c|..]))
  {
    hide Trail;
    var u, v := ws[1..1 + |c|], ws[1 + |c|..];
    assert ws == [ws[0]] + u + v;
    TrailConcat(["["] + c, rest, [ws[0]] + u, v);
    TrailConcat(["["], c, [ws[0]], u);
    OneTrail("[", ws[0]);
    FourPieces("[", ws[0], text, w, Trail(rest, v));
  }

  lemma FourPieces(t: string, x: string, text: string, w: string, z: string)
    ensures t + x + (text + w) + z == t + x + text + (w + z)
  {
  }

  lemma RootDerives(catalog: Catalog, w0: string, w: string, text: string, nexts: seq<string>, last: string)
    requires AllBlank(w0) && AllBlank(w) && Derives(ToolCallGrammar(catalog), Ref("call"), text, 5)
    requires forall i :: 0 <= i < |nexts| ==> Derives(ToolCallGrammar(catalog), NEXT_CALL, nexts[i], 5)
    requires Derives(ToolCallGrammar(catalog), CLOSE, last, 5)
    ensures Derives(ToolCallGrammar(catalog), Ref("root"), w0 + "[" + w + text + Concat(nexts) + last, 6)
  {
    hide Derives, AllBlank, Tokenized, Concat, CallRules;
    var g := ToolCallGrammar(catalog);
    assert "root" in g && g["root"] == ROOT_RULE;
    hide ToolCallGrammar;
    GrammarIsTokenized(catalog);
    BlankDerives(g, w0, 5);
    BlankDerives(g, w, 5);
    LitDerives(g, "[", 5);
    StarDerives(g, NEXT_CALL, nexts, 5);
    var parts: seq<string> := [w0, "[", w, text, Concat(nexts), last];
    ConcatSix(parts);
    DerivesParts(g, [WS, Lit("["), WS, Ref("call"), Star(NEXT_CALL), CLOSE], parts, 5);
    RefDerives(g, "root", w0 + "[" + w + text + Concat(nexts) + last, 5);
  }

  /** The text is an array of calls of the catalog's tools, each with the arguments its tool takes. */
  ghost predicate IsCalls(catalog: Catalog, s: string) {
    exists calls :: calls != [] && AllValid(catalog, calls) && SetApart(s, Tokens(List(Trees(calls))))
  }

  /** The grammar of a catalog that is not empty admits exactly the arrays of its calls. */
  lemma GrammarIsExact(catalog: Catalog, s: string)
    requires catalog != []
    ensures Derivable(ToolCallGrammar(catalog), Ref("root"), s) <==> IsCalls(catalog, s)
  {
    hide Derivable, ToolCallGrammar, AllValid, SetApart, Tokens, Trees;
    if Derivable(ToolCallGrammar(catalog), Ref("root"), s) {
      var calls := DerivableSpells(catalog, s);
    }
    if IsCalls(catalog, s) {
      var calls :| calls != [] && AllValid(catalog, calls) && SetApart(s, Tokens(List(Trees(calls))));
      SpelledIsDerivable(catalog, calls, s);
    }
  }
}
