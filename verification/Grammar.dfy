/**
 The grammar the planner's model is held to (crates/aura/src/llama.rs), as rules over a catalog:
 its expressions, the texts they derive, and the tokens those texts are made of.
 */
module Grammar {
  import opened Bits
  import opened JsonText
  import opened Tools
  import Json

  datatype Expr =
    | Lit(text: string)
    | AnyOf(chars: string)
    | NoneOf(chars: string)
    | Cat(parts: seq<Expr>)
    | Alt(choices: seq<Expr>)
    | Star(item: Expr)
    | Opt(item: Expr)
    | Ref(rule: string)

  type Rules = map<string, Expr>

  function Concat<T>(parts: seq<seq<T>>): seq<T> {
    if parts == [] then [] else parts[0] + Concat(parts[1..])
  }

  /** The texts an expression derives, through at most n nested rules. */
  ghost predicate Derives(g: Rules, e: Expr, s: string, n: nat)
    decreases n, e
  {
    match e
    case Lit(t) => s == t
    case AnyOf(chars) => |s| == 1 && s[0] in chars
    case NoneOf(chars) => |s| == 1 && s[0] !in chars
    case Cat(es) =>
      exists parts: seq<string> ::
        |parts| == |es| && s == Concat(parts) && forall i :: 0 <= i < |es| ==> Derives(g, es[i], parts[i], n)
    case Alt(es) => exists i :: 0 <= i < |es| && Derives(g, es[i], s, n)
    case Star(x) => exists parts: seq<string> :: s == Concat(parts) && forall i :: 0 <= i < |parts| ==> Derives(g, x, parts[i], n)
    case Opt(x) => s == "" || Derives(g, x, s, n)
    case Ref(r) => n > 0 && r in g && Derives(g, g[r], s, n - 1)
  }

  ghost predicate Derivable(g: Rules, e: Expr, s: string) {
    exists n: nat :: Derives(g, e, s, n)
  }

  // ---- the rules for a catalog

  const WS: Expr := Ref("ws")
  const STRING: Expr := Ref("string")
  const HEX: Expr := Ref("hex")

  const WS_RULE: Expr := Star(AnyOf(" \t\n"))
  const HEX_RULE: Expr := AnyOf("0123456789abcdefABCDEF")
  const UNICODE: Expr := Cat([Lit("u"), HEX, HEX, HEX, HEX])
  const ESCAPE: Expr := Cat([Lit("\\"), Alt([AnyOf("\"\\/bfnrt"), UNICODE])])
  const CHAR_RULE: Expr := Alt([NoneOf("\"\\"), ESCAPE])
  const STRING_RULE: Expr := Cat([Lit("\""), Star(Ref("char")), Lit("\"")])

  /** Characters that cannot stand in a rule's name become dashes. */
  function RuleId(name: string): string {
    if name == "" then "" else [if IsAlphanumeric(name[0]) then name[0] else '-'] + RuleId(name[1..])
  }

  predicate IsAlphanumeric(c: char) {
    'a' <= c <= 'z' || 'A' <= c <= 'Z' || '0' <= c <= '9'
  }

  function CallRule(name: string): string {
    RuleId(name) + "-call"
  }

  /** A rule's name is made of letters, digits and dashes, one for each character of the tool's name. */
  lemma {:induction false} RuleIdIs(name: string)
    ensures |RuleId(name)| == |name|
    ensures forall i :: 0 <= i < |name| ==>
      var c := name[i];
      RuleId(name)[i] == if 'a' <= c <= 'z' || 'A' <= c <= 'Z' || '0' <= c <= '9' then c else '-'
  {
    if name != "" {
      RuleIdIs(name[1..]);
    }
  }

  /** Two tools have one rule exactly when their names differ in nothing but characters that cannot stand in it. */
  lemma RulesShared(a: string, b: string)
    ensures CallRule(a) == CallRule(b) <==>
      |a| == |b| && forall i :: 0 <= i < |a| ==>
        a[i] == b[i]
        || !(('a' <= a[i] <= 'z' || 'A' <= a[i] <= 'Z' || '0' <= a[i] <= '9')
             || ('a' <= b[i] <= 'z' || 'A' <= b[i] <= 'Z' || '0' <= b[i] <= '9'))
  {
    hide RuleId;
    RuleIdIs(a);
    RuleIdIs(b);
    var x, y := RuleId(a), RuleId(b);
    assert CallRule(a)[..|a|] == x && CallRule(b)[..|b|] == y;
    if CallRule(a) == CallRule(b) {
      assert |CallRule(a)| == |a| + 5 && |CallRule(b)| == |b| + 5;
      assert forall i :: 0 <= i < |a| ==> x[i] == y[i];
    }
    if |a| == |b| && forall i :: 0 <= i < |a| ==> x[i] == y[i] {
      assert x == y;
    }
  }

  /** A key and its value, as both the call and its arguments spell them. */
  function Pair(key: string, value: Expr): Expr {
    Cat([Lit(Quoted(key)), WS, Lit(":"), WS, value])
  }

  function Filter(params: seq<ParamSpec>, required: bool): seq<ParamSpec> {
    if params == [] then []
    else (if params[0].required == required then [params[0]] else []) + Filter(params[1..], required)
  }

  /** The keys after the first required one, each behind its comma. */
  function MoreRequired(params: seq<ParamSpec>): seq<Expr> {
    if params == [] then []
    else [Cat([Lit(","), WS, Pair(params[0].name, STRING), WS])] + MoreRequired(params[1..])
  }

  function MoreOptional(params: seq<ParamSpec>): seq<Expr> {
    if params == [] then []
    else [Opt(Cat([Lit(","), WS, Pair(params[0].name, STRING), WS]))] + MoreOptional(params[1..])
  }

  /** The arguments object of one tool: required keys in order, then optional ones. */
  function ArgsObject(params: seq<ParamSpec>): Expr {
    var required, optional := Filter(params, true), Filter(params, false);
    if params == [] then Cat([Lit("{"), WS, Lit("}")])
    else if required != [] then
      Cat([Lit("{"), WS, Cat([Pair(required[0].name, STRING), WS]), Cat(MoreRequired(required[1..])),
           Cat(MoreOptional(optional)), Lit("}")])
    else if optional != [] then
      Cat([Lit("{"), WS, Opt(Cat([Cat([Pair(optional[0].name, STRING), WS]), Cat(MoreOptional(optional[1..]))])), Lit("}")])
    else assert false by { FilterCovers(params); } Lit("")
  }

  lemma {:induction false} FilterCovers(params: seq<ParamSpec>)
    ensures params != [] ==> Filter(params, true) != [] || Filter(params, false) != []
  {
  }

  function CallExpr(t: Tool): Expr {
    Cat([Lit("{"), WS, Pair("tool", Lit(Quoted(t.name))), WS, Lit(","), WS,
         Cat([Pair("args", ArgsObject(t.params)), WS, Lit(","), WS, Pair("rationale", STRING), WS, Lit("}")])])
  }

  function CallRefs(catalog: Catalog): seq<Expr> {
    seq(|catalog|, i requires 0 <= i < |catalog| => Ref(CallRule(catalog[i].name)))
  }

  /** Alternatives joined by bars; joining none leaves the empty sequence. */
  function Alternatives(es: seq<Expr>): Expr {
    if es == [] then Lit("") else Alt(es)
  }

  /** The rule of each tool; of two with one name, the later. */
  function CallRules(catalog: Catalog): Rules {
    if catalog == [] then map[]
    else
      var n := |catalog| - 1;
      CallRules(catalog[..n])[CallRule(catalog[n].name) := CallExpr(catalog[n])]
  }

  const ROOT_RULE: Expr :=
    Cat([WS, Lit("["), WS, Ref("call"), Star(Cat([WS, Lit(","), WS, Ref("call")])), Cat([WS, Lit("]"), WS])])

  function BaseRules(catalog: Catalog): Rules {
    map["root" := ROOT_RULE, "call" := Alternatives(CallRefs(catalog)), "string" := STRING_RULE, "char" := CHAR_RULE,
        "hex" := HEX_RULE, "ws" := WS_RULE]
  }

  function ToolCallGrammar(catalog: Catalog): Rules {
    CallRules(catalog) + BaseRules(catalog)
  }

  // ---- terminals as text

  /** A terminal's characters, with the backslash and the quote escaped. */
  function LitBody(text: string): string {
    if text == "" then ""
    else
      LitBody(text[..|text| - 1])
      + (if text[|text| - 1] == '"' then "\\\"" else if text[|text| - 1] == '\\' then "\\\\" else [text[|text| - 1]])
  }

  method LitText(text: string) returns (out: string)
    ensures out == Quoted(LitBody(text))
  {
    out := "\"";
    for i := 0 to |text|
      invariant out == "\"" + LitBody(text[..i])
    {
      assert text[..i + 1][..i] == text[..i];
      match text[i] {
        case '"' => out := out + "\\\"";
        case '\\' => out := out + "\\\\";
        case _ => out := out + [text[i]];
      }
    }
    assert text[..|text|] == text;
    out := out + "\"";
  }

  /** Between its quotes a terminal has no quote of its own, and read with its escapes it is the text. */
  lemma {:induction false} LitReadsBack(text: string)
    ensures IsBody(LitBody(text)) && Unescape(LitBody(text)) == text
  {
    if text == "" {
      assert LitBody(text) == "";
    } else {
      hide IsBody, Unescape;
      var n := |text| - 1;
      LitReadsBack(text[..n]);
      var last := if text[n] == '"' then "\\\"" else if text[n] == '\\' then "\\\\" else [text[n]];
      LastReads(text[n], last);
      BodyConcat(LitBody(text[..n]), last);
      assert LitBody(text) == LitBody(text[..n]) + last;
      hide LitBody;
      assert text == text[..n] + [text[n]];
    }
  }

  lemma LastReads(c: char, last: string)
    requires last == if c == '"' then "\\\"" else if c == '\\' then "\\\\" else [c]
    ensures IsBody(last) && Unescape(last) == [c]
  {
    assert last[1..] == "" || last[2..] == "";
  }

  lemma {:induction false} BodyConcat(a: string, b: string)
    requires IsBody(a) && IsBody(b)
    ensures IsBody(a + b) && Unescape(a + b) == Unescape(a) + Unescape(b)
    decreases |a|
  {
    hide IsHex, CodeOf, Json.CharOf, Escaped, IsEscapable;
    if a == "" {
      assert a + b == b;
    } else if a[0] != '\\' {
      assert (a + b)[1..] == a[1..] + b;
      BodyConcat(a[1..], b);
      PrependOne(a[0], Unescape(a[1..]), Unescape(b));
    } else if a[1] == 'u' {
      assert (a + b)[6..] == a[6..] + b;
      BodyConcat(a[6..], b);
      PrependOne(Json.CharOf(CodeOf(a[2], a[3], a[4], a[5])), Unescape(a[6..]), Unescape(b));
    } else {
      assert (a + b)[2..] == a[2..] + b;
      BodyConcat(a[2..], b);
      PrependOne(Escaped(a[1]), Unescape(a[2..]), Unescape(b));
    }
  }

  lemma PrependOne(c: char, s: string, t: string)
    ensures [c] + (s + t) == [c] + s + t
  {
  }

  // ---- the builder

  /** Pushes one rule per tool, then the fixed ones. */
  method BuildGrammar(catalog: Catalog) returns (rules: Rules)
    ensures rules == ToolCallGrammar(catalog)
  {
    hide CallExpr, CallRule;
    rules := map[];
    var alternatives: seq<Expr> := [];
    for i := 0 to |catalog|
      invariant rules == CallRules(catalog[..i])
      invariant alternatives == CallRefs(catalog[..i])
    {
      assert catalog[..i + 1][..i] == catalog[..i];
      var rule := CallRule(catalog[i].name);
      alternatives := alternatives + [Ref(rule)];
      rules := rules[rule := CallExpr(catalog[i])];
    }
    assert catalog[..|catalog|] == catalog;
    rules := rules + map["root" := ROOT_RULE, "call" := Alternatives(alternatives), "string" := STRING_RULE,
                         "char" := CHAR_RULE, "hex" := HEX_RULE, "ws" := WS_RULE];
  }

  ghost predicate DistinctRules(catalog: Catalog) {
    forall i, j :: 0 <= i < j < |catalog| ==> CallRule(catalog[i].name) != CallRule(catalog[j].name)
  }

  /** The tool's rule is its own: no later tool has a rule of that name. */
  ghost predicate Ruling(catalog: Catalog, t: Tool) {
    exists i: nat :: RulesAt(catalog, t, i)
  }

  ghost predicate RulesAt(catalog: Catalog, t: Tool, i: nat) {
    i < |catalog| && catalog[i] == t && forall j :: i < j < |catalog| ==> CallRule(catalog[j].name) != CallRule(t.name)
  }

  /** Whatever rule a tool's name gives, some tool of the catalog rules it. */
  lemma {:induction false} CallRuleOf(catalog: Catalog, name: string) returns (t: Tool)
    requires exists i :: 0 <= i < |catalog| && CallRule(catalog[i].name) == CallRule(name)
    ensures Ruling(catalog, t) && CallRule(t.name) == CallRule(name)
  {
    hide CallRule;
    var n := |catalog| - 1;
    if CallRule(catalog[n].name) == CallRule(name) {
      t := catalog[n];
      assert RulesAt(catalog, t, n);
    } else {
      var i :| 0 <= i < |catalog| && CallRule(catalog[i].name) == CallRule(name);
      assert catalog[..n][i] == catalog[i];
      t := CallRuleOf(catalog[..n], name);
      var k: nat :| RulesAt(catalog[..n], t, k);
      assert RulesAt(catalog, t, k);
    }
  }

  lemma {:induction false} RulingRule(catalog: Catalog, t: Tool, i: nat)
    requires RulesAt(catalog, t, i)
    ensures CallRule(t.name) in CallRules(catalog) && CallRules(catalog)[CallRule(t.name)] == CallExpr(t)
  {
    hide CallExpr, CallRule;
    var n := |catalog| - 1;
    if i < n {
      RulingRule(catalog[..n], t, i);
    }
  }

  /** A call's rule name ends in "-call", so it is none of the fixed ones. */
  lemma CallRuleIsNotFixed(catalog: Catalog, name: string)
    ensures CallRule(name) !in BaseRules(catalog)
  {
    hide RuleId;
    var r := CallRule(name);
    assert |r| >= 5 && r[|r| - 5] == '-';
  }

  lemma RulesOf(catalog: Catalog, t: Tool)
    requires Ruling(catalog, t)
    ensures
      var g := ToolCallGrammar(catalog);
      var r := CallRule(t.name);
      r in g && g[r] == CallExpr(t) && r != "ws" && r != "string"
  {
    hide CallExpr, CallRule, CallRules;
    var i: nat :| RulesAt(catalog, t, i);
    RulingRule(catalog, t, i);
    CallRuleIsNotFixed(catalog, t.name);
  }

  // ---- tokens

  /** The token lists an expression derives, white space left out and string literals taken whole. */
  ghost predicate Spells(g: Rules, e: Expr, tokens: seq<string>, n: nat)
    decreases n, e
  {
    match e
    case Lit(t) => tokens == [t]
    case AnyOf(_) => false
    case NoneOf(_) => false
    case Cat(es) =>
      exists parts: seq<seq<string>> ::
        |parts| == |es| && tokens == Concat(parts) && forall i :: 0 <= i < |es| ==> Spells(g, es[i], parts[i], n)
    case Alt(es) => exists i :: 0 <= i < |es| && Spells(g, es[i], tokens, n)
    case Star(x) =>
      exists parts: seq<seq<string>> :: tokens == Concat(parts) && forall i :: 0 <= i < |parts| ==> Spells(g, x, parts[i], n)
    case Opt(x) => tokens == [] || Spells(g, x, tokens, n)
    case Ref(r) =>
      if r == "ws" then tokens == []
      else if r == "string" then exists body :: IsBody(body) && tokens == [Quoted(body)]
      else n > 0 && r in g && Spells(g, g[r], tokens, n - 1)
  }

  /** No single-character class outside of the white space and string rules. */
  predicate TokenLevel(e: Expr) {
    match e
    case Lit(_) => true
    case AnyOf(_) => false
    case NoneOf(_) => false
    case Cat(es) => forall i :: 0 <= i < |es| ==> TokenLevel(es[i])
    case Alt(es) => forall i :: 0 <= i < |es| ==> TokenLevel(es[i])
    case Star(x) => TokenLevel(x)
    case Opt(x) => TokenLevel(x)
    case Ref(r) => r != "char" && r != "hex"
  }

  predicate Tokenized(g: Rules) {
    && "ws" in g && g["ws"] == WS_RULE && "string" in g && g["string"] == STRING_RULE
    && "char" in g && g["char"] == CHAR_RULE && "hex" in g && g["hex"] == HEX_RULE
    && OthersTokenLevel(g)
  }

  predicate OthersTokenLevel(g: Rules) {
    forall r <- g :: r != "ws" && r != "string" && r != "char" && r != "hex" ==> TokenLevel(g[r])
  }

  /** The white space the grammar admits; the reader takes the carriage return too. */
  predicate AllBlank(s: string) {
    forall i :: 0 <= i < |s| ==> s[i] in " \t\n"
  }

  /** The text is these tokens, with the grammar's white space anywhere around them. */
  ghost predicate SetApart(s: string, tokens: seq<string>)
    decreases |tokens|
  {
    if tokens == [] then AllBlank(s)
    else exists w, r :: AllBlank(w) && SetApart(r, tokens[1..]) && s == w + tokens[0] + r
  }

  lemma {:induction false} SetApartIsSpaced(s: string, tokens: seq<string>)
    requires SetApart(s, tokens)
    ensures Spaced(s, tokens)
    decreases |tokens|
  {
    if tokens != [] {
      var w, r :| AllBlank(w) && SetApart(r, tokens[1..]) && s == w + tokens[0] + r;
      SetApartIsSpaced(r, tokens[1..]);
      assert AllSpace(w);
    }
  }

  // ---- inverting derivations

  lemma DerivesCat(g: Rules, es: seq<Expr>, s: string, n: nat) returns (parts: seq<string>)
    requires Derives(g, Cat(es), s, n)
    ensures |parts| == |es| && s == Concat(parts) && forall i :: 0 <= i < |es| ==> Derives(g, es[i], parts[i], n)
  {
    var parts': seq<string> :|
      |parts'| == |es| && s == Concat(parts') && forall i :: 0 <= i < |es| ==> Derives(g, es[i], parts'[i], n);
    parts := parts';
  }

  lemma DerivesStar(g: Rules, x: Expr, s: string, n: nat) returns (parts: seq<string>)
    requires Derives(g, Star(x), s, n)
    ensures s == Concat(parts) && forall i :: 0 <= i < |parts| ==> Derives(g, x, parts[i], n)
  {
    var parts': seq<string> :| s == Concat(parts') && forall i :: 0 <= i < |parts'| ==> Derives(g, x, parts'[i], n);
    parts := parts';
  }

  lemma DerivesAlt(g: Rules, es: seq<Expr>, s: string, n: nat) returns (i: nat)
    requires Derives(g, Alt(es), s, n)
    ensures i < |es| && Derives(g, es[i], s, n)
  {
    var k :| 0 <= k < |es| && Derives(g, es[k], s, n);
    i := k;
  }

  lemma DerivesRef(g: Rules, r: string, s: string, n: nat)
    requires Derives(g, Ref(r), s, n)
    ensures n > 0 && r in g && Derives(g, g[r], s, n - 1)
  {
  }

  lemma DerivesLit(g: Rules, t: string, s: string, n: nat)
    requires Derives(g, Lit(t), s, n)
    ensures s == t
  {
  }

  lemma DerivesClass(g: Rules, chars: string, s: string, n: nat)
    ensures Derives(g, AnyOf(chars), s, n) ==> |s| == 1 && s[0] in chars
    ensures Derives(g, NoneOf(chars), s, n) ==> |s| == 1 && s[0] !in chars
  {
  }

  // ---- what the fixed rules derive

  lemma {:induction false} SpacesDerived(g: Rules, n: nat, parts: seq<string>)
    requires forall i :: 0 <= i < |parts| ==> Derives(g, AnyOf(" \t\n"), parts[i], n)
    ensures AllBlank(Concat(parts))
  {
    hide Derives;
    if parts != [] {
      DerivesClass(g, " \t\n", parts[0], n);
      SpacesDerived(g, n, parts[1..]);
    }
  }

  lemma WsRule(g: Rules)
    requires Tokenized(g)
    ensures "ws" in g && g["ws"] == Star(AnyOf(" \t\n"))
  {
    hide OthersTokenLevel;
  }

  lemma HexRule(g: Rules)
    requires Tokenized(g)
    ensures "hex" in g && g["hex"] == AnyOf("0123456789abcdefABCDEF")
  {
    hide OthersTokenLevel;
  }

  lemma WsDerives(g: Rules, s: string, n: nat)
    requires Tokenized(g) && Derives(g, WS, s, n)
    ensures AllBlank(s)
  {
    hide Derives, AllBlank, Concat, Tokenized;
    WsRule(g);
    DerivesRef(g, "ws", s, n);
    var parts := DerivesStar(g, AnyOf(" \t\n"), s, n - 1);
    SpacesDerived(g, n - 1, parts);
  }

  lemma ConcatTwo<T>(parts: seq<seq<T>>)
    requires |parts| == 2
    ensures Concat(parts) == parts[0] + parts[1]
  {
    assert Concat(parts[1..]) == parts[1] + Concat(parts[2..]);
  }

  lemma ConcatThree<T>(parts: seq<seq<T>>)
    requires |parts| == 3
    ensures Concat(parts) == parts[0] + parts[1] + parts[2]
  {
    ConcatTwo(parts[1..]);
  }

  lemma ConcatFour<T>(parts: seq<seq<T>>)
    requires |parts| == 4
    ensures Concat(parts) == parts[0] + parts[1] + parts[2] + parts[3]
  {
    ConcatThree(parts[1..]);
  }

  lemma ConcatFive<T>(parts: seq<seq<T>>)
    requires |parts| == 5
    ensures Concat(parts) == parts[0] + parts[1] + parts[2] + parts[3] + parts[4]
  {
    ConcatFour(parts[1..]);
  }

  lemma HexDerives(g: Rules, s: string, n: nat)
    requires Tokenized(g) && Derives(g, HEX, s, n)
    ensures |s| == 1 && IsHex(s[0])
  {
    hide Derives, Tokenized;
    HexRule(g);
    DerivesRef(g, "hex", s, n);
    DerivesClass(g, "0123456789abcdefABCDEF", s, n - 1);
  }

  lemma UnicodeDerives(g: Rules, s: string, n: nat)
    requires Tokenized(g) && Derives(g, UNICODE, s, n)
    ensures |s| == 5 && s[0] == 'u' && IsHex(s[1]) && IsHex(s[2]) && IsHex(s[3]) && IsHex(s[4])
  {
    hide Derives, TokenLevel, Tokenized, IsHex, Concat;
    var parts := DerivesCat(g, UNICODE.parts, s, n);
    ConcatFive(parts);
    DerivesLit(g, "u", parts[0], n);
    HexDerives(g, parts[1], n);
    HexDerives(g, parts[2], n);
    HexDerives(g, parts[3], n);
    HexDerives(g, parts[4], n);
  }

  /** The escapes the grammar admits are the literal's. */
  lemma EscapeDerives(g: Rules, s: string, n: nat)
    requires Tokenized(g) && Derives(g, ESCAPE, s, n)
    ensures |s| == 2 || |s| == 6
    ensures s[0] == '\\'
    ensures |s| == 2 ==> IsEscapable(s[1])
    ensures |s| == 6 ==> s[1] == 'u' && IsHex(s[2]) && IsHex(s[3]) && IsHex(s[4]) && IsHex(s[5])
  {
    hide Derives, TokenLevel, Tokenized, IsHex, Concat;
    var parts := DerivesCat(g, ESCAPE.parts, s, n);
    ConcatTwo(parts);
    DerivesLit(g, "\\", parts[0], n);
    var choices := [AnyOf("\"\\/bfnrt"), UNICODE];
    assert ESCAPE.parts[1] == Alt(choices);
    var i := DerivesAlt(g, choices, parts[1], n);
    if i == 0 {
      DerivesClass(g, "\"\\/bfnrt", parts[1], n);
    } else {
      UnicodeDerives(g, parts[1], n);
    }
  }

  /** What the character rule derives is one character of a literal. */
  lemma CharDerives(g: Rules, s: string, n: nat, rest: string)
    requires Tokenized(g) && Derives(g, Ref("char"), s, n) && IsBody(rest)
    ensures IsBody(s + rest)
  {
    hide Derives, OthersTokenLevel, IsBody;
    DerivesRef(g, "char", s, n);
    var i := DerivesAlt(g, CHAR_RULE.choices, s, n - 1);
    if i == 0 {
      DerivesClass(g, "\"\\", s, n - 1);
      BodyChar(s, rest);
    } else {
      EscapeDerives(g, s, n - 1);
      BodyEscape(s, rest);
    }
  }

  lemma BodyChar(s: string, rest: string)
    requires |s| == 1 && s[0] != '"' && s[0] != '\\' && IsBody(rest)
    ensures IsBody(s + rest)
  {
    assert (s + rest)[1..] == rest;
  }

  lemma BodyEscape(s: string, rest: string)
    requires (|s| == 2 || |s| == 6) && s[0] == '\\' && IsBody(rest)
    requires |s| == 2 ==> IsEscapable(s[1])
    requires |s| == 6 ==> s[1] == 'u' && IsHex(s[2]) && IsHex(s[3]) && IsHex(s[4]) && IsHex(s[5])
    ensures IsBody(s + rest)
  {
    hide IsHex;
    assert (s + rest)[|s|..] == rest;
  }

  lemma {:induction false} CharsDerive(g: Rules, n: nat, parts: seq<string>)
    requires Tokenized(g) && forall i :: 0 <= i < |parts| ==> Derives(g, Ref("char"), parts[i], n)
    ensures IsBody(Concat(parts))
  {
    hide IsBody, Derives, Tokenized;
    if parts == [] {
      EmptyBody();
    } else {
      CharsDerive(g, n, parts[1..]);
      CharDerives(g, parts[0], n, Concat(parts[1..]));
    }
  }

  lemma EmptyBody()
    ensures IsBody("")
  {
  }

  lemma StringDerives(g: Rules, s: string, n: nat) returns (body: string)
    requires Tokenized(g) && Derives(g, STRING, s, n)
    ensures IsBody(body) && s == Quoted(body)
  {
    hide IsBody, Derives, OthersTokenLevel, Concat;
    DerivesRef(g, "string", s, n);
    var parts := DerivesCat(g, STRING_RULE.parts, s, n - 1);
    ConcatThree(parts);
    DerivesLit(g, "\"", parts[0], n - 1);
    DerivesLit(g, "\"", parts[2], n - 1);
    body := parts[1];
    var chars := DerivesStar(g, Ref("char"), body, n - 1);
    CharsDerive(g, n - 1, chars);
  }

  // ---- spacing composes

  lemma {:induction false} SpacedBefore(w: string, s: string, tokens: seq<string>)
    requires AllBlank(w) && SetApart(s, tokens)
    ensures SetApart(w + s, tokens)
  {
    if tokens != [] {
      var v, r :| AllBlank(v) && SetApart(r, tokens[1..]) && s == v + tokens[0] + r;
      assert w + s == (w + v) + tokens[0] + r;
      assert AllBlank(w + v);
    }
  }

  lemma SpacedCons(w: string, token: string, r: string, tokens: seq<string>)
    requires AllBlank(w) && SetApart(r, tokens)
    ensures SetApart(w + token + r, [token] + tokens)
  {
    assert ([token] + tokens)[1..] == tokens;
  }

  lemma {:induction false} SpacedConcat(s: string, a: seq<string>, t: string, b: seq<string>)
    requires SetApart(s, a) && SetApart(t, b)
    ensures SetApart(s + t, a + b)
    decreases |a|
  {
    if a == [] {
      SpacedBefore(s, t, b);
      assert a + b == b;
    } else {
      var v, r :| AllBlank(v) && SetApart(r, a[1..]) && s == v + a[0] + r;
      hide SetApart, AllBlank;
      SpacedConcat(r, a[1..], t, b);
      SpacedCons(v, a[0], r + t, a[1..] + b);
      assert [a[0]] + (a[1..] + b) == a + b;
      assert v + a[0] + (r + t) == s + t;
    }
  }

  lemma SpacedToken(t: string)
    ensures SetApart(t, [t])
  {
    assert AllBlank("") && SetApart("", [t][1..]) && t == "" + [t][0] + "";
  }

  lemma {:induction false} SpacedParts(parts: seq<string>, tokens: seq<seq<string>>)
    requires |parts| == |tokens| && forall i :: 0 <= i < |parts| ==> SetApart(parts[i], tokens[i])
    ensures SetApart(Concat(parts), Concat(tokens))
  {
    hide SetApart;
    if parts == [] {
      SpacedNothing();
    } else {
      SpacedParts(parts[1..], tokens[1..]);
      SpacedConcat(parts[0], tokens[0], Concat(parts[1..]), Concat(tokens[1..]));
    }
  }

  lemma SpacedNothing()
    ensures SetApart("", [])
  {
  }

  /** The text spaces out a list of tokens the expression derives. */
  ghost predicate Tokenizes(g: Rules, e: Expr, s: string, tokens: seq<string>, n: nat) {
    Spells(g, e, tokens, n) && SetApart(s, tokens)
  }

  ghost predicate HasTokens(g: Rules, e: Expr, s: string, n: nat) {
    exists tokens :: Tokenizes(g, e, s, tokens, n)
  }

  /** One list of tokens for each part makes one for the whole. */
  lemma ListsTokenize(g: Rules, es: seq<Expr>, parts: seq<string>, n: nat) returns (lists: seq<seq<string>>)
    requires |es| == |parts|
    requires forall i :: 0 <= i < |es| ==> HasTokens(g, es[i], parts[i], n)
    ensures |lists| == |es| && SetApart(Concat(parts), Concat(lists))
    ensures forall i :: 0 <= i < |es| ==> Spells(g, es[i], lists[i], n)
  {
    hide Spells, SetApart, Concat;
    lists := Choose(g, es, parts, n);
    SpacedParts(parts, lists);
  }

  /** Every derived text is some derived list of tokens, spaced out. */
  lemma {:induction false} DerivedTokens(g: Rules, e: Expr, s: string, n: nat)
    requires Tokenized(g) && TokenLevel(e) && Derives(g, e, s, n)
    ensures HasTokens(g, e, s, n)
    decreases n, e, 1
  {
    hide SetApart, Tokenized, Concat;
    match e {
      case Lit(t) =>
        SpacedToken(t);
        assert Tokenizes(g, e, s, [t], n);
      case Cat(es) => CatTokens(g, es, s, n);
      case Alt(es) =>
        var i := DerivesAlt(g, es, s, n);
        DerivedTokens(g, es[i], s, n);
        var tokens :| Tokenizes(g, es[i], s, tokens, n);
        assert Tokenizes(g, e, s, tokens, n);
      case Star(x) => StarTokens(g, x, s, n);
      case Opt(x) =>
        if s == "" {
          SpacedNothing();
          assert Tokenizes(g, e, s, [], n);
        } else {
          DerivedTokens(g, x, s, n);
          var tokens :| Tokenizes(g, x, s, tokens, n);
          assert Tokenizes(g, e, s, tokens, n);
        }
      case Ref(r) =>
        DerivedRef(g, r, s, n);
        if r != "ws" && r != "string" {
          RuleIsTokenLevel(g, r);
          DerivedTokens(g, g[r], s, n - 1);
          var tokens :| Tokenizes(g, g[r], s, tokens, n - 1);
          assert Tokenizes(g, e, s, tokens, n);
        }
    }
  }

  lemma {:induction false} CatTokens(g: Rules, es: seq<Expr>, s: string, n: nat)
    requires Tokenized(g) && TokenLevel(Cat(es)) && Derives(g, Cat(es), s, n)
    ensures HasTokens(g, Cat(es), s, n)
    decreases n, Cat(es), 0
  {
    hide SetApart, Tokenized, Derives;
    var parts := DerivesCat(g, es, s, n);
    forall i | 0 <= i < |es|
      ensures HasTokens(g, es[i], parts[i], n)
    {
      DerivedTokens(g, es[i], parts[i], n);
    }
    var lists := ListsTokenize(g, es, parts, n);
    assert Tokenizes(g, Cat(es), s, Concat(lists), n);
  }

  lemma {:induction false} StarTokens(g: Rules, x: Expr, s: string, n: nat)
    requires Tokenized(g) && TokenLevel(Star(x)) && Derives(g, Star(x), s, n)
    ensures HasTokens(g, Star(x), s, n)
    decreases n, Star(x), 0
  {
    hide SetApart, Tokenized, Derives;
    var parts := DerivesStar(g, x, s, n);
    var es := seq(|parts|, _ => x);
    forall i | 0 <= i < |parts|
      ensures HasTokens(g, es[i], parts[i], n)
    {
      DerivedTokens(g, x, parts[i], n);
    }
    var lists := ListsTokenize(g, es, parts, n);
    assert forall i :: 0 <= i < |lists| ==> Spells(g, es[i], lists[i], n);
    assert Tokenizes(g, Star(x), s, Concat(lists), n);
  }

  lemma RuleIsTokenLevel(g: Rules, r: string)
    requires Tokenized(g) && r in g && r != "ws" && r != "string" && r != "char" && r != "hex"
    ensures TokenLevel(g[r])
  {
  }

  lemma DerivedRef(g: Rules, r: string, s: string, n: nat)
    requires Tokenized(g) && Derives(g, Ref(r), s, n)
    ensures r == "ws" || r == "string" ==> HasTokens(g, Ref(r), s, n)
  {
    hide Tokenized, Derives, IsBody;
    if r == "ws" {
      WsDerives(g, s, n);
      assert Tokenizes(g, Ref(r), s, [], n);
    } else if r == "string" {
      var body := StringDerives(g, s, n);
      SpacedToken(s);
      assert Tokenizes(g, Ref(r), s, [s], n);
    }
  }

  ghost function TokensOf(g: Rules, e: Expr, s: string, n: nat): (tokens: seq<string>)
    requires HasTokens(g, e, s, n)
    ensures Tokenizes(g, e, s, tokens, n)
  {
    var tokens :| Tokenizes(g, e, s, tokens, n);
    tokens
  }

  /** One list of tokens for each part. */
  ghost function Choose(g: Rules, es: seq<Expr>, parts: seq<string>, n: nat): (lists: seq<seq<string>>)
    requires |es| == |parts|
    requires forall i :: 0 <= i < |es| ==> HasTokens(g, es[i], parts[i], n)
    ensures |lists| == |es|
    ensures forall i :: 0 <= i < |es| ==> Spells(g, es[i], lists[i], n) && SetApart(parts[i], lists[i])
  {
    seq(|es|, i requires 0 <= i < |es| => TokensOf(g, es[i], parts[i], n))
  }
}
