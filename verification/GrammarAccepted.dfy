/**
 The seam between the planner's grammar and its reader (crates/aura/src/llama.rs): every text the
 grammar of a catalog derives is accepted, and becomes the steps the text spells.
 */
module GrammarAccepted {
  import opened Outcomes
  import opened Tools
  import opened JsonText
  import opened Grammar
  import opened ToolCalls
  import Json
  import Utf8

  // ---- from the grammar to calls

  lemma {:induction false} FilterBounds(params: seq<ParamSpec>)
    ensures params == [] <==> Filter(params, true) == [] && Filter(params, false) == []
  {
    if params != [] {
      FilterBounds(params[1..]);
    }
  }

  /** All arguments named by required parameters, then the chosen optional ones. */
  lemma JoinArgs(params: seq<ParamSpec>, required: seq<Arg>, optional: seq<Arg>)
    requires Named(Filter(params, true), required) && SomeNamed(Filter(params, false), optional)
    requires AllBodies(required) && AllBodies(optional)
    requires required == [] ==> Anchored(Filter(params, false), optional)
    ensures FitsParams(params, required + optional)
  {
    hide Filter, IsBody, SomeNamed, Anchored;
    assert required == [] ==> required + optional == optional;
    assert (required + optional)[..|required|] == required;
    assert (required + optional)[|required|..] == optional;
  }

  lemma SpellsRequiredArgs(g: Rules, params: seq<ParamSpec>, tokens: seq<string>, n: nat) returns (args: seq<Arg>)
    requires Filter(params, true) != [] && Spells(g, ArgsObject(params), tokens, n)
    ensures FitsParams(params, args) && tokens == Tokens(ArgsRecord(args))
  {
    hide Spells, Pair, IsBody, Concat, Tokens, Filter, MoreRequired, MoreOptional, PairTokens, TailTokens, ArgsRecord, FitsParams;
    var required, optional := Filter(params, true), Filter(params, false);
    var first := Cat([Pair(required[0].name, STRING), WS]);
    FilterBounds(params);
    var parts := SpellsCat(g, [Lit("{"), WS, first, Cat(MoreRequired(required[1..])), Cat(MoreOptional(optional)), Lit("}")], tokens, n);
    ConcatSix(parts);
    SpellsLit(g, "{", parts[0], n);
    SpellsWs(g, parts[1], n);
    var a := SpellsAnchor(g, required[0].name, parts[2], n);
    var more := SpellsMoreRequired(g, required[1..], parts[3], n);
    var chosen := SpellsMoreOptional(g, optional, parts[4], n);
    SpellsLit(g, "}", parts[5], n);
    args := [a] + more + chosen;
    JoinArgs(params, [a] + more, chosen);
    assert args[1..] == more + chosen;
    TailConcat(more, chosen);
    RecordOfArgs(args);
  }

  lemma SpellsAnchor(g: Rules, name: string, tokens: seq<string>, n: nat) returns (a: Arg)
    requires Spells(g, Cat([Pair(name, STRING), WS]), tokens, n)
    ensures a.name == name && IsBody(a.body) && tokens == PairTokens(a)
  {
    hide Spells, Pair, IsBody, Concat;
    var parts := SpellsCat(g, [Pair(name, STRING), WS], tokens, n);
    ConcatTwo(parts);
    a := SpellsArg(g, name, parts[0], n);
    SpellsWs(g, parts[1], n);
  }

  lemma ConcatSix<T>(parts: seq<seq<T>>)
    requires |parts| == 6
    ensures Concat(parts) == parts[0] + parts[1] + parts[2] + parts[3] + parts[4] + parts[5]
  {
    ConcatFive(parts[1..]);
  }

  lemma SpellsOptionalArgs(g: Rules, params: seq<ParamSpec>, tokens: seq<string>, n: nat) returns (args: seq<Arg>)
    requires params != [] && Filter(params, true) == [] && Spells(g, ArgsObject(params), tokens, n)
    ensures FitsParams(params, args) && tokens == Tokens(ArgsRecord(args))
  {
    hide Spells, Pair, IsBody, Concat, Tokens, Filter, MoreOptional, PairTokens, TailTokens, ArgsRecord, FitsParams, SomeNamed;
    var optional := Filter(params, false);
    FilterBounds(params);
    var body := [Cat([Pair(optional[0].name, STRING), WS]), Cat(MoreOptional(optional[1..]))];
    var parts := SpellsCat(g, [Lit("{"), WS, Opt(Cat(body)), Lit("}")], tokens, n);
    ConcatFour(parts);
    SpellsLit(g, "{", parts[0], n);
    SpellsWs(g, parts[1], n);
    SpellsLit(g, "}", parts[3], n);
    SpellsOpt(g, Cat(body), parts[2], n);
    if parts[2] == [] {
      args := [];
      NoneNamed(optional);
    } else {
      var two := SpellsCat(g, body, parts[2], n);
      ConcatTwo(two);
      var a := SpellsAnchor(g, optional[0].name, two[0], n);
      var chosen := SpellsMoreOptional(g, optional[1..], two[1], n);
      args := [a] + chosen;
      assert args[1..] == chosen;
      FirstNamed(optional, args);
    }
    JoinArgs(params, [], args);
    assert [] + args == args;
    RecordOfArgs(args);
  }

  lemma FirstNamed(params: seq<ParamSpec>, args: seq<Arg>)
    requires params != [] && args != [] && args[0].name == params[0].name && SomeNamed(params[1..], args[1..])
    ensures SomeNamed(params, args)
  {
  }

  lemma {:induction false} NoneNamed(params: seq<ParamSpec>)
    ensures SomeNamed(params, [])
  {
    if params != [] {
      NoneNamed(params[1..]);
    }
  }

  lemma SpellsNoArgs(g: Rules, tokens: seq<string>, n: nat)
    requires Spells(g, Cat([Lit("{"), WS, Lit("}")]), tokens, n)
    ensures tokens == Tokens(ArgsRecord([])) && FitsParams([], [])
  {
    hide Spells, Concat, Tokens;
    var parts := SpellsCat(g, [Lit("{"), WS, Lit("}")], tokens, n);
    ConcatThree(parts);
    SpellsLit(g, "{", parts[0], n);
    SpellsWs(g, parts[1], n);
    SpellsLit(g, "}", parts[2], n);
    RecordOfArgs([]);
  }

  /** What the arguments rule of a tool spells is an object of its arguments. */
  lemma SpellsArgs(g: Rules, params: seq<ParamSpec>, tokens: seq<string>, n: nat) returns (args: seq<Arg>)
    requires Spells(g, ArgsObject(params), tokens, n)
    ensures FitsParams(params, args) && tokens == Tokens(ArgsRecord(args))
  {
    hide Spells, Tokens, FitsParams, ArgsRecord;
    if params == [] {
      SpellsNoArgs(g, tokens, n);
      args := [];
    } else if Filter(params, true) != [] {
      args := SpellsRequiredArgs(g, params, tokens, n);
    } else {
      args := SpellsOptionalArgs(g, params, tokens, n);
    }
  }

  lemma CallTokens(c: Call)
    ensures Tokens(CallTree(c)) ==
      ["{", Quoted("tool"), ":", Quoted(c.tool.name), ",", Quoted("args"), ":"] + Tokens(ArgsRecord(c.args))
      + [",", Quoted("rationale"), ":", Quoted(c.rationale), "}"]
  {
    hide Quoted, Members;
    var why := Member("rationale", Text(c.rationale));
    var args := Member("args", ArgsRecord(c.args));
    var tool := Member("tool", Text(c.tool.name));
    assert MemberTokens([why]) == [Quoted("rationale"), ":", Quoted(c.rationale)];
    MemberThen(args, [why]);
    MemberThen(tool, [args, why]);
    assert [tool] + [args, why] == [tool, args, why] && [args] + [why] == [args, why];
  }

  lemma MemberThen(m: Member, rest: seq<Member>)
    requires rest != []
    ensures MemberTokens([m] + rest) == [Quoted(m.key), ":"] + Tokens(m.value) + [","] + MemberTokens(rest)
  {
    hide Quoted, Tokens;
    assert ([m] + rest)[1..] == rest;
  }

  lemma SpellsCall(g: Rules, t: Tool, tokens: seq<string>, n: nat) returns (c: Call)
    requires Spells(g, CallExpr(t), tokens, n)
    ensures c.tool == t && FitsParams(t.params, c.args) && IsBody(c.rationale) && tokens == Tokens(CallTree(c))
  {
    hide Spells, Pair, IsBody, Concat, Tokens, FitsParams, ArgsRecord, CallTree, Quoted, ArgsObject;
    var later := [Pair("args", ArgsObject(t.params)), WS, Lit(","), WS, Pair("rationale", STRING), WS, Lit("}")];
    var es := [Lit("{"), WS, Pair("tool", Lit(Quoted(t.name))), WS, Lit(","), WS, Cat(later)];
    var parts := SpellsCat(g, es, tokens, n);
    ConcatSeven(parts);
    SpellsLit(g, "{", parts[0], n);
    SpellsWs(g, parts[1], n);
    var name := SpellsPair(g, "tool", Lit(Quoted(t.name)), parts[2], n);
    SpellsLit(g, Quoted(t.name), name, n);
    SpellsWs(g, parts[3], n);
    SpellsLit(g, ",", parts[4], n);
    SpellsWs(g, parts[5], n);
    c := SpellsArgsAndWhy(g, t, parts[6], n);
    CallTokens(c);
  }

  lemma SpellsArgsAndWhy(g: Rules, t: Tool, tokens: seq<string>, n: nat) returns (c: Call)
    requires Spells(g, Cat([Pair("args", ArgsObject(t.params)), WS, Lit(","), WS, Pair("rationale", STRING), WS, Lit("}")]), tokens, n)
    ensures c.tool == t && FitsParams(t.params, c.args) && IsBody(c.rationale)
    ensures tokens == [Quoted("args"), ":"] + Tokens(ArgsRecord(c.args)) + [",", Quoted("rationale"), ":", Quoted(c.rationale), "}"]
  {
    hide Spells, Pair, IsBody, Concat, Tokens, FitsParams, ArgsRecord, Quoted, ArgsObject;
    var es := [Pair("args", ArgsObject(t.params)), WS, Lit(","), WS, Pair("rationale", STRING), WS, Lit("}")];
    var parts := SpellsCat(g, es, tokens, n);
    ConcatSeven(parts);
    var record := SpellsPair(g, "args", ArgsObject(t.params), parts[0], n);
    var args := SpellsArgs(g, t.params, record, n);
    SpellsWs(g, parts[1], n);
    SpellsLit(g, ",", parts[2], n);
    SpellsWs(g, parts[3], n);
    var why := SpellsPair(g, "rationale", STRING, parts[4], n);
    var body := SpellsString(g, why, n);
    SpellsWs(g, parts[5], n);
    SpellsLit(g, "}", parts[6], n);
    c := Call(t, args, body);
  }

  lemma ConcatSeven<T>(parts: seq<seq<T>>)
    requires |parts| == 7
    ensures Concat(parts) == parts[0] + parts[1] + parts[2] + parts[3] + parts[4] + parts[5] + parts[6]
  {
    ConcatSix(parts[1..]);
  }

  /** Distinct rule names make the first tool of a name the only one. */
  lemma {:induction false} GetOfDistinct(catalog: Catalog, i: nat)
    requires i < |catalog| && DistinctRules(catalog)
    ensures Get(catalog, catalog[i].name) == Some(catalog[i])
  {
    hide CallRule;
    if i > 0 {
      assert CallRule(catalog[0].name) != CallRule(catalog[i].name);
      assert DistinctRules(catalog[1..]) by {
        forall j, k | 0 <= j < k < |catalog[1..]|
          ensures CallRule(catalog[1..][j].name) != CallRule(catalog[1..][k].name)
        {
          assert catalog[1..][j] == catalog[j + 1] && catalog[1..][k] == catalog[k + 1];
        }
      }
      GetOfDistinct(catalog[1..], i - 1);
    }
  }

  /** A tool that rules its rule is in the catalog, so the reader knows its name. */
  lemma RulingIsKnown(catalog: Catalog, t: Tool)
    requires Ruling(catalog, t)
    ensures t in catalog && Get(catalog, t.name).Some?
    ensures DistinctRules(catalog) ==> Get(catalog, t.name) == Some(t)
  {
    hide CallRule, Get, DistinctRules;
    var i: nat :| RulesAt(catalog, t, i);
    GetFinds(catalog, t.name);
    if DistinctRules(catalog) {
      GetOfDistinct(catalog, i);
    }
  }

  lemma SpellsAlt(g: Rules, es: seq<Expr>, tokens: seq<string>, n: nat) returns (i: nat)
    requires Spells(g, Alt(es), tokens, n)
    ensures i < |es| && Spells(g, es[i], tokens, n)
  {
    var k :| 0 <= k < |es| && Spells(g, es[k], tokens, n);
    i := k;
  }

  lemma SpellsCatalogCall(catalog: Catalog, tokens: seq<string>, n: nat) returns (c: Call)
    requires catalog != []
    requires Spells(ToolCallGrammar(catalog), Ref("call"), tokens, n)
    ensures ValidCall(catalog, c) && tokens == Tokens(CallTree(c))
  {
    hide Spells, Tokens, CallTree, CallRules, CallRule, CallExpr, Ruling, FitsParams, IsBody;
    var g := ToolCallGrammar(catalog);
    SpellsRef(g, "call", tokens, n);
    assert g["call"] == Alt(CallRefs(catalog));
    var i := SpellsAlt(g, CallRefs(catalog), tokens, n - 1);
    var t := CallRuleOf(catalog, catalog[i].name);
    RulesOf(catalog, t);
    SpellsRef(g, CallRule(t.name), tokens, n - 1);
    c := SpellsCall(g, t, tokens, n - 2);
  }

  ghost predicate AllValid(catalog: Catalog, calls: seq<Call>) {
    forall i :: 0 <= i < |calls| ==> ValidCall(catalog, calls[i])
  }

  function TailItems(trees: seq<Tree>): seq<string> {
    if trees == [] then [] else [","] + Tokens(trees[0]) + TailItems(trees[1..])
  }

  lemma {:induction false} ItemsTail(trees: seq<Tree>)
    requires trees != []
    ensures ItemTokens(trees) == Tokens(trees[0]) + TailItems(trees[1..])
    decreases |trees|
  {
    hide Tokens;
    if |trees| > 1 {
      ItemsTail(trees[1..]);
    }
  }

  const NEXT_CALL: Expr := Cat([WS, Lit(","), WS, Ref("call")])

  lemma SpellsNextCall(catalog: Catalog, tokens: seq<string>, n: nat) returns (c: Call)
    requires catalog != []
    requires Spells(ToolCallGrammar(catalog), NEXT_CALL, tokens, n)
    ensures ValidCall(catalog, c) && tokens == [","] + Tokens(CallTree(c))
  {
    hide Spells, Tokens, CallTree, ToolCallGrammar, ValidCall, Concat;
    var g := ToolCallGrammar(catalog);
    var parts := SpellsCat(g, [WS, Lit(","), WS, Ref("call")], tokens, n);
    ConcatFour(parts);
    SpellsWs(g, parts[0], n);
    SpellsLit(g, ",", parts[1], n);
    SpellsWs(g, parts[2], n);
    c := SpellsCatalogCall(catalog, parts[3], n);
  }

  lemma {:induction false} SpellsMoreCalls(catalog: Catalog, parts: seq<seq<string>>, n: nat) returns (calls: seq<Call>)
    requires catalog != []
    requires forall i :: 0 <= i < |parts| ==> Spells(ToolCallGrammar(catalog), NEXT_CALL, parts[i], n)
    ensures AllValid(catalog, calls) && Concat(parts) == TailItems(Trees(calls))
    decreases |parts|
  {
    hide Spells, Tokens, CallTree, ToolCallGrammar, ValidCall;
    if parts == [] {
      calls := [];
    } else {
      var c := SpellsNextCall(catalog, parts[0], n);
      var more := SpellsMoreCalls(catalog, parts[1..], n);
      calls := [c] + more;
      assert Trees(calls)[1..] == Trees(more);
    }
  }

  lemma SpellsStar(g: Rules, x: Expr, tokens: seq<string>, n: nat) returns (parts: seq<seq<string>>)
    requires Spells(g, Star(x), tokens, n)
    ensures tokens == Concat(parts) && forall i :: 0 <= i < |parts| ==> Spells(g, x, parts[i], n)
  {
    var parts': seq<seq<string>> :| tokens == Concat(parts') && forall i :: 0 <= i < |parts'| ==> Spells(g, x, parts'[i], n);
    parts := parts';
  }

  lemma SpellsRoot(catalog: Catalog, tokens: seq<string>, n: nat) returns (calls: seq<Call>)
    requires catalog != []
    requires Spells(ToolCallGrammar(catalog), Ref("root"), tokens, n)
    ensures calls != [] && AllValid(catalog, calls) && tokens == Tokens(List(Trees(calls)))
  {
    hide Spells, CallTree, CallRules, ValidCall, Concat, ItemTokens, TailItems;
    var g := ToolCallGrammar(catalog);
    SpellsRef(g, "root", tokens, n);
    var m := n - 1;
    var close := [WS, Lit("]"), WS];
    var parts := SpellsCat(g, [WS, Lit("["), WS, Ref("call"), Star(NEXT_CALL), Cat(close)], tokens, m);
    ConcatSix(parts);
    SpellsWs(g, parts[0], m);
    SpellsLit(g, "[", parts[1], m);
    SpellsWs(g, parts[2], m);
    var first := SpellsCatalogCall(catalog, parts[3], m);
    var nexts := SpellsStar(g, NEXT_CALL, parts[4], m);
    var more := SpellsMoreCalls(catalog, nexts, m);
    var last := SpellsCat(g, close, parts[5], m);
    ConcatThree(last);
    SpellsWs(g, last[0], m);
    SpellsLit(g, "]", last[1], m);
    SpellsWs(g, last[2], m);
    calls := [first] + more;
    assert Trees(calls)[1..] == Trees(more) && Trees(calls)[0] == CallTree(first);
    ItemsTail(Trees(calls));
  }

  // ---- from calls to steps

  lemma {:induction false} ArgsRead(args: seq<Arg>, entries: seq<(string, Json.Value)>)
    requires AllBodies(args) && |entries| == |args|
    requires forall i :: 0 <= i < |args| ==> entries[i] == (args[i].name, Json.Str(Unescape(args[i].body)))
    ensures ArgsOf(entries) == ArgMap(args)
    decreases |args|
  {
    hide IsBody, Unescape;
    if args != [] {
      var n := |args| - 1;
      ArgsRead(args[..n], entries[..n]);
    }
  }

  lemma PlainArgs(catalog: Catalog, c: Call)
    requires PlainNames(catalog) && ValidCall(catalog, c)
    ensures Plain(c.tool.name) && forall i :: 0 <= i < |c.args| ==> Plain(c.args[i].name)
  {
    hide IsBody, Plain;
    var params, k := c.tool.params, |Filter(c.tool.params, true)|;
    RulingIsKnown(catalog, c.tool);
    FilterPlain(params, true);
    FilterPlain(params, false);
    SomeNamedPlain(Filter(params, false), c.args[k..]);
    forall i | 0 <= i < |c.args|
      ensures Plain(c.args[i].name)
    {
      if i < k {
        assert c.args[..k][i].name == Filter(params, true)[i].name;
      } else {
        assert c.args[k..][i - k] == c.args[i];
      }
    }
  }

  lemma {:induction false} FilterPlain(params: seq<ParamSpec>, required: bool)
    requires forall j :: 0 <= j < |params| ==> Plain(params[j].name)
    ensures forall j :: 0 <= j < |Filter(params, required)| ==> Plain(Filter(params, required)[j].name)
  {
    hide Plain;
    if params != [] {
      FilterPlain(params[1..], required);
    }
  }

  lemma {:induction false} SomeNamedPlain(params: seq<ParamSpec>, args: seq<Arg>)
    requires SomeNamed(params, args) && forall j :: 0 <= j < |params| ==> Plain(params[j].name)
    ensures forall j :: 0 <= j < |args| ==> Plain(args[j].name)
    decreases |params|
  {
    hide Plain;
    if params != [] {
      if args != [] && args[0].name == params[0].name && SomeNamed(params[1..], args[1..]) {
        SomeNamedPlain(params[1..], args[1..]);
        assert args == [args[0]] + args[1..];
      } else {
        SomeNamedPlain(params[1..], args);
      }
    }
  }

  lemma PlainMembers(args: seq<Arg>)
    requires AllBodies(args) && forall i :: 0 <= i < |args| ==> Plain(args[i].name)
    ensures WellFormed(ArgsRecord(args))
    ensures
      var v := Meaning(ArgsRecord(args));
      v.Object? && ArgsOf(v.entries) == ArgMap(args)
  {
    hide IsBody, Unescape, ArgMap, ArgsOf;
    forall i | 0 <= i < |args|
      ensures IsBody(args[i].name) && Unescape(args[i].name) == args[i].name
    {
      PlainBody(args[i].name);
    }
    ArgsRead(args, Meaning(ArgsRecord(args)).entries);
  }

  lemma LookupPast(entries: seq<(string, Json.Value)>, key: string)
    requires entries != [] && entries[0].0 != key
    ensures Json.Lookup(entries, key) == Json.Lookup(entries[1..], key)
  {
  }

  lemma ThreeEntries(a: Json.Value, b: Json.Value, c: Json.Value)
    ensures
      var v := Json.Object([("tool", a), ("args", b), ("rationale", c)]);
      Json.Get(v, "tool") == Some(a) && Json.Get(v, "args") == Some(b) && Json.Get(v, "rationale") == Some(c)
  {
    var es := [("tool", a), ("args", b), ("rationale", c)];
    assert es[1..] == [("args", b), ("rationale", c)] && es[1..][1..] == [("rationale", c)];
    assert "tool"[0] == 't' && "args"[0] == 'a' && "rationale"[0] == 'r';
    LookupPast(es, "args");
    LookupPast(es, "rationale");
    LookupPast(es[1..], "rationale");
  }

  lemma ThreeMean(a: Member, b: Member, c: Member)
    requires IsBody(a.key) && IsBody(b.key) && IsBody(c.key)
    requires WellFormed(a.value) && WellFormed(b.value) && WellFormed(c.value)
    ensures WellFormed(Record([a, b, c]))
    ensures Meaning(Record([a, b, c])) ==
      Json.Object([(Unescape(a.key), Meaning(a.value)), (Unescape(b.key), Meaning(b.value)), (Unescape(c.key), Meaning(c.value))])
  {
    hide IsBody, Unescape;
  }

  lemma TextMeans(body: string)
    requires IsBody(body)
    ensures WellFormed(Text(body)) && Meaning(Text(body)) == Json.Str(Unescape(body))
  {
    hide IsBody, Unescape;
  }

  /** A call's object is read as the call's step. */
  lemma CallMeans(catalog: Catalog, c: Call)
    requires PlainNames(catalog) && ValidCall(catalog, c)
    ensures WellFormed(CallTree(c)) && StepOf(Meaning(CallTree(c)), catalog) == Ok(CallStep(c))
  {
    hide IsBody, Unescape, ArgMap, ArgsOf, Json.Lookup, PlainNames, Get, WellFormed, Meaning, Filter, SomeNamed;
    PlainArgs(catalog, c);
    RulingIsKnown(catalog, c.tool);
    PlainMembers(c.args);
    PlainBody(c.tool.name);
    PlainBody("tool");
    PlainBody("args");
    PlainBody("rationale");
    TextMeans(c.tool.name);
    TextMeans(c.rationale);
    var args := Meaning(ArgsRecord(c.args));
    ThreeMean(Member("tool", Text(c.tool.name)), Member("args", ArgsRecord(c.args)), Member("rationale", Text(c.rationale)));
    ThreeEntries(Json.Str(c.tool.name), args, Json.Str(Unescape(c.rationale)));
  }

  function StepsOf(calls: seq<Call>): seq<Step>
    requires forall i :: 0 <= i < |calls| ==> AllBodies(calls[i].args) && IsBody(calls[i].rationale)
  {
    seq(|calls|, i requires 0 <= i < |calls| => CallStep(calls[i]))
  }

  lemma ValidBodies(catalog: Catalog, calls: seq<Call>)
    requires AllValid(catalog, calls)
    ensures forall i :: 0 <= i < |calls| ==> AllBodies(calls[i].args) && IsBody(calls[i].rationale)
  {
    hide IsBody, Filter;
  }

  lemma {:induction false} CallsRead(catalog: Catalog, calls: seq<Call>, items: seq<Json.Value>)
    requires PlainNames(catalog) && AllValid(catalog, calls) && |items| == |calls|
    requires forall i :: 0 <= i < |calls| ==> WellFormed(CallTree(calls[i])) && items[i] == Meaning(CallTree(calls[i]))
    ensures forall i :: 0 <= i < |calls| ==> AllBodies(calls[i].args) && IsBody(calls[i].rationale)
    ensures StepsFrom(items, catalog) == Ok(StepsOf(calls))
    decreases |calls|
  {
    hide IsBody, PlainNames, ValidCall, Meaning, StepOf, CallStep, WellFormed;
    ValidBodies(catalog, calls);
    if calls != [] {
      CallsRead(catalog, calls[1..], items[1..]);
      CallMeans(catalog, calls[0]);
      assert StepsOf(calls) == [CallStep(calls[0])] + StepsOf(calls[1..]);
    } else {
      assert StepsOf(calls) == [];
    }
  }

  /** A text that spaces out an array of valid calls is accepted and becomes their steps. */
  lemma SpacedCallsAccepted(catalog: Catalog, calls: seq<Call>, s: string)
    requires PlainNames(catalog) && AllValid(catalog, calls) && Spaced(s, Tokens(List(Trees(calls))))
    ensures forall i :: 0 <= i < |calls| ==> AllBodies(calls[i].args) && IsBody(calls[i].rationale)
    ensures ToolCallsOf(s, catalog) == Ok(StepsOf(calls))
  {
    hide IsBody, PlainNames, Spaced, Tokens, CallTree, CallStep, StepOf, Json.ParseText, Utf8.Encode, ValidCall;
    forall i | 0 <= i < |calls|
      ensures WellFormed(CallTree(calls[i]))
    {
      CallMeans(catalog, calls[i]);
    }
    var t := List(Trees(calls));
    ParsesSpaced(t, s);
    CallsRead(catalog, calls, Meaning(t).items);
  }

  lemma GrammarIsTokenized(catalog: Catalog)
    ensures Tokenized(ToolCallGrammar(catalog))
  {
    hide CallRules, CallExpr;
    var g := ToolCallGrammar(catalog);
    forall r | r in g && r != "ws" && r != "string" && r != "char" && r != "hex"
      ensures TokenLevel(g[r])
    {
      if r in BaseRules(catalog) {
        BaseTokenLevel(catalog);
      } else {
        CallRulesTokenLevel(catalog, r);
      }
    }
  }

  lemma TokenLevelCat(es: seq<Expr>)
    requires forall i :: 0 <= i < |es| ==> TokenLevel(es[i])
    ensures TokenLevel(Cat(es))
  {
  }

  lemma TokenLevelFixed(t: string)
    ensures TokenLevel(Lit(t)) && TokenLevel(WS) && TokenLevel(STRING) && TokenLevel(Ref("call"))
  {
    assert "char"[3] != "call"[3];
  }

  lemma TokenLevelPair(key: string, value: Expr)
    requires TokenLevel(value)
    ensures TokenLevel(Pair(key, value))
  {
    hide TokenLevel;
    TokenLevelFixed(Quoted(key));
    TokenLevelFixed(":");
    TokenLevelCat([Lit(Quoted(key)), WS, Lit(":"), WS, value]);
  }

  lemma TokenLevelNext(value: Expr)
    requires TokenLevel(value)
    ensures TokenLevel(Cat([Lit(","), WS, value, WS])) && TokenLevel(Opt(Cat([Lit(","), WS, value, WS])))
  {
    TokenLevelFixed(",");
    TokenLevelCat([Lit(","), WS, value, WS]);
  }

  lemma TokenLevelStar(x: Expr)
    requires TokenLevel(x)
    ensures TokenLevel(Star(x)) && TokenLevel(Opt(x))
  {
  }

  lemma BaseTokenLevel(catalog: Catalog)
    ensures TokenLevel(ROOT_RULE) && TokenLevel(Alternatives(CallRefs(catalog)))
  {
    forall i | 0 <= i < |catalog|
      ensures TokenLevel(CallRefs(catalog)[i])
    {
      CallRuleIsNotFixed(catalog, catalog[i].name);
    }
    RootTokenLevel();
  }

  lemma RootTokenLevel()
    ensures TokenLevel(ROOT_RULE)
  {
    hide TokenLevel;
    TokenLevelFixed(",");
    TokenLevelFixed("[");
    TokenLevelFixed("]");
    TokenLevelCat([WS, Lit(","), WS, Ref("call")]);
    TokenLevelStar(NEXT_CALL);
    TokenLevelCat([WS, Lit("]"), WS]);
    TokenLevelCat(ROOT_RULE.parts);
  }

  lemma {:induction false} CallRulesTokenLevel(catalog: Catalog, r: string)
    requires r in CallRules(catalog)
    ensures TokenLevel(CallRules(catalog)[r])
  {
    hide CallExpr, CallRule, TokenLevel;
    var n := |catalog| - 1;
    if r == CallRule(catalog[n].name) {
      CallTokenLevel(catalog[n]);
    } else {
      CallRulesTokenLevel(catalog[..n], r);
    }
  }

  lemma {:induction false} MoreTokenLevel(params: seq<ParamSpec>)
    ensures TokenLevel(Cat(MoreRequired(params))) && TokenLevel(Cat(MoreOptional(params)))
  {
    hide TokenLevel;
    forall i | 0 <= i < |params|
      ensures TokenLevel(Cat([Lit(","), WS, Pair(params[i].name, STRING), WS]))
      ensures TokenLevel(Opt(Cat([Lit(","), WS, Pair(params[i].name, STRING), WS])))
    {
      TokenLevelFixed("");
      TokenLevelPair(params[i].name, STRING);
      TokenLevelNext(Pair(params[i].name, STRING));
    }
    MoreAt(params);
    TokenLevelCat(MoreRequired(params));
    TokenLevelCat(MoreOptional(params));
  }

  lemma {:induction false} MoreAt(params: seq<ParamSpec>)
    ensures |MoreRequired(params)| == |MoreOptional(params)| == |params|
    ensures forall i :: 0 <= i < |params| ==> MoreRequired(params)[i] == Cat([Lit(","), WS, Pair(params[i].name, STRING), WS])
    ensures forall i :: 0 <= i < |params| ==> MoreOptional(params)[i] == Opt(Cat([Lit(","), WS, Pair(params[i].name, STRING), WS]))
  {
    hide Pair;
    if params != [] {
      MoreAt(params[1..]);
    }
  }

  lemma ArgsTokenLevel(params: seq<ParamSpec>)
    ensures TokenLevel(ArgsObject(params))
  {
    hide TokenLevel, MoreRequired, MoreOptional, Filter, Pair;
    var required, optional := Filter(params, true), Filter(params, false);
    FilterBounds(params);
    TokenLevelFixed("{");
    TokenLevelFixed("}");
    MoreTokenLevel(optional);
    var e := ArgsObject(params);
    if params == [] {
      TokenLevelCat(e.parts);
    } else if required != [] {
      MoreTokenLevel(required[1..]);
      TokenLevelPair(required[0].name, STRING);
      TokenLevelCat([Pair(required[0].name, STRING), WS]);
      TokenLevelCat(e.parts);
    } else {
      MoreTokenLevel(optional[1..]);
      TokenLevelPair(optional[0].name, STRING);
      TokenLevelCat([Pair(optional[0].name, STRING), WS]);
      TokenLevelCat([Cat([Pair(optional[0].name, STRING), WS]), Cat(MoreOptional(optional[1..]))]);
      TokenLevelStar(e.parts[2].item);
      TokenLevelCat(e.parts);
    }
  }

  lemma CallTokenLevel(t: Tool)
    ensures TokenLevel(CallExpr(t))
  {
    hide TokenLevel, ArgsObject, Pair, Quoted;
    TokenLevelFixed("{");
    TokenLevelFixed("}");
    TokenLevelFixed(",");
    TokenLevelFixed(Quoted(t.name));
    ArgsTokenLevel(t.params);
    TokenLevelPair("tool", Lit(Quoted(t.name)));
    TokenLevelPair("args", ArgsObject(t.params));
    TokenLevelPair("rationale", STRING);
    var e := CallExpr(t);
    TokenLevelCat(e.parts[6].parts);
    TokenLevelCat(e.parts);
  }

  /** Every derived text spells calls, one after the other. */
  lemma DerivableSpells(catalog: Catalog, s: string) returns (calls: seq<Call>)
    requires catalog != [] && Derivable(ToolCallGrammar(catalog), Ref("root"), s)
    ensures calls != [] && AllValid(catalog, calls) && SetApart(s, Tokens(List(Trees(calls))))
  {
    hide SetApart, Tokens, ValidCall, Derives, Spells, ToolCallGrammar, Tokenized;
    var g := ToolCallGrammar(catalog);
    var n: nat :| Derives(g, Ref("root"), s, n);
    GrammarIsTokenized(catalog);
    DerivedTokens(g, Ref("root"), s, n);
    var tokens :| Tokenizes(g, Ref("root"), s, tokens, n);
    calls := SpellsRoot(catalog, tokens, n);
  }

  /** Every derived text is accepted, and gives at least one step: the steps of the calls it spells. */
  lemma GrammarImpliesParser(catalog: Catalog, s: string) returns (calls: seq<Call>)
    requires catalog != [] && PlainNames(catalog)
    requires Derivable(ToolCallGrammar(catalog), Ref("root"), s)
    ensures calls != [] && AllValid(catalog, calls) && SetApart(s, Tokens(List(Trees(calls))))
    ensures forall i :: 0 <= i < |calls| ==> AllBodies(calls[i].args) && IsBody(calls[i].rationale)
    ensures ToolCallsOf(s, catalog) == Ok(StepsOf(calls))
  {
    hide IsBody, PlainNames, Spaced, SetApart, Tokens, CallStep, ToolCallsOf, ValidCall, Derivable;
    calls := DerivableSpells(catalog, s);
    SetApartIsSpaced(s, Tokens(List(Trees(calls))));
    SpacedCallsAccepted(catalog, calls, s);
  }

  lemma {:induction false} ArgMapKeys(args: seq<Arg>)
    requires AllBodies(args)
    ensures forall i :: 0 <= i < |args| ==> args[i].name in ArgMap(args)
    ensures forall k <- ArgMap(args) :: exists i :: 0 <= i < |args| && args[i].name == k && ArgMap(args)[k] == Unescape(args[i].body)
    decreases |args|
  {
    hide IsBody, Unescape;
    if args != [] {
      var n := |args| - 1;
      ArgMapKeys(args[..n]);
      forall k | k in ArgMap(args)
        ensures exists i :: 0 <= i < |args| && args[i].name == k && ArgMap(args)[k] == Unescape(args[i].body)
      {
        if k == args[n].name {
          assert args[n].name == k;
        } else {
          var i :| 0 <= i < n && args[..n][i].name == k && ArgMap(args[..n])[k] == Unescape(args[..n][i].body);
          assert args[i].name == k;
        }
      }
    }
  }

  lemma {:induction false} FilterKeeps(params: seq<ParamSpec>, j: nat) returns (i: nat)
    requires j < |params|
    ensures i < |Filter(params, params[j].required)| && Filter(params, params[j].required)[i] == params[j]
  {
    if j == 0 {
      i := 0;
    } else {
      i := FilterKeeps(params[1..], j - 1);
      if params[0].required == params[j].required {
        i := i + 1;
      }
    }
  }

  /** A valid call's step names a tool of the catalog and has every required argument, and no other than its literals' strings. */
  lemma StepIsComplete(catalog: Catalog, c: Call)
    requires ValidCall(catalog, c)
    ensures
      var step := CallStep(c);
      && c.tool in catalog && Get(catalog, step.tool).Some? && step.tool == c.tool.name
      && (DistinctRules(catalog) ==> Get(catalog, step.tool) == Some(c.tool))
      && (forall j :: 0 <= j < |c.tool.params| && c.tool.params[j].required ==> c.tool.params[j].name in step.args)
      && (forall k <- step.args :: exists i :: 0 <= i < |c.args| && c.args[i].name == k && step.args[k] == Unescape(c.args[i].body))
  {
    hide IsBody, Unescape, Filter, Get, ArgMap, DistinctRules;
    RulingIsKnown(catalog, c.tool);
    var params := c.tool.params;
    ArgMapKeys(c.args);
    forall j | 0 <= j < |params| && params[j].required
      ensures params[j].name in ArgMap(c.args)
    {
      var i := FilterKeeps(params, j);
      assert c.args[..|Filter(params, true)|][i].name == params[j].name;
      assert c.args[i].name == params[j].name;
    }
  }

  lemma DerivesParts(g: Rules, es: seq<Expr>, parts: seq<string>, n: nat)
    requires |es| == |parts| && forall i :: 0 <= i < |es| ==> Derives(g, es[i], parts[i], n)
    ensures Derives(g, Cat(es), Concat(parts), n)
  {
  }

  lemma DerivesNone(g: Rules, x: Expr, n: nat)
    ensures Derives(g, Star(x), "", n)
  {
    assert Concat<char>([]) == "";
  }

  /** With no tools the call rule is empty, so the empty array is derivable, and gives no step. */
  lemma EmptyCatalogGivesNoStep()
    ensures Derivable(ToolCallGrammar([]), Ref("root"), "[]") && ToolCallsOf("[]", []) == Ok([])
  {
    var g := ToolCallGrammar([]);
    EmptyArrayDerivable(g);
  }

  lemma RefDerives(g: Rules, r: string, s: string, n: nat)
    requires r in g && Derives(g, g[r], s, n)
    ensures Derives(g, Ref(r), s, n + 1)
  {
  }

  lemma LitDerives(g: Rules, t: string, n: nat)
    ensures Derives(g, Lit(t), t, n)
  {
  }

  lemma EmptyArrayDerivable(g: Rules)
    requires g == ToolCallGrammar([])
    ensures Derivable(g, Ref("root"), "[]")
  {
    hide Derives, Concat;
    assert g["root"] == ROOT_RULE && g["ws"] == WS_RULE && g["call"] == Lit("");
    hide ToolCallGrammar;
    DerivesNone(g, WS_RULE.item, 0);
    RefDerives(g, "ws", "", 0);
    LitDerives(g, "", 0);
    RefDerives(g, "call", "", 0);
    DerivesNone(g, NEXT_CALL, 1);
    LitDerives(g, "[", 1);
    LitDerives(g, "]", 1);
    var close: seq<string> := ["", "]", ""];
    ConcatThree(close);
    DerivesParts(g, [WS, Lit("]"), WS], close, 1);
    var parts: seq<string> := ["", "[", "", "", "", "]"];
    ConcatSix(parts);
    assert Concat(close) == "]" && Concat(parts) == "[]";
    DerivesParts(g, ROOT_RULE.parts, parts, 1);
    RefDerives(g, "root", "[]", 1);
  }
}
