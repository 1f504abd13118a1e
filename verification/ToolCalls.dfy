/**
 From a generated text to plan steps (crates/aura/src/llama.rs, `parse_tool_calls`), and what the
 grammar guarantees: every text it derives is accepted, and says which tools to call with what.
 */
module ToolCalls {
  import opened Outcomes
  import opened Bits
  import opened Tools
  import opened JsonText
  import opened Grammar
  import Json
  import Utf8

  datatype PlanError =
    | BadJson(error: Json.Error) | NotArray | NotObject | NoToolName | UnknownTool(name: string)

  /** The string members of an arguments object; a later one of the same name wins. */
  function ArgsOf(entries: seq<(string, Json.Value)>): Args {
    if entries == [] then map[]
    else
      var n := |entries| - 1;
      var before := ArgsOf(entries[..n]);
      if entries[n].1.Str? then before[entries[n].0 := entries[n].1.text] else before
  }

  function ArgsMember(item: Json.Value): Args {
    match Json.Get(item, "args")
    case Some(Object(entries)) => ArgsOf(entries)
    case _ => map[]
  }

  function RationaleMember(item: Json.Value): string {
    match Json.Get(item, "rationale")
    case Some(Str(text)) => text
    case _ => ""
  }

  function StepOf(item: Json.Value, catalog: Catalog): Result<Step, PlanError> {
    if !item.Object? then Err(NotObject)
    else
      match Json.Get(item, "tool")
      case Some(Str(tool)) =>
        if Get(catalog, tool).None? then Err(UnknownTool(tool))
        else Ok(Step(tool, ArgsMember(item), RationaleMember(item)))
      case _ => Err(NoToolName)
  }

  /** Every item's step, or the first failure. */
  function StepsFrom(items: seq<Json.Value>, catalog: Catalog): Result<seq<Step>, PlanError> {
    if items == [] then Ok([])
    else
      match StepOf(items[0], catalog)
      case Err(e) => Err(e)
      case Ok(step) =>
        match StepsFrom(items[1..], catalog)
        case Err(e) => Err(e)
        case Ok(steps) => Ok([step] + steps)
  }

  function ToolCallsOf(text: string, catalog: Catalog): Result<seq<Step>, PlanError> {
    match Json.ParseText(Utf8.Encode(text))
    case Err(e) => Err(BadJson(e))
    case Ok(value) => if value.Array? then StepsFrom(value.items, catalog) else Err(NotArray)
  }

  method ReadArgs(entries: seq<(string, Json.Value)>) returns (args: Args)
    ensures args == ArgsOf(entries)
  {
    args := map[];
    for i := 0 to |entries|
      invariant args == ArgsOf(entries[..i])
    {
      assert entries[..i + 1][..i] == entries[..i];
      if entries[i].1.Str? {
        args := args[entries[i].0 := entries[i].1.text];
      }
    }
    assert entries[..|entries|] == entries;
  }

  function PrependSteps(steps: seq<Step>, r: Result<seq<Step>, PlanError>): Result<seq<Step>, PlanError> {
    match r
    case Err(e) => Err(e)
    case Ok(more) => Ok(steps + more)
  }

  lemma NextStep(items: seq<Json.Value>, catalog: Catalog, steps: seq<Step>, i: nat)
    requires i < |items|
    ensures PrependSteps(steps, StepsFrom(items[i..], catalog)) ==
      match StepOf(items[i], catalog)
      case Err(e) => Err(e)
      case Ok(step) => PrependSteps(steps + [step], StepsFrom(items[i + 1..], catalog))
  {
    hide StepOf;
    assert items[i..][1..] == items[i + 1..];
    if StepOf(items[i], catalog).Ok? && StepsFrom(items[i + 1..], catalog).Ok? {
      var step, more := StepOf(items[i], catalog).value, StepsFrom(items[i + 1..], catalog).value;
      assert steps + ([step] + more) == steps + [step] + more;
    }
  }

  method ParseToolCalls(text: string, catalog: Catalog) returns (r: Result<seq<Step>, PlanError>)
    ensures r == ToolCallsOf(text, catalog)
  {
    hide Json.ParseText, Utf8.Encode, ArgsOf, Json.Lookup, Get, StepsFrom;
    var parsed := Json.Parse(Utf8.Encode(text));
    if parsed.Err? {
      return Err(BadJson(parsed.error));
    }
    if !parsed.value.Array? {
      return Err(NotArray);
    }
    var items := parsed.value.items;
    var steps: seq<Step> := [];
    assert items[0..] == items;
    NothingBefore(items, catalog);
    for i := 0 to |items|
      invariant StepsFrom(items, catalog) == PrependSteps(steps, StepsFrom(items[i..], catalog))
    {
      NextStep(items, catalog, steps, i);
      var item := items[i];
      if !item.Object? {
        return Err(NotObject);
      }
      var tool := Json.Get(item, "tool");
      if tool == None || !tool.value.Str? {
        return Err(NoToolName);
      }
      if Get(catalog, tool.value.text).None? {
        return Err(UnknownTool(tool.value.text));
      }
      var args: Args := map[];
      var argsMember := Json.Get(item, "args");
      if argsMember.Some? && argsMember.value.Object? {
        args := ReadArgs(argsMember.value.entries);
      }
      var rationale := Json.Get(item, "rationale");
      var why := if rationale.Some? && rationale.value.Str? then rationale.value.text else "";
      steps := steps + [Step(tool.value.text, args, why)];
    }
    NothingAfter(items, catalog, steps);
    return Ok(steps);
  }

  lemma NothingBefore(items: seq<Json.Value>, catalog: Catalog)
    ensures PrependSteps([], StepsFrom(items, catalog)) == StepsFrom(items, catalog)
  {
    if StepsFrom(items, catalog).Ok? {
      assert [] + StepsFrom(items, catalog).value == StepsFrom(items, catalog).value;
    }
  }

  lemma NothingAfter(items: seq<Json.Value>, catalog: Catalog, steps: seq<Step>)
    ensures PrependSteps(steps, StepsFrom(items[|items|..], catalog)) == Ok(steps)
  {
    assert steps + [] == steps;
  }

  // ---- calls as the grammar spells them

  /** A parameter's name and the literal given for it. */
  datatype Arg = Arg(name: string, body: string)

  datatype Call = Call(tool: Tool, args: seq<Arg>, rationale: string)

  function Members(args: seq<Arg>): seq<Member> {
    seq(|args|, i requires 0 <= i < |args| => Member(args[i].name, Text(args[i].body)))
  }

  function CallTree(c: Call): Tree {
    Record([Member("tool", Text(c.tool.name)), Member("args", Record(Members(c.args))), Member("rationale", Text(c.rationale))])
  }

  function Trees(calls: seq<Call>): seq<Tree> {
    seq(|calls|, i requires 0 <= i < |calls| => CallTree(calls[i]))
  }

  predicate AllBodies(args: seq<Arg>) {
    forall i :: 0 <= i < |args| ==> IsBody(args[i].body)
  }

  predicate Named(params: seq<ParamSpec>, args: seq<Arg>) {
    |args| == |params| && forall i :: 0 <= i < |args| ==> args[i].name == params[i].name
  }

  /** Some of the parameters, in their order. */
  predicate SomeNamed(params: seq<ParamSpec>, args: seq<Arg>) {
    if params == [] then args == []
    else (args != [] && args[0].name == params[0].name && SomeNamed(params[1..], args[1..])) || SomeNamed(params[1..], args)
  }

  /** None of the parameters, or the first and some of the others. */
  predicate Anchored(params: seq<ParamSpec>, args: seq<Arg>) {
    args == [] || (params != [] && args[0].name == params[0].name && SomeNamed(params[1..], args[1..]))
  }

  /**
   All required parameters in order, then some of the optional ones in order, each with a literal. Of a
   tool that requires none, the first optional one comes with any other.
   */
  predicate FitsParams(params: seq<ParamSpec>, args: seq<Arg>) {
    var k := |Filter(params, true)|;
    && |args| >= k && AllBodies(args)
    && Named(Filter(params, true), args[..k]) && SomeNamed(Filter(params, false), args[k..])
    && (k == 0 ==> Anchored(Filter(params, false), args))
  }

  /** A call of a tool that rules its rule, with arguments for its parameters. */
  ghost predicate ValidCall(catalog: Catalog, c: Call) {
    && Ruling(catalog, c.tool)
    && FitsParams(c.tool.params, c.args) && IsBody(c.rationale)
  }

  predicate Plain(name: string) {
    '"' !in name && '\\' !in name
  }

  predicate PlainNames(catalog: Catalog) {
    forall i :: 0 <= i < |catalog| ==>
      Plain(catalog[i].name) && forall j :: 0 <= j < |catalog[i].params| ==> Plain(catalog[i].params[j].name)
  }

  /** What the arguments say: each name with the string its literal denotes. */
  function ArgMap(args: seq<Arg>): Args
    requires AllBodies(args)
  {
    if args == [] then map[]
    else ArgMap(args[..|args| - 1])[args[|args| - 1].name := Unescape(args[|args| - 1].body)]
  }

  function CallStep(c: Call): Step
    requires AllBodies(c.args) && IsBody(c.rationale)
  {
    Step(c.tool.name, ArgMap(c.args), Unescape(c.rationale))
  }

  // ---- inverting token lists

  lemma SpellsCat(g: Rules, es: seq<Expr>, tokens: seq<string>, n: nat) returns (parts: seq<seq<string>>)
    requires Spells(g, Cat(es), tokens, n)
    ensures |parts| == |es| && tokens == Concat(parts) && forall i :: 0 <= i < |es| ==> Spells(g, es[i], parts[i], n)
  {
    var parts': seq<seq<string>> :|
      |parts'| == |es| && tokens == Concat(parts') && forall i :: 0 <= i < |es| ==> Spells(g, es[i], parts'[i], n);
    parts := parts';
  }

  lemma SpellsFirst(g: Rules, es: seq<Expr>, tokens: seq<string>, n: nat) returns (first: seq<string>, rest: seq<string>)
    requires es != [] && Spells(g, Cat(es), tokens, n)
    ensures tokens == first + rest && Spells(g, es[0], first, n) && Spells(g, Cat(es[1..]), rest, n)
  {
    var parts := SpellsCat(g, es, tokens, n);
    first, rest := parts[0], Concat(parts[1..]);
  }

  lemma SpellsLit(g: Rules, t: string, tokens: seq<string>, n: nat)
    requires Spells(g, Lit(t), tokens, n)
    ensures tokens == [t]
  {
  }

  lemma SpellsWs(g: Rules, tokens: seq<string>, n: nat)
    requires Spells(g, WS, tokens, n)
    ensures tokens == []
  {
  }

  lemma SpellsString(g: Rules, tokens: seq<string>, n: nat) returns (body: string)
    requires Spells(g, STRING, tokens, n)
    ensures IsBody(body) && tokens == [Quoted(body)]
  {
    var b :| IsBody(b) && tokens == [Quoted(b)];
    body := b;
  }

  lemma SpellsNothing(g: Rules, tokens: seq<string>, n: nat)
    requires Spells(g, Cat([]), tokens, n)
    ensures tokens == []
  {
  }

  lemma SpellsRef(g: Rules, r: string, tokens: seq<string>, n: nat)
    requires Spells(g, Ref(r), tokens, n) && r != "ws" && r != "string"
    ensures n > 0 && r in g && Spells(g, g[r], tokens, n - 1)
  {
  }

  lemma SpellsPair(g: Rules, key: string, value: Expr, tokens: seq<string>, n: nat) returns (v: seq<string>)
    requires Spells(g, Pair(key, value), tokens, n)
    ensures Spells(g, value, v, n) && tokens == [Quoted(key), ":"] + v
  {
    hide Spells, Concat;
    var parts := SpellsCat(g, [Lit(Quoted(key)), WS, Lit(":"), WS, value], tokens, n);
    ConcatFive(parts);
    SpellsLit(g, Quoted(key), parts[0], n);
    SpellsWs(g, parts[1], n);
    SpellsLit(g, ":", parts[2], n);
    SpellsWs(g, parts[3], n);
    v := parts[4];
  }

  function PairTokens(a: Arg): seq<string> {
    [Quoted(a.name), ":", Quoted(a.body)]
  }

  function TailTokens(args: seq<Arg>): seq<string> {
    if args == [] then [] else [","] + PairTokens(args[0]) + TailTokens(args[1..])
  }

  lemma SpellsArg(g: Rules, name: string, tokens: seq<string>, n: nat) returns (a: Arg)
    requires Spells(g, Pair(name, STRING), tokens, n)
    ensures a.name == name && IsBody(a.body) && tokens == PairTokens(a)
  {
    hide Spells, Pair;
    var v := SpellsPair(g, name, STRING, tokens, n);
    var body := SpellsString(g, v, n);
    a := Arg(name, body);
  }

  /** A comma and one more argument. */
  lemma SpellsNextArg(g: Rules, name: string, tokens: seq<string>, n: nat) returns (a: Arg)
    requires Spells(g, Cat([Lit(","), WS, Pair(name, STRING), WS]), tokens, n)
    ensures a.name == name && IsBody(a.body) && tokens == [","] + PairTokens(a)
  {
    hide Spells, Pair, Concat;
    var parts := SpellsCat(g, [Lit(","), WS, Pair(name, STRING), WS], tokens, n);
    ConcatFour(parts);
    SpellsLit(g, ",", parts[0], n);
    SpellsWs(g, parts[1], n);
    a := SpellsArg(g, name, parts[2], n);
    SpellsWs(g, parts[3], n);
  }

  lemma {:induction false} SpellsMoreRequired(g: Rules, params: seq<ParamSpec>, tokens: seq<string>, n: nat)
    returns (args: seq<Arg>)
    requires Spells(g, Cat(MoreRequired(params)), tokens, n)
    ensures Named(params, args) && AllBodies(args) && tokens == TailTokens(args)
    decreases |params|
  {
    hide Spells, Pair, IsBody;
    if params == [] {
      args := [];
      SpellsNothing(g, tokens, n);
    } else {
      var first, rest := SpellsFirst(g, MoreRequired(params), tokens, n);
      assert MoreRequired(params)[1..] == MoreRequired(params[1..]);
      var a := SpellsNextArg(g, params[0].name, first, n);
      var more := SpellsMoreRequired(g, params[1..], rest, n);
      args := [a] + more;
      assert args[1..] == more;
    }
  }

  lemma SpellsOpt(g: Rules, x: Expr, tokens: seq<string>, n: nat)
    requires Spells(g, Opt(x), tokens, n)
    ensures tokens == [] || Spells(g, x, tokens, n)
  {
  }

  lemma {:induction false} SpellsMoreOptional(g: Rules, params: seq<ParamSpec>, tokens: seq<string>, n: nat)
    returns (args: seq<Arg>)
    requires Spells(g, Cat(MoreOptional(params)), tokens, n)
    ensures SomeNamed(params, args) && AllBodies(args) && tokens == TailTokens(args)
    decreases |params|
  {
    hide Spells, Pair, IsBody;
    if params == [] {
      args := [];
      SpellsNothing(g, tokens, n);
    } else {
      var first, rest := SpellsFirst(g, MoreOptional(params), tokens, n);
      assert MoreOptional(params)[1..] == MoreOptional(params[1..]);
      var more := SpellsMoreOptional(g, params[1..], rest, n);
      var x := Cat([Lit(","), WS, Pair(params[0].name, STRING), WS]);
      SpellsOpt(g, x, first, n);
      if first == [] {
        args := more;
      } else {
        var a := SpellsNextArg(g, params[0].name, first, n);
        args := [a] + more;
        assert args[1..] == more;
      }
    }
  }

  /** The tokens of an arguments object with at least one argument. */
  lemma {:induction false} ArgsTokens(args: seq<Arg>)
    requires args != []
    ensures MemberTokens(Members(args)) == PairTokens(args[0]) + TailTokens(args[1..])
    decreases |args|
  {
    hide Quoted;
    var ms := Members(args);
    assert Tokens(ms[0].value) == [Quoted(args[0].body)];
    if |args| > 1 {
      ArgsTokens(args[1..]);
      assert ms[1..] == Members(args[1..]);
      assert args[1..][1..] == args[1..][1..];
    }
  }

  lemma {:induction false} TailConcat(a: seq<Arg>, b: seq<Arg>)
    ensures TailTokens(a + b) == TailTokens(a) + TailTokens(b)
  {
    hide PairTokens;
    if a == [] {
      assert a + b == b;
    } else {
      assert (a + b)[1..] == a[1..] + b;
      TailConcat(a[1..], b);
    }
  }

  function ArgsRecord(args: seq<Arg>): Tree {
    Record(Members(args))
  }

  lemma RecordOfArgs(args: seq<Arg>)
    ensures Tokens(ArgsRecord([])) == ["{", "}"]
    ensures args != [] ==> Tokens(ArgsRecord(args)) == ["{"] + PairTokens(args[0]) + TailTokens(args[1..]) + ["}"]
  {
    hide PairTokens, TailTokens;
    if args != [] {
      ArgsTokens(args);
    }
  }
}
