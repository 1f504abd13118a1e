/** The tool layer's data (crates/aura/src/tool.rs) and plans (crates/aura/src/plan.rs). */
module Tools {
  import opened Outcomes
  import opened Capability

  datatype Effect = Read | Write | Destructive

  datatype ParamSpec = ParamSpec(name: string, required: bool)

  type Args = map<string, string>

  /** A tool's needs are a function of its arguments; running it is outside of the model. */
  datatype Tool = Tool(name: string, params: seq<ParamSpec>, effect: Effect, needs: Args -> Result<seq<Need>, string>)

  type Catalog = seq<Tool>

  /** The first tool of that name. */
  function Get(catalog: Catalog, name: string): Option<Tool> {
    if catalog == [] then None
    else if catalog[0].name == name then Some(catalog[0])
    else Get(catalog[1..], name)
  }

  lemma {:induction false} GetFinds(catalog: Catalog, name: string)
    ensures Get(catalog, name).Some? <==> exists i :: 0 <= i < |catalog| && catalog[i].name == name
    ensures Get(catalog, name).Some? ==> Get(catalog, name).value.name == name
  {
    if catalog != [] && catalog[0].name != name {
      GetFinds(catalog[1..], name);
      if i :| 0 <= i < |catalog| && catalog[i].name == name {
        assert catalog[1..][i - 1].name == name;
      }
    }
  }

  lemma {:induction false} GetIsFirst(catalog: Catalog, name: string, i: nat)
    requires i < |catalog| && catalog[i].name == name && forall j :: 0 <= j < i ==> catalog[j].name != name
    ensures Get(catalog, name) == Some(catalog[i])
  {
    if i > 0 {
      var rest := catalog[1..];
      assert forall j :: 0 <= j < i - 1 ==> rest[j].name == catalog[j + 1].name;
      GetIsFirst(rest, name, i - 1);
    }
  }

  datatype Step = Step(tool: string, args: Args, rationale: string)

  datatype Plan = Plan(intent: string, steps: seq<Step>)
}
