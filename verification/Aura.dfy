/**
 Aura as a principal over the broker (crates/aura/src/lib.rs): previewing a plan, granting what it
 lacks, and running it with every need brokered first. What a tool does once it runs is outside of
 the model; the clock may move between any two readings, and of several usable grants any may serve.
 */
module Aura {
  import opened Outcomes
  import opened Capability
  import opened Tools
  import opened Weave

  const PRINCIPAL: string := "aura"

  datatype Block = UnknownTool | BadArgs(error: string) | NeedsCapability | NeedsConfirmation

  datatype Authority = Held(id: GrantId) | Missing

  datatype NeedStatus = NeedStatus(need: Need, authority: Authority)

  datatype StepPreview = StepPreview(index: nat, tool: string, rationale: string, effect: Option<Effect>,
                                     needs: seq<NeedStatus>, block: Option<Block>)

  datatype Preview = Preview(intent: string, steps: seq<StepPreview>)

  datatype Status = Done(outcome: string) | Blocked(block: Block) | Failed(error: string)

  datatype StepResult = StepResult(index: nat, tool: string, status: Status)

  datatype Report = Report(intent: string, results: seq<StepResult>)

  type Wallet = map<GrantId, Secret>

  // ---- what holding a capability means

  /** A live grant to Aura that meets the need, whose handle is in the wallet. */
  predicate Usable(table: Table, held: Wallet, need: Need, now: nat, id: GrantId) {
    && id in table && id in held && table[id].grant.principal == PRINCIPAL
    && Active(table[id], now) && Meets(table[id].grant.need, need)
  }

  /**
   What is found usable is what the broker will allow, unless its uses are spent, which Aura does not
   look at; and whatever the broker would allow Aura on a handle it holds is found usable.
   */
  lemma UsableIsAllowed(table: Table, held: Wallet, need: Need, now: nat, id: GrantId)
    requires id in table && id in held && table[id].secret == Some(held[id])
    ensures
      var g, refused := table[id], Check(table, Handle(id, held[id]), need, now);
      && (Usable(table, held, need, now, id) ==>
            g.grant.principal == "aura" && (refused == None || refused == Some("use limit reached")))
      && (g.grant.principal == "aura" && refused == None ==> Usable(table, held, need, now, id))
  {
    hide Covers, Contains;
    RefusedExactly(table, Handle(id, held[id]), need, now);
  }

  ghost predicate NoneUsable(table: Table, held: Wallet, need: Need, now: nat) {
    forall id :: !Usable(table, held, need, now, id)
  }

  /** An answer some reading of the clock supports. */
  ghost predicate Answers(table: Table, held: Wallet, need: Need, a: Authority) {
    match a
    case Held(id) => exists now: nat :: Usable(table, held, need, now, id)
    case Missing => exists now: nat :: NoneUsable(table, held, need, now)
  }

  /** Every capability in the wallet is a live grant without limits. */
  ghost predicate Unlimited(table: Table, held: Wallet) {
    forall id <- held ::
      && id in table && table[id].secret == Some(held[id]) && !table[id].revoked
      && table[id].grant.limits == UNLIMITED && table[id].grant.principal == PRINCIPAL
  }

  ghost predicate Within(table: Table, held: Wallet, need: Need) {
    exists id :: id in held && id in table && Meets(table[id].grant.need, need)
  }

  /** With an unlimited wallet the answer is settled by the grants alone, and an access cannot fail. */
  lemma UnlimitedSettles(table: Table, held: Wallet, need: Need, a: Authority)
    requires Unlimited(table, held) && Answers(table, held, need, a)
    ensures a.Held? <==> Within(table, held, need)
    ensures a.Held? ==> a.id in held && MustAllow(table, Handle(a.id, held[a.id]), need)
  {
    if a == Missing {
      var now: nat :| NoneUsable(table, held, need, now);
      forall id | id in held && id in table
        ensures !Meets(table[id].grant.need, need)
      {
        assert !Usable(table, held, need, now, id);
      }
    }
  }

  lemma SameGrantsKeep(a: Table, b: Table, held: Wallet)
    requires SameGrants(a, b)
    ensures Unlimited(a, held) ==> Unlimited(b, held)
    ensures forall need :: Within(a, held, need) == Within(b, held, need)
  {
    forall need
      ensures Within(a, held, need) == Within(b, held, need)
    {
      if Within(a, held, need) {
        var id :| id in held && id in a && Meets(a[id].grant.need, need);
        assert id in b && Meets(b[id].grant.need, need);
      }
      if Within(b, held, need) {
        var id :| id in held && id in b && Meets(b[id].grant.need, need);
        assert id in a && Meets(a[id].grant.need, need);
      }
    }
  }

  // ---- previews

  predicate AnyMissing(needs: seq<NeedStatus>) {
    exists i :: 0 <= i < |needs| && needs[i].authority == Missing
  }

  function BlockOf(needs: seq<NeedStatus>, effect: Effect): Option<Block> {
    if AnyMissing(needs) then Some(NeedsCapability)
    else if effect == Destructive then Some(NeedsConfirmation)
    else None
  }

  /** What the preview of a step must say. */
  ghost predicate Previews(table: Table, held: Wallet, catalog: Catalog, index: nat, step: Step, sp: StepPreview) {
    && sp.index == index && sp.tool == step.tool && sp.rationale == step.rationale
    && match Get(catalog, step.tool) {
         case None => sp.effect == None && sp.needs == [] && sp.block == Some(UnknownTool)
         case Some(tool) =>
           && sp.effect == Some(tool.effect)
           && match tool.needs(step.args) {
                case Err(e) => sp.needs == [] && sp.block == Some(BadArgs(e))
                case Ok(needs) =>
                  && |sp.needs| == |needs| && sp.block == BlockOf(sp.needs, tool.effect)
                  && forall i :: 0 <= i < |needs| ==>
                       sp.needs[i].need == needs[i] && Answers(table, held, needs[i], sp.needs[i].authority)
              }
       }
  }

  ghost predicate AllPreviewed(table: Table, held: Wallet, catalog: Catalog, steps: seq<Step>, sps: seq<StepPreview>) {
    |sps| == |steps| && forall i :: 0 <= i < |steps| ==> Previews(table, held, catalog, i, steps[i], sps[i])
  }

  function UnheldOf(needs: seq<NeedStatus>): seq<Need> {
    if needs == [] then []
    else
      var n := |needs| - 1;
      UnheldOf(needs[..n]) + (if needs[n].authority == Missing then [needs[n].need] else [])
  }

  function Unheld(steps: seq<StepPreview>): seq<Need> {
    if steps == [] then [] else Unheld(steps[..|steps| - 1]) + UnheldOf(steps[|steps| - 1].needs)
  }

  /** The same capability is in the list. */
  predicate Listed(n: Need, out: seq<Need>) {
    exists m <- out :: SameNeed(m, n)
  }

  /** Each capability once, as it is first spelled, in the order of first appearance. */
  function DistinctNeeds(needs: seq<Need>): seq<Need> {
    if needs == [] then []
    else
      var before, n := DistinctNeeds(needs[..|needs| - 1]), needs[|needs| - 1];
      if Listed(n, before) then before else before + [n]
  }

  lemma {:induction false} DistinctNeedsList(needs: seq<Need>, n: Need)
    requires n in needs
    ensures Listed(n, DistinctNeeds(needs))
  {
    hide SameNeed, DistinctNeeds, Listed;
    var k := |needs| - 1;
    assert needs == needs[..k] + [needs[k]];
    DistinctNeedsStep(needs[..k], needs[k]);
    ListedMore(DistinctNeeds(needs[..k]), needs[k], n);
    ListedMore(DistinctNeeds(needs[..k]), needs[k], needs[k]);
    if n in needs[..k] {
      DistinctNeedsList(needs[..k], n);
    }
  }

  lemma ListedMore(out: seq<Need>, last: Need, n: Need)
    ensures Listed(last, out + [last])
    ensures Listed(n, out) ==> Listed(n, out + [last])
  {
    hide SameNeed;
    SameAsItself(last);
    assert last in out + [last];
    if Listed(n, out) {
      var m :| m in out && SameNeed(m, n);
      assert m in out + [last];
    }
  }

  lemma {:induction false} DistinctNeedsFrom(needs: seq<Need>)
    ensures forall n <- DistinctNeeds(needs) :: n in needs
  {
    hide Listed;
    if needs != [] {
      DistinctNeedsFrom(needs[..|needs| - 1]);
    }
  }

  lemma {:induction false} DistinctNeedsApart(needs: seq<Need>)
    ensures forall i, j :: 0 <= i < j < |DistinctNeeds(needs)| ==> !SameNeed(DistinctNeeds(needs)[i], DistinctNeeds(needs)[j])
  {
    hide SameNeed;
    if needs != [] {
      DistinctNeedsApart(needs[..|needs| - 1]);
    }
  }

  /** What is left stands for all of the needs, is taken from them, and holds no capability twice. */
  lemma DistinctNeedsStand(needs: seq<Need>)
    ensures forall n <- needs :: Listed(n, DistinctNeeds(needs))
    ensures forall n <- DistinctNeeds(needs) :: n in needs
    ensures forall i, j :: 0 <= i < j < |DistinctNeeds(needs)| ==> !SameNeed(DistinctNeeds(needs)[i], DistinctNeeds(needs)[j])
  {
    hide DistinctNeeds, Listed, SameNeed;
    forall n | n in needs
      ensures Listed(n, DistinctNeeds(needs))
    {
      DistinctNeedsList(needs, n);
    }
    DistinctNeedsFrom(needs);
    DistinctNeedsApart(needs);
  }

  lemma SameAsItself(n: Need)
    ensures SameNeed(n, n)
  {
  }

  /** The capabilities a preview reports missing. */
  method MissingNeeds(p: Preview) returns (out: seq<Need>)
    ensures out == DistinctNeeds(Unheld(p.steps))
  {
    hide DistinctNeeds, UnheldOf, SameNeed;
    out := [];
    NothingDistinct();
    for i := 0 to |p.steps|
      invariant out == DistinctNeeds(Unheld(p.steps[..i]))
    {
      ghost var before := Unheld(p.steps[..i]);
      var needs := p.steps[i].needs;
      NothingUnheld(before);
      for j := 0 to |needs|
        invariant out == DistinctNeeds(before + UnheldOf(needs[..j]))
      {
        UnheldStep(before, needs, j);
        if needs[j].authority == Missing {
          DistinctNeedsStep(before + UnheldOf(needs[..j]), needs[j].need);
          if !Listed(needs[j].need, out) {
            out := out + [needs[j].need];
          }
        }
      }
      assert needs[..|needs|] == needs && p.steps[..i + 1][..i] == p.steps[..i];
    }
    assert p.steps[..|p.steps|] == p.steps;
  }

  lemma NothingDistinct()
    ensures DistinctNeeds([]) == []
  {
  }

  lemma NothingUnheld(before: seq<Need>)
    ensures before + UnheldOf([]) == before
  {
  }

  lemma UnheldStep(before: seq<Need>, needs: seq<NeedStatus>, j: nat)
    requires j < |needs|
    ensures before + UnheldOf(needs[..j + 1])
         == if needs[j].authority == Missing then before + UnheldOf(needs[..j]) + [needs[j].need] else before + UnheldOf(needs[..j])
  {
    assert needs[..j + 1][..j] == needs[..j];
  }

  lemma DistinctNeedsStep(needs: seq<Need>, n: Need)
    ensures DistinctNeeds(needs + [n])
         == if Listed(n, DistinctNeeds(needs)) then DistinctNeeds(needs) else DistinctNeeds(needs) + [n]
  {
    hide SameNeed;
    assert (needs + [n])[..|needs|] == needs;
  }

  // ---- what a plan needs

  function StepNeeds(catalog: Catalog, step: Step): seq<Need> {
    match Get(catalog, step.tool)
    case None => []
    case Some(tool) =>
      match tool.needs(step.args)
      case Err(_) => []
      case Ok(needs) => needs
  }

  function PlanNeeds(catalog: Catalog, steps: seq<Step>): seq<Need> {
    if steps == [] then [] else PlanNeeds(catalog, steps[..|steps| - 1]) + StepNeeds(catalog, steps[|steps| - 1])
  }

  /** Every capability the plan needs, each once. */
  function Disclosed(catalog: Catalog, steps: seq<Step>): seq<Need> {
    DistinctNeeds(PlanNeeds(catalog, steps))
  }

  lemma {:induction false} AllUnheld(needs: seq<NeedStatus>, wanted: seq<Need>)
    requires |needs| == |wanted|
    requires forall i :: 0 <= i < |needs| ==> needs[i].need == wanted[i] && needs[i].authority == Missing
    ensures UnheldOf(needs) == wanted
  {
    if needs != [] {
      var n := |needs| - 1;
      AllUnheld(needs[..n], wanted[..n]);
    }
  }

  /** From an empty wallet, what a preview reports missing is all the plan needs, whatever the broker holds. */
  lemma {:induction false} EmptyWalletMissesAll(table: Table, catalog: Catalog, steps: seq<Step>, sps: seq<StepPreview>)
    requires AllPreviewed(table, map[], catalog, steps, sps)
    ensures Unheld(sps) == PlanNeeds(catalog, steps)
  {
    hide Get;
    if steps != [] {
      var n := |steps| - 1;
      EmptyWalletMissesAll(table, catalog, steps[..n], sps[..n]);
      EmptyWalletStep(table, catalog, n, steps[n], sps[n]);
    }
  }

  lemma EmptyWalletStep(table: Table, catalog: Catalog, index: nat, step: Step, sp: StepPreview)
    requires Previews(table, map[], catalog, index, step, sp)
    ensures UnheldOf(sp.needs) == StepNeeds(catalog, step)
  {
    hide Get;
    AllUnheld(sp.needs, StepNeeds(catalog, step));
  }

  // ---- what a run must report

  /** Why a step does not run, when the wallet is unlimited. */
  ghost function ExpectedBlock(table: Table, held: Wallet, catalog: Catalog, step: Step, confirm: bool): Option<Block> {
    match Get(catalog, step.tool)
    case None => Some(UnknownTool)
    case Some(tool) =>
      if tool.effect == Destructive && !confirm then Some(NeedsConfirmation)
      else
        match tool.needs(step.args)
        case Err(e) => Some(BadArgs(e))
        case Ok(needs) =>
          if forall i :: 0 <= i < |needs| ==> Within(table, held, needs[i]) then None else Some(NeedsCapability)
  }

  /**
   A confirmed run blocks exactly the steps a preview calls blocked, for the same reason; confirming answers
   the rest, which a run without it blocks, and it runs what the preview does not block.
   */
  lemma PreviewForetellsRun(table: Table, held: Wallet, catalog: Catalog, index: nat, step: Step, sp: StepPreview)
    requires Unlimited(table, held) && Previews(table, held, catalog, index, step, sp)
    ensures ExpectedBlock(table, held, catalog, step, true)
         == if sp.block == Some(NeedsConfirmation) then None else sp.block
    ensures sp.block == None || sp.block == Some(NeedsConfirmation) ==>
      ExpectedBlock(table, held, catalog, step, false) == sp.block
  {
    hide Get;
    if Get(catalog, step.tool).Some? && Get(catalog, step.tool).value.needs(step.args).Ok? {
      var needs := Get(catalog, step.tool).value.needs(step.args).value;
      forall i | 0 <= i < |needs|
        ensures sp.needs[i].authority.Held? <==> Within(table, held, needs[i])
      {
        UnlimitedSettles(table, held, needs[i], sp.needs[i].authority);
      }
      assert AnyMissing(sp.needs) <==> exists i :: 0 <= i < |needs| && !Within(table, held, needs[i]);
    }
  }

  /** An access or a denial, of something in the list. */
  predicate AccessOf(e: Event, needs: seq<Need>) {
    (e.Used? || e.Denied?) && e.need in needs
  }

  predicate AllAccesses(events: seq<Event>, needs: seq<Need>) {
    forall e <- events :: AccessOf(e, needs)
  }

  /** Accesses and denials only, each of a capability in the list, however its path is spelled. */
  predicate AllAmong(events: seq<Event>, capabilities: seq<Need>) {
    forall e <- events :: (e.Used? || e.Denied?) && Listed(e.need, capabilities)
  }

  /** Each need has a logged use. */
  ghost predicate Brokered(events: seq<Event>, needs: seq<Need>) {
    forall n <- needs :: exists e :: e in events && e.Used? && e.need == n
  }

  predicate Ran(s: Status) {
    s.Done? || s.Failed?
  }

  predicate IsDestructive(catalog: Catalog, step: Step) {
    Get(catalog, step.tool).Some? && Get(catalog, step.tool).value.effect == Destructive
  }

  lemma {:induction false} StepNeedsInPlan(catalog: Catalog, steps: seq<Step>, i: nat)
    requires i < |steps|
    ensures forall n <- StepNeeds(catalog, steps[i]) :: n in PlanNeeds(catalog, steps)
  {
    hide StepNeeds;
    if i < |steps| - 1 {
      StepNeedsInPlan(catalog, steps[..|steps| - 1], i);
    }
  }

  predicate AreGrants(events: seq<Event>, needs: seq<Need>, limits: Limits) {
    && |events| == |needs|
    && forall i :: 0 <= i < |needs| ==>
         events[i].Granted? && events[i].principal == PRINCIPAL && events[i].need == needs[i] && events[i].limits == limits
  }

  // ---- steps of the methods' proofs

  lemma AnsweredNow(table: Table, held: Wallet, need: Need, now: nat, id: GrantId)
    requires Usable(table, held, need, now, id)
    ensures Answers(table, held, need, Held(id))
  {
  }

  lemma NothingNow(table: Table, held: Wallet, need: Need, now: nat)
    requires forall id <- table :: !Usable(table, held, need, now, id)
    ensures Answers(table, held, need, Missing)
  {
    assert NoneUsable(table, held, need, now);
  }

  /** One more unlimited grant keeps the wallet unlimited, loses nothing, and meets its need. */
  lemma OneMore(table: Table, held: Wallet, id: GrantId, need: Need, now: nat, secret: Secret)
    requires Unlimited(table, held) && id !in table
    ensures
      var table' := table[id := Minted(PRINCIPAL, need, now, UNLIMITED, secret)];
      var held' := held[id := secret];
      && Unlimited(table', held') && Within(table', held', need)
      && forall n :: Within(table, held, n) ==> Within(table', held', n)
  {
    var table' := table[id := Minted(PRINCIPAL, need, now, UNLIMITED, secret)];
    var held' := held[id := secret];
    assert id in held' && id in table' && Meets(table'[id].grant.need, need);
    forall n | Within(table, held, n)
      ensures Within(table', held', n)
    {
      var k :| k in held && k in table && Meets(table[k].grant.need, n);
      assert k in held' && k in table' && Meets(table'[k].grant.need, n);
    }
  }

  lemma BrokeredBoth(events: seq<Event>, needs: seq<Need>, n: Need)
    requires Brokered(events, needs) && Brokered(events, [n])
    ensures Brokered(events, needs + [n])
  {
    assert n in [n];
  }

  lemma SameGrantsReflexive(a: Table)
    ensures SameGrants(a, a)
  {
  }

  lemma UseKeepsGrants(a: Table, b: Table, id: GrantId)
    requires SameGrants(a, b) && id in b
    ensures SameGrants(a, WithUse(b, id))
  {
  }

  lemma NothingBrokered(needs: seq<Need>)
    ensures Brokered([], needs[..0])
  {
  }

  lemma SameGrantsTrans(a: Table, b: Table, c: Table)
    requires SameGrants(a, b) && SameGrants(b, c)
    ensures SameGrants(a, c)
  {
  }

  /** What blocks a step does not depend on use counts. */
  lemma SameGrantsExpect(a: Table, b: Table, held: Wallet, catalog: Catalog, step: Step, confirm: bool)
    requires SameGrants(a, b)
    ensures ExpectedBlock(a, held, catalog, step, confirm) == ExpectedBlock(b, held, catalog, step, confirm)
  {
    hide Get, Within;
    SameGrantsKeep(a, b, held);
  }

  lemma NoAccesses(needs: seq<Need>)
    ensures AllAccesses([], needs)
  {
  }

  lemma LogGrows(before: seq<Event>, more: seq<Event>, some: seq<Need>, all: seq<Need>)
    requires AllAccesses(before, all) && AllAccesses(more, some) && forall n <- some :: n in all
    ensures AllAccesses(before + more, all)
    ensures forall needs :: Brokered(before, needs) || Brokered(more, needs) ==> Brokered(before + more, needs)
  {
    forall needs | Brokered(before, needs) || Brokered(more, needs)
      ensures Brokered(before + more, needs)
    {
      forall n | n in needs
        ensures exists e :: e in before + more && e.Used? && e.need == n
      {
        var e :| (e in before || e in more) && e.Used? && e.need == n;
        assert e in before + more;
      }
    }
  }

  lemma AccessesDisclosed(events: seq<Event>, needs: seq<Need>)
    requires AllAccesses(events, needs)
    ensures AllAmong(events, DistinctNeeds(needs))
  {
    hide DistinctNeeds, Listed;
    DistinctNeedsStand(needs);
  }

  lemma WithinAll(table: Table, held: Wallet, needs: seq<Need>)
    requires forall k :: 0 <= k < |DistinctNeeds(needs)| ==> Within(table, held, DistinctNeeds(needs)[k])
    ensures forall n <- needs :: Within(table, held, n)
  {
    hide DistinctNeeds, SameNeed, Within;
    forall n | n in needs
      ensures Within(table, held, n)
    {
      DistinctNeedsList(needs, n);
      var m :| m in DistinctNeeds(needs) && SameNeed(m, n);
      WithinSame(table, held, m, n);
    }
  }

  /** What meets one spelling of a capability meets the others. */
  lemma WithinSame(table: Table, held: Wallet, a: Need, b: Need)
    requires Within(table, held, a) && SameNeed(a, b)
    ensures Within(table, held, b)
  {
    var id :| id in held && id in table && Meets(table[id].grant.need, a);
    MeetsIsPreorder(table[id].grant.need, a, b);
  }

  lemma GrantCount(events: seq<Event>, needs: seq<Need>, limits: Limits)
    requires AreGrants(events, needs, limits)
    ensures |events| == |needs|
  {
  }

  ghost predicate NothingLacking(table: Table, held: Wallet, catalog: Catalog, step: Step) {
    forall n <- StepNeeds(catalog, step) :: Within(table, held, n)
  }

  /** What no capability can mend. */
  function HardBlock(catalog: Catalog, step: Step): Option<Block> {
    match Get(catalog, step.tool)
    case None => Some(UnknownTool)
    case Some(tool) =>
      match tool.needs(step.args)
      case Err(e) => Some(BadArgs(e))
      case Ok(_) => None
  }

  lemma LackingNothing(table: Table, held: Wallet, catalog: Catalog, step: Step)
    requires NothingLacking(table, held, catalog, step)
    ensures ExpectedBlock(table, held, catalog, step, true) == HardBlock(catalog, step)
  {
    hide Get, Within;
  }

  lemma {:induction false} UnheldOfContains(needs: seq<NeedStatus>, k: nat)
    requires k < |needs| && needs[k].authority == Missing
    ensures needs[k].need in UnheldOf(needs)
  {
    if k < |needs| - 1 {
      UnheldOfContains(needs[..|needs| - 1], k);
    }
  }

  lemma {:induction false} UnheldContains(sps: seq<StepPreview>, i: nat, k: nat)
    requires i < |sps| && k < |sps[i].needs| && sps[i].needs[k].authority == Missing
    ensures sps[i].needs[k].need in Unheld(sps)
  {
    hide UnheldOf;
    if i < |sps| - 1 {
      UnheldContains(sps[..|sps| - 1], i, k);
    } else {
      UnheldOfContains(sps[i].needs, k);
    }
  }

  /** Once the missing capabilities are granted, no step lacks one. */
  lemma GrantedSuffices(table: Table, held: Wallet, table': Table, held': Wallet, catalog: Catalog,
                        steps: seq<Step>, sps: seq<StepPreview>, i: nat)
    requires Unlimited(table, held) && AllPreviewed(table, held, catalog, steps, sps) && i < |steps|
    requires forall n :: Within(table, held, n) ==> Within(table', held', n)
    requires forall n <- Unheld(sps) :: Within(table', held', n)
    ensures NothingLacking(table', held', catalog, steps[i])
  {
    hide Get, Within, Unlimited, Answers, Unheld;
    var needs := StepNeeds(catalog, steps[i]);
    assert Previews(table, held, catalog, i, steps[i], sps[i]);
    forall n | n in needs
      ensures Within(table', held', n)
    {
      var k :| 0 <= k < |needs| && needs[k] == n;
      UnlimitedSettles(table, held, n, sps[i].needs[k].authority);
      if sps[i].needs[k].authority == Missing {
        UnheldContains(sps, i, k);
      }
    }
  }

  class Aura {
    const catalog: Catalog
    const broker: Broker
    var held: Wallet

    constructor (broker: Broker, catalog: Catalog)
      ensures this.broker == broker && this.catalog == catalog && held == map[]
    {
      this.broker, this.catalog, held := broker, catalog, map[];
    }

    method Authorize(need: Need, limits: Limits) returns (id: GrantId)
      modifies this, broker
      ensures id !in old(broker.grants) && id in held
      ensures held == old(held)[id := held[id]]
      ensures exists now: nat :: broker.grants == old(broker.grants)[id := Minted(PRINCIPAL, need, now, limits, held[id])]
      ensures broker.log == old(broker.log) + [Granted(id, PRINCIPAL, need, limits)]
      ensures old(Sound(broker.grants, broker.log)) ==> Sound(broker.grants, broker.log)
    {
      hide Sound;
      var h := broker.Grant(PRINCIPAL, need, limits);
      id := h.id;
      held := held[id := h.secret];
    }

    /** A usable handle for a need, if the wallet has one. */
    method CapabilityFor(need: Need) returns (h: Option<Handle>)
      ensures h.Some? ==> h.value.id in held && h.value.secret == held[h.value.id]
      ensures Answers(broker.grants, held, need, if h.Some? then Held(h.value.id) else Missing)
    {
      var now: nat := *;
      var remaining := broker.grants.Keys;
      while remaining != {}
        invariant remaining <= broker.grants.Keys
        invariant forall id <- broker.grants.Keys - remaining :: !Usable(broker.grants, held, need, now, id)
        decreases |remaining|
      {
        var id :| id in remaining;
        if Usable(broker.grants, held, need, now, id) {
          AnsweredNow(broker.grants, held, need, now, id);
          return Some(Handle(id, held[id]));
        }
        remaining := remaining - {id};
      }
      NothingNow(broker.grants, held, need, now);
      return None;
    }

    method PreviewStep(index: nat, step: Step) returns (sp: StepPreview)
      ensures Previews(broker.grants, held, catalog, index, step, sp)
    {
      hide Get, Answers;
      var tool := Get(catalog, step.tool);
      if tool.None? {
        return StepPreview(index, step.tool, step.rationale, None, [], Some(UnknownTool));
      }
      var effect := tool.value.effect;
      var needs := tool.value.needs(step.args);
      if needs.Err? {
        return StepPreview(index, step.tool, step.rationale, Some(effect), [], Some(BadArgs(needs.error)));
      }
      var statuses: seq<NeedStatus> := [];
      for i := 0 to |needs.value|
        invariant |statuses| == i
        invariant forall k :: 0 <= k < i ==>
          statuses[k].need == needs.value[k] && Answers(broker.grants, held, needs.value[k], statuses[k].authority)
      {
        var h := CapabilityFor(needs.value[i]);
        statuses := statuses + [NeedStatus(needs.value[i], if h.Some? then Held(h.value.id) else Missing)];
      }
      return StepPreview(index, step.tool, step.rationale, Some(effect), statuses, BlockOf(statuses, effect));
    }

    method PreviewPlan(plan: Plan) returns (p: Preview)
      ensures p.intent == plan.intent && AllPreviewed(broker.grants, held, catalog, plan.steps, p.steps)
    {
      hide Previews;
      var steps: seq<StepPreview> := [];
      for i := 0 to |plan.steps|
        invariant |steps| == i
        invariant forall k :: 0 <= k < i ==> Previews(broker.grants, held, catalog, k, plan.steps[k], steps[k])
      {
        var sp := PreviewStep(i, plan.steps[i]);
        steps := steps + [sp];
      }
      return Preview(plan.intent, steps);
    }

    /** Grants exactly what the preview reports missing, in order. */
    method GrantMissing(p: Preview, limits: Limits)
      modifies this, broker
      ensures |broker.log| >= |old(broker.log)| && broker.log[..|old(broker.log)|] == old(broker.log)
      ensures old(Sound(broker.grants, broker.log)) ==> Sound(broker.grants, broker.log)
      ensures AreGrants(broker.log[|old(broker.log)|..], DistinctNeeds(Unheld(p.steps)), limits)
      ensures limits == UNLIMITED && Unlimited(old(broker.grants), old(held)) ==>
        && Unlimited(broker.grants, held)
        && (forall n :: Within(old(broker.grants), old(held), n) ==> Within(broker.grants, held, n))
        && (forall n <- Unheld(p.steps) :: Within(broker.grants, held, n))
    {
      hide Unheld, DistinctNeeds, Unlimited, Within, SameNeed, Sound;
      var missing := MissingNeeds(p);
      for i := 0 to |missing|
        invariant |broker.log| == |old(broker.log)| + i && broker.log[..|old(broker.log)|] == old(broker.log)
        invariant old(Sound(broker.grants, broker.log)) ==> Sound(broker.grants, broker.log)
        invariant AreGrants(broker.log[|old(broker.log)|..], missing[..i], limits)
        invariant limits == UNLIMITED && Unlimited(old(broker.grants), old(held)) ==>
          && Unlimited(broker.grants, held)
          && (forall n :: Within(old(broker.grants), old(held), n) ==> Within(broker.grants, held, n))
          && (forall k :: 0 <= k < i ==> Within(broker.grants, held, missing[k]))
      {
        ghost var table, wallet := broker.grants, held;
        var id := Authorize(missing[i], limits);
        if limits == UNLIMITED && Unlimited(old(broker.grants), old(held)) {
          ghost var now: nat :| broker.grants == table[id := Minted(PRINCIPAL, missing[i], now, limits, held[id])];
          OneMore(table, wallet, id, missing[i], now, held[id]);
        }
      }
      assert missing[..|missing|] == missing;
      if limits == UNLIMITED && Unlimited(old(broker.grants), old(held)) {
        WithinAll(broker.grants, held, Unheld(p.steps));
      }
    }

    /** Brokers every need of a step, then runs its tool; a refused need blocks it. */
    method RunStep(step: Step, confirm: bool) returns (status: Status)
      modifies broker
      ensures SameGrants(old(broker.grants), broker.grants)
      ensures |broker.log| >= |old(broker.log)| && broker.log[..|old(broker.log)|] == old(broker.log)
      ensures old(Sound(broker.grants, broker.log)) ==> Sound(broker.grants, broker.log)
      ensures AllAccesses(broker.log[|old(broker.log)|..], StepNeeds(catalog, step))
      ensures Ran(status) ==> Brokered(broker.log[|old(broker.log)|..], StepNeeds(catalog, step))
      ensures Ran(status) ==> Get(catalog, step.tool).Some? && (confirm || !IsDestructive(catalog, step))
      ensures Unlimited(old(broker.grants), held) ==>
        match ExpectedBlock(old(broker.grants), held, catalog, step, confirm)
        case Some(b) => status == Blocked(b)
        case None => Ran(status)
    {
      hide Get, Unlimited, Within, Answers, MustAllow, Sound;
      var tool := Get(catalog, step.tool);
      if tool.None? {
        return Blocked(UnknownTool);
      }
      if tool.value.effect == Destructive && !confirm {
        return Blocked(NeedsConfirmation);
      }
      var required := tool.value.needs(step.args);
      if required.Err? {
        return Blocked(BadArgs(required.error));
      }
      var needs := required.value;
      var ok := BrokerNeeds(needs);
      if !ok {
        return Blocked(NeedsCapability);
      }
      var outcome: Result<string, string> := *;
      match outcome {
        case Ok(value) => return Done(value);
        case Err(error) => return Failed(error);
      }
    }

    /** Accesses one need, if the wallet has a handle for it. */
    method BrokerOne(need: Need) returns (ok: bool)
      modifies broker
      ensures SameGrants(old(broker.grants), broker.grants)
      ensures |broker.log| >= |old(broker.log)| && broker.log[..|old(broker.log)|] == old(broker.log)
      ensures old(Sound(broker.grants, broker.log)) ==> Sound(broker.grants, broker.log)
      ensures AllAccesses(broker.log[|old(broker.log)|..], [need])
      ensures ok ==> Brokered(broker.log[|old(broker.log)|..], [need])
      ensures Unlimited(old(broker.grants), held) ==> (ok <==> Within(old(broker.grants), held, need))
    {
      hide Unlimited, Within, Answers, MayAllow, MustAllow, SameGrants, Sound;
      SameGrantsReflexive(broker.grants);
      ghost var table, n := broker.grants, |broker.log|;
      assert broker.log[n..] == [];
      var h := CapabilityFor(need);
      if Unlimited(table, held) {
        UnlimitedSettles(table, held, need, if h.Some? then Held(h.value.id) else Missing);
      }
      if h.None? {
        return false;
      }
      ok := broker.Access(h.value, need);
      ghost var last := broker.log[n];
      assert broker.log[n..] == [last] && AccessOf(last, [need]);
      if ok {
        UseKeepsGrants(table, table, h.value.id);
        assert last in broker.log[n..] && last.Used? && last.need == need;
      }
    }

    /** Accesses each need in turn, up to the first the wallet lacks or the broker refuses. */
    method BrokerNeeds(needs: seq<Need>) returns (ok: bool)
      modifies broker
      ensures SameGrants(old(broker.grants), broker.grants)
      ensures |broker.log| >= |old(broker.log)| && broker.log[..|old(broker.log)|] == old(broker.log)
      ensures old(Sound(broker.grants, broker.log)) ==> Sound(broker.grants, broker.log)
      ensures AllAccesses(broker.log[|old(broker.log)|..], needs)
      ensures ok ==> Brokered(broker.log[|old(broker.log)|..], needs)
      ensures Unlimited(old(broker.grants), held) ==>
        (ok <==> forall i :: 0 <= i < |needs| ==> Within(old(broker.grants), held, needs[i]))
    {
      hide Unlimited, Within, SameGrants, AllAccesses, Brokered, Sound;
      ghost var n := |broker.log|;
      SameGrantsReflexive(broker.grants);
      NoAccesses(needs);
      assert broker.log[n..] == [];
      NothingBrokered(needs);
      for i := 0 to |needs|
        invariant SameGrants(old(broker.grants), broker.grants)
        invariant |broker.log| >= n && broker.log[..n] == old(broker.log)
        invariant old(Sound(broker.grants, broker.log)) ==> Sound(broker.grants, broker.log)
        invariant AllAccesses(broker.log[n..], needs)
        invariant Brokered(broker.log[n..], needs[..i])
        invariant Unlimited(old(broker.grants), held) ==>
          forall k :: 0 <= k < i ==> Within(old(broker.grants), held, needs[k])
      {
        ghost var table, log := broker.grants, broker.log;
        SameGrantsKeep(old(broker.grants), table, held);
        var allowed := BrokerOne(needs[i]);
        SameGrantsTrans(old(broker.grants), table, broker.grants);
        assert broker.log[n..] == log[n..] + broker.log[|log|..] && broker.log[..n] == log[..n];
        LogGrows(log[n..], broker.log[|log|..], [needs[i]], needs);
        if !allowed {
          return false;
        }
        BrokeredBoth(broker.log[n..], needs[..i], needs[i]);
        assert needs[..i + 1] == needs[..i] + [needs[i]];
      }
      assert needs[..|needs|] == needs;
      return true;
    }

    /** Runs every step; one that is blocked or fails does not stop the rest. */
    method Execute(plan: Plan, confirm: bool) returns (report: Report)
      modifies broker
      ensures SameGrants(old(broker.grants), broker.grants)
      ensures report.intent == plan.intent && |report.results| == |plan.steps|
      ensures forall i :: 0 <= i < |plan.steps| ==> report.results[i].index == i && report.results[i].tool == plan.steps[i].tool
      ensures |broker.log| >= |old(broker.log)| && broker.log[..|old(broker.log)|] == old(broker.log)
      ensures old(Sound(broker.grants, broker.log)) ==> Sound(broker.grants, broker.log)
      ensures AllAccesses(broker.log[|old(broker.log)|..], PlanNeeds(catalog, plan.steps))
      ensures forall i :: 0 <= i < |plan.steps| && Ran(report.results[i].status) ==>
        && Brokered(broker.log[|old(broker.log)|..], StepNeeds(catalog, plan.steps[i]))
        && (confirm || !IsDestructive(catalog, plan.steps[i]))
      ensures Unlimited(old(broker.grants), held) ==>
        forall i :: 0 <= i < |plan.steps| ==>
          match ExpectedBlock(old(broker.grants), held, catalog, plan.steps[i], confirm)
          case Some(b) => report.results[i].status == Blocked(b)
          case None => Ran(report.results[i].status)
    {
      hide Get, Unlimited, Within, StepNeeds, ExpectedBlock, Brokered, AllAccesses, SameGrants, PlanNeeds, IsDestructive, Ran, Sound;
      var results: seq<StepResult> := [];
      ghost var n := |broker.log|;
      SameGrantsReflexive(broker.grants);
      NoAccesses(PlanNeeds(catalog, plan.steps));
      assert broker.log[n..] == [];
      for i := 0 to |plan.steps|
        invariant SameGrants(old(broker.grants), broker.grants)
        invariant |results| == i && |broker.log| >= n && broker.log[..n] == old(broker.log)
        invariant old(Sound(broker.grants, broker.log)) ==> Sound(broker.grants, broker.log)
        invariant AllAccesses(broker.log[n..], PlanNeeds(catalog, plan.steps))
        invariant forall k :: 0 <= k < i ==> results[k].index == k && results[k].tool == plan.steps[k].tool
        invariant forall k :: 0 <= k < i && Ran(results[k].status) ==>
          && Brokered(broker.log[n..], StepNeeds(catalog, plan.steps[k]))
          && (confirm || !IsDestructive(catalog, plan.steps[k]))
        invariant Unlimited(old(broker.grants), held) ==>
          forall k :: 0 <= k < i ==>
            match ExpectedBlock(old(broker.grants), held, catalog, plan.steps[k], confirm)
            case Some(b) => results[k].status == Blocked(b)
            case None => Ran(results[k].status)
      {
        ghost var table, log := broker.grants, broker.log;
        SameGrantsKeep(old(broker.grants), table, held);
        SameGrantsExpect(old(broker.grants), table, held, catalog, plan.steps[i], confirm);
        var status := RunStep(plan.steps[i], confirm);
        SameGrantsTrans(old(broker.grants), table, broker.grants);
        StepNeedsInPlan(catalog, plan.steps, i);
        LogGrows(log[n..], broker.log[|log|..], StepNeeds(catalog, plan.steps[i]), PlanNeeds(catalog, plan.steps));
        assert broker.log[n..] == log[n..] + broker.log[|log|..] && broker.log[..n] == log[..n];
        results := results + [StepResult(i, plan.steps[i].tool, status)];
      }
      return Report(plan.intent, results);
    }

    /**
     The confirm: grants what a preview reports missing, then runs with destructive steps confirmed.
     From an empty wallet the grants are exactly the disclosed capabilities, each once, and every access
     is to one of them; without limits no step is blocked but for an unknown tool or bad arguments.
     */
    method ApproveAndExecute(plan: Plan, limits: Limits) returns (report: Report)
      modifies this, broker
      ensures |report.results| == |plan.steps|
      ensures old(Sound(broker.grants, broker.log)) ==> Sound(broker.grants, broker.log)
      ensures old(held) == map[] ==>
        var shown := Disclosed(catalog, plan.steps);
        var n, m := |old(broker.log)|, |old(broker.log)| + |shown|;
        && |broker.log| >= m && broker.log[..n] == old(broker.log)
        && AreGrants(broker.log[n..m], shown, limits)
        && AllAmong(broker.log[m..], shown)
      ensures limits == UNLIMITED && Unlimited(old(broker.grants), old(held)) ==>
        forall i :: 0 <= i < |plan.steps| ==>
          var status := report.results[i].status;
          match Get(catalog, plan.steps[i].tool)
          case None => status == Blocked(UnknownTool)
          case Some(tool) =>
            match tool.needs(plan.steps[i].args)
            case Err(e) => status == Blocked(BadArgs(e))
            case Ok(_) => Ran(status)
    {
      hide Get, Unlimited, Within, StepNeeds, Brokered, AllAccesses, SameGrants, PlanNeeds, IsDestructive, Ran, Unheld, DistinctNeeds, AllAmong;
      hide ExpectedBlock, AreGrants, AllPreviewed, Sound;
      ghost var table, wallet := broker.grants, held;
      var p := PreviewPlan(plan);
      GrantMissing(p, limits);
      ghost var log := broker.log;
      ghost var granted, mid := broker.grants, held;
      report := Execute(plan, true);
      if wallet == map[] {
        EmptyWalletMissesAll(table, catalog, plan.steps, p.steps);
        AccessesDisclosed(broker.log[|log|..], PlanNeeds(catalog, plan.steps));
        assert |log| == |old(broker.log)| + |Disclosed(catalog, plan.steps)| by { GrantCount(log[|old(broker.log)|..], DistinctNeeds(Unheld(p.steps)), limits); }
        assert broker.log[|old(broker.log)|..|log|] == log[|old(broker.log)|..];
        assert broker.log[..|old(broker.log)|] == log[..|old(broker.log)|];
      }
      if limits == UNLIMITED && Unlimited(table, wallet) {
        forall i | 0 <= i < |plan.steps|
          ensures NothingLacking(granted, mid, catalog, plan.steps[i])
        {
          GrantedSuffices(table, wallet, granted, mid, catalog, plan.steps, p.steps, i);
        }
        forall i | 0 <= i < |plan.steps|
          ensures ExpectedBlock(granted, mid, catalog, plan.steps[i], true) == HardBlock(catalog, plan.steps[i])
        {
          LackingNothing(granted, mid, catalog, plan.steps[i]);
        }
      }
    }
  }
}
