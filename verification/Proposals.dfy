/**
 What the user is shown of a plan before confirming it (crates/glass/src/aura.rs, `Proposal`, and
 `proposal_from` in crates/horizon/src/main.rs), against what the confirm grants. How a resource is
 displayed is a parameter until the last section, which takes Weave's own display.
 */
module Proposals {
  import opened Outcomes
  import opened Capability
  import opened Tools
  import opened Weave
  import opened Aura
  import opened Display

  datatype ProposalNeed = ProposalNeed(resource: string, rights: string, held: bool)

  datatype ProposalStep = ProposalStep(tool: string, rationale: string, effect: string, needs: seq<ProposalNeed>, block: Option<string>)

  datatype Proposal = Proposal(intent: string, steps: seq<ProposalStep>, ready: bool, destructive: bool, failed: Option<string>)

  function EffectLabel(e: Option<Effect>): string {
    match e
    case Some(Read) => "read"
    case Some(Write) => "write"
    case Some(Destructive) => "destructive"
    case None => "?"
  }

  function ShownNeeds(show: Show, needs: seq<NeedStatus>): seq<ProposalNeed> {
    seq(|needs|, i requires 0 <= i < |needs| =>
      ProposalNeed(show(needs[i].need.resource), ShowRights(needs[i].need.rights), needs[i].authority.Held?))
  }

  /** Only what no capability can mend is carried as a block. */
  function HardReason(block: Option<Block>): Option<string> {
    match block
    case Some(UnknownTool) => Some("unknown tool")
    case Some(BadArgs(e)) => Some("bad arguments: " + e)
    case _ => None
  }

  function ShownStep(show: Show, s: StepPreview): ProposalStep {
    ProposalStep(s.tool, s.rationale, EffectLabel(s.effect), ShownNeeds(show, s.needs), HardReason(s.block))
  }

  predicate StepReady(s: ProposalStep) {
    s.block == None && forall i :: 0 <= i < |s.needs| ==> s.needs[i].held
  }

  /** Folds readiness and destructiveness from the steps. */
  function New(intent: string, steps: seq<ProposalStep>): Proposal {
    Proposal(intent, steps,
             forall i :: 0 <= i < |steps| ==> StepReady(steps[i]),
             exists i :: 0 <= i < |steps| && steps[i].effect == "destructive", None)
  }

  function ProposalFrom(show: Show, intent: string, p: Preview): Proposal {
    New(intent, seq(|p.steps|, i requires 0 <= i < |p.steps| => ShownStep(show, p.steps[i])))
  }

  /** A preview's own readiness: no step blocked but for confirmation. */
  predicate Ready(p: Preview) {
    forall i :: 0 <= i < |p.steps| ==> p.steps[i].block == None || p.steps[i].block == Some(NeedsConfirmation)
  }

  /** The proposal is ready exactly when the preview is, and destructive exactly when a step is. */
  lemma FoldsAgree(show: Show, table: Table, held: Wallet, catalog: Catalog, steps: seq<Step>, p: Preview)
    requires AllPreviewed(table, held, catalog, steps, p.steps)
    ensures ProposalFrom(show, p.intent, p).ready <==> Ready(p)
    ensures ProposalFrom(show, p.intent, p).destructive <==>
      exists i :: 0 <= i < |steps| && IsDestructive(catalog, steps[i])
  {
    hide Get, Answers, IsDestructive;
    var q := ProposalFrom(show, p.intent, p);
    forall i | 0 <= i < |steps|
      ensures StepReady(q.steps[i]) <==> p.steps[i].block == None || p.steps[i].block == Some(NeedsConfirmation)
      ensures q.steps[i].effect == "destructive" <==> IsDestructive(catalog, steps[i])
    {
      StepFolds(show, table, held, catalog, i, steps[i], p.steps[i]);
    }
  }

  lemma StepFolds(show: Show, table: Table, held: Wallet, catalog: Catalog, index: nat, step: Step, s: StepPreview)
    requires Previews(table, held, catalog, index, step, s)
    ensures StepReady(ShownStep(show, s)) <==> s.block == None || s.block == Some(NeedsConfirmation)
    ensures ShownStep(show, s).effect == "destructive" <==> IsDestructive(catalog, step)
  {
    hide Get, Answers;
    var needs := ShownNeeds(show, s.needs);
    assert forall i :: 0 <= i < |needs| ==> needs[i].held == s.needs[i].authority.Held?;
    assert (forall i :: 0 <= i < |needs| ==> needs[i].held) <==> !AnyMissing(s.needs);
    assert |"destructive"| != |"read"| && |"destructive"| != |"write"| && |"destructive"| != |"?"|;
  }

  // ---- the capabilities shown as missing

  /** A need as it is displayed. */
  function Text(show: Show, n: Need): (string, string) {
    (show(n.resource), ShowRights(n.rights))
  }

  function Texts(show: Show, needs: seq<Need>): (ts: seq<(string, string)>)
    ensures |ts| == |needs|
  {
    seq(|needs|, i requires 0 <= i < |needs| => Text(show, needs[i]))
  }

  function UnheldTexts(needs: seq<ProposalNeed>): seq<(string, string)> {
    if needs == [] then []
    else
      var n := |needs| - 1;
      UnheldTexts(needs[..n]) + (if needs[n].held then [] else [(needs[n].resource, needs[n].rights)])
  }

  function AllUnheldTexts(steps: seq<ProposalStep>): seq<(string, string)> {
    if steps == [] then [] else AllUnheldTexts(steps[..|steps| - 1]) + UnheldTexts(steps[|steps| - 1].needs)
  }

  /** Each text once, in the order of first appearance. */
  function Distinct<T(==)>(texts: seq<T>): seq<T> {
    if texts == [] then []
    else
      var before, t := Distinct(texts[..|texts| - 1]), texts[|texts| - 1];
      if t in before then before else before + [t]
  }

  lemma {:induction false} DistinctIsTheSet<T>(texts: seq<T>)
    ensures forall t :: t in Distinct(texts) <==> t in texts
    ensures forall i, j :: 0 <= i < j < |Distinct(texts)| ==> Distinct(texts)[i] != Distinct(texts)[j]
  {
    if texts != [] {
      DistinctIsTheSet(texts[..|texts| - 1]);
      assert texts == texts[..|texts| - 1] + [texts[|texts| - 1]];
    }
  }

  lemma InDistinct<T>(texts: seq<T>, t: T)
    ensures t in Distinct(texts) <==> t in texts
  {
    DistinctIsTheSet(texts);
  }

  lemma DistinctStep<T>(texts: seq<T>, t: T)
    ensures Distinct(texts + [t]) == if t in Distinct(texts) then Distinct(texts) else Distinct(texts) + [t]
  {
    assert (texts + [t])[..|texts|] == texts;
  }

  /** The capabilities a proposal shows as missing, each displayed text once. */
  function ShownMissing(p: Proposal): seq<(string, string)> {
    Distinct(AllUnheldTexts(p.steps))
  }

  lemma {:induction false} UnheldShown(show: Show, needs: seq<NeedStatus>)
    ensures UnheldTexts(ShownNeeds(show, needs)) == Texts(show, UnheldOf(needs))
  {
    hide ShowRights;
    if needs != [] {
      var n := |needs| - 1;
      UnheldShown(show, needs[..n]);
      assert ShownNeeds(show, needs)[..n] == ShownNeeds(show, needs[..n]);
    }
  }

  lemma {:induction false} AllUnheldShown(show: Show, sps: seq<StepPreview>, steps: seq<ProposalStep>)
    requires |steps| == |sps| && forall i :: 0 <= i < |sps| ==> steps[i] == ShownStep(show, sps[i])
    ensures AllUnheldTexts(steps) == Texts(show, Unheld(sps))
  {
    hide Text, UnheldTexts, UnheldOf;
    if sps != [] {
      var n := |sps| - 1;
      AllUnheldShown(show, sps[..n], steps[..n]);
      UnheldShown(show, sps[n].needs);
    }
  }

  /** Among these needs, being displayed alike and being the same capability are one and the same. */
  ghost predicate ShowsApart(show: Show, needs: seq<Need>) {
    forall a, b :: a in needs && b in needs ==> (Text(show, a) == Text(show, b) <==> SameNeed(a, b))
  }

  /** The text stands for the capability: some need is displayed so and is that capability. */
  ghost predicate StandsFor(show: Show, needs: seq<Need>, t: (string, string), g: Need) {
    exists n :: n in needs && Text(show, n) == t && SameNeed(n, g)
  }

  /** Every text shown stands for a capability granted, and every capability granted is shown. */
  ghost predicate Matched(show: Show, needs: seq<Need>, shown: seq<(string, string)>, granted: seq<Need>) {
    && (forall t <- shown :: exists g :: g in granted && StandsFor(show, needs, t, g))
    && (forall g <- granted :: exists t :: t in shown && StandsFor(show, needs, t, g))
  }

  /** And no text stands for two capabilities, nor is one capability shown by two texts. */
  ghost predicate OneToOne(show: Show, needs: seq<Need>, shown: seq<(string, string)>, granted: seq<Need>) {
    && Matched(show, needs, shown, granted)
    && (forall t <- shown, g <- granted, h <- granted ::
          StandsFor(show, needs, t, g) && StandsFor(show, needs, t, h) ==> g == h)
    && (forall t <- shown, u <- shown, g <- granted ::
          StandsFor(show, needs, t, g) && StandsFor(show, needs, u, g) ==> t == u)
  }

  lemma TextsIn(show: Show, needs: seq<Need>, t: (string, string))
    ensures t in Texts(show, needs) <==> exists n :: n in needs && Text(show, n) == t
  {
    hide Text;
    if t in Texts(show, needs) {
      var i :| 0 <= i < |needs| && Texts(show, needs)[i] == t;
      assert needs[i] in needs && Text(show, needs[i]) == t;
    }
    if n :| n in needs && Text(show, n) == t {
      var i :| 0 <= i < |needs| && needs[i] == n;
      assert Texts(show, needs)[i] == t;
    }
  }

  lemma SameIsEquivalence(a: Need, b: Need, c: Need)
    ensures SameNeed(a, a)
    ensures SameNeed(a, b) ==> SameNeed(b, a)
    ensures SameNeed(a, b) && SameNeed(b, c) ==> SameNeed(a, c)
  {
    hide Components;
  }

  /** The capability a need is granted as. */
  lemma GrantedAs(needs: seq<Need>, n: Need) returns (g: Need)
    requires n in needs
    ensures g in DistinctNeeds(needs) && g in needs && SameNeed(n, g)
  {
    hide SameNeed, DistinctNeeds;
    DistinctNeedsList(needs, n);
    g :| g in DistinctNeeds(needs) && SameNeed(g, n);
    DistinctNeedsFrom(needs);
    SameIsEquivalence(g, n, g);
  }

  /** A text shown stands for a capability granted. */
  lemma TextStands(show: Show, needs: seq<Need>, t: (string, string)) returns (g: Need)
    requires t in Texts(show, needs)
    ensures g in DistinctNeeds(needs) && StandsFor(show, needs, t, g)
  {
    hide Text, SameNeed, DistinctNeeds;
    TextsIn(show, needs, t);
    var n :| n in needs && Text(show, n) == t;
    g := GrantedAs(needs, n);
  }

  /** A capability granted is shown by its own text. */
  lemma CapabilityStands(show: Show, needs: seq<Need>, g: Need)
    requires g in DistinctNeeds(needs)
    ensures Text(show, g) in Texts(show, needs) && StandsFor(show, needs, Text(show, g), g)
  {
    hide Text, SameNeed, DistinctNeeds, Listed;
    DistinctNeedsFrom(needs);
    TextsIn(show, needs, Text(show, g));
    SameIsEquivalence(g, g, g);
  }

  /** What is displayed and what is granted always correspond; the question is whether one to one. */
  lemma AlwaysMatched(show: Show, needs: seq<Need>)
    ensures Matched(show, needs, Distinct(Texts(show, needs)), DistinctNeeds(needs))
  {
    hide Text, Texts, DistinctNeeds, Distinct, StandsFor;
    var shown, granted := Distinct(Texts(show, needs)), DistinctNeeds(needs);
    DistinctIsTheSet(Texts(show, needs));
    forall t | t in shown
      ensures exists g :: g in granted && StandsFor(show, needs, t, g)
    {
      InDistinct(Texts(show, needs), t);
      var g := TextStands(show, needs, t);
    }
    forall g | g in granted
      ensures exists t :: t in shown && StandsFor(show, needs, t, g)
    {
      CapabilityStands(show, needs, g);
    }
  }

  lemma StandsForOne(show: Show, needs: seq<Need>, t: (string, string), g: Need, h: Need)
    requires ShowsApart(show, needs) && g in DistinctNeeds(needs) && h in DistinctNeeds(needs)
    requires StandsFor(show, needs, t, g) && StandsFor(show, needs, t, h)
    ensures g == h
  {
    hide Text, SameNeed, DistinctNeeds, Listed;
    var m :| m in needs && Text(show, m) == t && SameNeed(m, g);
    var n :| n in needs && Text(show, n) == t && SameNeed(n, h);
    SameIsEquivalence(m, g, m);
    SameIsEquivalence(g, m, n);
    SameIsEquivalence(g, n, h);
    SameIsEquivalence(g, h, g);
    DistinctNeedsApart(needs);
    var granted := DistinctNeeds(needs);
    var i :| 0 <= i < |granted| && granted[i] == g;
    var j :| 0 <= j < |granted| && granted[j] == h;
  }

  lemma ShownByOne(show: Show, needs: seq<Need>, t: (string, string), u: (string, string), g: Need)
    requires ShowsApart(show, needs) && StandsFor(show, needs, t, g) && StandsFor(show, needs, u, g)
    ensures t == u
  {
    hide Text, SameNeed;
    var m :| m in needs && Text(show, m) == t && SameNeed(m, g);
    var n :| n in needs && Text(show, n) == u && SameNeed(n, g);
    SameIsEquivalence(n, g, n);
    SameIsEquivalence(m, g, n);
  }

  /** Where displays tell the capabilities apart, and nothing more, shown and granted match one to one. */
  lemma ApartIsOneToOne(show: Show, needs: seq<Need>)
    requires ShowsApart(show, needs)
    ensures OneToOne(show, needs, Distinct(Texts(show, needs)), DistinctNeeds(needs))
  {
    hide DistinctNeeds, Distinct, StandsFor, Matched, Texts, ShowsApart;
    AlwaysMatched(show, needs);
    forall t, g, h | g in DistinctNeeds(needs) && h in DistinctNeeds(needs) && StandsFor(show, needs, t, g) && StandsFor(show, needs, t, h)
      ensures g == h
    {
      StandsForOne(show, needs, t, g, h);
    }
    forall t, u, g | StandsFor(show, needs, t, g) && StandsFor(show, needs, u, g)
      ensures t == u
    {
      ShownByOne(show, needs, t, u, g);
    }
  }

  /** And only there. */
  lemma OneToOneIsApart(show: Show, needs: seq<Need>)
    requires OneToOne(show, needs, Distinct(Texts(show, needs)), DistinctNeeds(needs))
    ensures ShowsApart(show, needs)
  {
    hide Text, SameNeed, DistinctNeeds, Distinct, Matched;
    DistinctIsTheSet(Texts(show, needs));
    forall a, b | a in needs && b in needs
      ensures Text(show, a) == Text(show, b) <==> SameNeed(a, b)
    {
      TextsIn(show, needs, Text(show, a));
      TextsIn(show, needs, Text(show, b));
      var g := GrantedAs(needs, a);
      var h := GrantedAs(needs, b);
      assert StandsFor(show, needs, Text(show, a), g) && StandsFor(show, needs, Text(show, b), h);
      if Text(show, a) == Text(show, b) {
        assert g == h;
        SameIsEquivalence(b, g, b);
        SameIsEquivalence(a, g, b);
      }
      if SameNeed(a, b) {
        SameIsEquivalence(a, b, h);
        assert StandsFor(show, needs, Text(show, a), h);
      }
    }
  }

  /** Then the texts are those of the capabilities, in the same order. */
  lemma {:induction false} ApartKeepsOrder(show: Show, needs: seq<Need>)
    requires ShowsApart(show, needs)
    ensures Distinct(Texts(show, needs)) == Texts(show, DistinctNeeds(needs))
  {
    hide Text, SameNeed, Distinct, DistinctNeeds, Listed;
    if needs == [] {
      NothingToShow(show);
    } else {
      var n := |needs| - 1;
      var before, last := needs[..n], needs[n];
      assert needs == before + [last];
      ApartKeepsOrder(show, before);
      assert Texts(show, needs) == Texts(show, before) + [Text(show, last)];
      DistinctNeedsStep(before, last);
      DistinctStep(Texts(show, before), Text(show, last));
      ListedIsShown(show, needs, before, last);
      assert Texts(show, DistinctNeeds(before) + [last]) == Texts(show, DistinctNeeds(before)) + [Text(show, last)];
    }
  }

  /** A capability is granted already exactly when its text is shown already. */
  lemma ListedIsShown(show: Show, needs: seq<Need>, before: seq<Need>, last: Need)
    requires ShowsApart(show, needs) && last in needs && forall n <- before :: n in needs
    ensures Listed(last, DistinctNeeds(before)) <==> Text(show, last) in Texts(show, DistinctNeeds(before))
  {
    hide Text, SameNeed, DistinctNeeds, Texts;
    DistinctNeedsFrom(before);
    TextsIn(show, DistinctNeeds(before), Text(show, last));
    if Text(show, last) in Texts(show, DistinctNeeds(before)) {
      var n :| n in DistinctNeeds(before) && Text(show, n) == Text(show, last);
      assert SameNeed(n, last);
    }
    if Listed(last, DistinctNeeds(before)) {
      var n :| n in DistinctNeeds(before) && SameNeed(n, last);
      assert Text(show, n) == Text(show, last);
    }
  }

  lemma NothingToShow(show: Show)
    ensures Distinct(Texts(show, [])) == [] && DistinctNeeds([]) == []
  {
  }

  /**
   What the proposal shows as missing and what the confirm grants correspond, and they match one to one
   exactly when, among the plan's needs, being displayed alike and being the same capability agree. Then
   the texts shown are those of the capabilities granted, in their order.
   */
  lemma ShownIsGranted(show: Show, table: Table, catalog: Catalog, steps: seq<Step>, p: Preview)
    requires AllPreviewed(table, map[], catalog, steps, p.steps)
    ensures
      var needs := PlanNeeds(catalog, steps);
      var shown, granted := ShownMissing(ProposalFrom(show, p.intent, p)), Disclosed(catalog, steps);
      && Matched(show, needs, shown, granted)
      && (OneToOne(show, needs, shown, granted) <==> ShowsApart(show, needs))
      && (ShowsApart(show, needs) ==> shown == Texts(show, granted))
  {
    hide Distinct, DistinctNeeds, PlanNeeds, Text, Texts, AllUnheldTexts, Unheld, AllPreviewed, ShownStep;
    hide Matched, OneToOne, ShowsApart;
    ShownAre(show, table, catalog, steps, p);
    var needs := PlanNeeds(catalog, steps);
    AlwaysMatched(show, needs);
    if OneToOne(show, needs, Distinct(Texts(show, needs)), DistinctNeeds(needs)) {
      OneToOneIsApart(show, needs);
    }
    if ShowsApart(show, needs) {
      ApartIsOneToOne(show, needs);
      ApartKeepsOrder(show, needs);
    }
  }

  /** The proposal shows the texts of all the plan needs, each once. */
  lemma ShownAre(show: Show, table: Table, catalog: Catalog, steps: seq<Step>, p: Preview)
    requires AllPreviewed(table, map[], catalog, steps, p.steps)
    ensures ShownMissing(ProposalFrom(show, p.intent, p)) == Distinct(Texts(show, PlanNeeds(catalog, steps)))
  {
    hide Distinct, PlanNeeds, Text, AllUnheldTexts, Unheld, AllPreviewed, ShownStep;
    var q := ProposalFrom(show, p.intent, p);
    EmptyWalletMissesAll(table, catalog, steps, p.steps);
    AllUnheldShown(show, p.steps, q.steps);
  }

  // ---- as Weave displays resources

  /** The plan spells no path in two ways and names no two services whose names and actions join alike. */
  ghost predicate SpelledApart(needs: seq<Need>) {
    forall a, b :: a in needs && b in needs && a.rights == b.rights && a.resource != b.resource ==>
      match (a.resource, b.resource)
      case (File(p), File(q)) => Components(p) != Components(q)
      case (Service(m, x), Service(n, y)) => m + "/" + x != n + "/" + y
      case _ => true
  }

  /** With Weave's own display, that is when what is shown and what is granted match one to one. */
  lemma WeaveShowsApart(needs: seq<Need>)
    ensures ShowsApart(ShowResource, needs) <==> SpelledApart(needs)
  {
    hide ShowResource, ShowRights, Components;
    forall a, b | a in needs && b in needs
      ensures (Text(ShowResource, a) == Text(ShowResource, b) <==> SameNeed(a, b)) <==>
        (a.rights == b.rights && a.resource != b.resource ==>
          match (a.resource, b.resource)
          case (File(p), File(q)) => Components(p) != Components(q)
          case (Service(m, x), Service(n, y)) => m + "/" + x != n + "/" + y
          case _ => true)
    {
      DisplayedAlike(a.resource, b.resource);
      if ShowRights(a.rights) == ShowRights(b.rights) {
        ShowRightsInjective(a.rights, b.rights);
      }
    }
  }

  /** A plan over one path with and without a slash at its end shows two capabilities, and the confirm grants one. */
  lemma SlashShowsTwice(table: Table, catalog: Catalog, steps: seq<Step>, p: Preview, path: string, rights: Rights)
    requires path != "" && PlanNeeds(catalog, steps) == [Need(File(path), rights), Need(File(path + "/"), rights)]
    requires AllPreviewed(table, map[], catalog, steps, p.steps)
    ensures |ShownMissing(ProposalFrom(ShowResource, p.intent, p))| == 2
    ensures Disclosed(catalog, steps) == [Need(File(path), rights)]
  {
    hide ShowRights, PlanNeeds, AllPreviewed, Unheld, ShownStep, Components, Pieces, First, DistinctNeeds, Distinct, ShowResource;
    ShownAre(ShowResource, table, catalog, steps, p);
    var a, b := Need(File(path), rights), Need(File(path + "/"), rights);
    DisplayedAlike(a.resource, b.resource);
    assert |path| != |path + "/"|;
    DistinctOfTwo(Text(ShowResource, a), Text(ShowResource, b));
    assert Texts(ShowResource, [a, b]) == [Text(ShowResource, a), Text(ShowResource, b)];
    TrailingSlash(path);
    DistinctNeedsOfTwo(a, b);
  }

  lemma DistinctOfTwo<T>(t: T, u: T)
    ensures Distinct([t, u]) == if t == u then [t] else [t, u]
  {
    assert [t, u][..1] == [t] && [t][..0] == [];
    assert Distinct([t]) == [t];
  }

  lemma DistinctNeedsOfTwo(a: Need, b: Need)
    ensures DistinctNeeds([a, b]) == if SameNeed(a, b) then [a] else [a, b]
  {
    hide SameNeed;
    assert [a, b][..1] == [a] && [a][..0] == [];
    assert DistinctNeeds([a]) == [a];
    assert Listed(b, [a]) <==> SameNeed(a, b);
  }

  /** A slash at the end of a path does not make it another path. */
  lemma TrailingSlash(path: string)
    requires path != ""
    ensures Components(path + "/") == Components(path)
  {
    hide Components;
    ComponentsJoined(path, "");
    assert path + "/" + "" == path + "/";
  }

  /** A plan over two services displayed alike shows one capability, and the confirm grants two. */
  lemma ServicesShowOnce(table: Table, catalog: Catalog, steps: seq<Step>, p: Preview, rights: Rights)
    requires PlanNeeds(catalog, steps) == [Need(Service("a/b", "c"), rights), Need(Service("a", "b/c"), rights)]
    requires AllPreviewed(table, map[], catalog, steps, p.steps)
    ensures |ShownMissing(ProposalFrom(ShowResource, p.intent, p))| == 1
    ensures |Disclosed(catalog, steps)| == 2
  {
    hide ShowRights, PlanNeeds, AllPreviewed, Unheld, ShownStep, DistinctNeeds, Distinct;
    ShownAre(ShowResource, table, catalog, steps, p);
    var a, b := Need(Service("a/b", "c"), rights), Need(Service("a", "b/c"), rights);
    DisplayedAlike(a.resource, b.resource);
    assert |"a/b"| != |"a"|;
    assert "a/b" + "/" + "c" == "a" + "/" + "b/c";
    DistinctOfTwo(Text(ShowResource, a), Text(ShowResource, b));
    assert Texts(ShowResource, [a, b]) == [Text(ShowResource, a), Text(ShowResource, b)];
    DistinctNeedsOfTwo(a, b);
  }
}
