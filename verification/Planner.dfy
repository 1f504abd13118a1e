/**
 The ask protocol of the Glass shell (crates/horizon/src/main.rs): the shell and the planner's worker
 thread with its two channels, as one state that keys, ticks and worker steps change. What Enter on a
 line resolves to, and what the planner answers, are parameters of the steps.
 */
module Planner {
  import opened Outcomes
  import opened Tools
  import opened Aura
  import opened Display
  import opened Proposals

  datatype Answer = Planned(plan: Plan) | Refused(error: string)

  datatype Ask = Ask(epoch: nat, intent: string)

  datatype Reply = Reply(epoch: nat, answer: Answer)

  datatype Key = Char | Backspace | Delete | Escape | Left | Right | Home | End | Enter

  /** What Enter on the line resolves to: nothing, an ask, a program to launch, or grants to sever. */
  datatype LineAction = Nothing | AskFor(intent: string) | Launch | Sever(ids: seq<Weave.GrantId>)

  /** What happened, in order. */
  datatype Event =
    | Asked(ask: Ask)
    | Answered(reply: Reply)
    | Cancelled(epoch: nat)
    | Executed(epoch: nat, plan: Plan)

  datatype State = State(
    planning: Option<Ask>, epoch: nat, pending: Option<Plan>,
    shownPlanning: Option<string>, proposal: Option<Proposal>,
    requests: seq<Ask>, hand: Option<Ask>, results: seq<Reply>, alive: bool,
    trace: seq<Event>)

  datatype Action = KeyPress(key: Key, line: LineAction) | Tick | Take | Finish(answer: Answer) | Die

  /** The catalog the shell previews with, and how it displays resources. */
  datatype Setting = Setting(catalog: Catalog, show: Show)

  // ---- what is shown

  /** The preview a new principal gets: nothing is held. */
  function FreshStep(catalog: Catalog, index: nat, step: Step): StepPreview {
    match Get(catalog, step.tool)
    case None => StepPreview(index, step.tool, step.rationale, None, [], Some(UnknownTool))
    case Some(tool) =>
      match tool.needs(step.args)
      case Err(e) => StepPreview(index, step.tool, step.rationale, Some(tool.effect), [], Some(BadArgs(e)))
      case Ok(needs) =>
        var statuses := seq(|needs|, i requires 0 <= i < |needs| => NeedStatus(needs[i], Missing));
        StepPreview(index, step.tool, step.rationale, Some(tool.effect), statuses, BlockOf(statuses, tool.effect))
  }

  function FreshPreview(catalog: Catalog, plan: Plan): Preview {
    Preview(plan.intent, seq(|plan.steps|, i requires 0 <= i < |plan.steps| => FreshStep(catalog, i, plan.steps[i])))
  }

  /** A preview from an empty wallet depends on nothing but the plan. */
  lemma FreshPreviewOnly(table: Weave.Table, catalog: Catalog, plan: Plan, p: Preview)
    requires p.intent == plan.intent && AllPreviewed(table, map[], catalog, plan.steps, p.steps)
    ensures p == FreshPreview(catalog, plan)
  {
    hide Get, BlockOf;
    forall i | 0 <= i < |plan.steps|
      ensures p.steps[i] == FreshStep(catalog, i, plan.steps[i])
    {
      FreshStepOnly(table, catalog, i, plan.steps[i], p.steps[i]);
    }
  }

  lemma FreshStepOnly(table: Weave.Table, catalog: Catalog, index: nat, step: Step, sp: StepPreview)
    requires Previews(table, map[], catalog, index, step, sp)
    ensures sp == FreshStep(catalog, index, step)
  {
    hide Get, BlockOf;
    assert sp.needs == FreshStep(catalog, index, step).needs;
  }

  function ProposalOf(w: Setting, intent: string, plan: Plan): Proposal {
    ProposalFrom(w.show, intent, FreshPreview(w.catalog, plan))
  }

  function FailedProposal(intent: string, reason: string): Proposal {
    Proposal(intent, [], false, false, Some(reason))
  }

  // ---- the shell's steps

  function Record(s: State, e: Event): State {
    s.(trace := s.trace + [e])
  }

  /** Dispatches an ask under a new epoch, or fails it in place when the worker is gone. */
  function Propose(s: State, intent: string): State {
    var ask := Ask(s.epoch + 1, intent);
    var asked := Record(s.(epoch := s.epoch + 1, pending := None), Asked(ask));
    if s.alive then
      asked.(proposal := None, shownPlanning := Some(intent), planning := Some(ask), requests := s.requests + [ask])
    else
      asked.(proposal := Some(FailedProposal(intent, "the planner is not available")), shownPlanning := None, planning := None)
  }

  /** Clearing the line drops what belongs to it. */
  function ClearLine(s: State): State {
    s.(proposal := None, shownPlanning := None)
  }

  function Execute(s: State, line: LineAction): State {
    match line
    case Nothing => s
    case AskFor(intent) => Propose(s, intent)
    case Launch => ClearLine(s)
    case Sever(_) => ClearLine(s)
  }

  function CancelPlanning(s: State): State {
    var cancelled := if s.planning.Some? then Record(s, Cancelled(s.planning.value.epoch)) else s;
    ClearLine(cancelled.(planning := None, pending := None))
  }

  function DismissProposal(s: State): State {
    ClearLine(s.(pending := None))
  }

  function Confirm(s: State): State {
    match s.pending
    case None => DismissProposal(s)
    case Some(plan) => ClearLine(Record(s.(pending := None), Executed(s.epoch, plan)))
  }

  function OnKey(s: State, key: Key, line: LineAction): State
    decreases s.proposal.Some?
  {
    if s.planning.Some? then
      if key == Escape then CancelPlanning(s) else s
    else if s.proposal.Some? then
      match key
      case Enter => Confirm(s)
      case Escape => DismissProposal(s)
      case _ => OnKey(s.(proposal := None, pending := None), key, line)
    else
      match key
      case Enter => Execute(s, line)
      case Escape => ClearLine(s)
      case _ => s
  }

  /** While an ask is awaited only Escape is heard: the wait ends, and what the worker answers will be stale. */
  lemma KeyWhileAwaiting(s: State, key: Key, line: LineAction)
    requires s.planning.Some?
    ensures
      var s' := OnKey(s, key, line);
      if key != Escape then s' == s
      else
        && s'.planning == None && s'.pending == None && s'.proposal == None && s'.shownPlanning == None
        && s'.trace == s.trace + [Cancelled(s.planning.value.epoch)] && s'.epoch == s.epoch
        && s'.requests == s.requests && s'.hand == s.hand && s'.results == s.results && s'.alive == s.alive
  {
  }

  /** Any key takes a proposal off; Enter also executes what is pending, and no other key records anything. */
  lemma KeyOnProposal(s: State, key: Key, line: LineAction)
    requires s.planning == None && s.proposal.Some?
    ensures
      var s' := OnKey(s, key, line);
      && s'.planning == None && s'.pending == None && s'.proposal == None && s'.epoch == s.epoch
      && s'.requests == s.requests && s'.hand == s.hand && s'.results == s.results && s'.alive == s.alive
      && s'.trace == if key == Enter && s.pending.Some? then s.trace + [Executed(s.epoch, s.pending.value)] else s.trace
  {
    var t := s.(proposal := None, pending := None);
    assert key != Enter && key != Escape ==> OnKey(t, key, line) == t;
  }

  /** With neither, Enter on an ask sends it under a new epoch, or says that nobody is there to take it. */
  lemma KeyOnIdleLine(s: State, key: Key, line: LineAction)
    requires s.planning == None && s.proposal == None
    ensures
      var s' := OnKey(s, key, line);
      && s'.hand == s.hand && s'.results == s.results && s'.alive == s.alive
      && if key == Enter && line.AskFor? then
           var ask := Ask(s.epoch + 1, line.intent);
           && s'.epoch == s.epoch + 1 && s'.pending == None && s'.trace == s.trace + [Asked(ask)]
           && (if s.alive then
                 s'.planning == Some(ask) && s'.requests == s.requests + [ask] && s'.proposal == None
                 && s'.shownPlanning == Some(line.intent)
               else
                 s'.planning == None && s'.requests == s.requests && s'.shownPlanning == None
                 && s'.proposal == Some(Proposal(line.intent, [], false, false, Some("the planner is not available"))))
         else
           && s'.planning == None && s'.proposal == None && s'.trace == s.trace
           && s'.requests == s.requests && s'.epoch == s.epoch && s'.pending == s.pending
  {
  }

  /** The key confirms the pending plan. */
  predicate Confirms(s: State, key: Key) {
    s.planning == None && s.proposal.Some? && s.pending.Some? && key == Enter
  }

  /** The grants a key severs: those of Enter on an idle line that says so. */
  function Severs(s: State, key: Key, line: LineAction): seq<Weave.GrantId> {
    if s.planning == None && s.proposal == None && key == Enter && line.Sever? then line.ids else []
  }

  function FinishPlan(w: Setting, s: State, intent: string, answer: Answer): State {
    match answer
    case Planned(plan) => s.(shownPlanning := None, proposal := Some(ProposalOf(w, intent, plan)), pending := Some(plan))
    case Refused(e) => s.(shownPlanning := None, proposal := Some(FailedProposal(intent, e)), pending := None)
  }

  /** Takes results until the awaited one; the stale ones before it are dropped. */
  function PollPlanner(w: Setting, s: State): State
    decreases |s.results|
  {
    if s.results == [] then s
    else
      var reply, s' := s.results[0], s.(results := s.results[1..]);
      if s.planning.Some? && s.planning.value.epoch == reply.epoch then
        FinishPlan(w, s'.(planning := None), s.planning.value.intent, reply.answer)
      else PollPlanner(w, s')
  }

  // ---- the worker's steps

  function WorkerTakes(s: State): State {
    if s.alive && s.hand.None? && s.requests != [] then s.(hand := Some(s.requests[0]), requests := s.requests[1..]) else s
  }

  function WorkerFinishes(s: State, answer: Answer): State {
    if s.alive && s.hand.Some? then
      var reply := Reply(s.hand.value.epoch, answer);
      Record(s.(hand := None, results := s.results + [reply]), Answered(reply))
    else s
  }

  /** A worker that panics takes its request and its end of both channels with it. */
  function WorkerDies(s: State): State {
    s.(alive := false, hand := None, requests := [])
  }

  function Next(w: Setting, s: State, a: Action): State {
    match a
    case KeyPress(key, line) => OnKey(s, key, line)
    case Tick => PollPlanner(w, s)
    case Take => WorkerTakes(s)
    case Finish(answer) => WorkerFinishes(s, answer)
    case Die => WorkerDies(s)
  }

  const INITIAL: State := State(None, 0, None, None, None, [], None, [], true, [])

  function Run(w: Setting, actions: seq<Action>): State {
    if actions == [] then INITIAL else Next(w, Run(w, actions[..|actions| - 1]), actions[|actions| - 1])
  }

  // ---- the invariant

  function HandEpochs(s: State): seq<nat> {
    if s.hand.Some? then [s.hand.value.epoch] else []
  }

  function RequestEpochs(asks: seq<Ask>): (es: seq<nat>)
    ensures |es| == |asks|
  {
    seq(|asks|, i requires 0 <= i < |asks| => asks[i].epoch)
  }

  function ReplyEpochs(replies: seq<Reply>): (es: seq<nat>)
    ensures |es| == |replies|
  {
    seq(|replies|, i requires 0 <= i < |replies| => replies[i].epoch)
  }

  /** The epochs under way, oldest first: answered, in the worker's hand, waiting. */
  function Pipeline(s: State): seq<nat> {
    ReplyEpochs(s.results) + HandEpochs(s) + RequestEpochs(s.requests)
  }

  predicate Increasing(es: seq<nat>) {
    forall i, j :: 0 <= i < j < |es| ==> es[i] < es[j]
  }

  /** First in, first out: epochs increase along the pipeline, none is newer than the newest. */
  predicate Ordered(s: State) {
    && Increasing(Pipeline(s)) && (forall e <- Pipeline(s) :: e <= s.epoch)
    && (!s.alive ==> s.hand == None && s.requests == [])
  }

  /** The awaited ask is the newest, and the worker alive, it is under way; nothing is shown or pending meanwhile. */
  predicate Awaits(s: State) {
    match s.planning
    case Some(ask) =>
      && ask.epoch == s.epoch && s.shownPlanning == Some(ask.intent) && s.proposal == None && s.pending == None
      && (s.alive ==> s.epoch in Pipeline(s))
    case None => s.shownPlanning == None
  }

  /** Everything under way was asked, and every result is an answer the worker gave. */
  predicate Accounted(s: State) {
    && (forall a <- s.requests :: Asked(a) in s.trace)
    && (s.hand.Some? ==> Asked(s.hand.value) in s.trace)
    && (forall r <- s.results :: Answered(r) in s.trace)
    && (s.planning.Some? ==> Asked(s.planning.value) in s.trace)
  }

  /** Epochs in the trace: each asked once, answered only after being asked, never beyond the newest. */
  ghost predicate TraceSound(s: State) {
    && (forall a, b :: Asked(a) in s.trace && Asked(b) in s.trace && a.epoch == b.epoch ==> a == b)
    && (forall a :: Asked(a) in s.trace ==> 1 <= a.epoch <= s.epoch)
    && (forall e: nat :: Cancelled(e) in s.trace ==> e <= s.epoch)
    && (forall e: nat, p :: Executed(e, p) in s.trace ==> e <= s.epoch)
    && (s.planning.Some? || s.pending.Some? ==>
          Cancelled(s.epoch) !in s.trace && forall p :: Executed(s.epoch, p) !in s.trace)
  }

  /** A pending plan is the worker's answer to the newest ask, and is the one on display. */
  ghost predicate PendingShown(w: Setting, s: State) {
    s.pending.Some? ==>
      && s.planning == None
      && Answered(Reply(s.epoch, Planned(s.pending.value))) in s.trace
      && exists intent :: Asked(Ask(s.epoch, intent)) in s.trace && s.proposal == Some(ProposalOf(w, intent, s.pending.value))
  }

  /** A proposal on display can be confirmed unless it says why it failed. */
  predicate ShownIsPending(s: State) {
    s.proposal.Some? && s.proposal.value.failed == None <==> s.pending.Some?
  }

  ghost predicate Inv(w: Setting, s: State) {
    Ordered(s) && Awaits(s) && Accounted(s) && TraceSound(s) && PendingShown(w, s) && ShownIsPending(s)
  }

  // ---- every step keeps it

  lemma IncreasingSlices(es: seq<nat>, i: nat, j: nat)
    requires Increasing(es) && i <= j <= |es|
    ensures Increasing(es[i..j]) && es[0..j] == es[..j] && es[i..|es|] == es[i..]
  {
    forall a, b | 0 <= a < b < j - i
      ensures es[i..j][a] < es[i..j][b]
    {
      assert es[i..j][a] == es[i + a] && es[i..j][b] == es[i + b];
    }
  }

  lemma OrderedSlice(s: State, s': State, i: nat, j: nat)
    requires Ordered(s) && i <= j <= |Pipeline(s)| && Pipeline(s') == Pipeline(s)[i..j]
    requires s'.epoch == s.epoch && (!s'.alive ==> s'.hand == None && s'.requests == [])
    ensures Ordered(s')
  {
    hide Pipeline, Increasing;
    var es := Pipeline(s);
    IncreasingSlices(es, i, j);
    forall e | e in es[i..j]
      ensures e <= s.epoch
    {
      assert e in es;
    }
  }

  lemma TakeKeepsPipeline(s: State)
    ensures Pipeline(WorkerTakes(s)) == Pipeline(s)
  {
    var s' := WorkerTakes(s);
    if s' != s {
      assert RequestEpochs(s.requests) == [s.requests[0].epoch] + RequestEpochs(s'.requests);
    }
  }

  lemma FinishKeepsPipeline(s: State, answer: Answer)
    ensures Pipeline(WorkerFinishes(s, answer)) == Pipeline(s)
  {
    var s' := WorkerFinishes(s, answer);
    if s' != s {
      assert ReplyEpochs(s'.results) == ReplyEpochs(s.results) + [s.hand.value.epoch];
    }
  }

  lemma DropShortensPipeline(s: State)
    requires s.results != []
    ensures |Pipeline(s)| > 0
    ensures Pipeline(s.(results := s.results[1..])) == Pipeline(s)[1..]
    ensures Pipeline(s)[0] == s.results[0].epoch
  {
    var s' := s.(results := s.results[1..]);
    assert ReplyEpochs(s.results) == [s.results[0].epoch] + ReplyEpochs(s'.results);
  }

  lemma DieShortensPipeline(s: State)
    ensures |Pipeline(s)| >= |s.results| && Pipeline(WorkerDies(s)) == Pipeline(s)[..|s.results|]
  {
  }

  lemma TakeKeeps(w: Setting, s: State)
    requires Inv(w, s)
    ensures Inv(w, WorkerTakes(s))
  {
    hide Pipeline, TraceSound, Increasing, ProposalOf;
    TakeKeepsPipeline(s);
    var s' := WorkerTakes(s);
    assert TraceSound(s') by { SameTraceSound(s, s'); }
  }

  lemma SameTraceSound(s: State, s': State)
    requires TraceSound(s) && s'.trace == s.trace && s'.epoch == s.epoch
    requires s'.planning.Some? || s'.pending.Some? ==> s.planning.Some? || s.pending.Some?
    ensures TraceSound(s')
  {
  }

  lemma FinishKeeps(w: Setting, s: State, answer: Answer)
    requires Inv(w, s)
    ensures Inv(w, WorkerFinishes(s, answer))
  {
    hide Pipeline, TraceSound, Increasing, ProposalOf;
    FinishKeepsPipeline(s, answer);
    var s' := WorkerFinishes(s, answer);
    if s' != s {
      MoreTraceSound(s, s', s'.trace[|s.trace|]);
      assert PendingShown(w, s') by {
        if s'.pending.Some? {
          var intent :| Asked(Ask(s.epoch, intent)) in s.trace && s.proposal == Some(ProposalOf(w, intent, s.pending.value));
          assert Asked(Ask(s.epoch, intent)) in s'.trace;
        }
      }
    }
  }

  lemma MoreTraceSound(s: State, s': State, e: Event)
    requires TraceSound(s) && s'.trace == s.trace + [e] && e.Answered? && s'.epoch == s.epoch
    requires s'.planning == s.planning && s'.pending == s.pending
    ensures TraceSound(s')
  {
  }

  lemma DieKeeps(w: Setting, s: State)
    requires Inv(w, s)
    ensures Inv(w, WorkerDies(s))
  {
    hide Pipeline, TraceSound, Increasing, ProposalOf;
    DieShortensPipeline(s);
    OrderedSlice(s, WorkerDies(s), 0, |s.results|);
    SameTraceSound(s, WorkerDies(s));
  }

  lemma {:induction false} TickKeeps(w: Setting, s: State)
    requires Inv(w, s)
    ensures Inv(w, PollPlanner(w, s))
    decreases |s.results|
  {
    hide Inv;
    if s.results != [] {
      var s' := s.(results := s.results[1..]);
      if s.planning.Some? && s.planning.value.epoch == s.results[0].epoch {
        LandingKeeps(w, s);
      } else {
        DropKeeps(w, s);
        TickKeeps(w, s');
      }
    }
  }

  /** Dropping a stale result loses nothing awaited. */
  lemma DropKeeps(w: Setting, s: State)
    requires Inv(w, s) && s.results != [] && !(s.planning.Some? && s.planning.value.epoch == s.results[0].epoch)
    ensures Inv(w, s.(results := s.results[1..]))
  {
    hide Pipeline, TraceSound, Increasing, ProposalOf;
    var s' := s.(results := s.results[1..]);
    DropShortensPipeline(s);
    OrderedSlice(s, s', 1, |Pipeline(s)|);
    SameTraceSound(s, s');
    var es := Pipeline(s);
    assert es == [es[0]] + es[1..];
  }

  lemma NotFailed(w: Setting, intent: string, plan: Plan)
    ensures ProposalOf(w, intent, plan).failed == None
  {
  }

  /** The awaited result becomes the proposal. */
  lemma LandingKeeps(w: Setting, s: State)
    requires Inv(w, s) && s.results != [] && s.planning.Some? && s.planning.value.epoch == s.results[0].epoch
    ensures Inv(w, PollPlanner(w, s))
  {
    hide Pipeline, TraceSound, Increasing, ProposalOf;
    var ask, reply := s.planning.value, s.results[0];
    var s' := PollPlanner(w, s);
    assert s' == FinishPlan(w, s.(results := s.results[1..], planning := None), ask.intent, reply.answer);
    assert ShownIsPending(s') by {
      if reply.answer.Planned? {
        NotFailed(w, ask.intent, reply.answer.plan);
      }
    }
    DropShortensPipeline(s);
    SamePipeline(s', s.(results := s.results[1..]));
    OrderedSlice(s, s', 1, |Pipeline(s)|);
    SameTraceSound(s, s');
    assert reply in s.results && Answered(reply) in s.trace;
    assert Asked(Ask(s.epoch, ask.intent)) in s.trace;
    var es := Pipeline(s);
    assert es == [es[0]] + es[1..];
  }

  lemma SamePipeline(a: State, b: State)
    requires a.results == b.results && a.hand == b.hand && a.requests == b.requests
    ensures Pipeline(a) == Pipeline(b)
  {
  }

  lemma ProposeKeeps(w: Setting, s: State, intent: string)
    requires Inv(w, s) && s.planning == None
    ensures Inv(w, Propose(s, intent))
  {
    hide Pipeline, Increasing, ProposalOf;
    var s' := Propose(s, intent);
    if s.alive {
      ProposeGrowsPipeline(s, intent);
    } else {
      SamePipeline(s', s);
    }
    assert s'.trace == s.trace + [Asked(Ask(s.epoch + 1, intent))];
  }

  lemma ProposeGrowsPipeline(s: State, intent: string)
    requires s.alive
    ensures Pipeline(Propose(s, intent)) == Pipeline(s) + [s.epoch + 1]
    ensures Ordered(s) ==> Ordered(Propose(s, intent))
  {
    var s' := Propose(s, intent);
    assert RequestEpochs(s'.requests) == RequestEpochs(s.requests) + [s.epoch + 1];
    assert Pipeline(s') == Pipeline(s) + [s.epoch + 1];
    var es := Pipeline(s);
    assert forall i :: 0 <= i < |es| ==> es[i] in es;
  }

  lemma CancelKeeps(w: Setting, s: State)
    requires Inv(w, s) && s.planning.Some?
    ensures Inv(w, CancelPlanning(s))
  {
    hide Pipeline, Increasing, ProposalOf;
    var s' := CancelPlanning(s);
    SamePipeline(s', s);
    assert s'.trace == s.trace + [Cancelled(s.epoch)];
  }

  /** Dropping a proposal, with what is pending, keeps the rest. */
  lemma ClearKeeps(w: Setting, s: State, s': State)
    requires Inv(w, s) && s.planning == None
    requires s' == s.(proposal := None, pending := None, shownPlanning := None)
    ensures Inv(w, s')
  {
    hide Pipeline, Increasing, ProposalOf, TraceSound;
    SamePipeline(s', s);
    SameTraceSound(s, s');
  }

  lemma ConfirmKeeps(w: Setting, s: State)
    requires Inv(w, s) && s.planning == None && s.pending.Some?
    ensures Inv(w, Confirm(s))
  {
    hide Pipeline, Increasing, ProposalOf;
    var s' := Confirm(s);
    SamePipeline(s', s);
    assert s'.trace == s.trace + [Executed(s.epoch, s.pending.value)];
  }

  lemma {:induction false} KeyKeeps(w: Setting, s: State, key: Key, line: LineAction)
    requires Inv(w, s)
    ensures Inv(w, OnKey(s, key, line))
    decreases s.proposal.Some?
  {
    hide Ordered, Accounted, TraceSound, Pipeline, ProposalOf;
    if s.planning.Some? {
      CancelKeeps(w, s);
    } else if s.proposal.Some? {
      if key == Enter && s.pending.Some? {
        ConfirmKeeps(w, s);
      } else if key == Enter || key == Escape {
        ClearKeeps(w, s, DismissProposal(s));
      } else {
        var s' := s.(proposal := None, pending := None);
        ClearKeeps(w, s, s');
        KeyKeeps(w, s', key, line);
      }
    } else {
      assert s.pending == None;
      if key == Enter && line.AskFor? {
        ProposeKeeps(w, s, line.intent);
      } else {
        ClearKeeps(w, s, ClearLine(s));
      }
    }
  }

  /** Every key, tick and worker step keeps the invariant. */
  lemma NextKeeps(w: Setting, s: State, a: Action)
    requires Inv(w, s)
    ensures Inv(w, Next(w, s, a))
  {
    hide Inv;
    match a
    case KeyPress(key, line) => KeyKeeps(w, s, key, line);
    case Tick => TickKeeps(w, s);
    case Take => TakeKeeps(w, s);
    case Finish(answer) => FinishKeeps(w, s, answer);
    case Die => DieKeeps(w, s);
  }

  /** So it holds in every interleaving of keys, ticks and worker steps. */
  lemma {:induction false} RunKeeps(w: Setting, actions: seq<Action>)
    ensures Inv(w, Run(w, actions))
  {
    if actions == [] {
      assert Inv(w, INITIAL);
    } else {
      hide Inv, Next;
      var n := |actions| - 1;
      RunKeeps(w, actions[..n]);
      NextKeeps(w, Run(w, actions[..n]), actions[n]);
    }
  }

  // ---- what it means for runs

  lemma {:induction false} IncreasingOnce(es: seq<nat>, e: nat)
    requires Increasing(es)
    ensures e in es ==> multiset(es)[e] == 1
    ensures e !in es ==> multiset(es)[e] == 0
    decreases |es|
  {
    if es != [] {
      var n := |es| - 1;
      assert es == es[..n] + [es[n]];
      IncreasingOnce(es[..n], e);
      if e == es[n] {
        assert forall i :: 0 <= i < n ==> es[..n][i] < e;
      }
    }
  }

  /** While an ask is awaited and the worker lives, its epoch is the newest and is under way exactly once. */
  lemma AwaitedInOnePlace(w: Setting, actions: seq<Action>)
    ensures
      var s := Run(w, actions);
      s.planning.Some? && s.alive ==>
        && s.planning.value.epoch == s.epoch
        && (forall e <- Pipeline(s) :: e <= s.epoch)
        && multiset(ReplyEpochs(s.results))[s.epoch] + multiset(HandEpochs(s))[s.epoch] + multiset(RequestEpochs(s.requests))[s.epoch] == 1
  {
    hide Run, Increasing, ReplyEpochs, HandEpochs, RequestEpochs, TraceSound, PendingShown, Accounted;
    RunKeeps(w, actions);
    var s := Run(w, actions);
    IncreasingOnce(Pipeline(s), s.epoch);
  }

  /** A plan is executed by an Enter with that plan pending, and by nothing else. */
  lemma ExecutesOnlyOnConfirm(w: Setting, s: State, a: Action, e: nat, plan: Plan)
    requires Inv(w, s)
    ensures s.trace <= Next(w, s, a).trace
    ensures Executed(e, plan) in Next(w, s, a).trace[|s.trace|..]
      <==> a.KeyPress? && a.key == Enter && s.pending == Some(plan) && e == s.epoch
  {
    hide Ordered, Accounted, TraceSound, Pipeline, ProposalOf;
    match a
    case KeyPress(key, line) => KeyExecutes(w, s, key, line, e, plan);
    case Tick => PollRecordsNothing(w, s);
    case Take =>
    case Finish(answer) =>
    case Die =>
  }

  lemma {:induction false} PollRecordsNothing(w: Setting, s: State)
    ensures PollPlanner(w, s).trace == s.trace
    decreases |s.results|
  {
    hide ProposalOf;
    if s.results != [] && !(s.planning.Some? && s.planning.value.epoch == s.results[0].epoch) {
      PollRecordsNothing(w, s.(results := s.results[1..]));
    }
  }

  lemma {:induction false} KeyExecutes(w: Setting, s: State, key: Key, line: LineAction, e: nat, plan: Plan)
    requires Awaits(s) && PendingShown(w, s)
    ensures s.trace <= OnKey(s, key, line).trace
    ensures Executed(e, plan) in OnKey(s, key, line).trace[|s.trace|..]
      <==> key == Enter && s.pending == Some(plan) && e == s.epoch
    decreases s.proposal.Some?
  {
    hide Pipeline, ProposalOf;
    if s.planning == None && s.proposal.Some? && key != Enter && key != Escape {
      KeyExecutes(w, s.(proposal := None, pending := None), key, line, e, plan);
    }
  }

  /** An execution carries out the worker's answer to the newest ask, which was never cancelled, and only once. */
  ghost predicate ExecutionSound(trace: seq<Event>, i: nat)
    requires i < |trace| && trace[i].Executed?
  {
    var e, plan := trace[i].epoch, trace[i].plan;
    && Answered(Reply(e, Planned(plan))) in trace[..i]
    && (exists intent :: Asked(Ask(e, intent)) in trace[..i])
    && (forall a :: Asked(a) in trace[..i] ==> a.epoch <= e)
    && Cancelled(e) !in trace
    && (forall k :: 0 <= k < i && trace[k].Executed? ==> trace[k].epoch != e)
  }

  ghost predicate AllSound(trace: seq<Event>) {
    forall i :: 0 <= i < |trace| && trace[i].Executed? ==> ExecutionSound(trace, i)
  }

  lemma {:induction false} ExecutionsSound(w: Setting, actions: seq<Action>)
    ensures AllSound(Run(w, actions).trace)
  {
    if actions != [] {
      var n := |actions| - 1;
      var s, a := Run(w, actions[..n]), actions[n];
      ExecutionsSound(w, actions[..n]);
      RunKeeps(w, actions[..n]);
      StepStaysSound(w, s, a);
    }
  }

  lemma StepStaysSound(w: Setting, s: State, a: Action)
    requires Inv(w, s) && AllSound(s.trace)
    ensures AllSound(Next(w, s, a).trace)
  {
    hide Ordered, Accounted, Pipeline, ProposalOf, AllSound, Next, Awaits;
    var s' := Next(w, s, a);
    RecordsAtMostOne(w, s, a);
    if s'.trace != s.trace {
      OneMoreSound(w, s, s'.trace[|s.trace|]);
    }
  }

  /** What a step records: nothing, or one event the invariant allows. */
  predicate Allowed(s: State, e: Event) {
    match e
    case Asked(a) => a.epoch == s.epoch + 1
    case Answered(_) => true
    case Cancelled(epoch) => s.planning.Some? && epoch == s.epoch
    case Executed(epoch, plan) => s.pending == Some(plan) && epoch == s.epoch
  }

  lemma RecordsAtMostOne(w: Setting, s: State, a: Action)
    requires Inv(w, s)
    ensures
      var t := Next(w, s, a).trace;
      t == s.trace || (|t| == |s.trace| + 1 && t == s.trace + [t[|s.trace|]] && Allowed(s, t[|s.trace|]))
  {
    hide Ordered, Accounted, TraceSound, Pipeline, ProposalOf;
    match a
    case KeyPress(key, line) => KeyRecords(w, s, key, line);
    case Tick => PollRecordsNothing(w, s);
    case Take =>
    case Finish(answer) =>
    case Die =>
  }

  lemma {:induction false} KeyRecords(w: Setting, s: State, key: Key, line: LineAction)
    requires Awaits(s) && PendingShown(w, s)
    ensures
      var t := OnKey(s, key, line).trace;
      t == s.trace || (|t| == |s.trace| + 1 && t == s.trace + [t[|s.trace|]] && Allowed(s, t[|s.trace|]))
    decreases s.proposal.Some?
  {
    hide Pipeline, ProposalOf;
    if s.planning == None && s.proposal.Some? && key != Enter && key != Escape {
      KeyRecords(w, s.(proposal := None, pending := None), key, line);
    }
  }

  lemma OneMoreSound(w: Setting, s: State, e: Event)
    requires TraceSound(s) && PendingShown(w, s) && AllSound(s.trace) && Allowed(s, e)
    ensures AllSound(s.trace + [e])
  {
    hide ProposalOf, ExecutionSound;
    var t := s.trace + [e];
    forall i | 0 <= i < |t| && t[i].Executed?
      ensures ExecutionSound(t, i)
    {
      if i < |s.trace| {
        assert t[i] in s.trace;
        EarlierSound(s.trace, e, i);
      } else {
        LatestSound(w, s, e);
      }
    }
  }

  lemma EarlierSound(trace: seq<Event>, e: Event, i: nat)
    requires i < |trace| && trace[i].Executed? && ExecutionSound(trace, i) && e != Cancelled(trace[i].epoch)
    ensures ExecutionSound(trace + [e], i)
  {
    assert (trace + [e])[..i] == trace[..i];
  }

  lemma LatestSound(w: Setting, s: State, e: Event)
    requires TraceSound(s) && PendingShown(w, s) && Allowed(s, e) && e.Executed?
    ensures ExecutionSound(s.trace + [e], |s.trace|)
  {
    hide ProposalOf;
    var t := s.trace + [e];
    assert t[..|s.trace|] == s.trace;
    forall k | 0 <= k < |s.trace| && t[k].Executed?
      ensures t[k].epoch != s.epoch
    {
      assert t[k] in s.trace;
    }
  }

  // ---- when an ask never lands

  /** The awaited ask is neither waiting, nor in the worker's hand, nor answered. */
  predicate Lost(s: State) {
    s.planning.Some? && s.epoch !in Pipeline(s)
  }

  /** The awaited ask is waiting for the worker or in its hand. */
  predicate Unanswered(s: State) {
    s.planning.Some? && s.epoch in HandEpochs(s) + RequestEpochs(s.requests)
  }

  predicate IsEscape(a: Action) {
    a.KeyPress? && a.key == Escape
  }

  predicate NoEscape(actions: seq<Action>) {
    forall a <- actions :: !IsEscape(a)
  }

  function RunFrom(w: Setting, s: State, actions: seq<Action>): State
    decreases |actions|
  {
    if actions == [] then s else RunFrom(w, Next(w, s, actions[0]), actions[1..])
  }

  /** A tick lands the awaited ask exactly when its answer is among the results, and otherwise empties them. */
  lemma {:induction false} TickLands(w: Setting, s: State)
    requires s.planning.Some? && s.planning.value.epoch == s.epoch
    ensures
      var s' := PollPlanner(w, s);
      if s.epoch in ReplyEpochs(s.results) then s'.planning == None && s'.proposal.Some?
      else s' == s.(results := [])
    decreases |s.results|
  {
    hide ProposalOf;
    if s.results != [] {
      var s' := s.(results := s.results[1..]);
      assert ReplyEpochs(s.results) == [s.results[0].epoch] + ReplyEpochs(s'.results);
      if s.epoch != s.results[0].epoch {
        TickLands(w, s');
      }
    }
  }

  /** A living worker holds on to what it has not answered; what a dead one leaves is its answers. */
  lemma PipelineParts(w: Setting, s: State)
    requires Inv(w, s) && s.planning.Some?
    ensures s.epoch in Pipeline(s) <==> s.epoch in ReplyEpochs(s.results) || Unanswered(s)
    ensures !(s.epoch in ReplyEpochs(s.results) && Unanswered(s))
  {
    hide Increasing, Accounted, TraceSound, PendingShown, ReplyEpochs, HandEpochs, RequestEpochs;
    IncreasingOnce(Pipeline(s), s.epoch);
    var r: seq<int>, u: seq<int> := ReplyEpochs(s.results), HandEpochs(s) + RequestEpochs(s.requests);
    assert Pipeline(s) == r + u;
    assert multiset(r + u)[s.epoch] == multiset(r)[s.epoch] + multiset(u)[s.epoch];
  }

  /** An ask is lost by the worker dying with it waiting or in hand, and by nothing else. */
  lemma LostOnlyByDying(w: Setting, s: State, a: Action)
    requires Inv(w, s) && !Lost(s)
    ensures Lost(Next(w, s, a)) <==> a == Die && Unanswered(s)
  {
    NextKeeps(w, s, a);
    var s' := Next(w, s, a);
    hide Accounted, TraceSound, PendingShown, Increasing, ProposalOf, Pipeline;
    if s.planning.Some? {
      PipelineParts(w, s);
      match a
      case KeyPress(key, line) => SamePipeline(s, OnKey(s, key, line));
      case Tick => TickLands(w, s);
        if s.epoch !in ReplyEpochs(s.results) {
          PipelineParts(w, s');
        }
      case Take => TakeKeepsPipeline(s);
      case Finish(answer) => FinishKeepsPipeline(s, answer);
      case Die => PipelineParts(w, s');
    } else {
      match a
      case KeyPress(key, line) => AsksUnderWay(w, s, key, line);
      case Tick => IdleStaysIdle(w, s);
      case Take =>
      case Finish(answer) =>
      case Die =>
    }
  }

  /** An ask starts out under way, or fails at once. */
  lemma {:induction false} AsksUnderWay(w: Setting, s: State, key: Key, line: LineAction)
    requires Inv(w, s) && s.planning == None
    ensures !Lost(OnKey(s, key, line))
    decreases s.proposal.Some?
  {
    hide Accounted, TraceSound, Increasing, ProposalOf, Pipeline;
    if s.proposal.Some? {
      if key != Enter && key != Escape {
        var s' := s.(proposal := None, pending := None);
        ClearKeeps(w, s, s');
        AsksUnderWay(w, s', key, line);
      }
    } else if key == Enter && line.AskFor? && s.alive {
      ProposeGrowsPipeline(s, line.intent);
    }
  }

  lemma {:induction false} IdleStaysIdle(w: Setting, s: State)
    requires s.planning == None
    ensures PollPlanner(w, s).planning == None
    decreases |s.results|
  {
    if s.results != [] {
      IdleStaysIdle(w, s.(results := s.results[1..]));
    }
  }

  /** Only Escape ends the wait for a lost ask. */
  lemma LostStaysLost(w: Setting, s: State, a: Action)
    requires Inv(w, s) && Lost(s)
    ensures if IsEscape(a) then Next(w, s, a).planning == None else Lost(Next(w, s, a)) && Next(w, s, a).planning == s.planning
  {
    PipelineParts(w, s);
    var s' := Next(w, s, a);
    hide Accounted, TraceSound, PendingShown, Increasing, ProposalOf, Pipeline;
    NextKeeps(w, s, a);
    match a
    case KeyPress(key, line) => SamePipeline(s, s');
    case Tick => TickLands(w, s); PipelineParts(w, s');
    case Take => TakeKeepsPipeline(s);
    case Finish(answer) => FinishKeepsPipeline(s, answer);
    case Die => PipelineParts(w, s');
  }

  /** The worker died at step k with the awaited ask unanswered, and Escape was not pressed since. */
  ghost predicate DiedWith(w: Setting, actions: seq<Action>, k: nat) {
    k < |actions| && actions[k] == Die && Unanswered(Run(w, actions[..k])) && NoEscape(actions[k + 1..])
  }

  ghost predicate Died(w: Setting, actions: seq<Action>) {
    exists k: nat :: DiedWith(w, actions, k)
  }

  /** In every run, an ask is lost exactly when the worker died with it waiting or in hand. */
  lemma {:induction false} LostIffDied(w: Setting, actions: seq<Action>)
    ensures Lost(Run(w, actions)) <==> Died(w, actions)
  {
    if actions != [] {
      var n := |actions| - 1;
      var before, a := actions[..n], actions[n];
      LostIffDied(w, before);
      RunKeeps(w, before);
      hide Lost, Unanswered, Inv, Next;
      var s := Run(w, before);
      if Lost(s) {
        LostStaysLost(w, s, a);
        StillLost(w, actions);
      } else {
        LostOnlyByDying(w, s, a);
        NewlyLost(w, actions);
      }
    }
  }

  /** A death noted in a run is noted in every longer one, up to the next Escape. */
  lemma DeathStays(w: Setting, actions: seq<Action>, k: nat)
    requires actions != [] && k < |actions| - 1
    ensures DiedWith(w, actions, k) <==> DiedWith(w, actions[..|actions| - 1], k) && !IsEscape(actions[|actions| - 1])
  {
    hide Lost, Unanswered, Run, IsEscape;
    var n := |actions| - 1;
    var before := actions[..n];
    assert before[..k] == actions[..k] && actions[k + 1..] == before[k + 1..] + [actions[n]];
  }

  lemma StillLost(w: Setting, actions: seq<Action>)
    requires actions != [] && Died(w, actions[..|actions| - 1]) && Lost(Run(w, actions[..|actions| - 1]))
    ensures Died(w, actions) <==> !IsEscape(actions[|actions| - 1])
  {
    hide Run, IsEscape, NoEscape, HandEpochs, RequestEpochs, ReplyEpochs;
    var n := |actions| - 1;
    assert !Unanswered(Run(w, actions[..n]));
    var k: nat :| DiedWith(w, actions[..n], k);
    DeathStays(w, actions, k);
    if j: nat :| DiedWith(w, actions, j) {
      if j < n {
        DeathStays(w, actions, j);
      }
    }
  }

  lemma NewlyLost(w: Setting, actions: seq<Action>)
    requires actions != [] && !Lost(Run(w, actions[..|actions| - 1]))
    requires !Died(w, actions[..|actions| - 1])
    ensures Died(w, actions) <==>
      actions[|actions| - 1] == Die && Unanswered(Run(w, actions[..|actions| - 1]))
  {
    hide Lost, Unanswered, Run, IsEscape;
    var n := |actions| - 1;
    if actions[n] == Die && Unanswered(Run(w, actions[..n])) {
      assert actions[n + 1..] == [];
      assert DiedWith(w, actions, n);
    }
    if j: nat :| DiedWith(w, actions, j) {
      if j < n {
        DeathStays(w, actions, j);
      }
    }
  }

  /**
   What a landed answer leaves: a plan is on display, step by step, and pending; a refusal is on display
   with its reason, and nothing is pending.
   */
  ghost predicate Landed(w: Setting, s: State, ask: Ask, answer: Answer) {
    && s.planning == None && s.shownPlanning == None && s.epoch == ask.epoch
    && s.proposal.Some? && s.proposal.value.intent == ask.intent
    && match answer
       case Planned(plan) => s.pending == Some(plan) && Tells(w, plan, s.proposal.value)
       case Refused(reason) => s.pending == None && s.proposal == Some(Proposal(ask.intent, [], false, false, Some(reason)))
  }

  /** The proposal has the plan's steps, with the tools and the reasons the plan gives, and has not failed. */
  ghost predicate Tells(w: Setting, plan: Plan, p: Proposal) {
    && p.failed == None && |p.steps| == |plan.steps|
    && forall i :: 0 <= i < |plan.steps| ==>
         StepTells(w, plan.steps[i], p.steps[i])
  }

  /** What the proposal says of a step: its tool, its reason, and with a tool of the catalog, its effect and needs. */
  ghost predicate StepTells(w: Setting, step: Step, shown: ProposalStep) {
    && shown.tool == step.tool && shown.rationale == step.rationale
    && match Get(w.catalog, step.tool)
       case None => shown.effect == "?" && shown.needs == [] && shown.block == Some("unknown tool")
       case Some(tool) =>
         && shown.effect == (if tool.effect == Read then "read" else if tool.effect == Write then "write" else "destructive")
         && match tool.needs(step.args)
            case Err(e) => shown.needs == [] && shown.block == Some("bad arguments: " + e)
            case Ok(needs) =>
              && shown.block == None && |shown.needs| == |needs|
              && forall i :: 0 <= i < |needs| ==>
                   shown.needs[i] == ProposalNeed(w.show(needs[i].resource), ShowRights(needs[i].rights), false)
  }

  lemma FreshTells(w: Setting, intent: string, plan: Plan)
    ensures Tells(w, plan, ProposalOf(w, intent, plan)) && ProposalOf(w, intent, plan).intent == intent
  {
    hide Get, ShowRights;
    forall i | 0 <= i < |plan.steps|
      ensures StepTells(w, plan.steps[i], ProposalOf(w, intent, plan).steps[i])
    {
      FreshStepTells(w, i, plan.steps[i]);
    }
  }

  lemma FreshStepTells(w: Setting, i: nat, step: Step)
    ensures StepTells(w, step, ShownStep(w.show, FreshStep(w.catalog, i, step)))
  {
    hide Get, ShowRights;
  }

  /** A tick lands the oldest result that answers the awaited ask and drops the stale ones before it. */
  lemma {:induction false} LandsAt(w: Setting, s: State, i: nat)
    requires s.planning.Some? && s.planning.value.epoch == s.epoch
    requires i < |s.results| && s.results[i].epoch == s.epoch
    requires forall j :: 0 <= j < i ==> s.results[j].epoch != s.epoch
    ensures
      var s' := PollPlanner(w, s);
      && Landed(w, s', s.planning.value, s.results[i].answer)
      && s'.results == s.results[i + 1..] && s'.trace == s.trace
      && s'.requests == s.requests && s'.hand == s.hand && s'.alive == s.alive
    decreases i
  {
    hide Landed, ProposalOf, Tells;
    if i == 0 {
      assert Landed(w, PollPlanner(w, s), s.planning.value, s.results[0].answer) by {
        LandingShows(w, s.(results := s.results[1..], planning := None), s.planning.value, s.results[0].answer);
      }
    } else {
      var s' := s.(results := s.results[1..]);
      LandsAt(w, s', i - 1);
    }
  }

  lemma LandingShows(w: Setting, s: State, ask: Ask, answer: Answer)
    requires s.planning == None && s.epoch == ask.epoch
    ensures Landed(w, FinishPlan(w, s, ask.intent, answer), ask, answer)
  {
    if answer.Planned? {
      FreshTells(w, ask.intent, answer.plan);
    }
    hide ProposalOf, Tells;
  }

  /** The Enter after a plan has landed executes that plan; after a refusal it only clears the line. */
  lemma EnterAfterLanding(w: Setting, s: State, ask: Ask, answer: Answer, line: LineAction)
    requires Landed(w, s, ask, answer)
    ensures
      var s' := OnKey(s, Enter, line);
      && s'.planning == None && s'.pending == None && s'.proposal == None && s'.epoch == s.epoch
      && s'.trace == match answer
                     case Planned(plan) => s.trace + [Executed(ask.epoch, plan)]
                     case Refused(_) => s.trace
  {
    hide Tells;
  }

  /** In every run, Enter on a proposal that has not failed executes the plan it tells of, the answer to the newest ask. */
  lemma EnterRunsWhatIsShown(w: Setting, actions: seq<Action>, line: LineAction) returns (plan: Plan)
    requires Run(w, actions).proposal.Some? && Run(w, actions).proposal.value.failed == None
    ensures
      var s := Run(w, actions);
      && Tells(w, plan, s.proposal.value)
      && Answered(Reply(s.epoch, Planned(plan))) in s.trace
      && Run(w, actions + [KeyPress(Enter, line)]).trace == s.trace + [Executed(s.epoch, plan)]
  {
    hide Tells, ProposalOf;
    RunKeeps(w, actions);
    var s := Run(w, actions);
    plan := s.pending.value;
    var intent :| Asked(Ask(s.epoch, intent)) in s.trace && s.proposal == Some(ProposalOf(w, intent, plan));
    FreshTells(w, intent, plan);
    var more := actions + [KeyPress(Enter, line)];
    assert more[..|more| - 1] == actions;
  }

  /** The result that answers the awaited ask, which no other result does. */
  lemma AwaitedResult(w: Setting, s: State) returns (i: nat)
    requires Inv(w, s) && s.epoch in ReplyEpochs(s.results)
    ensures i < |s.results| && s.results[i].epoch == s.epoch && Answered(s.results[i]) in s.trace
    ensures forall j :: 0 <= j < i ==> s.results[j].epoch != s.epoch
  {
    hide TraceSound, PendingShown, HandEpochs, RequestEpochs;
    i :| i < |s.results| && ReplyEpochs(s.results)[i] == s.epoch;
    forall j | 0 <= j < i
      ensures s.results[j].epoch != s.epoch
    {
      assert Pipeline(s)[j] == s.results[j].epoch && Pipeline(s)[i] == s.epoch;
    }
  }

  lemma TickLandsResult(w: Setting, s: State, line: LineAction) returns (landed: Answer)
    requires Inv(w, s) && s.planning.Some? && s.epoch in ReplyEpochs(s.results)
    ensures Reply(s.epoch, landed) in s.results
    ensures
      var t := Next(w, s, Tick);
      && Landed(w, t, s.planning.value, landed)
      && Answered(Reply(s.epoch, landed)) in t.trace
      && OnKey(t, Enter, line).trace == match landed
                                        case Planned(plan) => t.trace + [Executed(s.epoch, plan)]
                                        case Refused(_) => t.trace
  {
    hide Landed, OnKey, PollPlanner;
    var i := AwaitedResult(w, s);
    LandsAt(w, s, i);
    landed := s.results[i].answer;
    EnterAfterLanding(w, PollPlanner(w, s), s.planning.value, landed, line);
  }

  /**
   An ask that is not lost is landed by the worker's own steps and a tick, with the answer the worker
   gave, and the Enter after it executes the plan if there is one.
   */
  lemma {:induction false} WorkLands(w: Setting, s: State, answer: Answer, line: LineAction) returns (more: seq<Action>, landed: Answer)
    requires Inv(w, s) && s.planning.Some? && !Lost(s)
    ensures forall a <- more :: a == Take || a == Finish(answer) || a == Tick
    ensures if Unanswered(s) then landed == answer else Reply(s.epoch, landed) in s.results
    ensures
      var t := RunFrom(w, s, more);
      && Landed(w, t, s.planning.value, landed)
      && Answered(Reply(s.epoch, landed)) in t.trace
      && OnKey(t, Enter, line).trace == match landed
                                        case Planned(plan) => t.trace + [Executed(s.epoch, plan)]
                                        case Refused(_) => t.trace
    decreases 2 * |s.requests| + |HandEpochs(s)|
  {
    PipelineParts(w, s);
    LostIs(s);
    hide Inv, Lost, Unanswered, Landed, OnKey, Next, ReplyEpochs, Pipeline, RunFrom;
    if s.epoch in ReplyEpochs(s.results) {
      landed := TickLandsResult(w, s, line);
      more := [Tick];
      RunsOn(w, s, Tick, []);
    } else {
      var a := if s.hand.Some? then Finish(answer) else Take;
      WorkKeepsWaiting(w, s, a);
      var s' := Next(w, s, a);
      var rest;
      rest, landed := WorkLands(w, s', answer, line);
      if !Unanswered(s') {
        NewResultIsAnswer(s, answer, Reply(s.epoch, landed));
      }
      more := [a] + rest;
      RunsOn(w, s, a, rest);
    }
  }

  lemma RunsOn(w: Setting, s: State, a: Action, rest: seq<Action>)
    ensures RunFrom(w, s, [a] + rest) == RunFrom(w, Next(w, s, a), rest)
    ensures [a] + [] == [a] && RunFrom(w, s, []) == s && RunFrom(w, s, [a]) == Next(w, s, a)
  {
    assert ([a] + rest)[1..] == rest && [a][1..] == [];
  }

  /** A result that was not there before the worker's step is the answer it has just given. */
  lemma NewResultIsAnswer(s: State, answer: Answer, reply: Reply)
    requires reply.epoch !in ReplyEpochs(s.results) && reply in WorkerFinishes(s, answer).results
    ensures reply.answer == answer
  {
    forall r | r in s.results
      ensures r.epoch in ReplyEpochs(s.results)
    {
      var k :| 0 <= k < |s.results| && s.results[k] == r;
      assert ReplyEpochs(s.results)[k] == r.epoch;
    }
  }

  /** The first ask of a shell, from its start to the execution of the plan it is answered with. */
  lemma FirstAsk(w: Setting, intent: string, plan: Plan)
    ensures
      var actions := [KeyPress(Enter, AskFor(intent)), Take, Finish(Planned(plan)), Tick, KeyPress(Enter, Nothing)];
      && Run(w, actions).trace == [Asked(Ask(1, intent)), Answered(Reply(1, Planned(plan))), Executed(1, plan)]
      && Run(w, actions).pending == None && Run(w, actions).proposal == None && Run(w, actions).planning == None
  {
    var ask := Ask(1, intent);
    var first := [KeyPress(Enter, AskFor(intent)), Take, Finish(Planned(plan))];
    var landed := first + [Tick];
    var answered := Run(w, first);
    FirstAnswer(w, intent, plan);
    OneMore(w, first, Tick);
    OneMore(w, landed, KeyPress(Enter, Nothing));
    hide Run, PollPlanner, Landed, OnKey;
    LandsAt(w, answered, 0);
    EnterAfterLanding(w, PollPlanner(w, answered), ask, Planned(plan), Nothing);
    assert landed + [KeyPress(Enter, Nothing)]
        == [KeyPress(Enter, AskFor(intent)), Take, Finish(Planned(plan)), Tick, KeyPress(Enter, Nothing)];
  }

  lemma FirstAnswer(w: Setting, intent: string, plan: Plan)
    ensures
      var s := Run(w, [KeyPress(Enter, AskFor(intent)), Take, Finish(Planned(plan))]);
      && s.planning == Some(Ask(1, intent)) && s.epoch == 1 && s.results == [Reply(1, Planned(plan))]
      && s.trace == [Asked(Ask(1, intent)), Answered(Reply(1, Planned(plan)))]
  {
    var a, b, c := KeyPress(Enter, AskFor(intent)), Take, Finish(Planned(plan));
    OneMore(w, [], a);
    OneMore(w, [a], b);
    OneMore(w, [a, b], c);
    hide Run;
    assert [] + [a] == [a] && [a] + [b] == [a, b] && [a, b] + [c] == [a, b, c];
  }

  lemma OneMore(w: Setting, actions: seq<Action>, a: Action)
    ensures Run(w, actions + [a]) == Next(w, Run(w, actions), a)
    ensures Run(w, []) == INITIAL
  {
    assert (actions + [a])[..|actions|] == actions;
  }

  /** From an idle line: Enter on an ask, the worker's steps, a tick and Enter again execute the plan it answers with. */
  lemma AskToExecution(w: Setting, s: State, intent: string, plan: Plan, line: LineAction) returns (more: seq<Action>)
    requires Inv(w, s) && s.planning == None && s.proposal == None && s.alive
    ensures forall a <- more :: a == Take || a == Finish(Planned(plan)) || a == Tick
    ensures
      var shown := RunFrom(w, Next(w, s, KeyPress(Enter, AskFor(intent))), more);
      && shown.proposal.Some? && shown.proposal.value.intent == intent && Tells(w, plan, shown.proposal.value)
      && Next(w, shown, KeyPress(Enter, line)).trace == shown.trace + [Executed(s.epoch + 1, plan)]
  {
    var asked := Next(w, s, KeyPress(Enter, AskFor(intent)));
    AskIsUnanswered(w, s, intent);
    hide Inv, OnKey, RunFrom, Landed, Lost, Unanswered, Tells;
    var landed;
    more, landed := WorkLands(w, asked, Planned(plan), line);
    assert Landed(w, RunFrom(w, asked, more), asked.planning.value, landed);
    LandedShows(w, RunFrom(w, asked, more), asked.planning.value, plan);
  }

  lemma LandedShows(w: Setting, s: State, ask: Ask, plan: Plan)
    requires Landed(w, s, ask, Planned(plan))
    ensures s.proposal.Some? && s.proposal.value.intent == ask.intent && Tells(w, plan, s.proposal.value)
  {
  }

  lemma AskIsUnanswered(w: Setting, s: State, intent: string)
    requires Inv(w, s) && s.planning == None && s.proposal == None && s.alive
    ensures
      var asked := OnKey(s, Enter, AskFor(intent));
      Inv(w, asked) && asked.planning == Some(Ask(s.epoch + 1, intent)) && asked.epoch == s.epoch + 1
      && Unanswered(asked) && !Lost(asked)
  {
    var asked := OnKey(s, Enter, AskFor(intent));
    KeyOnIdleLine(s, Enter, AskFor(intent));
    KeyKeeps(w, s, Enter, AskFor(intent));
    hide OnKey, Inv, Lost, HandEpochs;
    assert RequestEpochs(asked.requests)[|s.requests|] == asked.epoch;
    PipelineParts(w, asked);
    assert Lost(asked) <==> asked.epoch !in Pipeline(asked) by { LostIs(asked); }
  }

  lemma LostIs(s: State)
    requires s.planning.Some?
    ensures Lost(s) <==> s.epoch !in Pipeline(s)
  {
    hide Pipeline;
  }


  lemma WorkKeepsWaiting(w: Setting, s: State, a: Action)
    requires Inv(w, s) && s.planning.Some? && Unanswered(s)
    requires if s.hand.Some? then a.Finish? else a.Take?
    ensures
      var s' := Next(w, s, a);
      && Inv(w, s') && s'.planning == s.planning && s'.epoch == s.epoch && !Lost(s')
      && (if a.Take? then Unanswered(s') else s'.results == WorkerFinishes(s, a.answer).results)
      && 2 * |s'.requests| + |HandEpochs(s')| < 2 * |s.requests| + |HandEpochs(s)|
  {
    PipelineParts(w, s);
    NextKeeps(w, s, a);
    LostOnlyByDying(w, s, a);
    hide Accounted, TraceSound, PendingShown, Increasing, Pipeline;
  }

  /** Without Escape a lost ask is awaited forever, and only a lost one is. */
  lemma AwaitedForeverIffLost(w: Setting, s: State)
    requires Inv(w, s) && s.planning.Some?
    ensures Lost(s) <==> forall more: seq<Action> :: NoEscape(more) ==> RunFrom(w, s, more).planning == s.planning
  {
    if Lost(s) {
      forall more: seq<Action> | NoEscape(more)
        ensures RunFrom(w, s, more).planning == s.planning
      {
        LostForever(w, s, more);
      }
    } else {
      var more, landed := WorkLands(w, s, Refused(""), Nothing);
      assert NoEscape(more);
    }
  }

  lemma {:induction false} LostForever(w: Setting, s: State, more: seq<Action>)
    requires Inv(w, s) && Lost(s) && NoEscape(more)
    ensures RunFrom(w, s, more).planning == s.planning
    decreases |more|
  {
    if more != [] {
      assert more[0] in more;
      LostStaysLost(w, s, more[0]);
      NextKeeps(w, s, more[0]);
      hide Inv, Next, Lost;
      LostForever(w, Next(w, s, more[0]), more[1..]);
    }
  }
}
