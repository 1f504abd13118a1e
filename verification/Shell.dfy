/**
 The Glass shell's ask handling as the program has it (crates/horizon/src/main.rs): fields the keys
 and ticks update, two channels to a worker, and Aura over the broker. Every method is held to the
 protocol's step of the same name; confirming is held to what the proposal disclosed.
 */
module Shell {
  import opened Outcomes
  import opened Tools
  import opened Weave
  import opened Aura
  import opened Display
  import opened Proposals
  import P = Planner

  /** The two channels and the worker between them. */
  class Worker {
    var requests: seq<P.Ask>
    var hand: Option<P.Ask>
    var results: seq<P.Reply>
    var alive: bool
    ghost var trace: seq<P.Event>

    constructor ()
      ensures requests == [] && hand == None && results == [] && alive && trace == []
    {
      requests, hand, results, alive, trace := [], None, [], true, [];
    }

    /** Sending fails only when the worker is gone. */
    method Send(ask: P.Ask) returns (ok: bool)
      modifies this`requests
      ensures ok == alive
      ensures requests == if alive then old(requests) + [ask] else old(requests)
    {
      if alive {
        requests := requests + [ask];
      }
      ok := alive;
    }

    method TryReceive() returns (reply: Option<P.Reply>)
      modifies this`results
      ensures old(results) == [] ==> reply == None && results == []
      ensures old(results) != [] ==> reply == Some(old(results)[0]) && results == old(results)[1..]
    {
      if results == [] {
        return None;
      }
      reply := Some(results[0]);
      results := results[1..];
    }

    /** A state of the protocol with the channels, the worker and the trace as they are here. */
    ghost function Seen(s: P.State): P.State
      reads this
    {
      s.(requests := requests, hand := hand, results := results, alive := alive, trace := trace)
    }

    /** The worker takes up the oldest request. */
    method Receive()
      requires alive && hand == None && requests != []
      modifies this`hand, this`requests
      ensures forall s: P.State :: Seen(s) == P.WorkerTakes(old(Seen(s)))
    {
      hand, requests := Some(requests[0]), requests[1..];
    }

    /** The worker sends the planner's answer to the request in hand. */
    method Answer(answer: P.Answer)
      requires alive && hand.Some?
      modifies this`hand, this`results, this`trace
      ensures forall s: P.State :: Seen(s) == P.WorkerFinishes(old(Seen(s)), answer)
    {
      var reply := P.Reply(hand.value.epoch, answer);
      hand, results := None, results + [reply];
      trace := trace + [P.Answered(reply)];
    }
  }

  lemma FinishedIsIdle(w: P.Setting, s: P.State, intent: string, answer: P.Answer)
    requires s.planning == None
    ensures P.FinishPlan(w, s, intent, answer).planning == None
  {
  }

  /** The log grows by the grants the plan discloses, in their order, and then by accesses to them alone. */
  ghost predicate GrantsThenRuns(catalog: Catalog, plan: Plan, before: seq<Event>, after: seq<Event>) {
    var shown := Disclosed(catalog, plan.steps);
    var n, m := |before|, |before| + |shown|;
    && |after| >= m && after[..n] == before
    && AreGrants(after[n..m], shown, UNLIMITED)
    && AllAmong(after[m..], shown)
  }

  /** The three modes of a key: an ask awaited, a proposal on display, or neither. */
  lemma KeyModes(s: P.State, key: P.Key, line: P.LineAction)
    ensures s.planning.Some? ==> P.OnKey(s, key, line) == if key == P.Escape then P.CancelPlanning(s) else s
    ensures s.planning == None && s.proposal.Some? ==>
      P.OnKey(s, key, line) ==
        match key
        case Enter => P.Confirm(s)
        case Escape => P.DismissProposal(s)
        case _ => P.OnKey(s.(proposal := None, pending := None), key, line)
    ensures P.Confirms(s, key) ==> s.planning == None && s.proposal.Some? && s.pending.Some? && key == P.Enter
    ensures s.planning == None && s.proposal.Some? && s.pending.Some? && key == P.Enter ==> P.Confirms(s, key)
    ensures s.planning.Some? || s.proposal.Some? ==> P.Severs(s, key, line) == []
    ensures key != P.Enter ==> P.Severs(s.(proposal := None, pending := None), key, line) == []
  {
  }

  class Shell {
    const broker: Broker
    const catalog: Catalog
    const show: Show
    const worker: Worker
    var planning: Option<P.Ask>
    var planEpoch: nat
    var pending: Option<Plan>
    var shownPlanning: Option<string>
    var proposal: Option<Proposal>

    constructor (broker: Broker, catalog: Catalog, show: Show)
      ensures this.broker == broker && this.catalog == catalog && this.show == show && fresh(worker)
      ensures StateNow() == P.INITIAL
    {
      this.broker, this.catalog, this.show := broker, catalog, show;
      worker := new Worker();
      planning, planEpoch, pending, shownPlanning, proposal := None, 0, None, None, None;
    }

    function Settings(): P.Setting {
      P.Setting(catalog, show)
    }

    ghost function StateNow(): P.State
      reads this, worker
    {
      worker.Seen(P.State(planning, planEpoch, pending, shownPlanning, proposal, [], None, [], true, []))
    }

    method Clear()
      modifies this`proposal, this`shownPlanning
      ensures StateNow() == P.ClearLine(old(StateNow()))
    {
      proposal, shownPlanning := None, None;
    }

    method CancelPlanning()
      requires planning.Some?
      modifies this, worker
      ensures StateNow() == P.CancelPlanning(old(StateNow()))
    {
      worker.trace := worker.trace + [P.Cancelled(planning.value.epoch)];
      planning, pending := None, None;
      Clear();
    }

    method DismissProposal()
      modifies this
      ensures StateNow() == P.DismissProposal(old(StateNow()))
    {
      pending := None;
      Clear();
    }

    method Propose(intent: string)
      modifies this, worker
      ensures StateNow() == P.Propose(old(StateNow()), intent)
    {
      planEpoch := planEpoch + 1;
      pending, proposal := None, None;
      shownPlanning, planning := Some(intent), Some(P.Ask(planEpoch, intent));
      worker.trace := worker.trace + [P.Asked(P.Ask(planEpoch, intent))];
      var ok := worker.Send(P.Ask(planEpoch, intent));
      if !ok {
        planning, shownPlanning := None, None;
        proposal := Some(P.FailedProposal(intent, "the planner is not available"));
      }
    }

    /** Carries out what the line resolves to; severing revokes the grants one by one. */
    method Execute(line: P.LineAction)
      modifies this, worker, broker
      ensures old(Sound(broker.grants, broker.log)) ==> Sound(broker.grants, broker.log)
      ensures StateNow() == P.Execute(old(StateNow()), line)
      ensures
        var ids := if line.Sever? then line.ids else [];
        && broker.grants == RevokeAll(old(broker.grants), ids)
        && broker.log == old(broker.log) + Revocations(NewlyRevoked(old(broker.grants), ids))
    {
      hide RevokeAll, NewlyRevoked, Revocations, Sound;
      RevokeNone(broker.grants);
      match line {
        case Nothing =>
        case AskFor(intent) => Propose(intent);
        case Launch => Clear();
        case Sever(ids) =>
          var severed := SeverAll(ids);
          Clear();
      }
    }

    method SeverAll(ids: seq<GrantId>) returns (severed: nat)
      modifies broker
      ensures old(Sound(broker.grants, broker.log)) ==> Sound(broker.grants, broker.log)
      ensures broker.grants == RevokeAll(old(broker.grants), ids)
      ensures broker.log == old(broker.log) + Revocations(NewlyRevoked(old(broker.grants), ids))
      ensures severed <= |ids|
    {
      hide RevokeAll, NewlyRevoked, Revocations, Sound;
      severed := 0;
      RevokeNone(broker.grants);
      for i := 0 to |ids|
        invariant broker.grants == RevokeAll(old(broker.grants), ids[..i])
        invariant broker.log == old(broker.log) + Revocations(NewlyRevoked(old(broker.grants), ids[..i]))
        invariant severed <= i
        invariant old(Sound(broker.grants, broker.log)) ==> Sound(broker.grants, broker.log)
      {
        ghost var table := broker.grants;
        RevokeOneMore(old(broker.grants), ids[..i], ids[i]);
        RevocationsConcat(NewlyRevoked(old(broker.grants), ids[..i]), NewlyRevoked(table, [ids[i]]));
        assert ids[..i + 1] == ids[..i] + [ids[i]];
        var ok := broker.Revoke(ids[i]);
        if ok {
          severed := severed + 1;
        }
      }
      assert ids[..|ids|] == ids;
    }

    /** A landed plan is previewed as a new principal and shown; a refusal is shown with its reason. */
    method FinishPlan(intent: string, answer: P.Answer)
      modifies this
      ensures StateNow() == P.FinishPlan(Settings(), old(StateNow()), intent, answer)
    {
      hide P.FreshPreview, ProposalFrom, AllPreviewed;
      shownPlanning := None;
      match answer {
        case Planned(plan) =>
          var aura := new Aura(broker, catalog);
          var p := aura.PreviewPlan(plan);
          P.FreshPreviewOnly(broker.grants, catalog, plan, p);
          proposal := Some(ProposalFrom(show, intent, p));
          pending := Some(plan);
        case Refused(reason) =>
          proposal := Some(P.FailedProposal(intent, reason));
          pending := None;
      }
    }

    method PollPlanner() returns (changed: bool)
      modifies this, worker
      ensures StateNow() == P.PollPlanner(Settings(), old(StateNow()))
      ensures changed <==> old(planning).Some? && planning == None
    {
      hide P.FinishPlan;
      while true
        invariant planning == old(planning)
        invariant P.PollPlanner(Settings(), StateNow()) == P.PollPlanner(Settings(), old(StateNow()))
        decreases |worker.results|
      {
        ghost var before := StateNow();
        var reply := worker.TryReceive();
        if reply == None {
          return false;
        }
        if planning.Some? && planning.value.epoch == reply.value.epoch {
          var intent := planning.value.intent;
          planning := None;
          FinishedIsIdle(Settings(), StateNow(), intent, reply.value.answer);
          FinishPlan(intent, reply.value.answer);
          return true;
        }
      }
    }

    /**
     The confirm: the pending plan's disclosed capabilities are granted, in the order shown, and the
     plan is run against them; nothing else is granted or accessed.
     */
    method Confirm() returns (report: Option<Report>)
      modifies this, worker, broker
      ensures old(Sound(broker.grants, broker.log)) ==> Sound(broker.grants, broker.log)
      ensures StateNow() == P.Confirm(old(StateNow()))
      ensures old(pending) == None ==> report == None && broker.log == old(broker.log) && broker.grants == old(broker.grants)
      ensures old(pending).Some? ==>
        var plan := old(pending).value;
        && GrantsThenRuns(catalog, plan, old(broker.log), broker.log)
        && report.Some? && |report.value.results| == |plan.steps|
        && forall i :: 0 <= i < |plan.steps| ==>
             match HardBlock(catalog, plan.steps[i])
             case Some(b) => report.value.results[i].status == Blocked(b)
             case None => Ran(report.value.results[i].status)
    {
      hide AreGrants, AllAmong, Disclosed, Get, Ran, Sound;
      if pending == None {
        DismissProposal();
        return None;
      }
      var plan := pending.value;
      pending := None;
      var aura := new Aura(broker, catalog);
      var r := aura.ApproveAndExecute(plan, UNLIMITED);
      report := Some(r);
      worker.trace := worker.trace + [P.Executed(planEpoch, plan)];
      Clear();
    }

    /**
     A keystroke, and what Enter on the line would resolve to. The broker is touched by the Enter that
     confirms a pending plan, and by the Enter on a line that severs, which only revokes.
     */
    method Key(key: P.Key, line: P.LineAction)
      modifies this, worker, broker
      ensures old(Sound(broker.grants, broker.log)) ==> Sound(broker.grants, broker.log)
      ensures StateNow() == P.OnKey(old(StateNow()), key, line)
      ensures P.Confirms(old(StateNow()), key) ==>
        GrantsThenRuns(catalog, old(pending).value, old(broker.log), broker.log)
      ensures !P.Confirms(old(StateNow()), key) ==>
        var ids := P.Severs(old(StateNow()), key, line);
        && broker.grants == RevokeAll(old(broker.grants), ids)
        && broker.log == old(broker.log) + Revocations(NewlyRevoked(old(broker.grants), ids))
    {
      hide P.Execute, P.Confirm, P.CancelPlanning, P.DismissProposal, GrantsThenRuns, HardBlock, Ran;
      hide RevokeAll, NewlyRevoked, Revocations, P.OnKey, P.Severs, P.Confirms, Sound;
      RevokeNone(broker.grants);
      KeyModes(StateNow(), key, line);
      if planning.Some? {
        if key == P.Escape {
          CancelPlanning();
        }
        return;
      }
      if proposal.Some? {
        if key == P.Enter {
          var report := Confirm();
          return;
        }
        if key == P.Escape {
          DismissProposal();
          return;
        }
        proposal, pending := None, None;
      }
      KeyOnLine(key, line);
    }

    /** A keystroke with nothing awaited and no proposal on display. */
    method KeyOnLine(key: P.Key, line: P.LineAction)
      requires planning == None && proposal == None
      modifies this, worker, broker
      ensures old(Sound(broker.grants, broker.log)) ==> Sound(broker.grants, broker.log)
      ensures StateNow() == P.OnKey(old(StateNow()), key, line)
      ensures
        var ids := P.Severs(old(StateNow()), key, line);
        && broker.grants == RevokeAll(old(broker.grants), ids)
        && broker.log == old(broker.log) + Revocations(NewlyRevoked(old(broker.grants), ids))
    {
      hide P.Execute, RevokeAll, NewlyRevoked, Revocations, Sound;
      RevokeNone(broker.grants);
      if key == P.Escape {
        Clear();
      } else if key == P.Enter {
        Execute(line);
      }
    }
  }
}
