/**
 The Weave broker (crates/weave/src/broker.rs): the grant table, the audit log, and the check every
 access passes. The clock may say anything at each reading; ids and secrets drawn at random are taken
 not to repeat an id; the store never fails to take a log entry.
 */
module Weave {
  import opened Outcomes
  import opened Capability
  import opened Folds

  type GrantId = nat
  type Secret = nat

  datatype Limits = Limits(expires: Option<nat>, maxUses: Option<nat>)

  const UNLIMITED: Limits := Limits(None, None)

  datatype GrantRecord = GrantRecord(principal: string, need: Need, granted: nat, limits: Limits)

  datatype GrantState = GrantState(grant: GrantRecord, revoked: bool, uses: nat, secret: Option<Secret>)

  type Table = map<GrantId, GrantState>

  datatype Handle = Handle(id: GrantId, secret: Secret)

  datatype Event =
    | Granted(id: GrantId, principal: string, need: Need, limits: Limits)
    | Used(id: GrantId, principal: string, need: Need)
    | Denied(principal: string, need: Need, reason: string)
    | Revoked(id: GrantId)

  /** Neither revoked nor past its expiry. */
  predicate Active(g: GrantState, now: nat) {
    !g.revoked && (g.grant.limits.expires.Some? ==> now < g.grant.limits.expires.value)
  }

  /** Why a handle does not give the need at that time, the first reason found; None when it does. */
  function Check(table: Table, h: Handle, need: Need, now: nat): Option<string> {
    if h.id !in table then Some("no such grant")
    else
      var g := table[h.id];
      if g.secret != Some(h.secret) then Some("forged handle")
      else if g.revoked then Some("revoked")
      else if g.grant.limits.expires.Some? && now >= g.grant.limits.expires.value then Some("expired")
      else if g.grant.limits.maxUses.Some? && g.uses >= g.grant.limits.maxUses.value then Some("use limit reached")
      else if !Covers(g.grant.need.resource, need.resource) then Some("out of scope")
      else if !Contains(g.grant.need.rights, need.rights) then Some("insufficient rights")
      else None
  }

  /** The handle is the live one, and the grant is active, has uses left and meets the need. */
  predicate Allows(table: Table, h: Handle, need: Need, now: nat) {
    Check(table, h, need, now) == None
  }

  /** The access can succeed at some time. */
  ghost predicate MayAllow(table: Table, h: Handle, need: Need) {
    h.id in table && exists now: nat :: Allows(table, h, need, now)
  }

  /** The access succeeds whatever the time. */
  ghost predicate MustAllow(table: Table, h: Handle, need: Need) {
    forall now: nat :: Allows(table, h, need, now)
  }

  /** At some time, this is the first reason to refuse. */
  ghost predicate RefusedFor(table: Table, h: Handle, need: Need, reason: string) {
    exists now: nat :: Check(table, h, need, now) == Some(reason)
  }

  lemma AtSomeTime(table: Table, h: Handle, need: Need, now: nat)
    ensures Allows(table, h, need, now) ==> MayAllow(table, h, need)
    ensures !Allows(table, h, need, now) ==> !MustAllow(table, h, need)
    ensures !Allows(table, h, need, now) ==> RefusedFor(table, h, need, Check(table, h, need, now).value)
  {
    assert Allows(table, h, need, now) ==> h.id in table;
    hide Check;
  }

  /** What an access takes: a known grant, its live handle, no revocation, time and uses left, scope and rights. */
  lemma AllowedExactly(table: Table, h: Handle, need: Need, now: nat)
    ensures Allows(table, h, need, now) <==>
      && h.id in table
      && table[h.id].secret == Some(h.secret)
      && !table[h.id].revoked
      && (table[h.id].grant.limits.expires == None || now < table[h.id].grant.limits.expires.value)
      && (table[h.id].grant.limits.maxUses == None || table[h.id].uses < table[h.id].grant.limits.maxUses.value)
      && Covers(table[h.id].grant.need.resource, need.resource)
      && Contains(table[h.id].grant.need.rights, need.rights)
  {
    hide Covers, Contains;
  }

  /** A refusal is logged with the first of these reasons that is the case. */
  lemma RefusedExactly(table: Table, h: Handle, need: Need, now: nat)
    ensures
      var r := Check(table, h, need, now);
      if h.id !in table then r == Some("no such grant")
      else
        var g := table[h.id];
        var genuine, limits := g.secret == Some(h.secret), g.grant.limits;
        var expired := limits.expires.Some? && limits.expires.value <= now;
        var usedUp := limits.maxUses.Some? && limits.maxUses.value <= g.uses;
        var covered := Covers(g.grant.need.resource, need.resource);
        && (r == Some("forged handle") <==> !genuine)
        && (r == Some("revoked") <==> genuine && g.revoked)
        && (r == Some("expired") <==> genuine && !g.revoked && expired)
        && (r == Some("use limit reached") <==> genuine && !g.revoked && !expired && usedUp)
        && (r == Some("out of scope") <==> genuine && !g.revoked && !expired && !usedUp && !covered)
        && (r == Some("insufficient rights") <==>
              genuine && !g.revoked && !expired && !usedUp && covered && !Contains(g.grant.need.rights, need.rights))
  {
    hide Covers, Contains;
    assert "no such grant"[0] == 'n' && "forged handle"[0] == 'f' && "revoked"[0] == 'r' && "expired"[0] == 'e';
    assert "use limit reached"[0] == 'u' && "out of scope"[0] == 'o' && "insufficient rights"[0] == 'i';
  }

  /** A grant over a directory gives what is beneath it, with the rights it has and no more. */
  lemma DirectoryGives(table: Table, h: Handle, dir: string, have: Rights, rest: string, want: Rights, now: nat)
    requires h.id in table && table[h.id].secret == Some(h.secret) && !table[h.id].revoked && table[h.id].grant.limits == UNLIMITED
    requires table[h.id].grant.need == Need(File(dir), have) && dir != ""
    ensures Allows(table, h, Need(File(dir + "/" + rest), want), now) <==>
      (want.read ==> have.read) && (want.write ==> have.write) && (want.exec ==> have.exec)
  {
    hide Covers;
    CoversBeneath(dir, rest);
  }

  /** A grant over something in a directory gives neither the directory nor what is beside it. */
  lemma FileGivesNothingElse(table: Table, h: Handle, dir: string, name: string, other: string, rights: Rights, now: nat)
    requires h.id in table && table[h.id].secret == Some(h.secret) && !table[h.id].revoked && table[h.id].grant.limits == UNLIMITED
    requires table[h.id].grant.need == Need(File(dir + "/" + name), rights)
    requires dir != "" && IsPiece(name) && IsPiece(other) && name != other
    ensures Check(table, h, Need(File(dir), rights), now) == Some("out of scope")
    ensures Check(table, h, Need(File(dir + "/" + other), rights), now) == Some("out of scope")
  {
    hide Covers;
    CoversNothingBeside(dir, name, other, "");
  }

  /** A revoked grant gives nothing any more. */
  lemma RevokedGivesNothing(table: Table, h: Handle, need: Need)
    requires h.id in table && table[h.id].revoked
    ensures !MayAllow(table, h, need)
  {
  }

  /** The table with these grants revoked; ids it does not know change nothing. */
  function RevokeAll(table: Table, ids: seq<GrantId>): Table {
    map id | id in table :: if id in ids then table[id].(revoked := true) else table[id]
  }

  /** The grants that revoking one id after the other newly revokes, in order: no id comes twice. */
  function NewlyRevoked(table: Table, ids: seq<GrantId>): seq<GrantId> {
    if ids == [] then []
    else
      var before, id := NewlyRevoked(table, ids[..|ids| - 1]), ids[|ids| - 1];
      if id in table && !table[id].revoked && id !in ids[..|ids| - 1] then before + [id] else before
  }

  function Revocations(ids: seq<GrantId>): (events: seq<Event>)
    ensures |events| == |ids|
  {
    seq(|ids|, i requires 0 <= i < |ids| => Revoked(ids[i]))
  }

  lemma RevokeNone(table: Table)
    ensures RevokeAll(table, []) == table && NewlyRevoked(table, []) == [] && Revocations([]) == []
  {
  }

  lemma RevocationsConcat(a: seq<GrantId>, b: seq<GrantId>)
    ensures Revocations(a + b) == Revocations(a) + Revocations(b)
  {
  }

  lemma RevokeOne(table: Table, id: GrantId)
    ensures id in table && !table[id].revoked ==>
      && RevokeAll(table, [id]) == table[id := table[id].(revoked := true)]
      && NewlyRevoked(table, [id]) == [id] && Revocations([id]) == [Revoked(id)]
    ensures !(id in table && !table[id].revoked) ==>
      && RevokeAll(table, [id]) == table && NewlyRevoked(table, [id]) == [] && Revocations([]) == []
  {
    assert [id][..0] == [] && NewlyRevoked(table, []) == [];
  }

  lemma RevokeOneMore(table: Table, ids: seq<GrantId>, id: GrantId)
    ensures RevokeAll(table, ids + [id]) == RevokeAll(RevokeAll(table, ids), [id])
    ensures NewlyRevoked(table, ids + [id]) == NewlyRevoked(table, ids) + NewlyRevoked(RevokeAll(table, ids), [id])
  {
    assert (ids + [id])[..|ids|] == ids && [id][..0] == [];
    assert id in RevokeAll(table, ids) && !RevokeAll(table, ids)[id].revoked
      <==> id in table && !table[id].revoked && id !in ids;
    assert NewlyRevoked(RevokeAll(table, ids), []) == [];
  }

  /** What is newly revoked: the listed grants that were there and not yet revoked, each once. */
  lemma {:induction false} NewlyRevokedAre(table: Table, ids: seq<GrantId>)
    ensures forall id :: id in NewlyRevoked(table, ids) <==> id in ids && id in table && !table[id].revoked
    ensures forall i, j :: 0 <= i < j < |NewlyRevoked(table, ids)| ==> NewlyRevoked(table, ids)[i] != NewlyRevoked(table, ids)[j]
  {
    if ids != [] {
      var n := |ids| - 1;
      assert ids == ids[..n] + [ids[n]];
      NewlyRevokedAre(table, ids[..n]);
    }
  }

  function Minted(principal: string, need: Need, now: nat, limits: Limits, secret: Secret): GrantState {
    GrantState(GrantRecord(principal, need, now, limits), false, 0, Some(secret))
  }

  function WithUse(table: Table, id: GrantId): Table
    requires id in table
  {
    table[id := table[id].(uses := table[id].uses + 1)]
  }

  /** The same grants, whatever their use counts. */
  ghost predicate SameGrants(a: Table, b: Table) {
    a.Keys == b.Keys && forall id <- a :: b[id].grant == a[id].grant && b[id].revoked == a[id].revoked && b[id].secret == a[id].secret
  }

  lemma {:induction false} FreshId(ids: set<nat>) returns (id: nat)
    ensures forall i <- ids :: i < id
    decreases |ids|
  {
    if ids == {} {
      id := 0;
    } else {
      var i :| i in ids;
      var below := FreshId(ids - {i});
      id := if i < below then below else i + 1;
      forall j | j in ids
        ensures j < id
      {
        assert j == i || j in ids - {i};
      }
    }
  }

  // ---- the table and the log

  /** What the log settles about a grant; when it was made and its live handle it does not. */
  datatype Decision = Decision(principal: string, need: Need, limits: Limits, revoked: bool, uses: nat)

  type Decisions = map<GrantId, Decision>

  function DecisionOf(g: GrantState): Decision {
    Decision(g.grant.principal, g.grant.need, g.grant.limits, g.revoked, g.uses)
  }

  function DecisionsOf(table: Table): Decisions {
    map id | id in table :: DecisionOf(table[id])
  }

  /** One event as a broker opened anew takes it. */
  function ReplayOne(d: Decisions, e: Event): Decisions {
    match e
    case Granted(id, principal, need, limits) => d[id := Decision(principal, need, limits, false, 0)]
    case Used(id, _, _) => if id in d then d[id := d[id].(uses := d[id].uses + 1)] else d
    case Denied(_, _, _) => d
    case Revoked(id) => if id in d then d[id := d[id].(revoked := true)] else d
  }

  function Replay(log: seq<Event>): Decisions {
    if log == [] then map[] else ReplayOne(Replay(log[..|log| - 1]), log[|log| - 1])
  }

  /** The decisions before it authorize the event, if it is a use. */
  predicate Authorized(d: Decisions, e: Event) {
    e.Used? ==>
      && e.id in d && !d[e.id].revoked && d[e.id].principal == e.principal && Meets(d[e.id].need, e.need)
      && (d[e.id].limits.maxUses.Some? ==> d[e.id].uses < d[e.id].limits.maxUses.value)
  }

  ghost predicate AuditSound(log: seq<Event>) {
    forall i :: 0 <= i < |log| ==> Authorized(Replay(log[..i]), log[i])
  }

  /** Opening the log anew gives the table's decisions, and every use in it was authorized when it was made. */
  ghost predicate Sound(table: Table, log: seq<Event>) {
    DecisionsOf(table) == Replay(log) && AuditSound(log)
  }

  lemma LogOneMore(log: seq<Event>, e: Event)
    requires AuditSound(log) && Authorized(Replay(log), e)
    ensures AuditSound(log + [e]) && Replay(log + [e]) == ReplayOne(Replay(log), e)
  {
    hide Authorized;
    var log' := log + [e];
    assert log'[..|log|] == log;
    forall i | 0 <= i < |log'|
      ensures Authorized(Replay(log'[..i]), log'[i])
    {
      if i < |log| {
        assert log'[..i] == log[..i];
      }
    }
  }

  predicate UseOf(id: GrantId, e: Event) {
    e.Used? && e.id == id
  }

  predicate GrantOf(id: GrantId, e: Event) {
    e.Granted? && e.id == id
  }

  /** What a log settles about a grant: as it was granted, revoked if that is logged after, and its uses counted. */
  lemma {:induction false} SettledByLog(log: seq<Event>, k: nat)
    requires k < |log| && log[k].Granted? && forall j :: k < j < |log| ==> !GrantOf(log[k].id, log[j])
    ensures
      var g, later := log[k], log[k + 1..];
      && g.id in Replay(log)
      && Replay(log)[g.id] == Decision(g.principal, g.need, g.limits, Revoked(g.id) in later, Count(later, (e: Event) => UseOf(g.id, e)))
  {
    var n := |log| - 1;
    if k < n {
      SettledByLog(log[..n], k);
      var later, before := log[k + 1..], log[..n][k + 1..];
      assert later == before + [log[n]] && later[..|later| - 1] == before;
      assert !GrantOf(log[k].id, log[n]);
    } else {
      assert log[k + 1..] == [];
    }
  }

  /** A grant that is not in the log is not there. */
  lemma {:induction false} NothingElseGranted(log: seq<Event>, id: GrantId)
    ensures id in Replay(log) <==> exists e <- log :: GrantOf(id, e)
  {
    if log != [] {
      var n := |log| - 1;
      NothingElseGranted(log[..n], id);
      assert log[n] in log;
      if e :| e in log && GrantOf(id, e) {
        assert e in log[..n] || e == log[n];
      }
    }
  }

  /**
   In a sound log every use of a grant is by its principal, within what was granted, not after a revocation
   and one of at most as many as were allowed.
   */
  lemma UsesAreWithinTheGrant(log: seq<Event>, k: nat, i: nat)
    requires AuditSound(log) && k < i < |log| && log[k].Granted? && UseOf(log[k].id, log[i])
    requires forall j :: k < j < i ==> !GrantOf(log[k].id, log[j])
    ensures
      var g, between := log[k], log[k + 1..i];
      && log[i].principal == g.principal && Covers(g.need.resource, log[i].need.resource) && Contains(g.need.rights, log[i].need.rights)
      && Revoked(g.id) !in between
      && (g.limits.maxUses.Some? ==> Count(between, (e: Event) => UseOf(g.id, e)) < g.limits.maxUses.value)
  {
    hide Covers, Contains;
    assert Authorized(Replay(log[..i]), log[i]);
    SettledByLog(log[..i], k);
    assert log[..i][k + 1..] == log[k + 1..i];
  }

  lemma AllowedIsAuthorized(table: Table, h: Handle, need: Need, now: nat)
    requires Allows(table, h, need, now)
    ensures h.id in table && Authorized(DecisionsOf(table), Used(h.id, table[h.id].grant.principal, need))
  {
    hide Covers, Contains;
  }

  lemma UseDecides(table: Table, id: GrantId, principal: string, need: Need)
    requires id in table
    ensures DecisionsOf(WithUse(table, id)) == ReplayOne(DecisionsOf(table), Used(id, principal, need))
  {
  }

  lemma UseIsSound(table: Table, log: seq<Event>, h: Handle, need: Need, now: nat)
    requires Sound(table, log) && Allows(table, h, need, now)
    ensures h.id in table && Sound(WithUse(table, h.id), log + [Used(h.id, table[h.id].grant.principal, need)])
  {
    AllowedIsAuthorized(table, h, need, now);
    hide Check, Authorized, DecisionsOf, ReplayOne, Replay, AuditSound;
    var principal := table[h.id].grant.principal;
    UseDecides(table, h.id, principal, need);
    LogOneMore(log, Used(h.id, principal, need));
  }

  lemma RevokeIsSound(table: Table, log: seq<Event>, id: GrantId)
    requires Sound(table, log) && id in table
    ensures Sound(table[id := table[id].(revoked := true)], log + [Revoked(id)])
  {
    LogOneMore(log, Revoked(id));
    assert DecisionsOf(table)[id] == DecisionOf(table[id]);
    assert DecisionsOf(table[id := table[id].(revoked := true)]) == ReplayOne(DecisionsOf(table), Revoked(id));
  }

  class Broker {
    var grants: Table
    var log: seq<Event>

    constructor ()
      ensures grants == map[] && log == [] && Sound(grants, log)
    {
      grants, log := map[], [];
    }

    /** The user-approved path: the grant is logged and a live handle minted. */
    method Grant(principal: string, need: Need, limits: Limits) returns (h: Handle)
      modifies this
      ensures h.id !in old(grants)
      ensures exists now: nat :: grants == old(grants)[h.id := Minted(principal, need, now, limits, h.secret)]
      ensures log == old(log) + [Granted(h.id, principal, need, limits)]
      ensures old(Sound(grants, log)) ==> Sound(grants, log)
    {
      ghost var unused := FreshId(grants.Keys);
      assert unused !in grants.Keys;
      var id: nat :| id !in grants.Keys;
      var secret: nat := *;
      var now: nat := *;
      if Sound(grants, log) {
        LogOneMore(log, Granted(id, principal, need, limits));
      }
      log := log + [Granted(id, principal, need, limits)];
      grants := grants[id := Minted(principal, need, now, limits, secret)];
      h := Handle(id, secret);
    }

    /** Exercises a handle: a use is counted and logged, or the denial is logged. */
    method Access(h: Handle, need: Need) returns (ok: bool)
      modifies this
      ensures |log| == |old(log)| + 1 && log[..|old(log)|] == old(log)
      ensures ok ==> h.id in old(grants) && MayAllow(old(grants), h, need)
      ensures !ok ==> !MustAllow(old(grants), h, need)
      ensures ok ==> grants == WithUse(old(grants), h.id)
      ensures old(Sound(grants, log)) ==> Sound(grants, log)
      ensures ok ==> log == old(log) + [Used(h.id, grants[h.id].grant.principal, need)]
      ensures !ok ==> grants == old(grants)
      ensures !ok ==> exists reason ::
        && RefusedFor(grants, h, need, reason)
        && log == old(log) + [Denied(if h.id in grants then grants[h.id].grant.principal else "unknown", need, reason)]
    {
      var now: nat := *;
      var reason := Check(grants, h, need, now);
      ok := reason == None;
      AtSomeTime(grants, h, need, now);
      if ok {
        var principal := grants[h.id].grant.principal;
        if Sound(grants, log) {
          UseIsSound(grants, log, h, need, now);
        }
        grants := WithUse(grants, h.id);
        log := log + [Used(h.id, principal, need)];
      } else {
        hide Check;
        var principal := if h.id in grants then grants[h.id].grant.principal else "unknown";
        if Sound(grants, log) {
          LogOneMore(log, Denied(principal, need, reason.value));
        }
        log := log + [Denied(principal, need, reason.value)];
      }
    }

    /** Revokes a grant; once more changes nothing and is not logged again. */
    method Revoke(id: GrantId) returns (ok: bool)
      modifies this
      ensures ok <==> id in old(grants)
      ensures grants == RevokeAll(old(grants), [id])
      ensures log == old(log) + Revocations(NewlyRevoked(old(grants), [id]))
      ensures old(Sound(grants, log)) ==> Sound(grants, log)
    {
      hide RevokeAll, NewlyRevoked, Revocations, Sound;
      RevokeOne(grants, id);
      if id !in grants {
        return false;
      }
      if grants[id].revoked {
        return true;
      }
      if Sound(grants, log) {
        RevokeIsSound(grants, log, id);
      }
      grants := grants[id := grants[id].(revoked := true)];
      log := log + [Revoked(id)];
      return true;
    }
  }
}
