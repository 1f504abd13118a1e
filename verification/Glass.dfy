/**
 The Glass view model (crates/glass/src/model.rs): a fold of the grant table and the audit log into
 rows, one per thing a principal can reach, grouped by principal with totals. How a resource is
 displayed is a parameter; counters are unbounded, and rows keep the order they were made in.
 */
module Glass {
  import opened Outcomes
  import opened Capability
  import opened Display
  import opened Folds
  import opened Timeline

  datatype GrantStatus = Active | Revoked | Expired

  datatype GrantInfo = GrantInfo(id: nat, principal: string, resource: Resource, rights: Rights, granted: nat,
                                 uses: nat, status: GrantStatus)

  datatype Event =
    | Grant
    | Use(grant: nat, resource: Resource)
    | Deny(principal: string, resource: Resource, rights: Rights, reason: string)
    | Revoke

  datatype Entry = Entry(time: nat, event: Event)

  datatype Standing = Live | Severed | Lapsed | Blocked

  datatype Channel = Channel(principal: string, resource: Resource, rights: Rights, grant: Option<nat>, status: Standing,
                             uses: nat, denials: nat, first: Option<nat>, last: Option<nat>,
                             accessed: seq<Resource>, seen: set<string>, lastReason: Option<string>)

  /** What repeated denials are found by: the principal, a NUL and the displayed resource, in one string. */
  function DenyKey(principal: string, shown: string): string {
    principal + "\0" + shown
  }

  /** A row for something refused: its key, and the principal and resource of the first denial that had it. */
  datatype Refused = Refused(key: string, principal: string, resource: Resource)

  // ---- the fold

  function StandingOf(s: GrantStatus): Standing {
    match s
    case Active => Live
    case Revoked => Severed
    case Expired => Lapsed
  }

  function GrantRow(g: GrantInfo): Channel {
    Channel(g.principal, g.resource, g.rights, Some(g.id), StandingOf(g.status), g.uses, 0,
            Some(g.granted), Some(g.granted), [], {}, None)
  }

  function DeniedRow(principal: string, resource: Resource, rights: Rights): Channel {
    Channel(principal, resource, rights, None, Blocked, 0, 0, None, None, [], {}, None)
  }

  function Union(a: Rights, b: Rights): Rights {
    Rights(a.read || b.read, a.write || b.write, a.exec || b.exec)
  }

  function Min(a: Option<nat>, t: nat): Option<nat> {
    match a
    case None => Some(t)
    case Some(f) => Some(if f < t then f else t)
  }

  function Max(a: Option<nat>, t: nat): Option<nat> {
    match a
    case None => Some(t)
    case Some(l) => Some(if l > t then l else t)
  }

  function Advance(c: Channel, t: nat): Channel {
    c.(first := Min(c.first, t), last := Max(c.last, t))
  }

  /** Lists a resource touched under the grant, once, unless it is the granted one itself. */
  function NoteAccess(show: Show, c: Channel, resource: Resource): Channel {
    var d := show(resource);
    if d == show(c.resource) || d in c.seen then c else c.(seen := c.seen + {d}, accessed := c.accessed + [resource])
  }

  function CountDenial(c: Channel, reason: string, t: nat): Channel {
    Advance(c.(denials := c.denials + 1, lastReason := Some(reason)), t)
  }

  /** The first grant of that id. */
  function GrantIndex(grants: seq<GrantInfo>, id: nat): (i: Option<nat>)
    ensures i.Some? ==> i.value < |grants|
  {
    if grants == [] then None
    else if grants[0].id == id then Some(0)
    else
      match GrantIndex(grants[1..], id)
      case None => None
      case Some(i) => Some(i + 1)
  }

  /** The first grant to the principal that covers the resource. */
  function Covering(grants: seq<GrantInfo>, principal: string, resource: Resource): (i: Option<nat>)
    ensures i.Some? ==> i.value < |grants|
  {
    if grants == [] then None
    else if grants[0].principal == principal && Covers(grants[0].resource, resource) then Some(0)
    else
      match Covering(grants[1..], principal, resource)
      case None => None
      case Some(i) => Some(i + 1)
  }

  /** What an entry counts towards, which the log's order has no part in. */
  datatype Target = OnGrant(index: nat) | OnDenied(key: string) | Nowhere

  function TargetOf(show: Show, grants: seq<GrantInfo>, e: Event): Target {
    match e
    case Use(id, _) => (match GrantIndex(grants, id) case Some(i) => OnGrant(i) case None => Nowhere)
    case Deny(p, r, _, _) => (match Covering(grants, p, r) case Some(i) => OnGrant(i) case None => OnDenied(DenyKey(p, show(r))))
    case _ => Nowhere
  }

  const NO_RIGHTS: Rights := Rights(false, false, false)

  /** How an entry changes the row it counts towards; the rights of a row without a grant grow. */
  function Hit(show: Show, c: Channel, e: Entry): Channel {
    match e.event
    case Use(_, resource) => NoteAccess(show, Advance(c, e.time), resource)
    case Deny(_, _, rights, reason) =>
      CountDenial(if c.grant.None? then c.(rights := Union(c.rights, rights)) else c, reason, e.time)
    case _ => c
  }

  /** A row after the entries of its own, in their order. */
  function RowAfter(show: Show, grants: seq<GrantInfo>, target: Target, row: Channel, log: seq<Entry>): Channel {
    if log == [] then row
    else
      var n := |log| - 1;
      var before := RowAfter(show, grants, target, row, log[..n]);
      if TargetOf(show, grants, log[n].event) == target then Hit(show, before, log[n]) else before
  }

  /** The rows without a grant: each refused principal and resource once, in order of first refusal. */
  function DeniedOf(show: Show, grants: seq<GrantInfo>, log: seq<Entry>): seq<Refused> {
    if log == [] then []
    else
      var n := |log| - 1;
      var before := DeniedOf(show, grants, log[..n]);
      match TargetOf(show, grants, log[n].event)
      case OnDenied(key) => if HasKey(before, key) then before else before + [Refused(key, log[n].event.principal, log[n].event.resource)]
      case _ => before
  }

  predicate HasKey(denied: seq<Refused>, key: string) {
    exists j :: 0 <= j < |denied| && denied[j].key == key
  }

  function GrantRows(show: Show, grants: seq<GrantInfo>, log: seq<Entry>): (cs: seq<Channel>)
    ensures |cs| == |grants|
  {
    seq(|grants|, i requires 0 <= i < |grants| => RowAfter(show, grants, OnGrant(i), GrantRow(grants[i]), log))
  }

  function DeniedRowAfter(show: Show, grants: seq<GrantInfo>, d: Refused, log: seq<Entry>): Channel {
    RowAfter(show, grants, OnDenied(d.key), DeniedRow(d.principal, d.resource, NO_RIGHTS), log)
  }

  function DeniedRows(show: Show, grants: seq<GrantInfo>, denied: seq<Refused>, log: seq<Entry>): (cs: seq<Channel>)
    ensures |cs| == |denied|
  {
    seq(|denied|, j requires 0 <= j < |denied| => DeniedRowAfter(show, grants, denied[j], log))
  }

  /** Every row: one for each grant, then one for each refused principal and resource. */
  function RowsOf(show: Show, grants: seq<GrantInfo>, log: seq<Entry>): seq<Channel> {
    GrantRows(show, grants, log) + DeniedRows(show, grants, DeniedOf(show, grants, log), log)
  }

  // ---- one entry more

  ghost predicate DistinctKeys(ds: seq<Refused>) {
    forall i, j :: 0 <= i < j < |ds| ==> ds[i].key != ds[j].key
  }

  lemma {:induction false} DeniedDistinct(show: Show, grants: seq<GrantInfo>, log: seq<Entry>)
    ensures DistinctKeys(DeniedOf(show, grants, log))
  {
    hide GrantIndex, Covering;
    if log != [] {
      DeniedDistinct(show, grants, log[..|log| - 1]);
    }
  }

  /** A row exists for a refused principal and resource exactly when some entry counts towards it. */
  lemma {:induction false} DeniedKeysAre(show: Show, grants: seq<GrantInfo>, log: seq<Entry>, key: string)
    ensures HasKey(DeniedOf(show, grants, log), key) <==>
      exists k :: 0 <= k < |log| && TargetOf(show, grants, log[k].event) == OnDenied(key)
  {
    hide TargetOf;
    if log != [] {
      var n := |log| - 1;
      var before, after := DeniedOf(show, grants, log[..n]), DeniedOf(show, grants, log);
      DeniedKeysAre(show, grants, log[..n], key);
      if HasKey(before, key) {
        var j :| 0 <= j < |before| && before[j].key == key;
        assert after[j].key == key;
        var k :| 0 <= k < n && TargetOf(show, grants, log[..n][k].event) == OnDenied(key);
        assert TargetOf(show, grants, log[k].event) == OnDenied(key);
      } else if TargetOf(show, grants, log[n].event) == OnDenied(key) {
        assert after[|after| - 1].key == key;
      } else {
        assert forall k :: 0 <= k < n ==> log[..n][k] == log[k];
      }
    }
  }

  lemma {:induction false} UntouchedRow(show: Show, grants: seq<GrantInfo>, target: Target, row: Channel, log: seq<Entry>)
    requires forall k :: 0 <= k < |log| ==> TargetOf(show, grants, log[k].event) != target
    ensures RowAfter(show, grants, target, row, log) == row
  {
    hide TargetOf, Hit;
    if log != [] {
      UntouchedRow(show, grants, target, row, log[..|log| - 1]);
    }
  }

  lemma RowStep(show: Show, grants: seq<GrantInfo>, target: Target, row: Channel, log: seq<Entry>, e: Entry)
    ensures RowAfter(show, grants, target, row, log + [e])
         == if TargetOf(show, grants, e.event) == target
            then Hit(show, RowAfter(show, grants, target, row, log), e)
            else RowAfter(show, grants, target, row, log)
  {
    hide TargetOf, Hit;
    assert (log + [e])[..|log|] == log;
  }

  /** An entry of no row changes none; one of a grant changes that row alone. */
  lemma OtherEntry(show: Show, grants: seq<GrantInfo>, log: seq<Entry>, e: Entry)
    ensures
      var rows, rows' := RowsOf(show, grants, log), RowsOf(show, grants, log + [e]);
      match TargetOf(show, grants, e.event)
      case Nowhere => rows' == rows
      case OnGrant(i) => i < |grants| ==> rows' == rows[i := Hit(show, rows[i], e)]
      case OnDenied(_) => true
  {
    hide Hit, TargetOf, RowAfter;
    var target := TargetOf(show, grants, e.event);
    assert (log + [e])[..|log|] == log;
    if !target.OnDenied? {
      var ds := DeniedOf(show, grants, log);
      assert DeniedOf(show, grants, log + [e]) == ds;
      forall i | 0 <= i < |grants|
        ensures GrantRows(show, grants, log + [e])[i]
             == if target == OnGrant(i) then Hit(show, GrantRows(show, grants, log)[i], e) else GrantRows(show, grants, log)[i]
      {
        RowStep(show, grants, OnGrant(i), GrantRow(grants[i]), log, e);
      }
      forall j | 0 <= j < |ds|
        ensures DeniedRows(show, grants, ds, log + [e])[j] == DeniedRows(show, grants, ds, log)[j]
      {
        RowStep(show, grants, OnDenied(ds[j].key), DeniedRow(ds[j].principal, ds[j].resource, NO_RIGHTS), log, e);
      }
      var rows, rows' := RowsOf(show, grants, log), RowsOf(show, grants, log + [e]);
      if target.OnGrant? && target.index < |grants| {
        assert rows' == rows[target.index := Hit(show, rows[target.index], e)];
      } else if target == Nowhere {
        assert rows' == rows;
      }
    }
  }

  lemma DeniedLeavesGrants(show: Show, grants: seq<GrantInfo>, log: seq<Entry>, e: Entry)
    requires TargetOf(show, grants, e.event).OnDenied?
    ensures GrantRows(show, grants, log + [e]) == GrantRows(show, grants, log)
  {
    hide Hit, TargetOf, RowAfter;
    forall i | 0 <= i < |grants|
      ensures GrantRows(show, grants, log + [e])[i] == GrantRows(show, grants, log)[i]
    {
      RowStep(show, grants, OnGrant(i), GrantRow(grants[i]), log, e);
    }
  }

  lemma DeniedRowStep(show: Show, grants: seq<GrantInfo>, d: Refused, log: seq<Entry>, e: Entry)
    ensures DeniedRowAfter(show, grants, d, log + [e])
         == if TargetOf(show, grants, e.event) == OnDenied(d.key) then Hit(show, DeniedRowAfter(show, grants, d, log), e)
            else DeniedRowAfter(show, grants, d, log)
  {
    hide Hit, TargetOf, RowAfter;
    RowStep(show, grants, OnDenied(d.key), DeniedRow(d.principal, d.resource, NO_RIGHTS), log, e);
  }

  /** A repeated denial of something no grant covers changes its row alone. */
  lemma RepeatedDenial(show: Show, grants: seq<GrantInfo>, log: seq<Entry>, e: Entry, j: nat)
    requires TargetOf(show, grants, e.event).OnDenied?
    requires
      var ds := DeniedOf(show, grants, log);
      j < |ds| && ds[j].key == TargetOf(show, grants, e.event).key
    ensures
      var rows := RowsOf(show, grants, log);
      && DeniedOf(show, grants, log + [e]) == DeniedOf(show, grants, log)
      && RowsOf(show, grants, log + [e]) == rows[|grants| + j := Hit(show, rows[|grants| + j], e)]
  {
    hide Hit, TargetOf, RowAfter, DeniedRowAfter;
    var ds := DeniedOf(show, grants, log);
    assert (log + [e])[..|log|] == log;
    DeniedDistinct(show, grants, log);
    DeniedLeavesGrants(show, grants, log, e);
    forall k | 0 <= k < |ds|
      ensures DeniedRowAfter(show, grants, ds[k], log + [e])
           == if k == j then Hit(show, DeniedRowAfter(show, grants, ds[k], log), e) else DeniedRowAfter(show, grants, ds[k], log)
    {
      DeniedRowStep(show, grants, ds[k], log, e);
    }
  }

  /** A first denial of something no grant covers adds a row. */
  lemma FirstDenial(show: Show, grants: seq<GrantInfo>, log: seq<Entry>, e: Entry)
    requires e.event.Deny? && TargetOf(show, grants, e.event).OnDenied?
    requires !HasKey(DeniedOf(show, grants, log), TargetOf(show, grants, e.event).key)
    ensures
      var key := TargetOf(show, grants, e.event).key;
      && DeniedOf(show, grants, log + [e]) == DeniedOf(show, grants, log) + [Refused(key, e.event.principal, e.event.resource)]
      && RowsOf(show, grants, log + [e])
         == RowsOf(show, grants, log) + [Hit(show, DeniedRow(e.event.principal, e.event.resource, NO_RIGHTS), e)]
  {
    hide Hit, TargetOf, RowAfter;
    var ds := DeniedOf(show, grants, log);
    var key := TargetOf(show, grants, e.event).key;
    var d := Refused(key, e.event.principal, e.event.resource);
    assert (log + [e])[..|log|] == log;
    DeniedLeavesGrants(show, grants, log, e);
    forall k | 0 <= k < |ds|
      ensures DeniedRowAfter(show, grants, ds[k], log + [e]) == DeniedRowAfter(show, grants, ds[k], log)
    {
      assert ds[k].key != key;
      DeniedRowStep(show, grants, ds[k], log, e);
    }
    DeniedKeysAre(show, grants, log, key);
    UntouchedRow(show, grants, OnDenied(key), DeniedRow(e.event.principal, e.event.resource, NO_RIGHTS), log);
    DeniedRowStep(show, grants, d, log, e);
    assert DeniedRows(show, grants, ds + [d], log + [e]) == DeniedRows(show, grants, ds, log) + [DeniedRowAfter(show, grants, d, log + [e])];
  }

  // ---- the fold as the program makes it

  method FindGrant(byGrant: seq<(nat, nat)>, ghost grants: seq<GrantInfo>, id: nat) returns (i: Option<nat>)
    requires |byGrant| == |grants| && forall k :: 0 <= k < |grants| ==> byGrant[k] == (grants[k].id, k)
    ensures i == GrantIndex(grants, id)
  {
    for k := 0 to |byGrant|
      invariant GrantIndex(grants, id) == Shift(GrantIndex(grants[k..], id), k)
    {
      assert grants[k..][1..] == grants[k + 1..];
      if byGrant[k].0 == id {
        return Some(byGrant[k].1);
      }
    }
    return None;
  }

  function Shift(i: Option<nat>, k: nat): Option<nat> {
    match i
    case None => None
    case Some(j) => Some(j + k)
  }

  /** The rows of grants stand first and keep their principal and resource. */
  ghost predicate GrantsFirst(channels: seq<Channel>, grants: seq<GrantInfo>) {
    && |channels| >= |grants|
    && (forall i :: 0 <= i < |grants| ==>
          channels[i].grant.Some? && channels[i].principal == grants[i].principal && channels[i].resource == grants[i].resource)
    && (forall i :: |grants| <= i < |channels| ==> channels[i].grant.None?)
  }

  lemma CoveringStep(grants: seq<GrantInfo>, k: nat, principal: string, resource: Resource)
    requires k < |grants|
    ensures Covering(grants[k..], principal, resource)
         == if grants[k].principal == principal && Covers(grants[k].resource, resource) then Some(0)
            else Shift(Covering(grants[k + 1..], principal, resource), 1)
    ensures k + 1 == |grants| ==> Covering(grants[k + 1..], principal, resource) == None
  {
    hide Covers;
    assert grants[k..][1..] == grants[k + 1..];
  }

  method FindCovering(channels: seq<Channel>, ghost grants: seq<GrantInfo>, principal: string, resource: Resource)
    returns (i: Option<nat>)
    requires GrantsFirst(channels, grants)
    ensures i == Covering(grants, principal, resource)
  {
    hide Covers, Covering;
    assert grants[0..] == grants;
    for k := 0 to |channels|
      invariant k < |grants| ==> Covering(grants, principal, resource) == Shift(Covering(grants[k..], principal, resource), k)
      invariant k >= |grants| ==> Covering(grants, principal, resource) == None
    {
      if k < |grants| {
        CoveringStep(grants, k, principal, resource);
      }
      if channels[k].grant.Some? && channels[k].principal == principal && Covers(channels[k].resource, resource) {
        return Some(k);
      }
    }
    return None;
  }

  method FindKey(byDeny: seq<(string, nat)>, key: string) returns (j: Option<nat>)
    ensures j.Some? ==> j.value < |byDeny| && byDeny[j.value].0 == key
    ensures j.None? ==> forall k :: 0 <= k < |byDeny| ==> byDeny[k].0 != key
  {
    for k := 0 to |byDeny|
      invariant forall m :: 0 <= m < k ==> byDeny[m].0 != key
    {
      if byDeny[k].0 == key {
        return Some(k);
      }
    }
    return None;
  }

  lemma {:induction false} RowKeepsIdentity(show: Show, grants: seq<GrantInfo>, target: Target, row: Channel, log: seq<Entry>)
    ensures
      var c := RowAfter(show, grants, target, row, log);
      && c.principal == row.principal && c.resource == row.resource && c.grant == row.grant && c.status == row.status
      && c.uses == row.uses && (row.grant.Some? ==> c.rights == row.rights)
  {
    hide TargetOf;
    if log != [] {
      RowKeepsIdentity(show, grants, target, row, log[..|log| - 1]);
    }
  }

  lemma RowsGrantsFirst(show: Show, grants: seq<GrantInfo>, log: seq<Entry>)
    ensures GrantsFirst(RowsOf(show, grants, log), grants)
  {
    hide RowAfter;
    forall i | 0 <= i < |grants|
      ensures
        var c := GrantRows(show, grants, log)[i];
        c.grant.Some? && c.principal == grants[i].principal && c.resource == grants[i].resource
    {
      RowKeepsIdentity(show, grants, OnGrant(i), GrantRow(grants[i]), log);
    }
    var ds := DeniedOf(show, grants, log);
    forall j | 0 <= j < |ds|
      ensures DeniedRows(show, grants, ds, log)[j].grant.None?
    {
      RowKeepsIdentity(show, grants, OnDenied(ds[j].key), DeniedRow(ds[j].principal, ds[j].resource, NO_RIGHTS), log);
    }
  }

  method SeedRows(show: Show, grants: seq<GrantInfo>) returns (channels: seq<Channel>, byGrant: seq<(nat, nat)>)
    ensures channels == RowsOf(show, grants, [])
    ensures |byGrant| == |grants| && forall k :: 0 <= k < |grants| ==> byGrant[k] == (grants[k].id, k)
  {
    channels, byGrant := [], [];
    for i := 0 to |grants|
      invariant |channels| == |byGrant| == i
      invariant forall k :: 0 <= k < i ==> channels[k] == GrantRow(grants[k]) && byGrant[k] == (grants[k].id, k)
    {
      byGrant := byGrant + [(grants[i].id, |channels|)];
      channels := channels + [GrantRow(grants[i])];
    }
    assert channels == GrantRows(show, grants, []);
    assert channels + [] == channels;
  }

  /** The keys of the rows without a grant, and their places behind those with one. */
  ghost predicate Indexed(byDeny: seq<(string, nat)>, ds: seq<Refused>, grants: seq<GrantInfo>) {
    |byDeny| == |ds| && forall j :: 0 <= j < |ds| ==> byDeny[j] == (ds[j].key, |grants| + j)
  }

  method FoldEntry(show: Show, ghost grants: seq<GrantInfo>, ghost log: seq<Entry>, e: Entry, channels: seq<Channel>,
                   byGrant: seq<(nat, nat)>, byDeny: seq<(string, nat)>)
    returns (channels': seq<Channel>, byDeny': seq<(string, nat)>)
    requires channels == RowsOf(show, grants, log) && Indexed(byDeny, DeniedOf(show, grants, log), grants)
    requires |byGrant| == |grants| && forall k :: 0 <= k < |grants| ==> byGrant[k] == (grants[k].id, k)
    ensures channels' == RowsOf(show, grants, log + [e]) && Indexed(byDeny', DeniedOf(show, grants, log + [e]), grants)
  {
    hide RowsOf, RowAfter, NoteAccess, Covers, GrantIndex, Covering;
    channels', byDeny' := channels, byDeny;
    RowsGrantsFirst(show, grants, log);
    OtherEntry(show, grants, log, e);
    match e.event {
      case Grant =>
      case Revoke =>
      case Use(id, resource) =>
        var i := FindGrant(byGrant, grants, id);
        if i.Some? {
          channels' := channels[i.value := NoteAccess(show, Advance(channels[i.value], e.time), resource)];
        }
      case Deny(principal, resource, rights, reason) =>
        var i := FindCovering(channels, grants, principal, resource);
        if i.Some? {
          channels' := channels[i.value := CountDenial(channels[i.value], reason, e.time)];
        } else {
          channels', byDeny' := FoldDenial(show, grants, log, e, channels, byDeny);
        }
    }
  }

  /** A denial no grant covers: its row is found by principal and displayed resource, or pushed. */
  method FoldDenial(show: Show, ghost grants: seq<GrantInfo>, ghost log: seq<Entry>, e: Entry, channels: seq<Channel>,
                    byDeny: seq<(string, nat)>)
    returns (channels': seq<Channel>, byDeny': seq<(string, nat)>)
    requires channels == RowsOf(show, grants, log) && Indexed(byDeny, DeniedOf(show, grants, log), grants)
    requires e.event.Deny? && Covering(grants, e.event.principal, e.event.resource) == None
    ensures channels' == RowsOf(show, grants, log + [e]) && Indexed(byDeny', DeniedOf(show, grants, log + [e]), grants)
  {
    hide RowsOf, RowAfter, Covering;
    channels', byDeny' := channels, byDeny;
    RowsGrantsFirst(show, grants, log);
    RowCount(show, grants, log);
    ghost var ds := DeniedOf(show, grants, log);
    var key := DenyKey(e.event.principal, show(e.event.resource));
    var j := FindKey(byDeny, key);
    if j.Some? {
      RepeatedDenial(show, grants, log, e, j.value);
      var i := byDeny[j.value].1;
      var c := channels[i];
      channels' := channels[i := CountDenial(c.(rights := Union(c.rights, e.event.rights)), e.event.reason, e.time)];
    } else {
      assert forall k :: 0 <= k < |ds| ==> ds[k].key == byDeny[k].0;
      FirstDenial(show, grants, log, e);
      byDeny' := byDeny + [(key, |channels|)];
      channels' := channels + [CountDenial(DeniedRow(e.event.principal, e.event.resource, e.event.rights), e.event.reason, e.time)];
    }
  }

  lemma RowCount(show: Show, grants: seq<GrantInfo>, log: seq<Entry>)
    ensures |RowsOf(show, grants, log)| == |grants| + |DeniedOf(show, grants, log)|
  {
  }

  // ---- what the rows count, whatever the order of the log

  /** What a row counts: its denials, its earliest and latest activity, and the rights it has gathered. */
  datatype Stats = Stats(denials: nat, first: Option<nat>, last: Option<nat>, rights: Rights)

  function StatsOf(c: Channel): Stats {
    Stats(c.denials, c.first, c.last, c.rights)
  }

  function AddEntry(s: Stats, e: Entry, gathers: bool): Stats {
    Stats(s.denials + (if e.event.Deny? then 1 else 0), Min(s.first, e.time), Max(s.last, e.time),
          if gathers && e.event.Deny? then Union(s.rights, e.event.rights) else s.rights)
  }

  /** An entry counts towards its own target; a row without a grant gathers rights. */
  function Adder(show: Show, grants: seq<GrantInfo>, target: Target): (Stats, Entry) -> Stats {
    (s: Stats, e: Entry) => if TargetOf(show, grants, e.event) == target then AddEntry(s, e, target.OnDenied?) else s
  }

  lemma {:induction false} RowStats(show: Show, grants: seq<GrantInfo>, target: Target, row: Channel, log: seq<Entry>)
    requires target != Nowhere && (target.OnDenied? <==> row.grant == None)
    ensures StatsOf(RowAfter(show, grants, target, row, log)) == Fold(Adder(show, grants, target), StatsOf(row), log)
  {
    hide GrantIndex, Covering;
    if log != [] {
      var n := |log| - 1;
      RowStats(show, grants, target, row, log[..n]);
      RowKeepsIdentity(show, grants, target, row, log[..n]);
    }
  }

  lemma AdderCommutes(show: Show, grants: seq<GrantInfo>, target: Target)
    ensures Commutes(Adder(show, grants, target))
  {
    hide TargetOf;
    var step := Adder(show, grants, target);
    forall s, x, y
      ensures step(step(s, x), y) == step(step(s, y), x)
    {
      AddTwice(s, x, y, target.OnDenied?);
    }
  }

  lemma AddTwice(s: Stats, x: Entry, y: Entry, gathers: bool)
    ensures AddEntry(AddEntry(s, x, gathers), y, gathers) == AddEntry(AddEntry(s, y, gathers), x, gathers)
  {
  }

  /** What the row of a key counts, by the entries alone. */
  function DeniedStats(show: Show, grants: seq<GrantInfo>, key: string, log: seq<Entry>): Stats {
    Fold(Adder(show, grants, OnDenied(key)), Stats(0, None, None, NO_RIGHTS), log)
  }

  lemma DeniedRowStats(show: Show, grants: seq<GrantInfo>, d: Refused, log: seq<Entry>)
    ensures StatsOf(DeniedRowAfter(show, grants, d, log)) == DeniedStats(show, grants, d.key, log)
  {
    hide RowAfter;
    RowStats(show, grants, OnDenied(d.key), DeniedRow(d.principal, d.resource, NO_RIGHTS), log);
  }

  /**
   A reordered log has a row for the same grants and the same keys, and each row has the same uses,
   denials, first and last times, and rights.
   */
  lemma RowsCountAlike(show: Show, grants: seq<GrantInfo>, a: seq<Entry>, b: seq<Entry>)
    requires multiset(a) == multiset(b)
    ensures forall i :: 0 <= i < |grants| ==>
      StatsOf(GrantRows(show, grants, a)[i]) == StatsOf(GrantRows(show, grants, b)[i])
      && GrantRows(show, grants, a)[i].uses == GrantRows(show, grants, b)[i].uses == grants[i].uses
    ensures forall key :: HasKey(DeniedOf(show, grants, a), key) <==> HasKey(DeniedOf(show, grants, b), key)
    ensures forall key :: DeniedStats(show, grants, key, a) == DeniedStats(show, grants, key, b)
  {
    hide RowAfter, TargetOf, HasKey;
    forall i | 0 <= i < |grants|
      ensures StatsOf(GrantRows(show, grants, a)[i]) == StatsOf(GrantRows(show, grants, b)[i])
      ensures GrantRows(show, grants, a)[i].uses == GrantRows(show, grants, b)[i].uses == grants[i].uses
    {
      RowStats(show, grants, OnGrant(i), GrantRow(grants[i]), a);
      RowStats(show, grants, OnGrant(i), GrantRow(grants[i]), b);
      AdderCommutes(show, grants, OnGrant(i));
      FoldAnyOrder(Adder(show, grants, OnGrant(i)), StatsOf(GrantRow(grants[i])), a, b);
      RowKeepsIdentity(show, grants, OnGrant(i), GrantRow(grants[i]), a);
      RowKeepsIdentity(show, grants, OnGrant(i), GrantRow(grants[i]), b);
    }
    forall key
      ensures HasKey(DeniedOf(show, grants, a), key) <==> HasKey(DeniedOf(show, grants, b), key)
    {
      DeniedKeysAre(show, grants, a, key);
      DeniedKeysAre(show, grants, b, key);
      SameTargets(show, grants, a, b, OnDenied(key));
    }
    forall key
      ensures DeniedStats(show, grants, key, a) == DeniedStats(show, grants, key, b)
    {
      AdderCommutes(show, grants, OnDenied(key));
      FoldAnyOrder(Adder(show, grants, OnDenied(key)), Stats(0, None, None, NO_RIGHTS), a, b);
    }
  }

  lemma SameTargets(show: Show, grants: seq<GrantInfo>, a: seq<Entry>, b: seq<Entry>, target: Target)
    requires multiset(a) == multiset(b)
    ensures (exists k :: 0 <= k < |a| && TargetOf(show, grants, a[k].event) == target)
       <==> (exists k :: 0 <= k < |b| && TargetOf(show, grants, b[k].event) == target)
  {
    hide TargetOf;
    SameElements(a, b);
    if k :| 0 <= k < |a| && TargetOf(show, grants, a[k].event) == target {
      assert a[k] in b;
    }
    if k :| 0 <= k < |b| && TargetOf(show, grants, b[k].event) == target {
      assert b[k] in a;
    }
  }

  function SumDenials(cs: seq<Channel>): nat {
    if cs == [] then 0 else SumDenials(cs[..|cs| - 1]) + cs[|cs| - 1].denials
  }

  function CountDenies(log: seq<Entry>): nat {
    if log == [] then 0 else CountDenies(log[..|log| - 1]) + (if log[|log| - 1].event.Deny? then 1 else 0)
  }

  lemma {:induction false} SumOne(cs: seq<Channel>, i: nat, c: Channel)
    requires i < |cs|
    ensures SumDenials(cs[i := c]) == SumDenials(cs) - cs[i].denials + c.denials
    decreases |cs|
  {
    var n := |cs| - 1;
    if i < n {
      assert cs[i := c][..n] == cs[..n][i := c];
      SumOne(cs[..n], i, c);
    } else {
      assert cs[i := c][..n] == cs[..n];
    }
  }

  lemma HitCounts(show: Show, c: Channel, e: Entry)
    ensures Hit(show, c, e).denials == c.denials + (if e.event.Deny? then 1 else 0)
  {
  }

  /** Every denial is counted on exactly one row, and nothing else is. */
  lemma {:induction false} DenialsConserved(show: Show, grants: seq<GrantInfo>, log: seq<Entry>)
    ensures SumDenials(RowsOf(show, grants, log)) == CountDenies(log)
  {
    hide RowsOf, Hit, GrantIndex, Covering, SumDenials;
    if log == [] {
      NoDenialsYet(show, grants, |grants|);
    } else {
      var n := |log| - 1;
      var before, e := log[..n], log[n];
      DenialsConserved(show, grants, before);
      assert before + [e] == log;
      OneEntryCounts(show, grants, before, e);
    }
  }

  lemma OneEntryCounts(show: Show, grants: seq<GrantInfo>, log: seq<Entry>, e: Entry)
    ensures SumDenials(RowsOf(show, grants, log + [e]))
         == SumDenials(RowsOf(show, grants, log)) + (if e.event.Deny? then 1 else 0)
  {
    hide RowsOf, Hit, GrantIndex, Covering;
    var rows := RowsOf(show, grants, log);
    RowCount(show, grants, log);
    OtherEntry(show, grants, log, e);
    match TargetOf(show, grants, e.event) {
      case Nowhere =>
      case OnGrant(i) =>
        SumOne(rows, i, Hit(show, rows[i], e));
        HitCounts(show, rows[i], e);
      case OnDenied(key) =>
        var ds := DeniedOf(show, grants, log);
        if HasKey(ds, key) {
          var j :| 0 <= j < |ds| && ds[j].key == key;
          RepeatedDenial(show, grants, log, e, j);
          SumOne(rows, |grants| + j, Hit(show, rows[|grants| + j], e));
          HitCounts(show, rows[|grants| + j], e);
        } else {
          FirstDenial(show, grants, log, e);
          var c := DeniedRow(e.event.principal, e.event.resource, NO_RIGHTS);
          HitCounts(show, c, e);
          assert (rows + [Hit(show, c, e)])[..|rows|] == rows;
        }
    }
  }

  lemma {:induction false} NoDenialsYet(show: Show, grants: seq<GrantInfo>, n: nat)
    requires n <= |grants|
    ensures |RowsOf(show, grants, [])| == |grants| && SumDenials(RowsOf(show, grants, [])[..n]) == 0
    ensures n == |grants| ==> SumDenials(RowsOf(show, grants, [])) == 0
  {
    var rows := RowsOf(show, grants, []);
    if n > 0 {
      NoDenialsYet(show, grants, n - 1);
      assert rows[..n][..n - 1] == rows[..n - 1];
    }
    if n == |grants| {
      assert rows[..n] == rows;
    }
  }

  // ---- views and totals

  datatype View = View(principal: string, channels: seq<Channel>, live: nat, blocked: nat, last: Option<nat>)

  datatype Totals = Totals(principals: nat, live: nat, network: nat, blocked: nat, severed: nat)

  datatype Model = Model(window: Window, principals: seq<View>, timeline: seq<Bucket>, totals: Totals)

  predicate IsLive(c: Channel) {
    c.status == Live
  }

  predicate IsLiveNet(c: Channel) {
    c.status == Live && c.resource.Net?
  }

  predicate IsBlocked(c: Channel) {
    c.status == Blocked
  }

  predicate IsSevered(c: Channel) {
    c.status == Severed
  }

  /** The rows of one principal, in order. */
  function Of(cs: seq<Channel>, principal: string): seq<Channel> {
    if cs == [] then []
    else Of(cs[..|cs| - 1], principal) + (if cs[|cs| - 1].principal == principal then [cs[|cs| - 1]] else [])
  }

  function Latest(cs: seq<Channel>): Option<nat> {
    if cs == [] then None
    else
      var before, c := Latest(cs[..|cs| - 1]), cs[|cs| - 1];
      if c.last.Some? then Max(before, c.last.value) else before
  }

  /** One view for each principal with a row, holding its rows and their counts. */
  ghost predicate Groups(views: seq<View>, cs: seq<Channel>) {
    && (forall i, j :: 0 <= i < j < |views| ==> views[i].principal != views[j].principal)
    && (forall i :: 0 <= i < |views| ==>
          && views[i].channels == Of(cs, views[i].principal) && views[i].channels != []
          && views[i].live == Count(views[i].channels, IsLive) && views[i].blocked == Count(views[i].channels, IsBlocked)
          && views[i].last == Latest(views[i].channels))
    && (forall c <- cs :: exists i :: 0 <= i < |views| && views[i].principal == c.principal)
  }

  method FindView(views: seq<(string, seq<Channel>)>, principal: string) returns (i: nat)
    ensures i <= |views| && (i < |views| ==> views[i].0 == principal)
    ensures forall k :: 0 <= k < i ==> views[k].0 != principal
  {
    i := 0;
    while i < |views| && views[i].0 != principal
      invariant i <= |views| && forall k :: 0 <= k < i ==> views[k].0 != principal
    {
      i := i + 1;
    }
  }

  /** The rows taken one by one, each to the view of its principal. */
  ghost predicate Collected(views: seq<(string, seq<Channel>)>, cs: seq<Channel>) {
    && (forall i, j :: 0 <= i < j < |views| ==> views[i].0 != views[j].0)
    && (forall i :: 0 <= i < |views| ==> views[i].1 == Of(cs, views[i].0) && views[i].1 != [])
    && (forall c <- cs :: exists i :: 0 <= i < |views| && views[i].0 == c.principal)
  }

  lemma OfNext(cs: seq<Channel>, c: Channel, principal: string)
    ensures Of(cs + [c], principal) == if c.principal == principal then Of(cs, principal) + [c] else Of(cs, principal)
  {
    assert (cs + [c])[..|cs|] == cs;
  }

  lemma {:induction false} OfNone(cs: seq<Channel>, principal: string)
    requires forall c <- cs :: c.principal != principal
    ensures Of(cs, principal) == []
  {
    if cs != [] {
      OfNone(cs[..|cs| - 1], principal);
    }
  }

  lemma CollectedPush(views: seq<(string, seq<Channel>)>, cs: seq<Channel>, c: Channel, k: nat)
    requires Collected(views, cs) && k <= |views|
    requires k < |views| ==> views[k].0 == c.principal
    requires k == |views| ==> forall i :: 0 <= i < |views| ==> views[i].0 != c.principal
    ensures Collected(if k < |views| then views[k := (c.principal, views[k].1 + [c])] else views + [(c.principal, [c])], cs + [c])
  {
    hide Of;
    var views' := if k < |views| then views[k := (c.principal, views[k].1 + [c])] else views + [(c.principal, [c])];
    if k == |views| {
      forall d | d in cs
        ensures d.principal != c.principal
      {
        var i :| 0 <= i < |views| && views[i].0 == d.principal;
      }
      OfNone(cs, c.principal);
    }
    forall i | 0 <= i < |views'|
      ensures views'[i].1 == Of(cs + [c], views'[i].0) && views'[i].1 != []
    {
      OfNext(cs, c, views'[i].0);
    }
    forall d | d in cs + [c]
      ensures exists i :: 0 <= i < |views'| && views'[i].0 == d.principal
    {
      if d in cs {
        var i :| 0 <= i < |views| && views[i].0 == d.principal;
        assert views'[i].0 == d.principal;
      } else {
        assert views'[k].0 == d.principal;
      }
    }
  }

  method Collect(cs: seq<Channel>) returns (views: seq<(string, seq<Channel>)>)
    ensures Collected(views, cs)
  {
    hide Of, Collected;
    views := [];
    NothingCollected();
    for n := 0 to |cs|
      invariant Collected(views, cs[..n])
    {
      var k := FindView(views, cs[n].principal);
      CollectedPush(views, cs[..n], cs[n], k);
      assert cs[..n + 1] == cs[..n] + [cs[n]];
      if k < |views| {
        views := views[k := (cs[n].principal, views[k].1 + [cs[n]])];
      } else {
        views := views + [(cs[n].principal, [cs[n]])];
      }
    }
    assert cs[..|cs|] == cs;
  }

  lemma NothingCollected()
    ensures Collected([], [])
  {
  }

  function ViewOf(principal: string, cs: seq<Channel>): View {
    View(principal, cs, Count(cs, IsLive), Count(cs, IsBlocked), Latest(cs))
  }

  method Tallied(principal: string, cs: seq<Channel>) returns (v: View)
    ensures v == ViewOf(principal, cs)
  {
    var live, blocked, last := 0, 0, None;
    for i := 0 to |cs|
      invariant live == Count(cs[..i], IsLive) && blocked == Count(cs[..i], IsBlocked) && last == Latest(cs[..i])
    {
      assert cs[..i + 1][..i] == cs[..i];
      if IsLive(cs[i]) {
        live := live + 1;
      }
      if IsBlocked(cs[i]) {
        blocked := blocked + 1;
      }
      if cs[i].last.Some? {
        last := Max(last, cs[i].last.value);
      }
    }
    assert cs[..|cs|] == cs;
    v := View(principal, cs, live, blocked, last);
  }

  method Group(cs: seq<Channel>) returns (views: seq<View>)
    ensures Groups(views, cs)
  {
    hide Of, Count, Latest;
    var collected := Collect(cs);
    views := [];
    for i := 0 to |collected|
      invariant |views| == i
      invariant forall k :: 0 <= k < i ==> views[k] == ViewOf(collected[k].0, collected[k].1)
    {
      var v := Tallied(collected[i].0, collected[i].1);
      views := views + [v];
    }
    forall c | c in cs
      ensures exists i :: 0 <= i < |views| && views[i].principal == c.principal
    {
      var i :| 0 <= i < |collected| && collected[i].0 == c.principal;
      assert views[i].principal == c.principal;
    }
  }

  function Flat(views: seq<View>): seq<Channel> {
    if views == [] then [] else Flat(views[..|views| - 1]) + views[|views| - 1].channels
  }

  lemma {:induction false} OfCounts(cs: seq<Channel>, principal: string, c: Channel)
    ensures multiset(Of(cs, principal))[c] == if c.principal == principal then multiset(cs)[c] else 0
  {
    if cs != [] {
      var n := |cs| - 1;
      OfCounts(cs[..n], principal, c);
      assert cs == cs[..n] + [cs[n]];
      CountsOneMore(cs[..n], cs[n], c);
      CountsOneMore(Of(cs[..n], principal), cs[n], c);
      assert Of(cs, principal) == if cs[n].principal == principal then Of(cs[..n], principal) + [cs[n]] else Of(cs[..n], principal);
    }
  }

  lemma CountsOneMore(cs: seq<Channel>, d: Channel, c: Channel)
    ensures multiset(cs + [d])[c] == multiset(cs)[c] + (if d == c then 1 else 0)
  {
  }

  /** One of the first n views is the principal's. */
  ghost predicate Viewed(views: seq<View>, n: nat, principal: string)
    requires n <= |views|
  {
    exists i :: 0 <= i < n && views[i].principal == principal
  }

  lemma ViewedStep(views: seq<View>, n: nat, principal: string)
    requires n < |views| && forall i, j :: 0 <= i < j < |views| ==> views[i].principal != views[j].principal
    ensures Viewed(views, n + 1, principal) <==> Viewed(views, n, principal) || views[n].principal == principal
    ensures !(Viewed(views, n, principal) && views[n].principal == principal)
  {
  }

  lemma {:induction false} FlatCounts(views: seq<View>, cs: seq<Channel>, n: nat, c: Channel)
    requires Groups(views, cs) && n <= |views|
    ensures multiset(Flat(views[..n]))[c] == if Viewed(views, n, c.principal) then multiset(cs)[c] else 0
  {
    hide Of, Count, Latest, Viewed;
    if n > 0 {
      ViewedStep(views, n - 1, c.principal);
      assert views[n - 1].channels == Of(cs, views[n - 1].principal);
      hide Groups;
      FlatCounts(views, cs, n - 1, c);
      OfCounts(cs, views[n - 1].principal, c);
      FlatStep(views, n - 1);
      hide Flat;
    } else {
      NoneViewed(views, c.principal);
    }
  }

  lemma NoneViewed(views: seq<View>, principal: string)
    ensures !Viewed(views, 0, principal)
  {
  }

  lemma FlatStep(views: seq<View>, n: nat)
    requires n < |views|
    ensures Flat(views[..n + 1]) == Flat(views[..n]) + views[n].channels
  {
    assert views[..n + 1][..n] == views[..n];
  }

  /** The views hold the rows, each exactly once. */
  lemma GroupsPartition(views: seq<View>, cs: seq<Channel>)
    requires Groups(views, cs)
    ensures multiset(Flat(views)) == multiset(cs)
  {
    hide Of, Count, Latest, Flat;
    assert views[..|views|] == views;
    forall c: Channel
      ensures multiset(Flat(views))[c] == multiset(cs)[c]
    {
      FlatCounts(views, cs, |views|, c);
      assert multiset(cs)[c] > 0 ==> c in cs;
    }
  }

  function TotalsOf(views: seq<View>): Totals {
    var cs := Flat(views);
    Totals(|views|, Count(cs, IsLive), Count(cs, IsLiveNet), Count(cs, IsBlocked), Count(cs, IsSevered))
  }

  function SumLive(views: seq<View>): nat {
    if views == [] then 0 else SumLive(views[..|views| - 1]) + views[|views| - 1].live
  }

  function SumBlocked(views: seq<View>): nat {
    if views == [] then 0 else SumBlocked(views[..|views| - 1]) + views[|views| - 1].blocked
  }

  lemma {:induction false} SumsOfViews(views: seq<View>, n: nat)
    requires n <= |views|
    requires forall i :: 0 <= i < |views| ==>
      views[i].live == Count(views[i].channels, IsLive) && views[i].blocked == Count(views[i].channels, IsBlocked)
    ensures SumLive(views[..n]) == Count(Flat(views[..n]), IsLive) && SumBlocked(views[..n]) == Count(Flat(views[..n]), IsBlocked)
  {
    hide Count;
    if n == 0 {
      NoRows();
    } else {
      SumsOfViews(views, n - 1);
      assert views[..n][..n - 1] == views[..n - 1];
      CountConcat(Flat(views[..n - 1]), views[n - 1].channels, IsLive);
      CountConcat(Flat(views[..n - 1]), views[n - 1].channels, IsBlocked);
    }
  }

  lemma NoRows()
    ensures Count([], IsLive) == 0 && Count([], IsBlocked) == 0
  {
  }

  /** The totals are the sums over the views, and the counts of the rows that were grouped. */
  lemma TotalsAgree(views: seq<View>, cs: seq<Channel>)
    requires Groups(views, cs)
    ensures
      var t := TotalsOf(views);
      && t.principals == |views| && t.live == SumLive(views) && t.blocked == SumBlocked(views)
      && t == Totals(|views|, Count(cs, IsLive), Count(cs, IsLiveNet), Count(cs, IsBlocked), Count(cs, IsSevered))
  {
    hide Of, Count, Latest, Flat, SumLive, SumBlocked;
    GroupsPartition(views, cs);
    assert views[..|views|] == views;
    SumsOfViews(views, |views|);
    CountAnyOrder(Flat(views), cs, IsLive);
    CountAnyOrder(Flat(views), cs, IsLiveNet);
    CountAnyOrder(Flat(views), cs, IsBlocked);
    CountAnyOrder(Flat(views), cs, IsSevered);
  }

  method CountTotals(views: seq<View>) returns (t: Totals)
    ensures t == TotalsOf(views)
  {
    hide Count;
    NoCounts();
    t := Totals(|views|, 0, 0, 0, 0);
    for i := 0 to |views|
      invariant t == TotalsOf(views[..i]).(principals := |views|)
    {
      ghost var before := Flat(views[..i]);
      var cs := views[i].channels;
      assert before + cs[..0] == before;
      for j := 0 to |cs|
        invariant t == Totals(|views|, Count(before + cs[..j], IsLive), Count(before + cs[..j], IsLiveNet),
                              Count(before + cs[..j], IsBlocked), Count(before + cs[..j], IsSevered))
      {
        assert before + cs[..j + 1] == before + cs[..j] + [cs[j]];
        OneMoreRow(before + cs[..j], cs[j]);
        if IsLive(cs[j]) {
          t := t.(live := t.live + 1);
          if cs[j].resource.Net? {
            t := t.(network := t.network + 1);
          }
        }
        match cs[j].status {
          case Blocked => t := t.(blocked := t.blocked + 1);
          case Severed => t := t.(severed := t.severed + 1);
          case _ =>
        }
      }
      assert cs[..|cs|] == cs && views[..i + 1][..i] == views[..i];
    }
    assert views[..|views|] == views;
  }

  lemma NoCounts()
    ensures Count([], IsLive) == Count([], IsLiveNet) == Count([], IsBlocked) == Count([], IsSevered) == 0
  {
  }

  lemma OneMoreRow(cs: seq<Channel>, c: Channel)
    ensures Count(cs + [c], IsLive) == Count(cs, IsLive) + (if IsLive(c) then 1 else 0)
    ensures Count(cs + [c], IsLiveNet) == Count(cs, IsLiveNet) + (if IsLiveNet(c) then 1 else 0)
    ensures Count(cs + [c], IsBlocked) == Count(cs, IsBlocked) + (if IsBlocked(c) then 1 else 0)
    ensures Count(cs + [c], IsSevered) == Count(cs, IsSevered) + (if IsSevered(c) then 1 else 0)
  {
  }

  // ---- the model

  /** Current authority is always kept; dead history only when its last activity is in the window. */
  predicate Keeps(w: Window, c: Channel) {
    c.status == Live || (c.last.Some? && InWindow(w, c.last.value))
  }

  function Kept(w: Window, cs: seq<Channel>): seq<Channel> {
    if cs == [] then []
    else Kept(w, cs[..|cs| - 1]) + (if Keeps(w, cs[|cs| - 1]) then [cs[|cs| - 1]] else [])
  }

  function KindOf(e: Event): EventKind {
    match e
    case Grant => GrantKind
    case Use(_, _) => UseKind
    case Deny(_, _, _, _) => DenyKind
    case Revoke => RevokeKind
  }

  function Happenings(log: seq<Entry>): (hs: seq<Happening>)
    ensures |hs| == |log|
  {
    seq(|log|, i requires 0 <= i < |log| => Happening(log[i].time, KindOf(log[i].event)))
  }

  /** The whole fold: one pass over the log for rows and timeline, then the kept rows by principal. */
  method Build(show: Show, log: seq<Entry>, grants: seq<GrantInfo>, w: Window, buckets: nat) returns (m: Model)
    ensures m.window == w && m.timeline == TimelineOf(w, buckets, Happenings(log))
    ensures Groups(m.principals, Kept(w, RowsOf(show, grants, log))) && m.totals == TotalsOf(m.principals)
  {
    hide RowsOf, DeniedOf, TimelineOf, Groups, Kept, TotalsOf, BucketIndex;
    var channels, byGrant := SeedRows(show, grants);
    var byDeny: seq<(string, nat)> := [];
    var timeline := MakeBuckets(w, buckets);
    NothingYet(show, grants, w, buckets);
    for k := 0 to |log|
      invariant channels == RowsOf(show, grants, log[..k]) && Indexed(byDeny, DeniedOf(show, grants, log[..k]), grants)
      invariant timeline == TimelineOf(w, buckets, Happenings(log)[..k])
    {
      var e := log[k];
      timeline := Land(w, buckets, timeline, Happenings(log), k, Happening(e.time, KindOf(e.event)));
      channels, byDeny := FoldEntry(show, grants, log[..k], e, channels, byGrant, byDeny);
      assert log[..k + 1] == log[..k] + [log[k]];
    }
    assert log[..|log|] == log && Happenings(log)[..|log|] == Happenings(log);
    var kept := KeepRows(w, channels);
    var views := Group(kept);
    var totals := CountTotals(views);
    m := Model(w, views, timeline, totals);
  }

  lemma NothingYet(show: Show, grants: seq<GrantInfo>, w: Window, buckets: nat)
    ensures DeniedOf(show, grants, []) == [] && TimelineOf(w, buckets, []) == Buckets(w, buckets)
  {
  }

  method KeepRows(w: Window, cs: seq<Channel>) returns (kept: seq<Channel>)
    ensures kept == Kept(w, cs)
  {
    kept := [];
    for i := 0 to |cs|
      invariant kept == Kept(w, cs[..i])
    {
      assert cs[..i + 1][..i] == cs[..i];
      if Keeps(w, cs[i]) {
        kept := kept + [cs[i]];
      }
    }
    assert cs[..|cs|] == cs;
  }
}
