/**
 What a row, a bucket and a total of the Glass model (crates/glass/src/model.rs) say of the log: each
 field as the entries that count towards it, without the fold that computes it.
 */
module GlassRows {
  import opened Outcomes
  import opened Capability
  import opened Display
  import opened Folds
  import opened Timeline
  import opened Glass

  // ---- which row an entry counts towards

  lemma {:induction false} FirstOfGrant(grants: seq<GrantInfo>, id: nat, i: nat)
    ensures GrantIndex(grants, id) == Some(i) <==>
      i < |grants| && grants[i].id == id && forall k :: 0 <= k < i ==> grants[k].id != id
    ensures GrantIndex(grants, id) == None <==> forall k :: 0 <= k < |grants| ==> grants[k].id != id
    decreases |grants|
  {
    if grants != [] && grants[0].id != id {
      var rest := grants[1..];
      assert forall k :: 0 <= k < |rest| ==> rest[k] == grants[k + 1];
      assert forall k :: 0 < k < |grants| ==> grants[k] == rest[k - 1];
      FirstOfGrant(rest, id, if i > 0 then i - 1 else 0);
    }
  }

  lemma {:induction false} FirstToCover(grants: seq<GrantInfo>, principal: string, resource: Resource, i: nat)
    ensures Covering(grants, principal, resource) == Some(i) <==>
      && i < |grants| && grants[i].principal == principal && Covers(grants[i].resource, resource)
      && forall k :: 0 <= k < i ==> grants[k].principal != principal || !Covers(grants[k].resource, resource)
    ensures Covering(grants, principal, resource) == None <==>
      forall k :: 0 <= k < |grants| ==> grants[k].principal != principal || !Covers(grants[k].resource, resource)
    decreases |grants|
  {
    hide Covers;
    if grants != [] && !(grants[0].principal == principal && Covers(grants[0].resource, resource)) {
      var rest := grants[1..];
      assert forall k :: 0 <= k < |rest| ==> rest[k] == grants[k + 1];
      assert forall k :: 0 < k < |grants| ==> grants[k] == rest[k - 1];
      FirstToCover(rest, principal, resource, if i > 0 then i - 1 else 0);
    }
  }

  /**
   A use counts towards the first grant of its id. A denial counts towards the principal's first grant that
   covers the resource, whatever has become of that grant, or else towards what was refused.
   */
  lemma CountsTowards(show: Show, grants: seq<GrantInfo>, e: Event, i: nat)
    ensures e.Use? ==> (TargetOf(show, grants, e) == OnGrant(i) <==>
      i < |grants| && grants[i].id == e.grant && forall k :: 0 <= k < i ==> grants[k].id != e.grant)
    ensures e.Deny? ==> (TargetOf(show, grants, e) == OnGrant(i) <==>
      && i < |grants| && grants[i].principal == e.principal && Covers(grants[i].resource, e.resource)
      && forall k :: 0 <= k < i ==> grants[k].principal != e.principal || !Covers(grants[k].resource, e.resource))
    ensures e.Deny? ==> (TargetOf(show, grants, e) == OnDenied(e.principal + "\0" + show(e.resource)) <==>
      forall k :: 0 <= k < |grants| ==> grants[k].principal != e.principal || !Covers(grants[k].resource, e.resource))
    ensures e.Grant? || e.Revoke? ==> TargetOf(show, grants, e) == Nowhere
  {
    hide Covers, GrantIndex, Covering;
    if e.Use? {
      FirstOfGrant(grants, e.grant, i);
    }
    if e.Deny? {
      FirstToCover(grants, e.principal, e.resource, i);
    }
  }

  // ---- what a row says

  /** The entry counts towards the row. */
  predicate Own(show: Show, grants: seq<GrantInfo>, target: Target, e: Entry) {
    TargetOf(show, grants, e.event) == target
  }

  lemma OwnIsUseOrDenial(show: Show, grants: seq<GrantInfo>, target: Target, e: Entry)
    requires target != Nowhere && Own(show, grants, target, e)
    ensures e.event.Use? || e.event.Deny?
  {
    hide GrantIndex, Covering;
  }

  /** The first and last activity bound the times of the row's entries, and one of them, or the start, is each. */
  ghost predicate Spans(show: Show, grants: seq<GrantInfo>, target: Target, start: Option<nat>, c: Channel, log: seq<Entry>) {
    && c.first.Some? == c.last.Some?
    && (start.Some? ==> c.first.Some? && c.first.value <= start.value <= c.last.value)
    && (forall e <- log :: Own(show, grants, target, e) ==> c.first.Some? && c.first.value <= e.time <= c.last.value)
    && (c.first == start || exists e <- log :: Own(show, grants, target, e) && c.first == Some(e.time))
    && (c.last == start || exists e <- log :: Own(show, grants, target, e) && c.last == Some(e.time))
  }

  lemma {:induction false} RowSpans(show: Show, grants: seq<GrantInfo>, target: Target, row: Channel, log: seq<Entry>)
    requires target != Nowhere && row.first == row.last
    ensures Spans(show, grants, target, row.first, RowAfter(show, grants, target, row, log), log)
  {
    if log != [] {
      var n := |log| - 1;
      var before, e := log[..n], log[n];
      RowSpans(show, grants, target, row, before);
      assert log == before + [e];
      OneMoreSpans(show, grants, target, row.first, RowAfter(show, grants, target, row, before), before, e);
    }
  }

  lemma OneMoreSpans(show: Show, grants: seq<GrantInfo>, target: Target, start: Option<nat>, c: Channel, log: seq<Entry>, e: Entry)
    requires target != Nowhere && Spans(show, grants, target, start, c, log)
    ensures Spans(show, grants, target, start, if Own(show, grants, target, e) then Hit(show, c, e) else c, log + [e])
  {
    if Own(show, grants, target, e) {
      OwnIsUseOrDenial(show, grants, target, e);
      HitTimes(show, c, e);
      assert e in log + [e];
    }
    hide Own, TargetOf, Hit;
    assert forall d :: d in log + [e] <==> d in log || d == e;
  }

  lemma HitTimes(show: Show, c: Channel, e: Entry)
    requires e.event.Use? || e.event.Deny?
    ensures
      var h := Hit(show, c, e);
      && h.first.Some? && h.last.Some? && h.first.value <= e.time <= h.last.value
      && (h.first == Some(e.time) || h.first == c.first) && (h.last == Some(e.time) || h.last == c.last)
      && (c.first.Some? ==> h.first.value <= c.first.value) && (c.last.Some? ==> c.last.value <= h.last.value)
  {
  }

  /** A denial that counts towards the row. */
  predicate OwnDenial(show: Show, grants: seq<GrantInfo>, target: Target, e: Entry) {
    e.event.Deny? && Own(show, grants, target, e)
  }

  /** The row counts its denials, and nothing else does; its uses are the grant table's. */
  lemma {:induction false} RowDenials(show: Show, grants: seq<GrantInfo>, target: Target, row: Channel, log: seq<Entry>)
    ensures
      var c := RowAfter(show, grants, target, row, log);
      c.denials == row.denials + Count(log, (e: Entry) => OwnDenial(show, grants, target, e))
  {
    hide TargetOf;
    if log != [] {
      RowDenials(show, grants, target, row, log[..|log| - 1]);
    }
  }

  /** The reason on the row is its latest denial's. */
  lemma {:induction false} RowReason(show: Show, grants: seq<GrantInfo>, target: Target, row: Channel, log: seq<Entry>, k: nat)
    requires k < |log| && OwnDenial(show, grants, target, log[k])
    requires forall j :: k < j < |log| ==> !OwnDenial(show, grants, target, log[j])
    ensures RowAfter(show, grants, target, row, log).lastReason == Some(log[k].event.reason)
  {
    hide TargetOf;
    var n := |log| - 1;
    if k < n {
      RowReason(show, grants, target, row, log[..n], k);
      assert log[..n][k] == log[k];
    }
  }

  /** A row without a grant has each right that a denial of its own asked for, and no other. */
  lemma {:induction false} RowRights(show: Show, grants: seq<GrantInfo>, target: Target, row: Channel, log: seq<Entry>)
    requires row.grant == None
    ensures
      var r := RowAfter(show, grants, target, row, log).rights;
      && (r.read <==> row.rights.read || exists e <- log :: OwnDenial(show, grants, target, e) && e.event.rights.read)
      && (r.write <==> row.rights.write || exists e <- log :: OwnDenial(show, grants, target, e) && e.event.rights.write)
      && (r.exec <==> row.rights.exec || exists e <- log :: OwnDenial(show, grants, target, e) && e.event.rights.exec)
  {
    if log != [] {
      var n := |log| - 1;
      var before, e := log[..n], log[n];
      RowRights(show, grants, target, row, before);
      RowKeepsIdentity(show, grants, target, row, before);
      assert log == before + [e];
      assert forall d :: d in log <==> d in before || d == e;
      HitRights(show, RowAfter(show, grants, target, row, before), e);
      hide TargetOf, Hit;
    }
  }

  lemma HitRights(show: Show, c: Channel, e: Entry)
    requires c.grant == None
    ensures
      var r := Hit(show, c, e).rights;
      if e.event.Deny? then
        && (r.read <==> c.rights.read || e.event.rights.read) && (r.write <==> c.rights.write || e.event.rights.write)
        && (r.exec <==> c.rights.exec || e.event.rights.exec)
      else r == c.rights
  {
  }

  /** A use of something displayed so that counts towards the row. */
  predicate OwnUse(show: Show, grants: seq<GrantInfo>, target: Target, shown: string, e: Entry) {
    e.event.Use? && Own(show, grants, target, e) && show(e.event.resource) == shown
  }

  ghost predicate Touched(show: Show, grants: seq<GrantInfo>, target: Target, shown: string, log: seq<Entry>) {
    exists e <- log :: OwnUse(show, grants, target, shown, e)
  }

  /** What is listed is what was seen, each display once. */
  ghost predicate ListsSeen(show: Show, c: Channel) {
    && (forall d :: d in c.seen <==> exists i :: 0 <= i < |c.accessed| && show(c.accessed[i]) == d)
    && (forall i, j :: 0 <= i < j < |c.accessed| ==> show(c.accessed[i]) != show(c.accessed[j]))
  }

  /** The row lists what its uses touched, and the granted resource's own display not at all. */
  ghost predicate ListsTouched(show: Show, grants: seq<GrantInfo>, target: Target, c: Channel, log: seq<Entry>) {
    ListsSeen(show, c) && forall d :: d in c.seen <==> d != show(c.resource) && Touched(show, grants, target, d, log)
  }

  lemma {:induction false} RowListsTouched(show: Show, grants: seq<GrantInfo>, target: Target, row: Channel, log: seq<Entry>)
    requires row.accessed == [] && row.seen == {}
    ensures ListsTouched(show, grants, target, RowAfter(show, grants, target, row, log), log)
  {
    hide Hit;
    if log != [] {
      var n := |log| - 1;
      var before, e := log[..n], log[n];
      RowListsTouched(show, grants, target, row, before);
      assert log == before + [e];
      OneMoreTouched(show, grants, target, RowAfter(show, grants, target, row, before), before, e);
    }
  }

  lemma OneMoreTouched(show: Show, grants: seq<GrantInfo>, target: Target, c: Channel, log: seq<Entry>, e: Entry)
    requires ListsTouched(show, grants, target, c, log)
    ensures ListsTouched(show, grants, target, if Own(show, grants, target, e) then Hit(show, c, e) else c, log + [e])
  {
    hide TargetOf, Own, Hit, ListsSeen, Touched;
    HitLists(show, c, e);
    forall d
      ensures Touched(show, grants, target, d, log + [e]) <==> Touched(show, grants, target, d, log) || OwnUse(show, grants, target, d, e)
    {
      TouchedStep(show, grants, target, d, log, e);
    }
  }

  lemma TouchedStep(show: Show, grants: seq<GrantInfo>, target: Target, d: string, log: seq<Entry>, e: Entry)
    ensures Touched(show, grants, target, d, log + [e]) <==> Touched(show, grants, target, d, log) || OwnUse(show, grants, target, d, e)
  {
    hide OwnUse;
    assert forall x :: x in log + [e] <==> x in log || x == e;
  }

  /** A use is seen unless it is of the granted resource itself; nothing else is. */
  lemma HitLists(show: Show, c: Channel, e: Entry)
    requires ListsSeen(show, c)
    ensures
      var h := Hit(show, c, e);
      && ListsSeen(show, h) && h.resource == c.resource
      && forall d :: d in h.seen <==> d in c.seen || (e.event.Use? && d == show(e.event.resource) && d != show(c.resource))
  {
    var h := Hit(show, c, e);
    if h.accessed != c.accessed {
      assert h.accessed == c.accessed + [e.event.resource];
      assert h.accessed[|c.accessed|] == e.event.resource;
      assert forall i :: 0 <= i < |c.accessed| ==> h.accessed[i] == c.accessed[i];
    }
  }

  // ---- the rows of the model

  /** The row of a grant: the table's fields, and what of the log counts towards it. */
  lemma GrantRowSays(show: Show, grants: seq<GrantInfo>, log: seq<Entry>, i: nat)
    requires i < |grants|
    ensures |RowsOf(show, grants, log)| >= |grants|
    ensures
      var g, c := grants[i], RowsOf(show, grants, log)[i];
      && c.principal == g.principal && c.resource == g.resource && c.rights == g.rights && c.grant == Some(g.id) && c.uses == g.uses
      && (c.status == Live <==> g.status == Active) && (c.status == Severed <==> g.status == Revoked)
      && (c.status == Lapsed <==> g.status == Expired)
      && c.denials == Count(log, (e: Entry) => OwnDenial(show, grants, OnGrant(i), e))
      && Spans(show, grants, OnGrant(i), Some(g.granted), c, log)
      && ListsTouched(show, grants, OnGrant(i), c, log)
  {
    hide RowAfter, Spans, ListsTouched, OwnDenial;
    RowKeepsIdentity(show, grants, OnGrant(i), GrantRow(grants[i]), log);
    RowDenials(show, grants, OnGrant(i), GrantRow(grants[i]), log);
    RowSpans(show, grants, OnGrant(i), GrantRow(grants[i]), log);
    RowListsTouched(show, grants, OnGrant(i), GrantRow(grants[i]), log);
  }

  /** The row of what was refused: no grant, no use, and what of the log counts towards its key. */
  lemma DeniedRowSays(show: Show, grants: seq<GrantInfo>, log: seq<Entry>, j: nat)
    requires j < |DeniedOf(show, grants, log)|
    ensures |RowsOf(show, grants, log)| == |grants| + |DeniedOf(show, grants, log)|
    ensures
      var d, c := DeniedOf(show, grants, log)[j], RowsOf(show, grants, log)[|grants| + j];
      && c.principal == d.principal && c.resource == d.resource && c.grant == None && c.uses == 0 && c.status == Blocked
      && c.denials == Count(log, (e: Entry) => OwnDenial(show, grants, OnDenied(d.key), e))
      && Spans(show, grants, OnDenied(d.key), None, c, log)
      && (c.rights.read <==> exists e <- log :: OwnDenial(show, grants, OnDenied(d.key), e) && e.event.rights.read)
      && (c.rights.write <==> exists e <- log :: OwnDenial(show, grants, OnDenied(d.key), e) && e.event.rights.write)
      && (c.rights.exec <==> exists e <- log :: OwnDenial(show, grants, OnDenied(d.key), e) && e.event.rights.exec)
  {
    hide RowAfter, Spans, OwnDenial, DeniedOf;
    var d := DeniedOf(show, grants, log)[j];
    var row := DeniedRow(d.principal, d.resource, NO_RIGHTS);
    RowKeepsIdentity(show, grants, OnDenied(d.key), row, log);
    RowDenials(show, grants, OnDenied(d.key), row, log);
    RowSpans(show, grants, OnDenied(d.key), row, log);
    RowRights(show, grants, OnDenied(d.key), row, log);
  }

  /** Its principal and resource are the first denial's that has its key. */
  lemma {:induction false} DeniedByFirst(show: Show, grants: seq<GrantInfo>, log: seq<Entry>, j: nat, k: nat)
    requires j < |DeniedOf(show, grants, log)| && k < |log|
    requires Own(show, grants, OnDenied(DeniedOf(show, grants, log)[j].key), log[k])
    requires forall i :: 0 <= i < k ==> !Own(show, grants, OnDenied(DeniedOf(show, grants, log)[j].key), log[i])
    ensures
      var d, e := DeniedOf(show, grants, log)[j], log[k].event;
      e.Deny? && d.principal == e.principal && d.resource == e.resource && d.key == e.principal + "\0" + show(e.resource)
  {
    hide GrantIndex, Covering;
    var n := |log| - 1;
    var before, d := DeniedOf(show, grants, log[..n]), DeniedOf(show, grants, log)[j];
    DeniedKeysAre(show, grants, log[..n], d.key);
    if k < n {
      assert log[..n][k] == log[k];
      assert HasKey(before, d.key);
    }
    if j < |before| {
      assert before[j].key == d.key;
      var i :| 0 <= i < n && TargetOf(show, grants, log[..n][i].event) == OnDenied(d.key);
      assert Own(show, grants, OnDenied(d.key), log[i]);
      DeniedByFirst(show, grants, log[..n], j, k);
    }
  }

  /** A row is kept if its grant is live, or if its last activity is in the window. */
  lemma {:induction false} KeptAre(w: Window, cs: seq<Channel>, c: Channel)
    ensures multiset(Kept(w, cs))[c] ==
      if c.status == Live || (c.last.Some? && w.start <= c.last.value <= w.end) then multiset(cs)[c] else 0
  {
    if cs != [] {
      var n := |cs| - 1;
      KeptAre(w, cs[..n], c);
      assert cs == cs[..n] + [cs[n]];
      CountsOneMore(cs[..n], cs[n], c);
      CountsOneMore(Kept(w, cs[..n]), cs[n], c);
      assert Kept(w, cs) == if Keeps(w, cs[n]) then Kept(w, cs[..n]) + [cs[n]] else Kept(w, cs[..n]);
    }
  }

  /** The last activity of a view bounds that of its rows, and is one of theirs if any has one. */
  lemma {:induction false} LatestIs(cs: seq<Channel>)
    ensures forall c <- cs :: c.last.Some? ==> Latest(cs).Some? && c.last.value <= Latest(cs).value
    ensures Latest(cs).Some? ==> exists c <- cs :: c.last == Latest(cs)
  {
    if cs != [] {
      var n := |cs| - 1;
      LatestIs(cs[..n]);
      assert cs == cs[..n] + [cs[n]];
      assert forall c :: c in cs <==> c in cs[..n] || c == cs[n];
      assert cs[n] in cs;
    }
  }

  /** The totals count live rows, live rows to the network, blocked rows and severed rows. */
  lemma TotalsSay(views: seq<View>, cs: seq<Channel>)
    requires Groups(views, cs)
    ensures
      var t := TotalsOf(views);
      && t.principals == |views|
      && t.live == Count(cs, (c: Channel) => c.status == Live)
      && t.network == Count(cs, (c: Channel) => c.status == Live && c.resource.Net?)
      && t.blocked == Count(cs, (c: Channel) => c.status == Blocked)
      && t.severed == Count(cs, (c: Channel) => c.status == Severed)
  {
    TotalsAgree(views, cs);
    hide TotalsOf, Groups, Count;
    CountAlike(cs, IsLive, (c: Channel) => c.status == Live);
    CountAlike(cs, IsLiveNet, (c: Channel) => c.status == Live && c.resource.Net?);
    CountAlike(cs, IsBlocked, (c: Channel) => c.status == Blocked);
    CountAlike(cs, IsSevered, (c: Channel) => c.status == Severed);
  }

  // ---- the timeline

  /** A time lands in the bucket whose share of the window it falls in, the window's end in the last. */
  lemma LandsExactly(w: Window, buckets: nat, t: nat, i: nat)
    ensures BucketIndex(w, buckets, t) == Some(i) <==>
      && i < buckets && w.start <= t <= w.end
      && (if w.start == w.end then i == 0 else
          && i * (w.end - w.start) <= (t - w.start) * buckets
          && (i == buckets - 1 || (t - w.start) * buckets < (i + 1) * (w.end - w.start)))
  {
    if buckets > 0 && w.start <= t <= w.end && w.start < w.end {
      var span, x := w.end - w.start, (t - w.start) * buckets;
      SlotIsNat(t - w.start, buckets, span);
      DivAtLeast(x, span, i);
      DivAtLeast(x, span, i + 1);
      if i == buckets - 1 {
      }
    }
  }

  /** A bucket counts the grants, uses, denials and revocations that land in it, each kind for itself. */
  lemma {:induction false} BucketCounts(w: Window, buckets: nat, log: seq<Entry>, i: nat)
    requires i < buckets
    ensures
      var b := TimelineOf(w, buckets, Happenings(log))[i];
      && b.grants == Count(log, (e: Entry) => e.event.Grant? && BucketIndex(w, buckets, e.time) == Some(i))
      && b.uses == Count(log, (e: Entry) => e.event.Use? && BucketIndex(w, buckets, e.time) == Some(i))
      && b.denials == Count(log, (e: Entry) => e.event.Deny? && BucketIndex(w, buckets, e.time) == Some(i))
      && b.revokes == Count(log, (e: Entry) => e.event.Revoke? && BucketIndex(w, buckets, e.time) == Some(i))
  {
    hide BucketIndex, Buckets;
    if log == [] {
      EmptyBucketCounts(w, buckets, i);
    } else {
      var n := |log| - 1;
      BucketCounts(w, buckets, log[..n], i);
      assert Happenings(log)[..n] == Happenings(log[..n]);
    }
  }

  lemma EmptyBucketCounts(w: Window, buckets: nat, i: nat)
    requires i < buckets
    ensures
      var b := Buckets(w, buckets)[i];
      b.grants == b.uses == b.denials == b.revokes == 0
  {
  }

  /** Bucket i starts i shares of the window from its start, in whole units, and ends where i + 1 shares do. */
  lemma SharesAreEven(w: Window, buckets: nat, i: nat)
    requires i < buckets && w.start <= w.end
    ensures
      var b, span := Buckets(w, buckets)[i], w.end - w.start;
      && w.start <= b.start && (b.start - w.start) * buckets <= span * i < (b.start - w.start) * buckets + buckets
      && w.start <= b.end && (b.end - w.start) * buckets <= span * (i + 1) < (b.end - w.start) * buckets + buckets
  {
    hide Scale;
    ShareBounds(w.end - w.start, i, buckets);
    ShareBounds(w.end - w.start, i + 1, buckets);
  }

  lemma ShareBounds(span: nat, num: nat, den: nat)
    requires den > 0
    ensures Scale(span, num, den) * den <= span * num < Scale(span, num, den) * den + den
  {
    DivBounds(span * num, den);
  }
}
