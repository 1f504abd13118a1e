/**
 What of the Glass model (crates/glass/src/model.rs) depends on the order of the log, and what does not:
 the timeline and the totals do not, and which rows there are does only where two refused pairs of
 principal and resource share a key.
 */
module GlassOrder {
  import opened Outcomes
  import opened Capability
  import opened Display
  import opened Folds
  import opened Timeline
  import opened Glass

  // ---- the timeline

  function Lander(w: Window): (seq<Bucket>, Happening) -> seq<Bucket> {
    (bs: seq<Bucket>, e: Happening) => Landed(w, bs, e)
  }

  lemma {:induction false} TimelineIsFold(w: Window, buckets: nat, events: seq<Happening>)
    ensures TimelineOf(w, buckets, events) == Fold(Lander(w), Buckets(w, buckets), events)
  {
    hide Landed, Buckets;
    if events != [] {
      TimelineIsFold(w, buckets, events[..|events| - 1]);
    }
  }

  lemma LandTwice(w: Window, bs: seq<Bucket>, x: Happening, y: Happening)
    ensures Landed(w, Landed(w, bs, x), y) == Landed(w, Landed(w, bs, y), x)
  {
    hide BucketIndex;
    assert |Landed(w, bs, x)| == |Landed(w, bs, y)| == |bs|;
    var i, j := BucketIndex(w, |bs|, x.time), BucketIndex(w, |bs|, y.time);
    if i.Some? && i == j && i.value < |bs| {
      TallyTwice(bs[i.value], x.kind, y.kind);
    }
  }

  lemma TallyTwice(b: Bucket, k: EventKind, l: EventKind)
    ensures Tally(Tally(b, k), l) == Tally(Tally(b, l), k)
  {
  }

  /** The timeline does not depend on the order of the log. */
  lemma TimelineAnyOrder(w: Window, buckets: nat, a: seq<Entry>, b: seq<Entry>)
    requires multiset(a) == multiset(b)
    ensures TimelineOf(w, buckets, Happenings(a)) == TimelineOf(w, buckets, Happenings(b))
  {
    hide Landed, Buckets, TimelineOf;
    var happening := (e: Entry) => Happening(e.time, KindOf(e.event));
    assert Happenings(a) == Map(happening, a) && Happenings(b) == Map(happening, b);
    MapAnyOrder(happening, a, b);
    assert Commutes(Lander(w)) by {
      forall bs, x, y
        ensures Lander(w)(Lander(w)(bs, x), y) == Lander(w)(Lander(w)(bs, y), x)
      {
        LandTwice(w, bs, x, y);
      }
    }
    FoldAnyOrder(Lander(w), Buckets(w, buckets), Happenings(a), Happenings(b));
    TimelineIsFold(w, buckets, Happenings(a));
    TimelineIsFold(w, buckets, Happenings(b));
  }

  // ---- which rows there are

  /** The entry is a denial that no grant covers. */
  predicate IsRefused(show: Show, grants: seq<GrantInfo>, e: Entry) {
    e.event.Deny? && TargetOf(show, grants, e.event).OnDenied?
  }

  /** The row's principal and displayed resource are these. */
  predicate Names(show: Show, d: Refused, principal: string, shown: string) {
    d.principal == principal && show(d.resource) == shown
  }

  ghost predicate HasRow(show: Show, ds: seq<Refused>, principal: string, shown: string) {
    exists j :: 0 <= j < |ds| && Names(show, ds[j], principal, shown)
  }

  /** The two logs have rows for the same refused principals and displayed resources. */
  ghost predicate SameRows(show: Show, grants: seq<GrantInfo>, a: seq<Entry>, b: seq<Entry>) {
    forall principal, shown ::
      HasRow(show, DeniedOf(show, grants, a), principal, shown) <==> HasRow(show, DeniedOf(show, grants, b), principal, shown)
  }

  /** The two entries share a key only if they are of one principal and one displayed resource. */
  predicate KeyApart(show: Show, x: Event, y: Event)
    requires x.Deny? && y.Deny?
  {
    DenyKey(x.principal, show(x.resource)) == DenyKey(y.principal, show(y.resource)) ==>
      x.principal == y.principal && show(x.resource) == show(y.resource)
  }

  /** No two refused pairs in the log share a key. */
  predicate KeysApart(show: Show, grants: seq<GrantInfo>, log: seq<Entry>) {
    forall x <- log, y <- log :: IsRefused(show, grants, x) && IsRefused(show, grants, y) ==> KeyApart(show, x.event, y.event)
  }

  /** Without a NUL in either principal two keys cannot meet, whatever the resources. */
  lemma NoNulKeepsApart(show: Show, x: Event, y: Event)
    requires x.Deny? && y.Deny? && '\0' !in x.principal && '\0' !in y.principal
    ensures KeyApart(show, x, y)
  {
    var p, q, s, t := x.principal, y.principal, show(x.resource), show(y.resource);
    var k := p + "\0" + s;
    if k == q + "\0" + t {
      NulBound(p, s, q, t);
      NulBound(q, t, p, s);
      assert p == k[..|p|] && q == k[..|q|] && s == k[|p| + 1..] && t == k[|q| + 1..];
    }
  }

  lemma NulBound(p: string, s: string, q: string, t: string)
    requires p + "\0" + s == q + "\0" + t && '\0' !in q
    ensures |q| <= |p|
  {
    var k := p + "\0" + s;
    assert k[|p|] == '\0';
    assert forall i :: 0 <= i < |q| ==> k[i] == q[i] && k[i] in q;
  }

  lemma {:induction false} RowsAreFirst(show: Show, grants: seq<GrantInfo>, log: seq<Entry>, j: nat)
    requires j < |DeniedOf(show, grants, log)|
    ensures
      var d := DeniedOf(show, grants, log)[j];
      && d.key == DenyKey(d.principal, show(d.resource))
      && exists e :: e in log && IsRefused(show, grants, e) && e.event.principal == d.principal && e.event.resource == d.resource
  {
    hide Covering, GrantIndex, DenyKey;
    var n := |log| - 1;
    var before := DeniedOf(show, grants, log[..n]);
    if j < |before| {
      RowsAreFirst(show, grants, log[..n], j);
    } else {
      assert log[n] in log;
    }
  }

  /** An entry that is refused has the row of its key; where keys are apart, a row under its own names. */
  lemma RefusedHasRow(show: Show, grants: seq<GrantInfo>, log: seq<Entry>, e: Entry)
    requires e in log && IsRefused(show, grants, e)
    ensures HasKey(DeniedOf(show, grants, log), DenyKey(e.event.principal, show(e.event.resource)))
    ensures KeysApart(show, grants, log) ==> HasRow(show, DeniedOf(show, grants, log), e.event.principal, show(e.event.resource))
  {
    hide DeniedOf, DenyKey, Covering;
    var key := DenyKey(e.event.principal, show(e.event.resource));
    var k :| 0 <= k < |log| && log[k] == e;
    assert TargetOf(show, grants, log[k].event) == OnDenied(key);
    DeniedKeysAre(show, grants, log, key);
    var ds := DeniedOf(show, grants, log);
    var j :| 0 <= j < |ds| && ds[j].key == key;
    RowsAreFirst(show, grants, log, j);
    if KeysApart(show, grants, log) {
      var x :| x in log && IsRefused(show, grants, x) && x.event.principal == ds[j].principal && x.event.resource == ds[j].resource;
      assert KeyApart(show, x.event, e.event);
      assert Names(show, ds[j], e.event.principal, show(e.event.resource));
    }
  }

  lemma {:induction false} FirstRow(show: Show, grants: seq<GrantInfo>, e: Entry, rest: seq<Entry>)
    requires IsRefused(show, grants, e)
    ensures
      var ds := DeniedOf(show, grants, [e] + rest);
      ds != [] && ds[0] == Refused(DenyKey(e.event.principal, show(e.event.resource)), e.event.principal, e.event.resource)
  {
    hide Covering, GrantIndex, DenyKey;
    if rest == [] {
      assert ([e] + rest)[..0] == [] && [e] + rest == [e];
    } else {
      var n := |rest| - 1;
      FirstRow(show, grants, e, rest[..n]);
      assert ([e] + rest)[..n + 1] == [e] + rest[..n];
    }
  }

  /** Where keys are apart, logs of the same entries have the same rows. */
  lemma ApartSameRows(show: Show, grants: seq<GrantInfo>, a: seq<Entry>, b: seq<Entry>)
    requires multiset(a) == multiset(b) && KeysApart(show, grants, a)
    ensures SameRows(show, grants, a, b)
  {
    hide DeniedOf, KeysApart, IsRefused;
    SameElements(a, b);
    ApartAnyOrder(show, grants, a, b);
    forall principal, shown
      ensures HasRow(show, DeniedOf(show, grants, a), principal, shown) <==> HasRow(show, DeniedOf(show, grants, b), principal, shown)
    {
      if HasRow(show, DeniedOf(show, grants, a), principal, shown) {
        RowCarries(show, grants, a, b, principal, shown);
      }
      if HasRow(show, DeniedOf(show, grants, b), principal, shown) {
        RowCarries(show, grants, b, a, principal, shown);
      }
    }
  }

  lemma ApartAnyOrder(show: Show, grants: seq<GrantInfo>, a: seq<Entry>, b: seq<Entry>)
    requires multiset(a) == multiset(b)
    ensures KeysApart(show, grants, a) <==> KeysApart(show, grants, b)
  {
    hide IsRefused;
    SameElements(a, b);
  }

  lemma RowCarries(show: Show, grants: seq<GrantInfo>, a: seq<Entry>, b: seq<Entry>, principal: string, shown: string)
    requires (forall e :: e in a <==> e in b) && KeysApart(show, grants, b)
    requires HasRow(show, DeniedOf(show, grants, a), principal, shown)
    ensures HasRow(show, DeniedOf(show, grants, b), principal, shown)
  {
    hide DeniedOf, KeysApart, TargetOf, DenyKey;
    var ds := DeniedOf(show, grants, a);
    var j :| 0 <= j < |ds| && Names(show, ds[j], principal, shown);
    RowsAreFirst(show, grants, a, j);
    var e :| e in a && IsRefused(show, grants, e) && e.event.principal == ds[j].principal && e.event.resource == ds[j].resource;
    RefusedHasRow(show, grants, b, e);
  }

  /** Of two entries that share a key, whichever comes first names the row of both. */
  lemma FirstNamesRow(show: Show, grants: seq<GrantInfo>, x: Entry, y: Entry, xs: seq<Entry>, ys: seq<Entry>)
    requires IsRefused(show, grants, x) && IsRefused(show, grants, y) && !KeyApart(show, x.event, y.event)
    ensures !SameRows(show, grants, [x] + xs, [y] + ys)
  {
    hide DeniedOf, DenyKey;
    var ds, es := DeniedOf(show, grants, [x] + xs), DeniedOf(show, grants, [y] + ys);
    FirstRow(show, grants, x, xs);
    FirstRow(show, grants, y, ys);
    assert Names(show, ds[0], x.event.principal, show(x.event.resource));
    forall j | 0 <= j < |es|
      ensures !Names(show, es[j], x.event.principal, show(x.event.resource))
    {
      RowsAreFirst(show, grants, [y] + ys, j);
      DeniedDistinct(show, grants, [y] + ys);
      assert j > 0 ==> es[j].key != es[0].key;
    }
    assert !HasRow(show, es, x.event.principal, show(x.event.resource));
  }

  /**
   Which rows there are is the same for every order of the log exactly when no two refused pairs of
   principal and displayed resource share a key.
   */
  lemma RowsAnyOrderIffApart(show: Show, grants: seq<GrantInfo>, log: seq<Entry>)
    ensures (forall other :: multiset(other) == multiset(log) ==> SameRows(show, grants, log, other)) <==> KeysApart(show, grants, log)
  {
    hide DeniedOf, TargetOf, DenyKey, SameRows;
    if KeysApart(show, grants, log) {
      forall other | multiset(other) == multiset(log)
        ensures SameRows(show, grants, log, other)
      {
        ApartSameRows(show, grants, log, other);
      }
    } else {
      var x, y :| x in log && y in log && IsRefused(show, grants, x) && IsRefused(show, grants, y) && !KeyApart(show, x.event, y.event);
      var i :| 0 <= i < |log| && log[i] == x;
      var j :| 0 <= j < |log| && log[j] == y;
      MovedToFront(log, i);
      MovedToFront(log, j);
      FirstNamesRow(show, grants, x, y, Without(log, i), Without(log, j));
      RowsTransitive(show, grants, [x] + Without(log, i), log, [y] + Without(log, j));
    }
  }

  lemma RowsTransitive(show: Show, grants: seq<GrantInfo>, a: seq<Entry>, b: seq<Entry>, c: seq<Entry>)
    ensures SameRows(show, grants, b, a) && SameRows(show, grants, b, c) ==> SameRows(show, grants, a, c)
  {
    hide DeniedOf, HasRow;
  }

  /** In a log whose refused principals hold no NUL, keys are apart. */
  lemma NoNulIsApart(show: Show, grants: seq<GrantInfo>, log: seq<Entry>)
    requires forall e <- log :: IsRefused(show, grants, e) ==> '\0' !in e.event.principal
    ensures KeysApart(show, grants, log)
  {
    hide IsRefused, KeyApart;
    forall x, y | x in log && y in log && IsRefused(show, grants, x) && IsRefused(show, grants, y)
      ensures x.event.Deny? && y.event.Deny? && KeyApart(show, x.event, y.event)
    {
      RefusedIsDenial(show, grants, x);
      RefusedIsDenial(show, grants, y);
      NoNulKeepsApart(show, x.event, y.event);
    }
  }

  lemma RefusedIsDenial(show: Show, grants: seq<GrantInfo>, e: Entry)
    requires IsRefused(show, grants, e)
    ensures e.event.Deny?
  {
  }

  /** Two denials of different principals and devices that share one key, and so one row. */
  lemma KeysCanMeet(t: nat, u: nat, rights: Rights, reason: string)
    ensures
      var x := Entry(t, Deny("a", Device("q\0dev:z"), rights, reason));
      var y := Entry(u, Deny("a\0dev:q", Device("z"), rights, reason));
      && !KeyApart(ShowResource, x.event, y.event)
      && !SameRows(ShowResource, [], [x, y], [y, x])
  {
    var x := Entry(t, Deny("a", Device("q\0dev:z"), rights, reason));
    var y := Entry(u, Deny("a\0dev:q", Device("z"), rights, reason));
    assert "a" + "\0" + ("dev:" + "q\0dev:z") == "a\0dev:q" + "\0" + ("dev:" + "z");
    assert |"a"| != |"a\0dev:q"|;
    FirstNamesRow(ShowResource, [], x, y, [y], [x]);
    assert [x] + [y] == [x, y] && [y] + [x] == [y, x];
  }

  // ---- the totals

  /** What the order of the log leaves of a row. */
  datatype Outline = Outline(key: string, grant: Option<nat>, status: Standing, network: bool, uses: nat, stats: Stats)

  function OutlineOf(show: Show, c: Channel): Outline {
    Outline(DenyKey(c.principal, show(c.resource)), c.grant, c.status, IsLiveNet(c), c.uses, StatsOf(c))
  }

  function Outliner(show: Show): Channel -> Outline {
    (c: Channel) => OutlineOf(show, c)
  }

  /** The outline of the row of a key no grant covers. */
  function KeyOutline(show: Show, grants: seq<GrantInfo>, log: seq<Entry>): string -> Outline {
    (key: string) => Outline(key, None, Blocked, false, 0, DeniedStats(show, grants, key, log))
  }

  function KeysOf(ds: seq<Refused>): (keys: seq<string>)
    ensures |keys| == |ds| && forall j :: 0 <= j < |ds| ==> keys[j] == ds[j].key
  {
    seq(|ds|, j requires 0 <= j < |ds| => ds[j].key)
  }

  lemma DeniedOutlines(show: Show, grants: seq<GrantInfo>, log: seq<Entry>)
    ensures
      var ds := DeniedOf(show, grants, log);
      Map(Outliner(show), DeniedRows(show, grants, ds, log)) == Map(KeyOutline(show, grants, log), KeysOf(ds))
  {
    hide DeniedOf, DenyKey, DeniedRowAfter, DeniedStats;
    var ds := DeniedOf(show, grants, log);
    forall j | 0 <= j < |ds|
      ensures OutlineOf(show, DeniedRows(show, grants, ds, log)[j]) == KeyOutline(show, grants, log)(ds[j].key)
    {
      RowsAreFirst(show, grants, log, j);
      DeniedRowStats(show, grants, ds[j], log);
      DeniedRowIdentity(show, grants, ds[j], log);
    }
  }

  lemma DeniedRowIdentity(show: Show, grants: seq<GrantInfo>, d: Refused, log: seq<Entry>)
    ensures
      var c := DeniedRowAfter(show, grants, d, log);
      c.principal == d.principal && c.resource == d.resource && c.grant == None && c.status == Blocked && c.uses == 0
  {
    hide RowAfter;
    RowKeepsIdentity(show, grants, OnDenied(d.key), DeniedRow(d.principal, d.resource, NO_RIGHTS), log);
  }

  lemma GrantOutlines(show: Show, grants: seq<GrantInfo>, a: seq<Entry>, b: seq<Entry>)
    requires multiset(a) == multiset(b)
    ensures Map(Outliner(show), GrantRows(show, grants, a)) == Map(Outliner(show), GrantRows(show, grants, b))
  {
    hide RowAfter, DenyKey, StatsOf, DeniedStats;
    RowsCountAlike(show, grants, a, b);
    forall i | 0 <= i < |grants|
      ensures OutlineOf(show, GrantRows(show, grants, a)[i]) == OutlineOf(show, GrantRows(show, grants, b)[i])
    {
      RowKeepsIdentity(show, grants, OnGrant(i), GrantRow(grants[i]), a);
      RowKeepsIdentity(show, grants, OnGrant(i), GrantRow(grants[i]), b);
    }
  }

  /** The rows of a reordered log have the same outlines, in some order. */
  lemma OutlinesAnyOrder(show: Show, grants: seq<GrantInfo>, a: seq<Entry>, b: seq<Entry>)
    requires multiset(a) == multiset(b)
    ensures multiset(Map(Outliner(show), RowsOf(show, grants, a))) == multiset(Map(Outliner(show), RowsOf(show, grants, b)))
  {
    hide DeniedOf, GrantRows, DeniedRows, Outliner, KeyOutline, DeniedStats;
    var ds, es := DeniedOf(show, grants, a), DeniedOf(show, grants, b);
    GrantOutlines(show, grants, a, b);
    DeniedOutlines(show, grants, a);
    DeniedOutlines(show, grants, b);
    SameKeys(show, grants, a, b);
    MapAnyOrder(KeyOutline(show, grants, a), KeysOf(ds), KeysOf(es));
    SameKeyOutlines(show, grants, a, b, KeysOf(es));
    MapRows(show, grants, a);
    MapRows(show, grants, b);
  }

  lemma MapRows(show: Show, grants: seq<GrantInfo>, log: seq<Entry>)
    ensures Map(Outliner(show), RowsOf(show, grants, log))
         == Map(Outliner(show), GrantRows(show, grants, log))
          + Map(Outliner(show), DeniedRows(show, grants, DeniedOf(show, grants, log), log))
  {
    hide GrantRows, DeniedRows, Outliner;
  }

  lemma SameKeyOutlines(show: Show, grants: seq<GrantInfo>, a: seq<Entry>, b: seq<Entry>, keys: seq<string>)
    requires multiset(a) == multiset(b)
    ensures Map(KeyOutline(show, grants, a), keys) == Map(KeyOutline(show, grants, b), keys)
  {
    hide DeniedStats, GrantRows;
    RowsCountAlike(show, grants, a, b);
  }

  lemma SameKeys(show: Show, grants: seq<GrantInfo>, a: seq<Entry>, b: seq<Entry>)
    requires multiset(a) == multiset(b)
    ensures multiset(KeysOf(DeniedOf(show, grants, a))) == multiset(KeysOf(DeniedOf(show, grants, b)))
  {
    hide DeniedOf, GrantRows, DeniedStats;
    var ds, es := DeniedOf(show, grants, a), DeniedOf(show, grants, b);
    RowsCountAlike(show, grants, a, b);
    DeniedDistinct(show, grants, a);
    DeniedDistinct(show, grants, b);
    forall key
      ensures key in KeysOf(ds) <==> key in KeysOf(es)
    {
      KeyListed(ds, key);
      KeyListed(es, key);
    }
    OnceEach(KeysOf(ds), KeysOf(es));
  }

  lemma KeyListed(ds: seq<Refused>, key: string)
    ensures key in KeysOf(ds) <==> HasKey(ds, key)
  {
    if HasKey(ds, key) {
      var j :| 0 <= j < |ds| && ds[j].key == key;
      assert KeysOf(ds)[j] == key;
    }
  }

  /** Kept rows with a property are counted by their outlines. */
  lemma {:induction false} CountKept(show: Show, w: Window, cs: seq<Channel>, p: Channel -> bool, q: Outline -> bool)
    requires forall c :: (Keeps(w, c) && p(c)) <==> q(OutlineOf(show, c))
    ensures Count(Kept(w, cs), p) == Count(Map(Outliner(show), cs), q)
  {
    hide Keeps, OutlineOf;
    if cs != [] {
      var n := |cs| - 1;
      CountKept(show, w, cs[..n], p, q);
      assert Map(Outliner(show), cs)[..n] == Map(Outliner(show), cs[..n]);
      if Keeps(w, cs[n]) {
        assert (Kept(w, cs[..n]) + [cs[n]])[..|Kept(w, cs[..n])|] == Kept(w, cs[..n]);
      } else {
        assert Kept(w, cs) == Kept(w, cs[..n]);
      }
    }
  }

  predicate KeepsOutline(w: Window, o: Outline) {
    o.status == Live || (o.stats.last.Some? && InWindow(w, o.stats.last.value))
  }

  lemma KeptAnyOrder(show: Show, grants: seq<GrantInfo>, w: Window, a: seq<Entry>, b: seq<Entry>)
    requires multiset(a) == multiset(b)
    ensures
      var cs, ds := Kept(w, RowsOf(show, grants, a)), Kept(w, RowsOf(show, grants, b));
      && Count(cs, IsLive) == Count(ds, IsLive) && Count(cs, IsLiveNet) == Count(ds, IsLiveNet)
      && Count(cs, IsBlocked) == Count(ds, IsBlocked) && Count(cs, IsSevered) == Count(ds, IsSevered)
  {
    hide RowsOf, Kept, Count, Outliner;
    OutlinesAnyOrder(show, grants, a, b);
    var x, y := Map(Outliner(show), RowsOf(show, grants, a)), Map(Outliner(show), RowsOf(show, grants, b));
    var live := (o: Outline) => KeepsOutline(w, o) && o.status == Live;
    var net := (o: Outline) => KeepsOutline(w, o) && o.network;
    var blocked := (o: Outline) => KeepsOutline(w, o) && o.status == Blocked;
    var severed := (o: Outline) => KeepsOutline(w, o) && o.status == Severed;
    CountBoth(show, grants, w, a, b, IsLive, live);
    CountBoth(show, grants, w, a, b, IsLiveNet, net);
    CountBoth(show, grants, w, a, b, IsBlocked, blocked);
    CountBoth(show, grants, w, a, b, IsSevered, severed);
  }

  lemma CountBoth(show: Show, grants: seq<GrantInfo>, w: Window, a: seq<Entry>, b: seq<Entry>, p: Channel -> bool, q: Outline -> bool)
    requires multiset(Map(Outliner(show), RowsOf(show, grants, a))) == multiset(Map(Outliner(show), RowsOf(show, grants, b)))
    requires forall c :: (Keeps(w, c) && p(c)) <==> q(OutlineOf(show, c))
    ensures Count(Kept(w, RowsOf(show, grants, a)), p) == Count(Kept(w, RowsOf(show, grants, b)), p)
  {
    hide RowsOf, Kept, Count, Outliner, OutlineOf, Keeps;
    CountKept(show, w, RowsOf(show, grants, a), p, q);
    CountKept(show, w, RowsOf(show, grants, b), p, q);
    CountAnyOrder(Map(Outliner(show), RowsOf(show, grants, a)), Map(Outliner(show), RowsOf(show, grants, b)), q);
  }

  // ---- how many principals there are

  function PrincipalsOf(cs: seq<Channel>): set<string> {
    set c <- cs :: c.principal
  }

  /** There is one view for each principal of a row. */
  lemma {:induction false} ViewsCountPrincipals(views: seq<View>, cs: seq<Channel>)
    requires Groups(views, cs)
    ensures |views| == |PrincipalsOf(cs)|
  {
    hide Of, Count, Latest;
    var names := Map((v: View) => v.principal, views);
    forall name
      ensures name in names <==> name in PrincipalsOf(cs)
    {
      if name in names {
        var i :| 0 <= i < |names| && names[i] == name;
        OfHasRow(cs, views[i].principal);
      }
      if name in PrincipalsOf(cs) {
        var c :| c in cs && c.principal == name;
        var i :| 0 <= i < |views| && views[i].principal == c.principal;
        assert names[i] == name;
      }
    }
    CountNames(names, PrincipalsOf(cs));
  }

  lemma {:induction false} OfHasRow(cs: seq<Channel>, principal: string)
    requires Of(cs, principal) != []
    ensures principal in PrincipalsOf(cs)
  {
    if cs[|cs| - 1].principal != principal {
      OfHasRow(cs[..|cs| - 1], principal);
      var c :| c in cs[..|cs| - 1] && c.principal == principal;
      assert c in cs;
    }
  }

  lemma {:induction false} CountNames(names: seq<string>, all: set<string>)
    requires forall i, j :: 0 <= i < j < |names| ==> names[i] != names[j]
    requires forall name :: name in names <==> name in all
    ensures |names| == |all|
  {
    if names == [] {
      assert all == {};
    } else {
      var n := |names| - 1;
      assert names == names[..n] + [names[n]];
      CountNames(names[..n], all - {names[n]});
    }
  }

  /** Where keys are apart, a kept row has its counterpart of the same principal. */
  lemma PrincipalsAnyOrder(show: Show, grants: seq<GrantInfo>, w: Window, a: seq<Entry>, b: seq<Entry>)
    requires multiset(a) == multiset(b) && KeysApart(show, grants, a)
    ensures PrincipalsOf(Kept(w, RowsOf(show, grants, a))) == PrincipalsOf(Kept(w, RowsOf(show, grants, b)))
  {
    hide RowsOf, Kept, KeysApart;
    ApartAnyOrder(show, grants, a, b);
    forall name | name in PrincipalsOf(Kept(w, RowsOf(show, grants, a)))
      ensures name in PrincipalsOf(Kept(w, RowsOf(show, grants, b)))
    {
      PrincipalCarries(show, grants, w, a, b, name);
    }
    forall name | name in PrincipalsOf(Kept(w, RowsOf(show, grants, b)))
      ensures name in PrincipalsOf(Kept(w, RowsOf(show, grants, a)))
    {
      PrincipalCarries(show, grants, w, b, a, name);
    }
  }

  lemma {:induction false} KeptAre(w: Window, cs: seq<Channel>, c: Channel)
    ensures c in Kept(w, cs) <==> c in cs && Keeps(w, c)
  {
    hide Keeps;
    if cs != [] {
      KeptAre(w, cs[..|cs| - 1], c);
      assert cs == cs[..|cs| - 1] + [cs[|cs| - 1]];
    }
  }

  lemma PrincipalCarries(show: Show, grants: seq<GrantInfo>, w: Window, a: seq<Entry>, b: seq<Entry>, name: string)
    requires multiset(a) == multiset(b) && KeysApart(show, grants, a) && KeysApart(show, grants, b)
    requires name in PrincipalsOf(Kept(w, RowsOf(show, grants, a)))
    ensures name in PrincipalsOf(Kept(w, RowsOf(show, grants, b)))
  {
    hide GrantRows, DeniedOf, DeniedRows, Kept, KeysApart, Keeps;
    var c :| c in Kept(w, RowsOf(show, grants, a)) && c.principal == name;
    KeptAre(w, RowsOf(show, grants, a), c);
    var d := Counterpart(show, grants, w, a, b, c);
    KeptAre(w, RowsOf(show, grants, b), d);
  }

  lemma Counterpart(show: Show, grants: seq<GrantInfo>, w: Window, a: seq<Entry>, b: seq<Entry>, c: Channel) returns (d: Channel)
    requires multiset(a) == multiset(b) && KeysApart(show, grants, a) && c in RowsOf(show, grants, a) && Keeps(w, c)
    ensures d in RowsOf(show, grants, b) && d.principal == c.principal && Keeps(w, d)
  {
    hide RowAfter, DeniedOf, KeysApart, DeniedStats, DeniedRowAfter, SameRows, DenyKey;
    var rows, others := RowsOf(show, grants, a), RowsOf(show, grants, b);
    var k :| 0 <= k < |rows| && rows[k] == c;
    RowsCountAlike(show, grants, a, b);
    if k < |grants| {
      RowKeepsIdentity(show, grants, OnGrant(k), GrantRow(grants[k]), a);
      RowKeepsIdentity(show, grants, OnGrant(k), GrantRow(grants[k]), b);
      assert StatsOf(GrantRows(show, grants, a)[k]) == StatsOf(GrantRows(show, grants, b)[k]);
      d := others[k];
    } else {
      d := DeniedCounterpart(show, grants, w, a, b, k - |grants|);
    }
  }

  lemma DeniedCounterpart(show: Show, grants: seq<GrantInfo>, w: Window, a: seq<Entry>, b: seq<Entry>, j: nat) returns (d: Channel)
    requires multiset(a) == multiset(b) && KeysApart(show, grants, a) && j < |DeniedOf(show, grants, a)|
    requires Keeps(w, DeniedRowAfter(show, grants, DeniedOf(show, grants, a)[j], a))
    ensures d in RowsOf(show, grants, b) && Keeps(w, d)
    ensures d.principal == DeniedRowAfter(show, grants, DeniedOf(show, grants, a)[j], a).principal
  {
    hide DeniedOf, KeysApart, DeniedStats, DeniedRowAfter, GrantRows, SameRows, HasRow;
    var ds, es := DeniedOf(show, grants, a), DeniedOf(show, grants, b);
    var i := SameName(show, grants, a, b, j);
    RowsCountAlike(show, grants, a, b);
    DeniedRowStats(show, grants, ds[j], a);
    DeniedRowStats(show, grants, es[i], b);
    DeniedRowIdentity(show, grants, ds[j], a);
    DeniedRowIdentity(show, grants, es[i], b);
    d := DeniedRowAfter(show, grants, es[i], b);
    var rows := DeniedRows(show, grants, es, b);
    assert rows[i] == d && RowsOf(show, grants, b)[|GrantRows(show, grants, b)| + i] == d;
  }

  lemma SameName(show: Show, grants: seq<GrantInfo>, a: seq<Entry>, b: seq<Entry>, j: nat) returns (i: nat)
    requires multiset(a) == multiset(b) && KeysApart(show, grants, a) && j < |DeniedOf(show, grants, a)|
    ensures i < |DeniedOf(show, grants, b)|
    ensures
      var d, e := DeniedOf(show, grants, a)[j], DeniedOf(show, grants, b)[i];
      e.principal == d.principal && e.key == d.key
  {
    hide DeniedOf, KeysApart, DenyKey;
    var ds, es := DeniedOf(show, grants, a), DeniedOf(show, grants, b);
    ApartSameRows(show, grants, a, b);
    assert Names(show, ds[j], ds[j].principal, show(ds[j].resource));
    assert HasRow(show, es, ds[j].principal, show(ds[j].resource));
    i :| 0 <= i < |es| && Names(show, es[i], ds[j].principal, show(ds[j].resource));
    RowsAreFirst(show, grants, a, j);
    RowsAreFirst(show, grants, b, i);
  }

  /** The totals of the kept rows do not depend on the order of the log; how many principals they count may, where keys meet. */
  lemma TotalsAnyOrder(show: Show, grants: seq<GrantInfo>, w: Window, a: seq<Entry>, b: seq<Entry>, va: seq<View>, vb: seq<View>)
    requires multiset(a) == multiset(b)
    requires Groups(va, Kept(w, RowsOf(show, grants, a))) && Groups(vb, Kept(w, RowsOf(show, grants, b)))
    ensures TotalsOf(va).(principals := 0) == TotalsOf(vb).(principals := 0)
    ensures KeysApart(show, grants, a) ==> TotalsOf(va) == TotalsOf(vb)
  {
    hide RowsOf, Kept, Groups, KeysApart, Count, PrincipalsOf, Flat;
    TotalsAgree(va, Kept(w, RowsOf(show, grants, a)));
    TotalsAgree(vb, Kept(w, RowsOf(show, grants, b)));
    KeptAnyOrder(show, grants, w, a, b);
    if KeysApart(show, grants, a) {
      PrincipalsAnyOrder(show, grants, w, a, b);
      ViewsCountPrincipals(va, Kept(w, RowsOf(show, grants, a)));
      ViewsCountPrincipals(vb, Kept(w, RowsOf(show, grants, b)));
    }
  }
}
