/**
 Runs of a mesh of stores of one identity: any number of stores, any sequence of syncs between
 them, each possibly cut short after any number of writes, mixed with local work. What holds
 of the stores at every moment, and where a two-way sync ends.
 */
module Mesh {
  import opened Outcomes
  import opened Constellation

  // ---- a sync stopped after any number of its writes

  ghost predicate Interrupted(from: State, to: State, s: State) {
    exists ws, k :: SyncWrites(from, to, ws) && 0 <= k <= |ws| && s == ApplyAll(to, ws[..k])
  }

  /** A complete sync is one of them. */
  lemma CompleteIsInterrupted(from: State, to: State, ws: seq<Write>)
    requires SyncWrites(from, to, ws)
    ensures Interrupted(from, to, Synced(from, to))
  {
    SyncedIsApplyAll(from, to, ws);
    assert ws[..|ws|] == ws;
  }

  /** Every object is the destination's own or, failing that, the source's. */
  ghost predicate ObjectsBetween(from: Objects, to: Objects, o: Objects) {
    && to.Keys <= o.Keys
    && forall id :: id in o ==>
         (id in to && o[id] == to[id]) || (id !in to && id in from && o[id] == from[id])
  }

  /** Every ref is the destination's own or, once all objects are there, one of the source's that moves. */
  ghost predicate RefsBetween(from: State, to: State, s: State) {
    && to.refs.Keys <= s.refs.Keys
    && forall n :: n in s.refs ==>
         || (n in to.refs && s.refs[n] == to.refs[n])
         || (&& n in from.refs && s.refs[n] == from.refs[n]
             && s.objects == Merged(from.objects, to.objects)
             && Moves(Merged(from.objects, to.objects), to.refs, n, from.refs[n]))
  }

  lemma {:induction false} RefWriteMoves(objects: Objects, to: map<Name, Id>, items: seq<(Name, Id)>, w: Write)
    requires w in RefWrites(objects, to, items)
    ensures w.SetRef? && (w.name, w.id) in items && Moves(objects, to, w.name, w.id)
  {
    hide Moves;
    if items != [] {
      var n := |items| - 1;
      assert items == items[..n] + [items[n]];
      if w in RefWrites(objects, to, items[..n]) {
        RefWriteMoves(objects, to, items[..n], w);
      } else {
        assert (w.name, w.id) == items[n];
      }
    }
  }

  lemma {:induction false} AfterSomeRefWrites(s: State, ws: seq<Write>)
    requires forall w :: w in ws ==> w.SetRef?
    ensures ApplyAll(s, ws).objects == s.objects && s.refs.Keys <= ApplyAll(s, ws).refs.Keys
    ensures forall n :: n in ApplyAll(s, ws).refs ==>
      (n in s.refs && ApplyAll(s, ws).refs[n] == s.refs[n]) || SetRef(n, ApplyAll(s, ws).refs[n]) in ws
  {
    if ws != [] {
      var n := |ws| - 1;
      assert ws == ws[..n] + [ws[n]] && ws[n] in ws;
      AfterSomeRefWrites(s, ws[..n]);
    }
  }

  lemma InterruptedIsBetween(from: State, to: State, s: State)
    requires Interrupted(from, to, s)
    ensures ObjectsBetween(from.objects, to.objects, s.objects) && RefsBetween(from, to, s)
  {
    hide ApplyAll, RefWrites, Moves;
    var objects := Merged(from.objects, to.objects);
    var ws, k :| SyncWrites(from, to, ws) && 0 <= k <= |ws| && s == ApplyAll(to, ws[..k]);
    var ids: seq<Id>, items: seq<(Name, Id)> :| MissingSorted(from.objects, to.objects, ids) && Lists(items, from.refs)
      && ws == ObjectWrites(from.objects, ids) + RefWrites(objects, to.refs, items);
    if k <= |ids| {
      assert ws[..k] == ObjectWrites(from.objects, ids[..k]);
      SomeObjectsMoved(from, to, ids, k);
    } else {
      var m := k - |ids|;
      assert ws[..k] == ObjectWrites(from.objects, ids) + RefWrites(objects, to.refs, items)[..m];
      ApplyAllConcat(to, ObjectWrites(from.objects, ids), RefWrites(objects, to.refs, items)[..m]);
      ObjectsAreMerged(from, to, ids);
      SomeRefsMoved(from, to, items, m);
    }
  }

  lemma SomeObjectsMoved(from: State, to: State, ids: seq<Id>, k: nat)
    requires k <= |ids| && MissingSorted(from.objects, to.objects, ids)
    ensures
      var s := ApplyAll(to, ObjectWrites(from.objects, ids[..k]));
      ObjectsBetween(from.objects, to.objects, s.objects) && RefsBetween(from, to, s)
  {
    hide ApplyAll, Moves;
    AfterObjectWrites(from.objects, to, ids[..k]);
    assert forall id :: id in ids[..k] ==> id in ids;
  }

  lemma SomeRefsMoved(from: State, to: State, items: seq<(Name, Id)>, m: nat)
    requires Lists(items, from.refs)
    requires m <= |RefWrites(Merged(from.objects, to.objects), to.refs, items)|
    ensures
      var objects := Merged(from.objects, to.objects);
      var s := ApplyAll(State(objects, to.refs), RefWrites(objects, to.refs, items)[..m]);
      ObjectsBetween(from.objects, to.objects, s.objects) && RefsBetween(from, to, s)
  {
    hide ApplyAll, RefWrites, Moves;
    var objects := Merged(from.objects, to.objects);
    var rw := RefWrites(objects, to.refs, items)[..m];
    forall w | w in rw
      ensures w.SetRef? && (w.name, w.id) in items && Moves(objects, to.refs, w.name, w.id)
    {
      RefWriteMoves(objects, to.refs, items, w);
    }
    AfterSomeRefWrites(State(objects, to.refs), rw);
  }

  // ---- what a store keeps

  /** A set of ids that are all present and name only each other. */
  ghost predicate SelfContained(objects: Objects, c: set<Id>) {
    forall id :: id in c ==> id in objects && forall l :: l in objects[id].content.Links() ==> l in c
  }

  /** The object and everything it leads to are present. */
  ghost predicate Complete(objects: Objects, id: Id) {
    exists c: set<Id> :: id in c && SelfContained(objects, c)
  }

  /** An object is complete exactly when it is there and so is, in full, everything its content names. */
  lemma CompleteUnfolds(objects: Objects, id: Id)
    ensures Complete(objects, id) <==>
      && id in objects
      && match objects[id].content
         case Generation(root, parents) => Complete(objects, root) && forall i :: 0 <= i < |parents| ==> Complete(objects, parents[i])
         case Plain(children) => forall i :: 0 <= i < |children| ==> Complete(objects, children[i])
  {
    if Complete(objects, id) {
      var c :| id in c && SelfContained(objects, c);
      var content := objects[id].content;
      assert forall l :: l in content.Links() ==> l in c;
      match content {
        case Generation(root, parents) =>
          assert content.Links()[0] == root && forall i :: 0 <= i < |parents| ==> content.Links()[i + 1] == parents[i];
        case Plain(children) =>
      }
    } else if id in objects {
      var links := objects[id].content.Links();
      if forall l :: l in links ==> Complete(objects, l) {
        TogetherComplete(objects, id);
      }
    }
  }

  lemma TogetherComplete(objects: Objects, id: Id)
    requires id in objects && forall l :: l in objects[id].content.Links() ==> Complete(objects, l)
    ensures Complete(objects, id)
  {
    var links := objects[id].content.Links();
    var c: set<Id> := UnionOf(objects, links, |links|);
    assert SelfContained(objects, c + {id});
  }

  lemma {:induction false} UnionOf(objects: Objects, links: seq<Id>, n: nat) returns (c: set<Id>)
    requires n <= |links| && forall l :: l in links ==> Complete(objects, l)
    ensures SelfContained(objects, c) && forall i :: 0 <= i < n ==> links[i] in c
  {
    if n == 0 {
      c := {};
    } else {
      var before := UnionOf(objects, links, n - 1);
      assert links[n - 1] in links;
      var more :| links[n - 1] in more && SelfContained(objects, more);
      c := before + more;
    }
  }

  /** Every ref can be read back in full. */
  ghost predicate RefClosed(s: State) {
    forall n :: n in s.refs ==> Complete(s.objects, s.refs[n])
  }

  /** Following links from a complete object never leaves the store. */
  lemma {:induction false} CompleteMeansReadable(objects: Objects, c: set<Id>, p: seq<Id>)
    requires SelfContained(objects, c) && p != [] && p[0] in c
    requires forall i :: 0 <= i < |p| - 1 && p[i] in objects ==> p[i + 1] in objects[p[i]].content.Links()
    ensures forall i :: 0 <= i < |p| ==> p[i] in objects
  {
    if |p| > 1 {
      assert p[0] in objects && p[1] in objects[p[0]].content.Links();
      var q := p[1..];
      assert forall i :: 0 <= i < |q| ==> q[i] == p[i + 1];
      CompleteMeansReadable(objects, c, q);
      forall i | 0 <= i < |p|
        ensures p[i] in objects
      {
        if i > 0 {
          assert q[i - 1] in objects;
        }
      }
    }
  }

  lemma CompleteExtends(small: Objects, large: Objects, id: Id)
    requires Extends(small, large) && Complete(small, id)
    ensures Complete(large, id)
  {
    var c :| id in c && SelfContained(small, c);
    assert SelfContained(large, c);
  }

  /** Nothing is forgotten: objects stay, and each ref has only moved to a descendant. */
  ghost predicate HistoryKept(s: State, t: State) {
    && Extends(s.objects, t.objects)
    && forall n :: n in s.refs ==> n in t.refs && Reaches(t.objects, t.refs[n], s.refs[n])
  }

  lemma HistoryKeptTransitive(s: State, t: State, u: State)
    requires HistoryKept(s, t) && HistoryKept(t, u)
    ensures HistoryKept(s, u)
  {
    hide Reaches;
    forall n | n in s.refs
      ensures n in u.refs && Reaches(u.objects, u.refs[n], s.refs[n])
    {
      ReachesExtends(t.objects, u.objects, t.refs[n], s.refs[n]);
      ReachesTransitive(u.objects, u.refs[n], t.refs[n], s.refs[n]);
    }
  }

  lemma HistoryKeptReflexive(s: State)
    ensures HistoryKept(s, s)
  {
    hide Reaches;
    forall n | n in s.refs
      ensures Reaches(s.objects, s.refs[n], s.refs[n])
    {
      ReachesItself(s.objects, s.refs[n]);
    }
  }

  lemma BetweenKeepsHistory(from: State, to: State, s: State)
    requires ObjectsBetween(from.objects, to.objects, s.objects) && RefsBetween(from, to, s)
    ensures HistoryKept(to, s)
  {
    hide Reaches;
    forall n | n in to.refs
      ensures Reaches(s.objects, s.refs[n], to.refs[n])
    {
      ReachesItself(s.objects, to.refs[n]);
    }
  }

  lemma BetweenKeepsClosed(from: State, to: State, s: State)
    requires ObjectsBetween(from.objects, to.objects, s.objects) && RefsBetween(from, to, s)
    requires Agree(from.objects, to.objects) && RefClosed(from) && RefClosed(to)
    ensures RefClosed(s)
  {
    hide Complete, Moves;
    forall n | n in s.refs
      ensures Complete(s.objects, s.refs[n])
    {
      if n in to.refs && s.refs[n] == to.refs[n] {
        CompleteExtends(to.objects, s.objects, to.refs[n]);
      } else {
        CompleteExtends(from.objects, s.objects, from.refs[n]);
      }
    }
  }

  // ---- runs

  type System = seq<State>

  ghost predicate SameIdentity(sys: System) {
    forall i, j :: 0 <= i < |sys| && 0 <= j < |sys| ==> Agree(sys[i].objects, sys[j].objects)
  }

  /** Only store j changes, to s. */
  predicate Only(a: System, b: System, j: nat, s: State) {
    j < |a| && b == a[j := s]
  }

  /** A sync from store i to store j, stopped anywhere. */
  ghost predicate SyncStep(a: System, b: System, i: nat, j: nat, s: State) {
    i < |a| && j < |a| && Interrupted(a[i], a[j], s) && Only(a, b, j, s)
  }

  /** A store adds an object of its own; its address is a hash, so no store has another object there. */
  ghost predicate PutStep(a: System, b: System, j: nat, id: Id, record: Record) {
    && j < |a| && id !in a[j].objects
    && (forall i :: 0 <= i < |a| && id in a[i].objects ==> a[i].objects[id].content == record.content)
    && Only(a, b, j, Apply(a[j], PutObject(id, record)))
  }

  /** A store moves a ref forward to a complete object. */
  ghost predicate CommitStep(a: System, b: System, j: nat, name: Name, id: Id) {
    && j < |a| && Complete(a[j].objects, id)
    && (name in a[j].refs ==> Reaches(a[j].objects, id, a[j].refs[name]))
    && Only(a, b, j, Apply(a[j], SetRef(name, id)))
  }

  ghost predicate Next(a: System, b: System) {
    || (exists i, j, s :: SyncStep(a, b, i, j, s))
    || (exists j, id, record :: PutStep(a, b, j, id, record))
    || (exists j, name, id :: CommitStep(a, b, j, name, id))
  }

  /** What a sync that runs to its end leaves behind is such a step; two of the stores may be one. */
  lemma WholeSyncIsAStep(a: System, i: nat, j: nat, ws: seq<Write>)
    requires i < |a| && j < |a| && SyncWrites(a[i], a[j], ws)
    ensures Next(a, a[j := Synced(a[i], a[j])])
  {
    hide Interrupted, Synced, SyncWrites;
    CompleteIsInterrupted(a[i], a[j], ws);
    assert SyncStep(a, a[j := Synced(a[i], a[j])], i, j, Synced(a[i], a[j]));
  }

  lemma StepKeepsIdentity(a: System, b: System)
    requires SameIdentity(a) && Next(a, b)
    ensures |b| == |a| && SameIdentity(b)
  {
    hide Interrupted, RefsBetween, Reaches, Complete;
    if i: nat, j: nat, s :| SyncStep(a, b, i, j, s) {
      InterruptedIsBetween(a[i], a[j], s);
    }
  }

  /** What one step does to one store. */
  lemma StepKeepsStore(a: System, b: System, k: nat)
    requires SameIdentity(a) && Next(a, b) && k < |a|
    ensures |b| == |a| && HistoryKept(a[k], b[k])
    ensures (forall i :: 0 <= i < |a| ==> RefClosed(a[i])) ==> RefClosed(b[k])
  {
    hide Interrupted, Reaches, Complete, Agree;
    if i: nat, j: nat, s :| SyncStep(a, b, i, j, s) {
      if k == j {
        InterruptedIsBetween(a[i], a[j], s);
        BetweenKeepsHistory(a[i], a[j], s);
        if forall i :: 0 <= i < |a| ==> RefClosed(a[i]) {
          assert Agree(a[i].objects, a[j].objects);
          BetweenKeepsClosed(a[i], a[j], s);
        }
      } else {
        HistoryKeptReflexive(a[k]);
      }
    } else if j: nat, id, record :| PutStep(a, b, j, id, record) {
      PutKeepsStore(a[k], b[k], id, record);
    } else {
      var j: nat, name, id :| CommitStep(a, b, j, name, id);
      CommitKeepsStore(a[k], b[k], name, id);
    }
  }

  lemma PutKeepsStore(s: State, t: State, id: Id, record: Record)
    requires t == s || (id !in s.objects && t == Apply(s, PutObject(id, record)))
    ensures HistoryKept(s, t) && (RefClosed(s) ==> RefClosed(t))
  {
    hide Reaches, Complete;
    forall n | n in s.refs
      ensures Reaches(t.objects, t.refs[n], s.refs[n])
      ensures Complete(s.objects, s.refs[n]) ==> Complete(t.objects, t.refs[n])
    {
      ReachesItself(t.objects, s.refs[n]);
      if Complete(s.objects, s.refs[n]) {
        CompleteExtends(s.objects, t.objects, s.refs[n]);
      }
    }
  }

  lemma CommitKeepsStore(s: State, t: State, name: Name, id: Id)
    requires t == s || (&& Complete(s.objects, id) && (name in s.refs ==> Reaches(s.objects, id, s.refs[name]))
                        && t == Apply(s, SetRef(name, id)))
    ensures HistoryKept(s, t) && (RefClosed(s) ==> RefClosed(t))
  {
    hide Reaches, Complete;
    forall n | n in s.refs
      ensures Reaches(t.objects, t.refs[n], s.refs[n])
    {
      ReachesItself(t.objects, s.refs[n]);
    }
  }

  ghost predicate Run(run: seq<System>) {
    run != [] && SameIdentity(run[0]) && forall t :: 0 <= t < |run| - 1 ==> Next(run[t], run[t + 1])
  }

  lemma {:induction false} RunKeepsIdentity(run: seq<System>, t: nat)
    requires Run(run) && t < |run|
    ensures |run[t]| == |run[0]| && SameIdentity(run[t])
  {
    hide Next, SameIdentity;
    if t > 0 {
      RunKeepsIdentity(run, t - 1);
      assert Next(run[t - 1], run[t - 1 + 1]);
      StepKeepsIdentity(run[t - 1], run[t]);
    }
  }

  /**
   Between any two moments of any run, no store loses an object, and each of its refs at the
   later moment descends from where it pointed at the earlier one.
   */
  lemma {:induction false} RunKeepsHistory(run: seq<System>, t: nat, u: nat, k: nat)
    requires Run(run) && t <= u < |run| && k < |run[0]|
    ensures |run[t]| == |run[u]| == |run[0]|
    ensures HistoryKept(run[t][k], run[u][k])
    decreases u
  {
    hide Next, SameIdentity, HistoryKept;
    RunKeepsIdentity(run, t);
    if t == u {
      HistoryKeptReflexive(run[t][k]);
    } else {
      RunKeepsHistory(run, t, u - 1, k);
      RunKeepsIdentity(run, u - 1);
      assert Next(run[u - 1], run[u - 1 + 1]);
      StepKeepsStore(run[u - 1], run[u], k);
      HistoryKeptTransitive(run[t][k], run[u - 1][k], run[u][k]);
    }
  }

  /**
   If every ref can be read back in full at the start, every ref of every store can at every
   moment of the run: also after each single write of a sync that is later cut short.
   */
  lemma {:induction false} RunKeepsRefsClosed(run: seq<System>, t: nat)
    requires Run(run) && t < |run| && forall k :: 0 <= k < |run[0]| ==> RefClosed(run[0][k])
    ensures forall k :: 0 <= k < |run[t]| ==> RefClosed(run[t][k])
  {
    hide Next, SameIdentity, HistoryKept, RefClosed;
    if t > 0 {
      RunKeepsRefsClosed(run, t - 1);
      RunKeepsIdentity(run, t - 1);
      assert Next(run[t - 1], run[t - 1 + 1]);
      StepKeepsIdentity(run[t - 1], run[t]);
      forall k | 0 <= k < |run[t]|
        ensures RefClosed(run[t][k])
      {
        StepKeepsStore(run[t - 1], run[t], k);
      }
    }
  }

  // ---- where syncs end

  /** Repeating a sync writes nothing, whatever order ids and refs are taken in. */
  lemma SecondSyncIsEmpty(from: State, to: State, ws: seq<Write>)
    requires SyncWrites(from, Synced(from, to), ws)
    ensures ws == []
  {
    hide RefWrites, Reaches;
    var mid := Synced(from, to);
    var objects := Merged(from.objects, mid.objects);
    var ids: seq<Id>, items: seq<(Name, Id)> :| MissingSorted(from.objects, mid.objects, ids) && Lists(items, from.refs)
      && ws == ObjectWrites(from.objects, ids) + RefWrites(objects, mid.refs, items);
    assert objects == Merged(from.objects, to.objects);
    EmptyOrNot(ids);
    assert forall i :: 0 <= i < |items| ==> !Moves(objects, mid.refs, items[i].0, items[i].1);
    NothingMoves(objects, mid.refs, items);
  }

  lemma EmptyOrNot(ids: seq<Id>)
    ensures ids == [] || exists id :: id in ids
  {
    if ids != [] {
      assert ids[0] in ids;
    }
  }

  lemma {:induction false} NothingMoves(objects: Objects, to: map<Name, Id>, items: seq<(Name, Id)>)
    requires forall i :: 0 <= i < |items| ==> !Moves(objects, to, items[i].0, items[i].1)
    ensures RefWrites(objects, to, items) == []
  {
    hide Moves;
    if items != [] {
      NothingMoves(objects, to, items[..|items| - 1]);
    }
  }

  /** Each side's view of one ref after syncing a to b and then b to a. */
  lemma TwoWaySync(a: State, b: State, n: Name)
    requires Agree(a.objects, b.objects)
    ensures
      var b' := Synced(a, b);
      var a' := Synced(b', a);
      && a'.objects.Keys == b'.objects.Keys == a.objects.Keys + b.objects.Keys
      && (n in a'.refs <==> n in a.refs || n in b.refs) && (n in b'.refs <==> n in a'.refs)
      && (n in a'.refs && a'.refs[n] != b'.refs[n] ==>
           && n in a.refs && n in b.refs && a'.refs[n] == a.refs[n] && b'.refs[n] == b.refs[n]
           && !Reaches(b'.objects, a.refs[n], b.refs[n]) && !Reaches(b'.objects, b.refs[n], a.refs[n]))
  {
    hide Reaches;
    var b' := Synced(a, b);
    var merged := Merged(b'.objects, a.objects);
    if n in b'.refs && n in a.refs && n in b.refs && !Moves(b'.objects, b.refs, n, a.refs[n]) && b.refs[n] != a.refs[n] {
      assert Extends(b'.objects, merged) && Extends(merged, b'.objects);
      if Reaches(b'.objects, b.refs[n], a.refs[n]) {
        ReachesExtends(b'.objects, merged, b.refs[n], a.refs[n]);
      }
    }
  }

  /** With no diverged ref, a two-way sync leaves both stores with the same ids and the same refs. */
  lemma TwoWaySyncConverges(a: State, b: State)
    requires Agree(a.objects, b.objects)
    requires forall n :: n in a.refs && n in b.refs ==>
      || Reaches(Merged(a.objects, b.objects), a.refs[n], b.refs[n])
      || Reaches(Merged(a.objects, b.objects), b.refs[n], a.refs[n])
    ensures Synced(Synced(a, b), a).refs == Synced(a, b).refs
    ensures Synced(Synced(a, b), a).objects.Keys == Synced(a, b).objects.Keys
  {
    hide Reaches, Moves;
    var b' := Synced(a, b);
    var a' := Synced(b', a);
    forall n
      ensures n in a'.refs <==> n in b'.refs
      ensures n in a'.refs ==> a'.refs[n] == b'.refs[n]
    {
      TwoWaySync(a, b, n);
    }
  }
}
