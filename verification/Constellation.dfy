/**
 Replication of content-addressed stores (crates/constellation/src/lib.rs and transport.rs).
 An object is addressed by a keyed hash of its plaintext, so stores of one identity that hold
 the same id hold the same object; sealed records of it may still differ byte for byte.
 */
module Constellation {
  import opened Outcomes
  import opened Bits

  type Id = nat
  type Name = string

  datatype Object = Generation(root: Id, parents: seq<Id>) | Plain(children: seq<Id>) {
    /** Everything the object names: it cannot be read back without these. */
    function Links(): seq<Id> {
      if Generation? then [root] + parents else children
    }
  }

  /** A sealed record, and the object it opens to under the identity's key. */
  datatype Record = Record(bytes: seq<byte>, content: Object)

  type Objects = map<Id, Record>

  datatype State = State(objects: Objects, refs: map<Name, Id>)

  /** The parents of a generation; None for anything else, or for a missing object. */
  function ParentsOf(objects: Objects, id: Id): Option<seq<Id>> {
    if id in objects && objects[id].content.Generation? then Some(objects[id].content.parents) else None
  }

  // ---- ancestry

  predicate ParentEdge(objects: Objects, child: Id, parent: Id) {
    var ps := ParentsOf(objects, child);
    ps.Some? && parent in ps.value
  }

  /** p leads from its first id to its last through parents. */
  predicate Path(objects: Objects, p: seq<Id>) {
    p != [] && forall i :: 0 <= i < |p| - 1 ==> ParentEdge(objects, p[i], p[i + 1])
  }

  ghost predicate Reaches(objects: Objects, descendant: Id, ancestor: Id) {
    exists p :: Path(objects, p) && p[0] == descendant && p[|p| - 1] == ancestor
  }

  lemma ReachesItself(objects: Objects, id: Id)
    ensures Reaches(objects, id, id)
  {
    assert Path(objects, [id]);
  }

  lemma ReachesTransitive(objects: Objects, a: Id, b: Id, c: Id)
    requires Reaches(objects, a, b) && Reaches(objects, b, c)
    ensures Reaches(objects, a, c)
  {
    var p :| Path(objects, p) && p[0] == a && p[|p| - 1] == b;
    var q :| Path(objects, q) && q[0] == b && q[|q| - 1] == c;
    var r := p + q[1..];
    forall i | 0 <= i < |r| - 1
      ensures ParentEdge(objects, r[i], r[i + 1])
    {
      if i >= |p| - 1 {
        assert r[i] == q[i - |p| + 1] && r[i + 1] == q[i - |p| + 2];
      }
    }
    assert Path(objects, r) && r[0] == a && r[|r| - 1] == c;
  }

  lemma ReachesParent(objects: Objects, a: Id, b: Id, c: Id)
    requires Reaches(objects, a, b) && ParentEdge(objects, b, c)
    ensures Reaches(objects, a, c)
  {
    assert Path(objects, [b, c]);
    assert [b, c][0] == b && [b, c][1] == c;
    ReachesTransitive(objects, a, b, c);
  }

  /** A set closed under parents keeps whatever is reachable from inside it. */
  lemma {:induction false} ClosedSetKeepsPath(objects: Objects, s: set<Id>, p: seq<Id>)
    requires Path(objects, p) && p[0] in s
    requires forall x, y :: x in s && ParentEdge(objects, x, y) ==> y in s
    ensures p[|p| - 1] in s
  {
    if |p| > 1 {
      assert ParentEdge(objects, p[0], p[1]);
      var q := p[1..];
      forall i | 0 <= i < |q| - 1
        ensures ParentEdge(objects, q[i], q[i + 1])
      {
        assert ParentEdge(objects, p[i + 1], p[i + 2]);
      }
      ClosedSetKeepsPath(objects, s, q);
    }
  }

  /** An edge leads from a generation to each of its parents, and there is no other. */
  lemma EdgesAreParents(objects: Objects, child: Id, parent: Id)
    ensures ParentEdge(objects, child, parent) <==>
      child in objects && objects[child].content.Generation? && parent in objects[child].content.parents
  {
  }

  lemma ReachesEveryParent(objects: Objects, id: Id, i: nat)
    requires id in objects && objects[id].content.Generation? && i < |objects[id].content.parents|
    ensures Reaches(objects, id, objects[id].content.parents[i])
  {
    ReachesItself(objects, id);
    EdgesAreParents(objects, id, objects[id].content.parents[i]);
    ReachesParent(objects, id, id, objects[id].content.parents[i]);
  }

  /** With a generation in it the set has all of its parents. */
  ghost predicate ClosedUnderParents(objects: Objects, s: set<Id>) {
    forall id <- s :: id in objects && objects[id].content.Generation? ==>
      forall i :: 0 <= i < |objects[id].content.parents| ==> objects[id].content.parents[i] in s
  }

  /** What is reachable is what every set closed under parents has to hold. */
  lemma ReachesIsClosure(objects: Objects, descendant: Id, ancestor: Id)
    ensures Reaches(objects, descendant, ancestor) <==>
      forall s: set<Id> :: descendant in s && ClosedUnderParents(objects, s) ==> ancestor in s
  {
    if Reaches(objects, descendant, ancestor) {
      var p :| Path(objects, p) && p[0] == descendant && p[|p| - 1] == ancestor;
      forall s: set<Id> | descendant in s && ClosedUnderParents(objects, s)
        ensures ancestor in s
      {
        forall x, y | x in s && ParentEdge(objects, x, y)
          ensures y in s
        {
          EdgesAreParents(objects, x, y);
        }
        ClosedSetKeepsPath(objects, s, p);
      }
    } else {
      hide Reaches;
      var s := ReachedFrom(objects, descendant);
      assert ancestor !in s;
    }
  }

  /** The reachable ids themselves are such a set. */
  lemma ReachedFrom(objects: Objects, descendant: Id) returns (s: set<Id>)
    ensures descendant in s && ClosedUnderParents(objects, s) && forall id <- s :: Reaches(objects, descendant, id)
  {
    hide Reaches;
    var universe := Universe(objects, descendant);
    s := set id | id in universe && Reaches(objects, descendant, id);
    ReachesItself(objects, descendant);
    forall id, i | id in s && id in objects && objects[id].content.Generation? && 0 <= i < |objects[id].content.parents|
      ensures objects[id].content.parents[i] in s
    {
      EdgesAreParents(objects, id, objects[id].content.parents[i]);
      ReachesParent(objects, descendant, id, objects[id].content.parents[i]);
    }
  }

  /** Two object sets give every shared id the same object. */
  ghost predicate Agree(a: Objects, b: Objects) {
    forall id :: id in a && id in b ==> a[id].content == b[id].content
  }

  ghost predicate Extends(small: Objects, large: Objects) {
    small.Keys <= large.Keys && Agree(small, large)
  }

  lemma ReachesExtends(small: Objects, large: Objects, a: Id, b: Id)
    requires Extends(small, large) && Reaches(small, a, b)
    ensures Reaches(large, a, b)
  {
    var p :| Path(small, p) && p[0] == a && p[|p| - 1] == b;
    forall i | 0 <= i < |p| - 1
      ensures ParentEdge(large, p[i], p[i + 1])
    {
      assert ParentEdge(small, p[i], p[i + 1]);
    }
    assert Path(large, p);
  }

  /** Every id the walk from `start` could ever push. */
  function Universe(objects: Objects, start: Id): set<Id> {
    {start} + set id, p | id in objects && objects[id].content.Generation? && p in objects[id].content.parents :: p
  }

  // ---- a store behind a transport

  datatype Write = PutObject(id: Id, record: Record) | SetRef(name: Name, id: Id)

  function Apply(s: State, w: Write): State {
    match w
    case PutObject(id, record) => s.(objects := s.objects[id := record])
    case SetRef(name, id) => s.(refs := s.refs[name := id])
  }

  function ApplyAll(s: State, ws: seq<Write>): State {
    if ws == [] then s else Apply(ApplyAll(s, ws[..|ws| - 1]), ws[|ws| - 1])
  }

  class Store {
    var objects: Objects
    var refs: map<Name, Id>
    // Every write accepted so far, in order.
    ghost var journal: seq<Write>

    constructor (objects: Objects, refs: map<Name, Id>)
      ensures this.objects == objects && this.refs == refs && journal == []
    {
      this.objects, this.refs, journal := objects, refs, [];
    }

    function View(): State
      reads this
    {
      State(objects, refs)
    }

    method Have() returns (ids: set<Id>)
      ensures ids == objects.Keys
    {
      ids := objects.Keys;
    }

    method ReadRecord(id: Id) returns (record: Record)
      requires id in objects
      ensures record == objects[id]
    {
      record := objects[id];
    }

    /** Takes a record unless the object is already there, and says which it was. */
    method WriteRecord(id: Id, record: Record) returns (wrote: bool)
      modifies this
      ensures wrote <==> id !in old(objects)
      ensures wrote ==> View() == Apply(old(View()), PutObject(id, record))
      ensures wrote ==> journal == old(journal) + [PutObject(id, record)]
      ensures !wrote ==> View() == old(View()) && journal == old(journal)
    {
      if id in objects {
        return false;
      }
      objects := objects[id := record];
      journal := journal + [PutObject(id, record)];
      return true;
    }

    /** The refs in the order the store lists them, each once. */
    method Refs() returns (items: seq<(Name, Id)>)
      ensures Lists(items, refs)
    {
      items := [];
      var rest := refs.Keys;
      while rest != {}
        invariant rest <= refs.Keys
        invariant forall i :: 0 <= i < |items| ==> items[i].0 in refs && items[i].0 !in rest && refs[items[i].0] == items[i].1
        invariant forall n :: n in refs && n !in rest ==> exists i :: 0 <= i < |items| && items[i].0 == n
        invariant forall i, j :: 0 <= i < j < |items| ==> items[i].0 != items[j].0
        decreases |rest|
      {
        var n :| n in rest;
        var before := items;
        items := items + [(n, refs[n])];
        rest := rest - {n};
        forall m | m in refs && m !in rest
          ensures exists i :: 0 <= i < |items| && items[i].0 == m
        {
          if m == n {
            assert items[|before|].0 == n;
          } else {
            var i :| 0 <= i < |before| && before[i].0 == m;
            assert items[i].0 == m;
          }
        }
      }
    }

    method GetRef(name: Name) returns (id: Option<Id>)
      ensures id == if name in refs then Some(refs[name]) else None
    {
      id := if name in refs then Some(refs[name]) else None;
    }

    method SetRefTo(name: Name, id: Id)
      modifies this
      ensures View() == Apply(old(View()), SetRef(name, id))
      ensures journal == old(journal) + [SetRef(name, id)]
    {
      refs := refs[name := id];
      journal := journal + [SetRef(name, id)];
    }

    method Parents(id: Id) returns (ps: Option<seq<Id>>)
      ensures ps == ParentsOf(objects, id)
    {
      ps := ParentsOf(objects, id);
    }
  }

  /** `items` enumerates a ref table, each name once. */
  ghost predicate Lists(items: seq<(Name, Id)>, refs: map<Name, Id>) {
    && (forall i :: 0 <= i < |items| ==> items[i].0 in refs && refs[items[i].0] == items[i].1)
    && (forall n :: n in refs ==> exists i :: 0 <= i < |items| && items[i].0 == n)
    && (forall i, j :: 0 <= i < j < |items| ==> items[i].0 != items[j].0)
  }

  /** Depth-first over the parents held by `to`, on any graph: cycles and missing objects too. */
  method IsAncestor(to: Store, ancestor: Id, descendant: Id) returns (found: bool)
    ensures found <==> Reaches(to.objects, descendant, ancestor)
  {
    var seen: set<Id> := {};
    var stack := [descendant];
    ghost var universe := Universe(to.objects, descendant);
    ReachesItself(to.objects, descendant);
    while stack != []
      invariant seen <= universe && forall i :: 0 <= i < |stack| ==> stack[i] in universe
      invariant forall i :: 0 <= i < |stack| ==> Reaches(to.objects, descendant, stack[i])
      invariant descendant in seen || descendant in stack
      invariant ancestor !in seen
      invariant forall x, y :: x in seen && ParentEdge(to.objects, x, y) ==> y in seen || y in stack
      decreases universe - seen, |stack|
    {
      var id := stack[|stack| - 1];
      ghost var before := stack;
      stack := stack[..|stack| - 1];
      assert forall y :: y in before ==> y == id || y in stack;
      if id == ancestor {
        return true;
      }
      if id in seen {
        continue;
      }
      seen := seen + {id};
      var parents := to.Parents(id);
      if parents.Some? {
        forall p | p in parents.value
          ensures p in universe && Reaches(to.objects, descendant, p)
        {
          ReachesParent(to.objects, descendant, id, p);
        }
        stack := stack + parents.value;
      }
    }
    if Reaches(to.objects, descendant, ancestor) {
      ghost var p :| Path(to.objects, p) && p[0] == descendant && p[|p| - 1] == ancestor;
      ClosedSetKeepsPath(to.objects, seen, p);
    }
    return false;
  }

  // ---- one direction of a sync

  datatype Report = Report(sourceObjects: nat, destObjects: nat, transferred: nat, bytes: nat,
                           refsSet: seq<Name>, refsAdvanced: seq<Name>, refsConflicted: seq<Name>) {
    predicate MovedAnything() {
      transferred > 0 || refsSet != [] || refsAdvanced != []
    }
  }

  /** The destination's objects once everything missing has moved. */
  function Merged(from: Objects, to: Objects): Objects {
    from + to
  }

  datatype Verdict = Set | Same | Advance | Conflict

  /** What a sync does with one of the source's refs. */
  ghost function Judge(objects: Objects, to: map<Name, Id>, name: Name, src: Id): Verdict {
    if name !in to then Set
    else if to[name] == src then Same
    else if Reaches(objects, src, to[name]) then Advance
    else Conflict
  }

  /** A merge fast-forwards a ref that stands at any one of the generations it merges. */
  lemma MergeFastForwards(objects: Objects, to: map<Name, Id>, name: Name, merge: Id, i: nat)
    requires merge in objects && objects[merge].content.Generation? && i < |objects[merge].content.parents|
    requires name in to && to[name] == objects[merge].content.parents[i] && to[name] != merge
    ensures Judge(objects, to, name, merge) == Advance
  {
    hide Reaches;
    ReachesEveryParent(objects, merge, i);
  }

  /** A ref moves when it is missing, or when it stands elsewhere in the history of its new target. */
  lemma MovesForward(objects: Objects, to: map<Name, Id>, name: Name, src: Id)
    ensures Moves(objects, to, name, src) <==> name !in to || (to[name] != src && Reaches(objects, src, to[name]))
    ensures Judge(objects, to, name, src) == Set <==> name !in to
    ensures Judge(objects, to, name, src) == Same <==> name in to && to[name] == src
    ensures Judge(objects, to, name, src) == Conflict <==> name in to && to[name] != src && !Reaches(objects, src, to[name])
  {
    hide Reaches;
  }

  ghost predicate Moves(objects: Objects, to: map<Name, Id>, name: Name, src: Id) {
    Judge(objects, to, name, src) in {Set, Advance}
  }

  /** The destination after a whole sync. */
  ghost function Synced(from: State, to: State): State {
    var objects := Merged(from.objects, to.objects);
    State(objects,
          map n | n in from.refs.Keys + to.refs.Keys ::
            if n in from.refs && Moves(objects, to.refs, n, from.refs[n]) then from.refs[n] else to.refs[n])
  }

  /** The object writes of a sync, in the order of the ids. */
  function ObjectWrites(from: Objects, ids: seq<Id>): (ws: seq<Write>)
    requires forall id :: id in ids ==> id in from
    ensures |ws| == |ids|
  {
    seq(|ids|, i requires 0 <= i < |ids| => PutObject(ids[i], from[ids[i]]))
  }

  /** The ref writes of a sync, in the order the source lists its refs. */
  ghost function RefWrites(objects: Objects, to: map<Name, Id>, items: seq<(Name, Id)>): seq<Write> {
    if items == [] then []
    else
      var (name, src) := items[|items| - 1];
      RefWrites(objects, to, items[..|items| - 1])
      + if Moves(objects, to, name, src) then [SetRef(name, src)] else []
  }

  /** `ids` are the missing objects in ascending order. */
  ghost predicate MissingSorted(from: Objects, to: Objects, ids: seq<Id>) {
    && (forall id :: id in ids <==> id in from && id !in to)
    && (forall i, j :: 0 <= i < j < |ids| ==> ids[i] < ids[j])
  }

  /** `ws` is the sequence of writes of a complete sync. */
  ghost predicate SyncWrites(from: State, to: State, ws: seq<Write>) {
    exists ids, items :: MissingSorted(from.objects, to.objects, ids) && Lists(items, from.refs)
      && ws == ObjectWrites(from.objects, ids) + RefWrites(Merged(from.objects, to.objects), to.refs, items)
  }

  method Sorted(s: set<Id>) returns (ids: seq<Id>)
    ensures forall id :: id in ids <==> id in s
    ensures forall i, j :: 0 <= i < j < |ids| ==> ids[i] < ids[j]
    ensures |ids| == |s|
  {
    ids := [];
    var rest := s;
    while rest != {}
      invariant rest <= s && |ids| + |rest| == |s|
      invariant forall id :: id in ids <==> id in s && id !in rest
      invariant forall i, j :: 0 <= i < j < |ids| ==> ids[i] < ids[j]
      invariant forall i, x :: 0 <= i < |ids| && x in rest ==> ids[i] < x
      decreases |rest|
    {
      var m := Least(rest);
      ids := ids + [m];
      rest := rest - {m};
    }
  }

  method Least(s: set<Id>) returns (m: Id)
    requires s != {}
    ensures m in s && forall x :: x in s ==> m <= x
  {
    m :| m in s;
    var rest := s - {m};
    while rest != {}
      invariant rest <= s && m in s
      invariant forall x :: x in s && x !in rest ==> m <= x
      decreases |rest|
    {
      var x :| x in rest;
      if x < m {
        m := x;
      }
      rest := rest - {x};
    }
  }

  function TotalBytes(records: Objects, ids: seq<Id>): nat
    requires forall id :: id in ids ==> id in records
  {
    if ids == [] then 0 else TotalBytes(records, ids[..|ids| - 1]) + |records[ids[|ids| - 1]].bytes|
  }

  /** The names are exactly those of the source's refs with the given verdict, each once. */
  ghost predicate Reported(names: seq<Name>, from: State, to: State, v: Verdict) {
    && (forall n :: n in names <==> n in from.refs && Judge(Merged(from.objects, to.objects), to.refs, n, from.refs[n]) == v)
    && (forall i, j :: 0 <= i < j < |names| ==> names[i] != names[j])
  }

  /** Ships the records of `missing`, in order. */
  method CopyObjects(from: Store, to: Store, missing: seq<Id>) returns (transferred: nat, bytes: nat)
    requires MissingSorted(from.objects, to.objects, missing)
    modifies to
    ensures to.View() == ApplyAll(old(to.View()), ObjectWrites(old(from.objects), missing))
    ensures to.journal == old(to.journal) + ObjectWrites(old(from.objects), missing)
    ensures transferred == |missing| && bytes == TotalBytes(old(from.objects), missing)
  {
    hide ApplyAll, ObjectWrites, TotalBytes;
    transferred, bytes := 0, 0;
    ghost var from0, to0 := from.View(), to.View();
    NoWritesYet(to0, from0.objects);
    assert from == to ==> forall id :: id !in missing;
    for i := 0 to |missing|
      invariant transferred == i && bytes == TotalBytes(from0.objects, missing[..i])
      invariant to.View() == ApplyAll(to0, ObjectWrites(from0.objects, missing[..i]))
      invariant to.journal == old(to.journal) + ObjectWrites(from0.objects, missing[..i])
    {
      var id := missing[i];
      assert id in from0.objects && id !in to0.objects;
      ghost var ws := ObjectWrites(from0.objects, missing[..i]);
      var record := from.ReadRecord(id);
      assert missing[..i + 1] == missing[..i] + [id];
      OneMoreObject(from0.objects, missing[..i], id);
      AfterObjectWrites(from0.objects, to0, missing[..i]);
      ApplyAllAppend(to0, ws, PutObject(id, record));
      var wrote := to.WriteRecord(id, record);
      if wrote {
        transferred := transferred + 1;
        bytes := bytes + |record.bytes|;
      }
    }
    assert missing[..|missing|] == missing;
  }

  lemma OneMoreObject(from: Objects, ids: seq<Id>, id: Id)
    requires id in from && forall i :: i in ids ==> i in from
    ensures ObjectWrites(from, ids + [id]) == ObjectWrites(from, ids) + [PutObject(id, from[id])]
    ensures TotalBytes(from, ids + [id]) == TotalBytes(from, ids) + |from[id].bytes|
  {
    assert (ids + [id])[..|ids|] == ids;
  }

  lemma NoWritesYet(s: State, from: Objects)
    ensures ApplyAll(s, []) == s && ObjectWrites(from, []) == [] && TotalBytes(from, []) == 0
  {
  }

  /** The report counts what was there, what was missing, and what became of each ref. */
  ghost predicate Accounts(r: Report, from: State, to: State) {
    && r.sourceObjects == |from.objects| && r.destObjects == |to.objects|
    && r.transferred == |from.objects.Keys - to.objects.Keys|
    && (exists ids :: MissingSorted(from.objects, to.objects, ids) && r.bytes == TotalBytes(from.objects, ids))
    && Reported(r.refsSet, from, to, Set)
    && Reported(r.refsAdvanced, from, to, Advance)
    && Reported(r.refsConflicted, from, to, Conflict)
  }

  /** After the objects have moved: they are merged, the refs are as they were, and the report says so. */
  ghost predicate HalfDone(from: State, to: State, s: State, missing: seq<Id>, r: Report) {
    && MissingSorted(from.objects, to.objects, missing)
    && s == State(Merged(from.objects, to.objects), to.refs)
    && s == ApplyAll(to, ObjectWrites(from.objects, missing))
    && |missing| == |from.objects.Keys - to.objects.Keys|
    && r == Report(|from.objects.Keys|, |to.objects.Keys|, |missing|, TotalBytes(from.objects, missing), [], [], [])
  }

  /** The first half of a sync: everything the destination is missing. */
  method SyncObjects(from: Store, to: Store) returns (report: Report, ghost missing: seq<Id>)
    modifies to
    ensures HalfDone(old(from.View()), old(to.View()), to.View(), missing, report)
    ensures to.journal == old(to.journal) + ObjectWrites(old(from.View()).objects, missing)
  {
    hide ApplyAll, TotalBytes;
    var source := from.Have();
    var dest := to.Have();
    var ids := Sorted(source - dest);
    assert MissingSorted(from.objects, to.objects, ids);
    var transferred, bytes := CopyObjects(from, to, ids);
    missing := ids;
    ObjectsAreMerged(old(from.View()), old(to.View()), ids);
    report := Report(|source|, |dest|, transferred, bytes, [], [], []);
  }

  /** Push what the destination is missing, then carry the refs over. */
  method Sync(from: Store, to: Store) returns (report: Report, ghost ws: seq<Write>)
    modifies to
    ensures to.View() == Synced(old(from.View()), old(to.View()))
    ensures SyncWrites(old(from.View()), old(to.View()), ws) && to.journal == old(to.journal) + ws
    ensures Accounts(report, old(from.View()), old(to.View()))
    ensures report.MovedAnything() <==> ws != []
  {
    hide *;
    ghost var from0, to0 := from.View(), to.View();
    ghost var missing;
    report, missing := SyncObjects(from, to);
    ghost var half, halfReport := to.View(), report;
    FirstHalf(from0, to0, half, missing, report);
    MergedWithItself(from0);
    var refsSet, refsAdvanced, refsConflicted, items := SyncRefs(from, to, from0, to0);
    ws := ObjectWrites(from0.objects, missing) + RefWrites(Merged(from0.objects, to0.objects), to0.refs, items);
    report := report.(refsSet := refsSet, refsAdvanced := refsAdvanced, refsConflicted := refsConflicted);
    WholeSync(from0, to0, half, missing, items, halfReport, report);
  }

  /** A store synced with itself has nothing to move. */
  lemma MergedWithItself(s: State)
    ensures State(Merged(s.objects, s.objects), s.refs) == s
  {
  }

  lemma FirstHalf(from: State, to: State, half: State, missing: seq<Id>, r: Report)
    requires HalfDone(from, to, half, missing, r)
    ensures half == State(Merged(from.objects, to.objects), to.refs)
    ensures forall id :: id in missing ==> id in from.objects
  {
  }

  lemma ObjectsAreMerged(from: State, to: State, ids: seq<Id>)
    requires MissingSorted(from.objects, to.objects, ids)
    ensures ApplyAll(to, ObjectWrites(from.objects, ids)) == State(Merged(from.objects, to.objects), to.refs)
  {
    hide ApplyAll;
    AfterObjectWrites(from.objects, to, ids);
    assert ApplyAll(to, ObjectWrites(from.objects, ids)).objects == Merged(from.objects, to.objects);
  }

  lemma WholeSync(from: State, to: State, half: State, ids: seq<Id>, items: seq<(Name, Id)>, halfReport: Report, r: Report)
    requires HalfDone(from, to, half, ids, halfReport) && Lists(items, from.refs)
    requires r == halfReport.(refsSet := r.refsSet, refsAdvanced := r.refsAdvanced, refsConflicted := r.refsConflicted)
    requires Reported(r.refsSet, from, to, Set) && Reported(r.refsAdvanced, from, to, Advance) && Reported(r.refsConflicted, from, to, Conflict)
    ensures
      var rw := RefWrites(Merged(from.objects, to.objects), to.refs, items);
      SyncWrites(from, to, ObjectWrites(from.objects, ids) + rw) && ApplyAll(half, rw) == Synced(from, to)
    ensures Accounts(r, from, to)
    ensures r.MovedAnything() <==> ObjectWrites(from.objects, ids) + RefWrites(Merged(from.objects, to.objects), to.refs, items) != []
  {
    hide ApplyAll, RefWrites, Synced, Reported, TotalBytes;
    var ow, rw := ObjectWrites(from.objects, ids), RefWrites(Merged(from.objects, to.objects), to.refs, items);
    ApplyAllConcat(to, ow, rw);
    SyncedIsApplyAll(from, to, ow + rw);
    ReportedMoves(from, to, items, r.refsSet, r.refsAdvanced);
  }

  /** Some ref is reported set or advanced exactly when some ref is written. */
  lemma ReportedMoves(from: State, to: State, items: seq<(Name, Id)>, refsSet: seq<Name>, refsAdvanced: seq<Name>)
    requires Lists(items, from.refs) && Reported(refsSet, from, to, Set) && Reported(refsAdvanced, from, to, Advance)
    ensures refsSet != [] || refsAdvanced != [] <==> RefWrites(Merged(from.objects, to.objects), to.refs, items) != []
  {
    hide RefWrites, Judge;
    var objects := Merged(from.objects, to.objects);
    SomeRefWritten(objects, to.refs, items);
    if i :| 0 <= i < |items| && Moves(objects, to.refs, items[i].0, items[i].1) {
      assert items[i].0 in refsSet || items[i].0 in refsAdvanced;
    }
    if refsSet != [] || refsAdvanced != [] {
      var n := if refsSet != [] then refsSet[0] else refsAdvanced[0];
      assert n in refsSet || n in refsAdvanced;
      var i :| 0 <= i < |items| && items[i].0 == n;
      assert Moves(objects, to.refs, items[i].0, items[i].1);
    }
  }

  lemma {:induction false} SomeRefWritten(objects: Objects, to: map<Name, Id>, items: seq<(Name, Id)>)
    ensures RefWrites(objects, to, items) != [] <==> exists i :: 0 <= i < |items| && Moves(objects, to, items[i].0, items[i].1)
  {
    hide Moves;
    if items != [] {
      var n := |items| - 1;
      SomeRefWritten(objects, to, items[..n]);
      if i :| 0 <= i < n && Moves(objects, to, items[..n][i].0, items[..n][i].1) {
        assert Moves(objects, to, items[i].0, items[i].1);
      }
      if i :| 0 <= i < |items| && Moves(objects, to, items[i].0, items[i].1) {
        assert i < n ==> items[..n][i] == items[i];
      }
    }
  }

  /** One ref: set it where it is missing, fast-forward it where history allows, or leave it. */
  method SyncRef(to: Store, name: Name, srcId: Id) returns (v: Verdict)
    modifies to
    ensures v == Judge(old(to.objects), old(to.refs), name, srcId)
    ensures v == Set || v == Advance ==>
      && to.View() == Apply(old(to.View()), SetRef(name, srcId))
      && to.journal == old(to.journal) + [SetRef(name, srcId)]
    ensures v == Same || v == Conflict ==> to.View() == old(to.View()) && to.journal == old(to.journal)
  {
    var dst := to.GetRef(name);
    if dst.None? {
      to.SetRefTo(name, srcId);
      return Set;
    }
    if dst.value == srcId {
      return Same;
    }
    var forward := IsAncestor(to, dst.value, srcId);
    if forward {
      to.SetRefTo(name, srcId);
      return Advance;
    }
    return Conflict;
  }

  method SyncRefs(from: Store, to: Store, ghost from0: State, ghost to0: State)
    returns (refsSet: seq<Name>, refsAdvanced: seq<Name>, refsConflicted: seq<Name>, ghost items: seq<(Name, Id)>)
    requires from.View() == from0 && to.View() == State(Merged(from0.objects, to0.objects), to0.refs)
    modifies to
    ensures Lists(items, from0.refs)
    ensures to.View() == ApplyAll(old(to.View()), RefWrites(Merged(from0.objects, to0.objects), to0.refs, items))
    ensures to.journal == old(to.journal) + RefWrites(Merged(from0.objects, to0.objects), to0.refs, items)
    ensures Reported(refsSet, from0, to0, Set)
    ensures Reported(refsAdvanced, from0, to0, Advance)
    ensures Reported(refsConflicted, from0, to0, Conflict)
  {
    hide RefWrites, ApplyAll, Judge, ReportedUpTo;
    var listed := from.Refs();
    items := listed;
    refsSet, refsAdvanced, refsConflicted := [], [], [];
    ghost var objects, start := to.objects, to.View();
    NothingYet(objects, start);
    for i := 0 to |listed|
      invariant to.objects == objects
      invariant to.View() == ApplyAll(start, RefWrites(objects, to0.refs, listed[..i]))
      invariant to.journal == old(to.journal) + RefWrites(objects, to0.refs, listed[..i])
      invariant ReportedUpTo(refsSet, listed[..i], objects, to0.refs, Set)
      invariant ReportedUpTo(refsAdvanced, listed[..i], objects, to0.refs, Advance)
      invariant ReportedUpTo(refsConflicted, listed[..i], objects, to0.refs, Conflict)
    {
      var (name, srcId) := listed[i];
      ghost var done, rw := listed[..i], RefWrites(objects, to0.refs, listed[..i]);
      assert listed[..i + 1] == done + [(name, srcId)];
      RefWritesAppend(objects, to0.refs, done, name, srcId);
      assert forall j :: 0 <= j < |done| ==> done[j] == listed[j];
      UnmovedRef(objects, start, done, name);
      ApplyAllAppend(start, rw, SetRef(name, srcId));
      assert rw + [] == rw;
      NotReportedYet(refsSet, done, name, srcId, objects, to0.refs, Set);
      NotReportedYet(refsAdvanced, done, name, srcId, objects, to0.refs, Advance);
      NotReportedYet(refsConflicted, done, name, srcId, objects, to0.refs, Conflict);
      JudgeReadsOneRef(objects, to.refs, to0.refs, name, srcId);
      var v := SyncRef(to, name, srcId);
      match v {
        case Set => refsSet := refsSet + [name];
        case Advance => refsAdvanced := refsAdvanced + [name];
        case Conflict => refsConflicted := refsConflicted + [name];
        case Same =>
      }
    }
    assert listed[..|listed|] == listed;
    ReportedAll(refsSet, listed, from0, to0, Set);
    ReportedAll(refsAdvanced, listed, from0, to0, Advance);
    ReportedAll(refsConflicted, listed, from0, to0, Conflict);
  }

  lemma JudgeReadsOneRef(objects: Objects, r: map<Name, Id>, t: map<Name, Id>, name: Name, src: Id)
    requires (name in r <==> name in t) && (name in r ==> r[name] == t[name])
    ensures Judge(objects, r, name, src) == Judge(objects, t, name, src)
  {
  }

  lemma NothingYet(objects: Objects, s: State)
    ensures RefWrites(objects, s.refs, []) == [] && ApplyAll(s, []) == s
    ensures forall v :: ReportedUpTo([], [], objects, s.refs, v)
  {
  }

  ghost predicate ReportedUpTo(names: seq<Name>, items: seq<(Name, Id)>, objects: Objects, to: map<Name, Id>, v: Verdict) {
    && (forall n :: n in names <==>
         exists i :: 0 <= i < |items| && items[i].0 == n && Judge(objects, to, n, items[i].1) == v)
    && (forall i, j :: 0 <= i < j < |names| ==> names[i] != names[j])
  }

  lemma NotReportedYet(names: seq<Name>, done: seq<(Name, Id)>, name: Name, src: Id, objects: Objects, to: map<Name, Id>, v: Verdict)
    requires ReportedUpTo(names, done, objects, to, v)
    requires forall i :: 0 <= i < |done| ==> done[i].0 != name
    ensures ReportedUpTo(if Judge(objects, to, name, src) == v then names + [name] else names,
                         done + [(name, src)], objects, to, v)
  {
    var all, next := done + [(name, src)], if Judge(objects, to, name, src) == v then names + [name] else names;
    forall n
      ensures n in next <==> exists i :: 0 <= i < |all| && all[i].0 == n && Judge(objects, to, n, all[i].1) == v
    {
      if n in names {
        var i :| 0 <= i < |done| && done[i].0 == n && Judge(objects, to, n, done[i].1) == v;
        assert all[i] == done[i];
      }
      if i :| 0 <= i < |all| && all[i].0 == n && Judge(objects, to, n, all[i].1) == v {
        if i < |done| {
          assert all[i] == done[i];
        }
      }
      assert all[|done|] == (name, src);
    }
    assert name !in names;
  }

  lemma ReportedAll(names: seq<Name>, items: seq<(Name, Id)>, from: State, to: State, v: Verdict)
    requires Lists(items, from.refs)
    requires ReportedUpTo(names, items, Merged(from.objects, to.objects), to.refs, v)
    ensures Reported(names, from, to, v)
  {
  }

  // ---- what the writes add up to

  lemma ApplyAllAppend(s: State, ws: seq<Write>, w: Write)
    ensures ApplyAll(s, ws + [w]) == Apply(ApplyAll(s, ws), w)
  {
    assert (ws + [w])[..|ws|] == ws;
  }

  lemma {:induction false} ApplyAllConcat(s: State, u: seq<Write>, v: seq<Write>)
    ensures ApplyAll(s, u + v) == ApplyAll(ApplyAll(s, u), v)
  {
    if v == [] {
      assert u + v == u;
    } else {
      var n := |v| - 1;
      ApplyAllConcat(s, u, v[..n]);
      assert u + v == u + v[..n] + [v[n]];
      ApplyAllAppend(s, u + v[..n], v[n]);
    }
  }

  /** Object writes add their ids and nothing else. */
  lemma {:induction false} AfterObjectWrites(from: Objects, to: State, ids: seq<Id>)
    requires forall id :: id in ids ==> id in from
    ensures
      var r := ApplyAll(to, ObjectWrites(from, ids));
      && r.refs == to.refs
      && (forall id :: id in r.objects <==> id in to.objects || id in ids)
      && (forall id :: id in ids ==> r.objects[id] == from[id])
      && (forall id :: id in to.objects && id !in ids ==> r.objects[id] == to.objects[id])
  {
    if ids != [] {
      var n := |ids| - 1;
      var init := ids[..n];
      assert ids == init + [ids[n]];
      AfterObjectWrites(from, to, init);
      assert ObjectWrites(from, ids) == ObjectWrites(from, init) + [PutObject(ids[n], from[ids[n]])];
      ApplyAllAppend(to, ObjectWrites(from, init), PutObject(ids[n], from[ids[n]]));
    }
  }

  lemma RefWritesAppend(objects: Objects, to: map<Name, Id>, items: seq<(Name, Id)>, name: Name, src: Id)
    ensures RefWrites(objects, to, items + [(name, src)])
         == RefWrites(objects, to, items) + if Moves(objects, to, name, src) then [SetRef(name, src)] else []
  {
    assert (items + [(name, src)])[..|items|] == items;
  }

  /** The writes of one ref more set it if it moves. */
  lemma OneMoreRef(objects: Objects, s: State, items: seq<(Name, Id)>, name: Name, src: Id)
    ensures
      var before := ApplyAll(s, RefWrites(objects, s.refs, items));
      ApplyAll(s, RefWrites(objects, s.refs, items + [(name, src)]))
      == if Moves(objects, s.refs, name, src) then before.(refs := before.refs[name := src]) else before
  {
    hide Moves;
    RefWritesAppend(objects, s.refs, items, name, src);
    var rw := RefWrites(objects, s.refs, items);
    if Moves(objects, s.refs, name, src) {
      ApplyAllAppend(s, rw, SetRef(name, src));
    } else {
      assert rw + [] == rw;
    }
  }

  /** A listed ref that moves ends at its new target. */
  lemma {:induction false} MovedRef(objects: Objects, s: State, items: seq<(Name, Id)>, i: nat)
    requires forall j, k :: 0 <= j < k < |items| ==> items[j].0 != items[k].0
    requires i < |items| && Moves(objects, s.refs, items[i].0, items[i].1)
    ensures
      var r := ApplyAll(s, RefWrites(objects, s.refs, items));
      items[i].0 in r.refs && r.refs[items[i].0] == items[i].1
    decreases |items|
  {
    hide Moves, ApplyAll, RefWrites;
    var n := |items| - 1;
    assert items == items[..n] + [items[n]];
    OneMoreRef(objects, s, items[..n], items[n].0, items[n].1);
    if i < n {
      MovedRef(objects, s, items[..n], i);
    }
  }

  /** A name that is not listed, or whose ref does not move, stays. */
  lemma {:induction false} UnmovedRef(objects: Objects, s: State, items: seq<(Name, Id)>, name: Name)
    requires forall i :: 0 <= i < |items| && items[i].0 == name ==> !Moves(objects, s.refs, name, items[i].1)
    ensures
      var r := ApplyAll(s, RefWrites(objects, s.refs, items));
      && r.objects == s.objects
      && (name in r.refs <==> name in s.refs) && (name in s.refs ==> r.refs[name] == s.refs[name])
    decreases |items|
  {
    hide Moves;
    if items != [] {
      hide ApplyAll, RefWrites;
      var n := |items| - 1;
      assert items == items[..n] + [items[n]];
      UnmovedRef(objects, s, items[..n], name);
      OneMoreRef(objects, s, items[..n], items[n].0, items[n].1);
    }
  }

  lemma {:induction false} RefWritesKeepObjects(objects: Objects, s: State, items: seq<(Name, Id)>)
    ensures ApplyAll(s, RefWrites(objects, s.refs, items)).objects == s.objects
  {
    hide Moves;
    if items != [] {
      hide ApplyAll, RefWrites;
      var n := |items| - 1;
      assert items == items[..n] + [items[n]];
      RefWritesKeepObjects(objects, s, items[..n]);
      OneMoreRef(objects, s, items[..n], items[n].0, items[n].1);
    }
  }

  /** A listed name is written exactly when its ref moves. */
  lemma RefAfterSync(from: State, to: State, items: seq<(Name, Id)>, mid: State, n: Name)
    requires Lists(items, from.refs) && mid == State(Merged(from.objects, to.objects), to.refs)
    ensures
      var objects, r := mid.objects, ApplyAll(mid, RefWrites(mid.objects, to.refs, items));
      && (n in r.refs <==> n in from.refs || n in to.refs)
      && (n in r.refs ==> r.refs[n] == Synced(from, to).refs[n])
  {
    hide ApplyAll, RefWrites, Reaches;
    if n in from.refs {
      var i :| 0 <= i < |items| && items[i].0 == n;
      assert items[i].1 == from.refs[n];
      if Moves(mid.objects, mid.refs, n, items[i].1) {
        MovedRef(mid.objects, mid, items, i);
      } else {
        UnmovedRef(mid.objects, mid, items, n);
      }
    } else {
      UnmovedRef(mid.objects, mid, items, n);
    }
  }

  lemma SyncedIsApplyAll(from: State, to: State, ws: seq<Write>)
    requires SyncWrites(from, to, ws)
    ensures ApplyAll(to, ws) == Synced(from, to)
  {
    hide ApplyAll, RefWrites, Reaches, Moves;
    var objects := Merged(from.objects, to.objects);
    var ids: seq<Id>, items: seq<(Name, Id)> :| MissingSorted(from.objects, to.objects, ids) && Lists(items, from.refs)
      && ws == ObjectWrites(from.objects, ids) + RefWrites(objects, to.refs, items);
    var mid := ApplyAll(to, ObjectWrites(from.objects, ids));
    ApplyAllConcat(to, ObjectWrites(from.objects, ids), RefWrites(objects, to.refs, items));
    AfterObjectWrites(from.objects, to, ids);
    assert mid.objects == objects;
    RefWritesKeepObjects(objects, mid, items);
    var r, expected := ApplyAll(to, ws), Synced(from, to);
    forall n
      ensures n in r.refs <==> n in expected.refs
      ensures n in r.refs ==> r.refs[n] == expected.refs[n]
    {
      RefAfterSync(from, to, items, mid, n);
    }
    assert r.refs == expected.refs;
  }
}
