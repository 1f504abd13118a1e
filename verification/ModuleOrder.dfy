/** The order a boot loads kernel modules in (crates/init/src/lib.rs). */
module ModuleOrder {

  type Path = string

  /** modules.dep: each listed module and what it needs. */
  type Deps = map<Path, seq<Path>>

  predicate Needs(deps: Deps, m: Path, d: Path) {
    m in deps && d in deps[m]
  }

  /** A chain of needs from the first module to the last. */
  predicate Chain(deps: Deps, p: seq<Path>) {
    p != [] && forall i :: 0 <= i < |p| - 1 ==> Needs(deps, p[i], p[i + 1])
  }

  ghost predicate Reaches(deps: Deps, m: Path, d: Path) {
    exists p :: Chain(deps, p) && p[0] == m && p[|p| - 1] == d
  }

  lemma ReachesItself(deps: Deps, m: Path)
    ensures Reaches(deps, m, m)
  {
    assert Chain(deps, [m]);
  }

  lemma ReachesNeed(deps: Deps, g: Path, m: Path, d: Path)
    requires Reaches(deps, g, m) && Needs(deps, m, d)
    ensures Reaches(deps, g, d)
  {
    var p :| Chain(deps, p) && p[0] == g && p[|p| - 1] == m;
    var q := p + [d];
    forall i | 0 <= i < |q| - 1
      ensures Needs(deps, q[i], q[i + 1])
    {
      if i < |p| - 1 {
        assert q[i] == p[i] && q[i + 1] == p[i + 1];
      }
    }
    assert Chain(deps, q) && q[0] == g && q[|q| - 1] == d;
  }

  /** Every module that is listed or named as a dependency. */
  function Mentioned(deps: Deps): set<Path> {
    deps.Keys + set m, d | m in deps && d in deps[m] :: d
  }

  predicate NoDuplicates(s: seq<Path>) {
    forall i, j :: 0 <= i < j < |s| ==> s[i] != s[j]
  }

  function Elements(s: seq<Path>): set<Path> {
    set x | x in s
  }

  lemma ElementsConcat(a: seq<Path>, b: seq<Path>)
    ensures Elements(a + b) == Elements(a) + Elements(b)
  {
  }

  lemma NeedIsMentioned(deps: Deps, m: Path, d: Path)
    requires Needs(deps, m, d)
    ensures d in Mentioned(deps)
  {
  }

  /** From index `lo` on, every need is loaded earlier, unless it needs the module back. */
  ghost predicate NeedsEarlier(deps: Deps, order: seq<Path>, lo: nat) {
    forall i, d :: lo <= i < |order| && Needs(deps, order[i], d) ==> d in order[..i] || Reaches(deps, d, order[i])
  }

  /** What holds between visits: everything emitted once, everything open still being visited. */
  ghost predicate Between(deps: Deps, done: set<Path>, order: seq<Path>) {
    done <= Mentioned(deps) && NoDuplicates(order) && Elements(order) <= done
  }

  /** What a visit adds: the modules newly done, each emitted once, with their needs done. */
  ghost predicate Extended(deps: Deps, done: set<Path>, order: seq<Path>, done': set<Path>, order': seq<Path>) {
    && Between(deps, done', order')
    && done <= done' && order <= order'
    && Elements(order'[|order|..]) == done' - done
    && NeedsEarlier(deps, order', |order|)
    && forall x, d :: x in done' && x !in done && Needs(deps, x, d) ==> d in done'
  }

  lemma ExtendedTwice(deps: Deps, d0: set<Path>, o0: seq<Path>, d1: set<Path>, o1: seq<Path>, d2: set<Path>, o2: seq<Path>)
    requires Extended(deps, d0, o0, d1, o1) && Extended(deps, d1, o1, d2, o2)
    ensures Extended(deps, d0, o0, d2, o2)
  {
    assert o1 == o2[..|o1|];
    assert o2[|o0|..] == o1[|o0|..] + o2[|o1|..];
    ElementsConcat(o1[|o0|..], o2[|o1|..]);
    forall i, d | |o0| <= i < |o2| && Needs(deps, o2[i], d)
      ensures d in o2[..i] || Reaches(deps, d, o2[i])
    {
      if i < |o1| {
        assert o2[i] == o1[i] && o2[..i] == o1[..i];
      }
    }
  }

  /** Marks on entry, emits on exit. Modules still open all lead here. */
  method VisitModule(m: Path, deps: Deps, done: set<Path>, order: seq<Path>) returns (done': set<Path>, order': seq<Path>)
    requires m in Mentioned(deps) && Between(deps, done, order)
    requires forall g :: g in done && g !in order ==> Reaches(deps, g, m)
    ensures Extended(deps, done, order, done', order') && m in done'
    decreases Mentioned(deps) - done
  {
    done', order' := done, order;
    if m in done {
      return;
    }
    done' := done + {m};
    ghost var entered := done';
    if m in deps {
      var needs := deps[m];
      for i := 0 to |needs|
        invariant Extended(deps, entered, order, done', order')
        invariant forall j :: 0 <= j < i ==> needs[j] in done'
      {
        forall g | g in done' && g !in order'
          ensures Reaches(deps, g, needs[i])
        {
          StillOpen(deps, entered, order, done', order', g);
          ReachesItself(deps, m);
          ReachesNeed(deps, g, m, needs[i]);
        }
        NeedIsMentioned(deps, m, needs[i]);
        ghost var d1, o1 := done', order';
        done', order' := VisitModule(needs[i], deps, done', order');
        ExtendedTwice(deps, entered, order, d1, o1, done', order');
      }
    }
    ghost var before := order';
    order' := order' + [m];
    Emit(deps, m, done, order, done', before);
  }

  /** Between visits, the open modules are those that were open before. */
  lemma StillOpen(deps: Deps, done: set<Path>, order: seq<Path>, done': set<Path>, order': seq<Path>, g: Path)
    requires Extended(deps, done, order, done', order') && g in done' && g !in order'
    ensures g in done && g !in order
  {
    var tail := order'[|order|..];
    assert order' == order + tail;
    ElementsConcat(order, tail);
    assert g !in Elements(order + tail);
  }

  lemma NothingOpen(deps: Deps, done: set<Path>, order: seq<Path>)
    requires Extended(deps, {}, [], done, order)
    ensures forall g :: g in done ==> g in order
  {
    assert order[0..] == order;
    assert Elements(order) == done;
  }

  lemma Emit(deps: Deps, m: Path, done: set<Path>, order: seq<Path>, done': set<Path>, before: seq<Path>)
    requires m !in done && Between(deps, done, order)
    requires Extended(deps, done + {m}, order, done', before)
    requires forall d :: Needs(deps, m, d) ==> d in done'
    requires forall g :: g in done && g !in order ==> Reaches(deps, g, m)
    ensures Extended(deps, done, order, done', before + [m])
  {
    var after := before + [m];
    assert before == order + before[|order|..];
    ElementsConcat(order, before[|order|..]);
    assert m !in Elements(order) && m !in Elements(before[|order|..]);
    assert m !in Elements(before);
    assert after[|order|..] == before[|order|..] + [m];
    ElementsConcat(before[|order|..], [m]);
    forall i, d | |order| <= i < |after| && Needs(deps, after[i], d)
      ensures d in after[..i] || Reaches(deps, d, after[i])
    {
      if i < |before| {
        assert after[..i] == before[..i];
      } else {
        assert after[..i] == before;
        if d !in before {
          StillOpen(deps, done + {m}, order, done', before, d);
          ReachesItself(deps, m);
        }
      }
    }
  }

  // ---- the whole order

  /** Every mentioned module once, and each after its needs except on a cycle. */
  ghost predicate IsLoadOrder(deps: Deps, order: seq<Path>) {
    && NoDuplicates(order)
    && Elements(order) == Mentioned(deps)
    && NeedsEarlier(deps, order, 0)
  }

  /** `keys` are the listed modules in the order of the map. */
  method ModuleLoadOrder(deps: Deps, keys: seq<Path>) returns (order: seq<Path>)
    requires Elements(keys) == deps.Keys
    ensures IsLoadOrder(deps, order)
  {
    var done: set<Path> := {};
    order := [];
    for i := 0 to |keys|
      invariant Extended(deps, {}, [], done, order)
      invariant forall j :: 0 <= j < i ==> keys[j] in done
    {
      assert keys[i] in Elements(keys);
      NothingOpen(deps, done, order);
      ghost var d1, o1 := done, order;
      done, order := VisitModule(keys[i], deps, done, order);
      ExtendedTwice(deps, {}, [], d1, o1, done, order);
    }
    assert order[0..] == order;
    forall x | x in Mentioned(deps)
      ensures x in done
    {
      if x in deps {
        assert x in Elements(keys);
      }
    }
  }

  // ---- when it is a topological order

  /** Every module comes after everything it needs. */
  predicate IsTopological(deps: Deps, order: seq<Path>) {
    forall i :: 0 <= i < |order| && order[i] in deps ==> forall d :: d in deps[order[i]] ==> d in order[..i]
  }

  /** No module needs, however indirectly, something that needs it. */
  ghost predicate Acyclic(deps: Deps) {
    forall m, d :: Needs(deps, m, d) ==> !Reaches(deps, d, m)
  }

  /** Along a chain of needs a topological order only goes back. */
  lemma {:induction false} ChainGoesBack(deps: Deps, order: seq<Path>, p: seq<Path>, i: nat) returns (j: nat)
    requires IsTopological(deps, order) && Chain(deps, p) && i < |order| && order[i] == p[0]
    ensures j <= i && order[j] == p[|p| - 1]
    decreases |p|
  {
    j := i;
    if |p| > 1 {
      assert Needs(deps, p[0], p[1]);
      var k :| 0 <= k < i && order[k] == p[1];
      forall t | 0 <= t < |p[1..]| - 1
        ensures Needs(deps, p[1..][t], p[1..][t + 1])
      {
        assert Needs(deps, p[t + 1], p[t + 2]);
      }
      j := ChainGoesBack(deps, order, p[1..], k);
    }
  }

  /** The load order is topological exactly when the dependencies have no cycle. */
  lemma TopologicalIffAcyclic(deps: Deps, order: seq<Path>)
    requires IsLoadOrder(deps, order)
    ensures IsTopological(deps, order) <==> Acyclic(deps)
  {
    if Acyclic(deps) {
      forall i, d | 0 <= i < |order| && order[i] in deps && d in deps[order[i]]
        ensures d in order[..i]
      {
        assert Needs(deps, order[i], d);
      }
    }
    if IsTopological(deps, order) {
      forall m, d | Needs(deps, m, d)
        ensures !Reaches(deps, d, m)
      {
        assert m in Elements(order);
        var i :| 0 <= i < |order| && order[i] == m;
        var k :| 0 <= k < i && order[k] == d;
        if Reaches(deps, d, m) {
          var p :| Chain(deps, p) && p[0] == d && p[|p| - 1] == m;
          var j := ChainGoesBack(deps, order, p, k);
        }
      }
    }
  }

  /** Without cycles, stopping after any number of modules leaves no need unmet. */
  lemma PrefixesAreClosed(deps: Deps, order: seq<Path>, n: nat)
    requires IsLoadOrder(deps, order) && Acyclic(deps) && n <= |order|
    ensures forall m, d :: m in order[..n] && Needs(deps, m, d) ==> d in order[..n]
  {
    TopologicalIffAcyclic(deps, order);
    forall m, d | m in order[..n] && Needs(deps, m, d)
      ensures d in order[..n]
    {
      var i :| 0 <= i < n && order[i] == m;
      var k :| 0 <= k < i && order[k] == d;
      assert order[..n][k] == d;
    }
  }
}
