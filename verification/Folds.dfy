/** Sequences that hold the same elements in different orders, and folds that cannot tell them apart. */
module Folds {

  function Without<T>(s: seq<T>, p: nat): (r: seq<T>)
    requires p < |s|
    ensures |r| == |s| - 1
  {
    s[..p] + s[p + 1..]
  }

  lemma WithoutLast<T>(s: seq<T>, p: nat)
    requires p < |s|
    ensures p == |s| - 1 ==> Without(s, p) == s[..p]
    ensures p < |s| - 1 ==> Without(s, p) == Without(s[..|s| - 1], p) + [s[|s| - 1]]
  {
  }

  /** Of two arrangements of the same elements, the last of the one can be taken out of the other. */
  lemma TakeOut<T>(a: seq<T>, b: seq<T>) returns (p: nat)
    requires a != [] && multiset(a) == multiset(b)
    ensures p < |b| && b[p] == a[|a| - 1] && multiset(a[..|a| - 1]) == multiset(Without(b, p))
  {
    var n := |a| - 1;
    assert a == a[..n] + [a[n]];
    assert a[n] in multiset(b);
    var q :| 0 <= q < |b| && b[q] == a[n];
    p := q;
    assert b == b[..p] + [b[p]] + b[p + 1..];
    assert multiset(a[..n]) == multiset(a) - multiset{a[n]};
    assert multiset(Without(b, p)) == multiset(b) - multiset{b[p]};
  }

  lemma NoElements<T>(b: seq<T>)
    requires multiset(b) == multiset{}
    ensures b == []
  {
    assert |b| == |multiset(b)|;
  }

  lemma SameElements<T>(a: seq<T>, b: seq<T>)
    requires multiset(a) == multiset(b)
    ensures forall x :: x in a <==> x in b
  {
    forall x
      ensures x in a <==> x in b
    {
      assert x in multiset(a) <==> x in multiset(b);
    }
  }

  /** An element can be moved to the front. */
  lemma MovedToFront<T>(s: seq<T>, p: nat)
    requires p < |s|
    ensures multiset([s[p]] + Without(s, p)) == multiset(s)
  {
    assert s == s[..p] + [s[p]] + s[p + 1..];
  }

  /** Sequences of the same elements, none twice, are arrangements of each other. */
  lemma OnceEach<T>(a: seq<T>, b: seq<T>)
    requires forall i, j :: 0 <= i < j < |a| ==> a[i] != a[j]
    requires forall i, j :: 0 <= i < j < |b| ==> b[i] != b[j]
    requires forall x :: x in a <==> x in b
    ensures multiset(a) == multiset(b)
  {
    forall x
      ensures multiset(a)[x] == multiset(b)[x]
    {
      AtMostOnce(a, x);
      AtMostOnce(b, x);
    }
  }

  lemma {:induction false} AtMostOnce<T>(a: seq<T>, x: T)
    requires forall i, j :: 0 <= i < j < |a| ==> a[i] != a[j]
    ensures multiset(a)[x] == if x in a then 1 else 0
  {
    if a != [] {
      var n := |a| - 1;
      AtMostOnce(a[..n], x);
      assert a == a[..n] + [a[n]];
    }
  }

  function Fold<S, T>(step: (S, T) -> S, s: S, xs: seq<T>): S {
    if xs == [] then s else step(Fold(step, s, xs[..|xs| - 1]), xs[|xs| - 1])
  }

  /** Two steps can be swapped. */
  ghost predicate Commutes<S(!new), T(!new)>(step: (S, T) -> S) {
    forall s, x, y :: step(step(s, x), y) == step(step(s, y), x)
  }

  /** An element can be folded in last. */
  lemma {:induction false} FoldLast<S(!new), T(!new)>(step: (S, T) -> S, s: S, xs: seq<T>, p: nat)
    requires Commutes(step) && p < |xs|
    ensures Fold(step, s, xs) == step(Fold(step, s, Without(xs, p)), xs[p])
    decreases |xs|
  {
    var n := |xs| - 1;
    WithoutLast(xs, p);
    if p < n {
      FoldLast(step, s, xs[..n], p);
      var rest := Without(xs[..n], p);
      assert (rest + [xs[n]])[..|rest|] == rest;
    }
  }

  /** Such a fold has one result whatever the order. */
  lemma {:induction false} FoldAnyOrder<S(!new), T(!new)>(step: (S, T) -> S, s: S, a: seq<T>, b: seq<T>)
    requires Commutes(step) && multiset(a) == multiset(b)
    ensures Fold(step, s, a) == Fold(step, s, b)
    decreases |a|
  {
    hide Without, Commutes;
    if a == [] {
      NoElements(b);
    } else {
      var p := TakeOut(a, b);
      FoldAnyOrder(step, s, a[..|a| - 1], Without(b, p));
      FoldLast(step, s, b, p);
    }
  }

  /** How many elements have the property. */
  function Count<T>(xs: seq<T>, p: T -> bool): nat {
    if xs == [] then 0 else Count(xs[..|xs| - 1], p) + (if p(xs[|xs| - 1]) then 1 else 0)
  }

  /** Where among the first n elements the property holds. */
  function Where<T>(xs: seq<T>, p: T -> bool, n: nat): set<nat>
    requires n <= |xs|
  {
    set i: nat | i < n && p(xs[i])
  }

  lemma {:induction false} CountIs<T>(xs: seq<T>, p: T -> bool, n: nat)
    requires n <= |xs|
    ensures Count(xs[..n], p) == |Where(xs, p, n)|
  {
    if n == 0 {
      assert Where(xs, p, 0) == {};
    } else {
      CountIs(xs, p, n - 1);
      assert xs[..n][..n - 1] == xs[..n - 1];
      assert Where(xs, p, n) == if p(xs[n - 1]) then Where(xs, p, n - 1) + {n - 1} else Where(xs, p, n - 1);
    }
  }

  lemma {:induction false} CountAlike<T>(xs: seq<T>, p: T -> bool, q: T -> bool)
    requires forall x <- xs :: p(x) == q(x)
    ensures Count(xs, p) == Count(xs, q)
  {
    if xs != [] {
      CountAlike(xs[..|xs| - 1], p, q);
    }
  }

  lemma {:induction false} CountWithout<T>(xs: seq<T>, i: nat, p: T -> bool)
    requires i < |xs|
    ensures Count(xs, p) == Count(Without(xs, i), p) + (if p(xs[i]) then 1 else 0)
    decreases |xs|
  {
    var n := |xs| - 1;
    WithoutLast(xs, i);
    if i < n {
      CountWithout(xs[..n], i, p);
      var rest := Without(xs[..n], i);
      assert (rest + [xs[n]])[..|rest|] == rest;
    }
  }

  lemma {:induction false} CountAnyOrder<T>(a: seq<T>, b: seq<T>, p: T -> bool)
    requires multiset(a) == multiset(b)
    ensures Count(a, p) == Count(b, p)
    decreases |a|
  {
    hide Without;
    if a == [] {
      NoElements(b);
    } else {
      var i := TakeOut(a, b);
      CountAnyOrder(a[..|a| - 1], Without(b, i), p);
      CountWithout(b, i, p);
    }
  }

  lemma {:induction false} CountConcat<T>(a: seq<T>, b: seq<T>, p: T -> bool)
    ensures Count(a + b, p) == Count(a, p) + Count(b, p)
    decreases |b|
  {
    if b == [] {
      assert a + b == a;
    } else {
      var n := |b| - 1;
      CountConcat(a, b[..n], p);
      assert (a + b)[..|a| + n] == a + b[..n];
    }
  }

  function Map<T, U>(f: T -> U, xs: seq<T>): (ys: seq<U>)
    ensures |ys| == |xs| && forall i :: 0 <= i < |xs| ==> ys[i] == f(xs[i])
  {
    seq(|xs|, i requires 0 <= i < |xs| => f(xs[i]))
  }

  lemma {:induction false} MapAnyOrder<T, U>(f: T -> U, a: seq<T>, b: seq<T>)
    requires multiset(a) == multiset(b)
    ensures multiset(Map(f, a)) == multiset(Map(f, b))
    decreases |a|
  {
    if a == [] {
      NoElements(b);
    } else {
      var n := |a| - 1;
      var p := TakeOut(a, b);
      MapAnyOrder(f, a[..n], Without(b, p));
      assert Map(f, a) == Map(f, a[..n]) + [f(a[n])];
      MovedToFront(Map(f, b), p);
      assert Without(Map(f, b), p) == Map(f, Without(b, p));
    }
  }
}
