/**
 Splitting a secret into k-of-n recovery shares and putting it together again
 (crates/reconstitution/src/lib.rs). The random coefficients are a parameter, and so is the
 integrity tag, which the source takes from a keyed hash.
 */
module Reconstitution {
  import opened Outcomes
  import opened Bits
  import opened Field
  import opened Polynomial
  import opened Tables

  type TagFunction = seq<byte> -> seq<byte>

  datatype Share = Share(id: seq<byte>, k: byte, x: byte, tag: seq<byte>, y: seq<byte>)

  datatype Error = EmptySecret | ZeroCount | ThresholdAboveCount | NoShares
                 | MixedSet | ZeroIndex | Duplicate(x: byte) | Insufficient(have: nat, need: byte) | Integrity

  // ---- splitting

  /** The polynomial hiding each secret byte in its constant term. */
  function Coefficients(secret: seq<byte>, random: seq<Poly>): (cs: seq<Poly>)
    requires |random| == |secret|
    ensures |cs| == |secret|
  {
    seq(|secret|, b requires 0 <= b < |secret| => [secret[b]] + random[b])
  }

  /** Every polynomial sampled at x. */
  function Sample(cs: seq<Poly>, x: byte): (y: seq<byte>)
    ensures |y| == |cs|
  {
    seq(|cs|, b requires 0 <= b < |cs| => Value(cs[b], x))
  }

  method Split(gf: Gf, secret: seq<byte>, k: byte, n: byte, id: seq<byte>, random: seq<Poly>, tagOf: TagFunction)
    returns (r: Result<seq<Share>, Error>)
    requires gf.Valid()
    requires k > 0 ==> |random| == |secret| && forall b :: 0 <= b < |random| ==> |random[b]| == k as int - 1
    ensures r.Ok? <==> secret != [] && 0 < k <= n
    ensures secret == [] ==> r == Err(EmptySecret)
    ensures secret != [] && (k == 0 || n == 0) ==> r == Err(ZeroCount)
    ensures secret != [] && 0 < n < k ==> r == Err(ThresholdAboveCount)
    ensures r.Ok? ==> |r.value| == n
    ensures r.Ok? ==> forall i :: 0 <= i < n as int ==>
      r.value[i] == Share(id, k, i + 1, tagOf(secret), Sample(Coefficients(secret, random), i + 1))
  {
    if secret == [] {
      return Err(EmptySecret);
    }
    if k == 0 || n == 0 {
      return Err(ZeroCount);
    }
    if k > n {
      return Err(ThresholdAboveCount);
    }
    hide Sample;
    var tag := tagOf(secret);
    var cs := Coefficients(secret, random);
    var shares := [];
    for x := 1 to n as int + 1
      invariant |shares| == x - 1
      invariant forall i :: 0 <= i < |shares| ==> shares[i] == Share(id, k, i + 1, tag, Sample(cs, i + 1))
    {
      var y := SampleAt(gf, cs, x);
      shares := shares + [Share(id, k, x, tag, y)];
    }
    return Ok(shares);
  }

  method SampleAt(gf: Gf, cs: seq<Poly>, x: byte) returns (y: seq<byte>)
    requires gf.Valid()
    ensures y == Sample(cs, x)
  {
    hide Value;
    y := [];
    for b := 0 to |cs|
      invariant |y| == b && forall c :: 0 <= c < b ==> y[c] == Value(cs[c], x)
    {
      var v := gf.Eval(cs[b], x);
      y := y + [v];
    }
  }

  // ---- combining

  function Xs(shares: seq<Share>): (xs: seq<byte>)
    ensures |xs| == |shares|
  {
    seq(|shares|, i requires 0 <= i < |shares| => shares[i].x)
  }

  /** The values the shares carry for secret byte b. */
  function Column(shares: seq<Share>, b: nat): (ys: seq<byte>)
    requires forall i :: 0 <= i < |shares| ==> b < |shares[i].y|
    ensures |ys| == |shares|
  {
    seq(|shares|, i requires 0 <= i < |shares| => shares[i].y[b])
  }

  predicate SameSet(s: Share, t: Share) {
    s.id == t.id && s.k == t.k && s.tag == t.tag && |s.y| == |t.y|
  }

  /** What is wrong with share i, given the shares before it. */
  function Problem(shares: seq<Share>, i: nat): Option<Error>
    requires i < |shares|
  {
    if !SameSet(shares[i], shares[0]) then Some(MixedSet)
    else if shares[i].x == 0 then Some(ZeroIndex)
    else if shares[i].x in Xs(shares[..i]) then Some(Duplicate(shares[i].x))
    else None
  }

  /** Every share is of one split, with an index of its own. */
  predicate WellFormed(shares: seq<Share>) {
    forall i :: 0 <= i < |shares| ==> Problem(shares, i).None?
  }

  /** The shares of a well-formed set agree in all but index and values, and no two have one index, nor has one zero. */
  lemma WellFormedMeans(shares: seq<Share>)
    ensures WellFormed(shares) <==>
      && Distinct(Xs(shares))
      && (forall i :: 0 <= i < |shares| ==>
            && shares[i].id == shares[0].id && shares[i].k == shares[0].k && shares[i].tag == shares[0].tag
            && |shares[i].y| == |shares[0].y| && shares[i].x != 0)
  {
    forall i, j | 0 <= i < j < |shares|
      ensures Xs(shares[..j])[i] == Xs(shares)[i] == shares[i].x
    {
    }
    forall i | 0 <= i < |shares|
      ensures Problem(shares, i).None? <==>
        SameSet(shares[i], shares[0]) && shares[i].x != 0 && forall j :: 0 <= j < i ==> Xs(shares)[j] != Xs(shares)[i]
    {
      ProblemIs(shares, i);
      forall j | 0 <= j < i
        ensures Xs(shares)[j] == shares[j].x
      {
      }
    }
  }

  /** What each complaint is about, in the order they are made. */
  lemma ProblemIs(shares: seq<Share>, i: nat)
    requires i < |shares|
    ensures
      var s, first, p := shares[i], shares[0], Problem(shares, i);
      var mixed := s.id != first.id || s.k != first.k || s.tag != first.tag || |s.y| != |first.y|;
      var again := exists j :: 0 <= j < i && shares[j].x == s.x;
      && (p == Some(MixedSet) <==> mixed)
      && (p == Some(ZeroIndex) <==> !mixed && s.x == 0)
      && (p == Some(Duplicate(s.x)) <==> !mixed && s.x != 0 && again)
      && (p == None <==> !mixed && s.x != 0 && !again)
  {
    var xs := Xs(shares[..i]);
    assert forall j :: 0 <= j < i ==> xs[j] == shares[j].x;
    if j :| 0 <= j < i && shares[j].x == shares[i].x {
      assert xs[j] == shares[i].x;
    }
  }

  /** Interpolation at zero, byte by byte, over the first k shares. */
  ghost function Secret(pts: seq<Share>, len: nat): (s: seq<byte>)
    requires Distinct(Xs(pts)) && forall i :: 0 <= i < |pts| ==> |pts[i].y| == len
    ensures |s| == len
  {
    seq(len, b requires 0 <= b < len => Lagrange(Xs(pts), Column(pts, b), 0, |pts|))
  }

  /** The products over the other points: of their abscissas, and of their differences from the i-th. */
  method Products(gf: Gf, xs: seq<byte>, i: nat) returns (num: byte, den: byte)
    requires gf.Valid() && i < |xs|
    ensures num == Others(xs, i, 0, |xs|) && den == Others(xs, i, xs[i], |xs|)
  {
    hide Times, Xor;
    num, den := 1, 1;
    for j := 0 to |xs|
      invariant num == Others(xs, i, 0, j)
      invariant den == Others(xs, i, xs[i], j)
    {
      if i != j {
        XorZero(xs[j]);
        num := gf.Mul(num, xs[j]);
        den := gf.Mul(den, Plus(xs[i], xs[j]));
      }
    }
  }

  method InterpolateAtZero(gf: Gf, xs: seq<byte>, ys: seq<byte>) returns (acc: byte)
    requires gf.Valid() && |xs| == |ys| && Distinct(xs)
    ensures acc == Lagrange(xs, ys, 0, |xs|)
  {
    hide Times, Xor, Others;
    acc := 0;
    for i := 0 to |xs|
      invariant acc == Lagrange(xs, ys, 0, i)
    {
      var num, den := Products(gf, xs, i);
      OthersNonzero(xs, i, |xs|);
      DivideOut(num, den, gf.Div(num, den));
      acc := Plus(acc, gf.Mul(ys[i], gf.Div(num, den)));
    }
  }

  method Combine(gf: Gf, shares: seq<Share>, tagOf: TagFunction) returns (r: Result<seq<byte>, Error>)
    requires gf.Valid()
    ensures shares == [] ==> r == Err(NoShares)
    ensures shares != [] && !WellFormed(shares) ==>
      exists i :: 0 <= i < |shares| && Problem(shares, i).Some? && r == Err(Problem(shares, i).value)
               && forall j :: 0 <= j < i ==> Problem(shares, j).None?
    ensures shares != [] && WellFormed(shares) && |shares| < shares[0].k as int ==>
      r == Err(Insufficient(|shares|, shares[0].k))
    ensures shares != [] && WellFormed(shares) && |shares| >= shares[0].k as int ==>
      && CanCombine(shares)
      && var secret := Secret(shares[..shares[0].k], |shares[0].y|);
         r == if tagOf(secret) == shares[0].tag then Ok(secret) else Err(Integrity)
  {
    if shares == [] {
      return Err(NoShares);
    }
    var first := shares[0];
    var seen: set<byte> := {};
    for i := 0 to |shares|
      invariant forall j :: 0 <= j < i ==> Problem(shares, j).None?
      invariant seen == set x | x in Xs(shares[..i])
    {
      var s := shares[i];
      if s.id != first.id || s.k != first.k || s.tag != first.tag || |s.y| != |first.y| {
        assert Problem(shares, i) == Some(MixedSet);
        return Err(MixedSet);
      }
      if s.x == 0 {
        assert Problem(shares, i) == Some(ZeroIndex);
        return Err(ZeroIndex);
      }
      if s.x in seen {
        assert Problem(shares, i) == Some(Duplicate(s.x));
        return Err(Duplicate(s.x));
      }
      seen := seen + {s.x};
      assert Xs(shares[..i + 1]) == Xs(shares[..i]) + [s.x];
    }
    if |shares| < first.k as int {
      return Err(Insufficient(|shares|, first.k));
    }
    CombineIsPossible(shares);
    var pts := shares[..first.k];
    var xs := Xs(pts);
    var secret := [];
    for b := 0 to |first.y|
      invariant |secret| == b
      invariant forall c :: 0 <= c < b ==> secret[c] == Lagrange(xs, Column(pts, c), 0, |pts|)
    {
      var v := InterpolateAtZero(gf, xs, Column(pts, b));
      secret := secret + [v];
    }
    assert secret == Secret(pts, |first.y|);
    if tagOf(secret) != first.tag {
      return Err(Integrity);
    }
    return Ok(secret);
  }

  /** The first k shares can be interpolated. */
  predicate CanCombine(shares: seq<Share>) {
    && shares != [] && shares[0].k as int <= |shares|
    && Distinct(Xs(shares[..shares[0].k]))
    && forall i :: 0 <= i < shares[0].k as int ==> |shares[i].y| == |shares[0].y|
  }

  lemma CombineIsPossible(shares: seq<Share>)
    requires shares != [] && WellFormed(shares) && shares[0].k as int <= |shares|
    ensures CanCombine(shares)
  {
    WellFormedMeans(shares);
    var k := shares[0].k;
    forall i, j | 0 <= i < j < k as int
      ensures Xs(shares[..k])[i] != Xs(shares[..k])[j]
    {
      assert Xs(shares)[i] != Xs(shares)[j];
    }
  }

  // ---- what the scheme is for

  /** The share a split hands out at index x. */
  function ShareAt(secret: seq<byte>, k: byte, id: seq<byte>, random: seq<Poly>, tagOf: TagFunction, x: byte): Share
    requires |random| == |secret|
  {
    Share(id, k, x, tagOf(secret), Sample(Coefficients(secret, random), x))
  }

  /**
   Any k or more shares of one split, at distinct nonzero indices and in any order, rebuild
   the secret: what Combine computes from them is accepted by the tag and is the secret.
   */
  lemma AnyThresholdRecovers(secret: seq<byte>, k: byte, id: seq<byte>, random: seq<Poly>, tagOf: TagFunction,
                             indices: seq<byte>, shares: seq<Share>)
    requires k > 0 && |random| == |secret| && forall b :: 0 <= b < |random| ==> |random[b]| == k as int - 1
    requires Distinct(indices) && 0 !in indices && |indices| >= k as int && |shares| == |indices|
    requires forall i :: 0 <= i < |shares| ==> shares[i] == ShareAt(secret, k, id, random, tagOf, indices[i])
    ensures WellFormed(shares) && CanCombine(shares) && shares[0].k == k && shares[0].tag == tagOf(secret)
    ensures Secret(shares[..k], |shares[0].y|) == secret
  {
    assert Xs(shares) == indices;
    WellFormedMeans(shares);
    CombineIsPossible(shares);
    var pts, cs := shares[..k], Coefficients(secret, random);
    forall b | 0 <= b < |secret|
      ensures Lagrange(Xs(pts), Column(pts, b), 0, |pts|) == secret[b]
    {
      forall i | 0 <= i < |pts|
        ensures Column(pts, b)[i] == Horner(cs[b], Xs(pts)[i])
      {
        HornerIsValue(cs[b], indices[i]);
      }
      LagrangeRecovers(cs[b], Xs(pts), Column(pts, b), 0);
      HornerAtZero(cs[b]);
    }
    assert Secret(pts, |secret|) == secret;
  }

  /** Fewer than k shares of a split are turned away. */
  lemma BelowThresholdIsRefused(secret: seq<byte>, k: byte, id: seq<byte>, random: seq<Poly>, tagOf: TagFunction,
                                indices: seq<byte>, shares: seq<Share>)
    requires |random| == |secret|
    requires Distinct(indices) && 0 !in indices && 0 < |indices| < k as int && |shares| == |indices|
    requires forall i :: 0 <= i < |shares| ==> shares[i] == ShareAt(secret, k, id, random, tagOf, indices[i])
    ensures WellFormed(shares) && |shares| < shares[0].k as int
  {
    assert Xs(shares) == indices;
    WellFormedMeans(shares);
  }

  /**
   k - 1 shares reveal nothing: whatever they show for a byte, every value of that byte is
   consistent with it, and with exactly one choice of the random coefficients.
   */
  lemma BelowThresholdRevealsNothing(xs: seq<byte>, ys: seq<byte>, guess: byte) returns (random: Poly)
    requires |xs| == |ys| && Distinct(xs) && 0 !in xs
    ensures |random| == |xs| && Explains(guess, random, xs, ys)
    ensures forall other: Poly :: |other| == |xs| && Explains(guess, other, xs, ys) ==> other == random
  {
    var points, values := [0] + xs, [guess] + ys;
    assert Distinct(points) by {
      forall i, j | 0 <= i < j < |points|
        ensures points[i] != points[j]
      {
        assert xs[j - 1] in xs;
      }
    }
    var p := InterpolantExists(points, values);
    HornerAtZero(p);
    assert Horner(p, points[0]) == values[0];
    random := p[1..];
    assert p == [guess] + random;
    forall i | 0 <= i < |xs|
      ensures Value([guess] + random, xs[i]) == ys[i]
    {
      assert Horner(p, points[i + 1]) == values[i + 1];
      HornerIsValue(p, xs[i]);
    }
    forall other: Poly | |other| == |xs| && Explains(guess, other, xs, ys)
      ensures other == random
    {
      SameExplanation(guess, other, random, xs, ys);
    }
  }

  /** The random coefficients put the secret byte's polynomial through the given points. */
  predicate Explains(secret: byte, random: Poly, xs: seq<byte>, ys: seq<byte>)
    requires |xs| == |ys|
  {
    forall i :: 0 <= i < |xs| ==> Value([secret] + random, xs[i]) == ys[i]
  }

  lemma SameExplanation(secret: byte, a: Poly, b: Poly, xs: seq<byte>, ys: seq<byte>)
    requires |a| == |b| == |xs| == |ys| && Distinct(xs) && 0 !in xs
    requires Explains(secret, a, xs, ys) && Explains(secret, b, xs, ys)
    ensures a == b
  {
    var p, q, points := [secret] + a, [secret] + b, [0] + xs;
    forall i | 0 <= i < |points|
      ensures Horner(p, points[i]) == Horner(q, points[i])
    {
      if i == 0 {
        HornerAtZero(p);
        HornerAtZero(q);
      } else {
        HornerIsValue(p, xs[i - 1]);
        HornerIsValue(q, xs[i - 1]);
      }
    }
    forall i, j | 0 <= i < j < |points|
      ensures points[i] != points[j]
    {
      assert xs[j - 1] in xs;
    }
    Uniqueness(p, q, points);
    assert a == p[1..] && b == q[1..];
  }

  /** k - 1 random coefficients for each byte of the secret. */
  predicate Fits(random: seq<Poly>, secret: seq<byte>, k: byte) {
    |random| == |secret| && forall b :: 0 <= b < |random| ==> |random[b]| == k as int - 1
  }

  /** The shares are those a split of the secret hands out at the indices, tags included. */
  predicate SplitGives(secret: seq<byte>, k: byte, id: seq<byte>, random: seq<Poly>, tagOf: TagFunction,
                       indices: seq<byte>, shares: seq<Share>)
    requires |random| == |secret|
  {
    |shares| == |indices| && forall i :: 0 <= i < |shares| ==> shares[i] == ShareAt(secret, k, id, random, tagOf, indices[i])
  }

  /**
   k - 1 whole shares reveal the tag of the secret and its length, and nothing more: a guess of that
   length has the shares exactly if it has the tag, and then with exactly one choice of coefficients.
   */
  lemma BelowThresholdRevealsTheTag(secret: seq<byte>, k: byte, id: seq<byte>, random: seq<Poly>, tagOf: TagFunction,
                                    indices: seq<byte>, shares: seq<Share>, guess: seq<byte>)
    returns (other: seq<Poly>)
    requires k > 0 && Fits(random, secret, k) && SplitGives(secret, k, id, random, tagOf, indices, shares)
    requires Distinct(indices) && 0 !in indices && |indices| == k as int - 1 && |guess| == |secret|
    ensures Fits(other, guess, k)
    ensures tagOf(guess) == tagOf(secret) ==> SplitGives(guess, k, id, other, tagOf, indices, shares)
    ensures forall choice :: Fits(choice, guess, k) && SplitGives(guess, k, id, choice, tagOf, indices, shares) ==>
      choice == other && (shares != [] ==> tagOf(guess) == tagOf(secret))
  {
    hide Explains, ShareAt, Distinct;
    assert forall i :: 0 <= i < |shares| ==> |shares[i].y| == |guess| by { WholeShares(secret, k, id, random, tagOf, indices, shares); }
    other := ChoicePerByte(k, indices, shares, guess);
    if tagOf(guess) == tagOf(secret) {
      GuessFits(secret, k, id, random, tagOf, indices, shares, guess, other);
    }
    forall choice | Fits(choice, guess, k) && SplitGives(guess, k, id, choice, tagOf, indices, shares)
      ensures choice == other && (shares != [] ==> tagOf(guess) == tagOf(secret))
    {
      forall b | 0 <= b < |guess|
        ensures choice[b] == other[b]
      {
        ExplainedBySamples(guess, k, id, choice, tagOf, indices, shares, b);
      }
      SameTags(secret, guess, k, id, random, choice, tagOf, indices, shares);
    }
  }

  lemma WholeShares(secret: seq<byte>, k: byte, id: seq<byte>, random: seq<Poly>, tagOf: TagFunction,
                    indices: seq<byte>, shares: seq<Share>)
    requires |random| == |secret| && SplitGives(secret, k, id, random, tagOf, indices, shares)
    ensures forall i :: 0 <= i < |shares| ==> |shares[i].y| == |secret|
  {
  }

  lemma SameTags(secret: seq<byte>, guess: seq<byte>, k: byte, id: seq<byte>, random: seq<Poly>, choice: seq<Poly>,
                 tagOf: TagFunction, indices: seq<byte>, shares: seq<Share>)
    requires |random| == |secret| && SplitGives(secret, k, id, random, tagOf, indices, shares)
    requires |choice| == |guess| && SplitGives(guess, k, id, choice, tagOf, indices, shares)
    ensures shares != [] ==> tagOf(guess) == tagOf(secret)
  {
    if shares != [] {
      assert shares[0].tag == tagOf(guess);
    }
  }

  /** Byte by byte, the one choice of coefficients that has the shares' values. */
  lemma ChoicePerByte(k: byte, indices: seq<byte>, shares: seq<Share>, guess: seq<byte>) returns (other: seq<Poly>)
    requires k > 0 && Distinct(indices) && 0 !in indices && |indices| == |shares| == k as int - 1
    requires forall i :: 0 <= i < |shares| ==> |shares[i].y| == |guess|
    ensures Fits(other, guess, k)
    ensures forall b :: 0 <= b < |guess| ==> Explains(guess[b], other[b], indices, Column(shares, b))
    ensures forall b, p: Poly :: 0 <= b < |guess| && |p| == k as int - 1 && Explains(guess[b], p, indices, Column(shares, b)) ==> p == other[b]
  {
    hide Explains, Distinct;
    other := [];
    for b := 0 to |guess|
      invariant |other| == b
      invariant forall c :: 0 <= c < b ==> |other[c]| == k as int - 1 && Explains(guess[c], other[c], indices, Column(shares, c))
      invariant forall c, p: Poly :: 0 <= c < b && |p| == k as int - 1 && Explains(guess[c], p, indices, Column(shares, c)) ==> p == other[c]
    {
      var p := BelowThresholdRevealsNothing(indices, Column(shares, b), guess[b]);
      other := other + [p];
    }
  }

  lemma GuessFits(secret: seq<byte>, k: byte, id: seq<byte>, random: seq<Poly>, tagOf: TagFunction,
                  indices: seq<byte>, shares: seq<Share>, guess: seq<byte>, other: seq<Poly>)
    requires |random| == |secret| == |guess| == |other| && SplitGives(secret, k, id, random, tagOf, indices, shares)
    requires tagOf(guess) == tagOf(secret) && forall i :: 0 <= i < |shares| ==> |shares[i].y| == |guess|
    requires forall b :: 0 <= b < |guess| ==> Explains(guess[b], other[b], indices, Column(shares, b))
    ensures SplitGives(guess, k, id, other, tagOf, indices, shares)
  {
    hide Explains, Sample, Coefficients;
    forall i | 0 <= i < |shares|
      ensures shares[i] == ShareAt(guess, k, id, other, tagOf, indices[i])
    {
      SamplesExplain(guess, other, indices, shares, i);
    }
  }

  lemma SamplesExplain(guess: seq<byte>, other: seq<Poly>, indices: seq<byte>, shares: seq<Share>, i: nat)
    requires |other| == |guess| && |shares| == |indices| && i < |shares|
    requires forall j :: 0 <= j < |shares| ==> |shares[j].y| == |guess|
    requires forall b :: 0 <= b < |guess| ==> Explains(guess[b], other[b], indices, Column(shares, b))
    ensures shares[i].y == Sample(Coefficients(guess, other), indices[i])
  {
    hide Value;
    var y := Sample(Coefficients(guess, other), indices[i]);
    forall b | 0 <= b < |guess|
      ensures shares[i].y[b] == y[b]
    {
      assert Explains(guess[b], other[b], indices, Column(shares, b));
      assert Value([guess[b]] + other[b], indices[i]) == Column(shares, b)[i];
    }
  }

  lemma ExplainedBySamples(guess: seq<byte>, k: byte, id: seq<byte>, choice: seq<Poly>, tagOf: TagFunction,
                           indices: seq<byte>, shares: seq<Share>, b: nat)
    requires Fits(choice, guess, k) && SplitGives(guess, k, id, choice, tagOf, indices, shares) && b < |guess|
    ensures forall i :: 0 <= i < |shares| ==> |shares[i].y| == |guess|
    ensures Explains(guess[b], choice[b], indices, Column(shares, b))
  {
    hide Value;
    forall i | 0 <= i < |indices|
      ensures Value([guess[b]] + choice[b], indices[i]) == Column(shares, b)[i]
    {
      assert shares[i] == ShareAt(guess, k, id, choice, tagOf, indices[i]);
    }
  }
}
