/**
 Polynomials over GF(2^8), lowest coefficient first: evaluation, the factor theorem, how many
 roots a polynomial can have, and Lagrange interpolation. This is the algebra a recovery
 scheme with thresholds stands on.
 */
module Polynomial {
  import opened Bits
  import opened Field
  import opened Generator

  type Poly = seq<byte>

  // ---- division

  lemma InverseExists(b: byte)
    requires b != 0
    ensures exists c: byte :: Times(b, c) == 1
  {
    hide Times, Power;
    EveryByteIsAPower(b);
    var i: nat :| i < 255 && Power(i) == b;
    PowerOrder();
    PowerAdds(i, 255 - i);
    assert Times(b, Power(255 - i)) == 1;
  }

  ghost function Inverse(b: byte): (c: byte)
    requires b != 0
    ensures Times(b, c) == 1
  {
    InverseExists(b);
    var c: byte :| Times(b, c) == 1;
    c
  }

  lemma DivideOut(a: byte, b: byte, c: byte)
    requires b != 0 && Times(c, b) == a
    ensures c == Times(a, Inverse(b))
  {
    hide Times;
    TimesAssociates(c, b, Inverse(b));
    TimesZeroOne(c);
  }

  lemma NoZeroDivisors(a: byte, b: byte)
    ensures Times(a, b) == 0 <==> a == 0 || b == 0
  {
    hide Times;
    TimesZeroOne(a);
    TimesZeroOne(b);
    if b != 0 && Times(a, b) == 0 {
      DivideOut(0, b, a);
      TimesZeroOne(Inverse(b));
    }
  }

  // ---- evaluation

  /** x to the i-th. */
  function Raise(x: byte, i: nat): byte {
    if i == 0 then 1 else Times(x, Raise(x, i - 1))
  }

  /** The value of a polynomial, as the sum of its terms c_i * x^i. */
  function Value(p: Poly, x: byte): byte {
    if p == [] then 0 else Plus(Value(p[..|p| - 1], x), Times(p[|p| - 1], Raise(x, |p| - 1)))
  }

  /** The same value by Horner's rule. */
  function Horner(p: Poly, x: byte): byte {
    if p == [] then 0 else Plus(p[0], Times(x, Horner(p[1..], x)))
  }

  lemma {:induction false} HornerAppend(p: Poly, c: byte, x: byte)
    ensures Horner(p + [c], x) == Plus(Horner(p, x), Times(c, Raise(x, |p|)))
  {
    hide Times, Xor;
    if p == [] {
      TimesZeroOne(x);
      TimesZeroOne(c);
      XorZero(c);
      assert (p + [c])[1..] == [];
    } else {
      var q, r := p[1..], Raise(x, |p| - 1);
      HornerAppend(q, c, x);
      assert (p + [c])[1..] == q + [c];
      TimesPlusRight(x, Horner(q, x), Times(c, r));
      TimesAssociates(x, c, r);
      TimesCommutes(x, c);
      TimesAssociates(c, x, r);
      XorAssociates(p[0], Times(x, Horner(q, x)), Times(c, Raise(x, |p|)));
    }
  }

  lemma {:induction false} HornerIsValue(p: Poly, x: byte)
    ensures Horner(p, x) == Value(p, x)
  {
    hide Times, Xor;
    if p != [] {
      var n := |p| - 1;
      HornerIsValue(p[..n], x);
      HornerAppend(p[..n], p[n], x);
      assert p[..n] + [p[n]] == p;
    }
  }

  lemma HornerAtZero(p: Poly)
    requires p != []
    ensures Horner(p, 0) == p[0]
  {
    hide Times, Xor;
    TimesZeroOne(Horner(p[1..], 0));
    XorZero(p[0]);
  }

  // ---- sums and multiples

  function Add(p: Poly, q: Poly): (s: Poly)
    requires |p| == |q|
    ensures |s| == |p|
  {
    seq(|p|, i requires 0 <= i < |p| => Plus(p[i], q[i]))
  }

  function Scale(p: Poly, c: byte): (s: Poly)
    ensures |s| == |p|
  {
    seq(|p|, i requires 0 <= i < |p| => Times(c, p[i]))
  }

  lemma {:induction false} HornerAdd(p: Poly, q: Poly, x: byte)
    requires |p| == |q|
    ensures Horner(Add(p, q), x) == Plus(Horner(p, x), Horner(q, x))
  {
    hide Times, Xor;
    if p == [] {
      XorZero(0);
    } else {
      var hp, hq := Horner(p[1..], x), Horner(q[1..], x);
      HornerAdd(p[1..], q[1..], x);
      assert Add(p, q)[1..] == Add(p[1..], q[1..]);
      TimesPlusRight(x, hp, hq);
      XorRegroup(p[0], q[0], Times(x, hp), Times(x, hq));
    }
  }

  lemma {:induction false} HornerScale(p: Poly, c: byte, x: byte)
    ensures Horner(Scale(p, c), x) == Times(c, Horner(p, x))
  {
    hide Times, Xor;
    if p == [] {
      TimesZeroOne(c);
    } else {
      var h := Horner(p[1..], x);
      HornerScale(p[1..], c, x);
      assert Scale(p, c)[1..] == Scale(p[1..], c);
      TimesPlusRight(c, p[0], Times(x, h));
      TimesAssociates(c, x, h);
      TimesAssociates(x, c, h);
      TimesCommutes(c, x);
    }
  }

  // ---- the factor theorem

  /** The quotient of p by (x - r). */
  function Quotient(p: Poly, r: byte): (q: Poly)
    ensures |q| == if p == [] then 0 else |p| - 1
  {
    if |p| <= 1 then [] else [Horner(p[1..], r)] + Quotient(p[1..], r)
  }

  lemma {:induction false} FactorTheorem(p: Poly, r: byte, x: byte)
    ensures Horner(p, x) == Plus(Times(Plus(x, r), Horner(Quotient(p, r), x)), Horner(p, r))
  {
    hide Times, Xor;
    var d := Plus(x, r);
    if |p| <= 1 {
      TimesZeroOne(d);
      if p == [] {
        XorZero(0);
      } else {
        assert p[1..] == [];
        TimesZeroOne(x);
        TimesZeroOne(r);
        XorZero(Plus(p[0], 0));
      }
    } else {
      var t := p[1..];
      var q, v := Horner(Quotient(t, r), x), Horner(t, r);
      FactorTheorem(t, r, x);
      assert Quotient(p, r)[1..] == Quotient(t, r);
      // x * H(t, x) = x * (d * q + v) and d * (v + x * q) = d * v + d * x * q
      TimesPlusRight(x, Times(d, q), v);
      TimesPlusRight(d, v, Times(x, q));
      TimesAssociates(x, d, q);
      TimesAssociates(d, x, q);
      TimesCommutes(x, d);
      TimesPlusLeft(x, r, v);
      Rearrange(p[0], Times(d, Times(x, q)), Times(x, v), Times(r, v));
    }
  }

  lemma Rearrange(a: byte, b: byte, c: byte, d: byte)
    ensures Plus(a, Plus(b, c)) == Plus(Plus(Plus(c, d), b), Plus(a, d))
  {
    hide Xor;
    XorCommutes(Plus(Plus(c, d), b), Plus(a, d));
    XorAssociates(a, d, Plus(Plus(c, d), b));
    XorAssociates(d, Plus(c, d), b);
    XorCommutes(c, d);
    XorCancels(d, c);
    XorCommutes(b, c);
  }

  predicate Distinct(xs: seq<byte>) {
    forall i, j :: 0 <= i < j < |xs| ==> xs[i] != xs[j]
  }

  predicate IsZero(p: Poly) {
    forall i :: 0 <= i < |p| ==> p[i] == 0
  }

  lemma {:induction false} ZeroQuotient(p: Poly, r: byte)
    requires Horner(p, r) == 0 && IsZero(Quotient(p, r))
    ensures IsZero(p)
  {
    hide Times, Xor;
    if p != [] {
      var t := p[1..];
      if t != [] {
        var q := Quotient(p, r);
        assert q[0] == Horner(t, r) && q[1..] == Quotient(t, r);
        forall i | 0 <= i < |Quotient(t, r)|
          ensures Quotient(t, r)[i] == 0
        {
          assert q[i + 1] == 0;
        }
        ZeroQuotient(t, r);
      }
      assert Horner(t, r) == 0;
      TimesZeroOne(r);
      XorZero(p[0]);
      forall i | 0 <= i < |p|
        ensures p[i] == 0
      {
        if i > 0 {
          assert t[i - 1] == 0;
        }
      }
    }
  }

  /** A polynomial with as many distinct roots as coefficients is zero. */
  lemma {:induction false} RootsBound(p: Poly, xs: seq<byte>)
    requires |xs| == |p| && Distinct(xs)
    requires forall i :: 0 <= i < |xs| ==> Horner(p, xs[i]) == 0
    ensures IsZero(p)
    decreases |p|
  {
    hide Times, Xor, Horner;
    if p != [] {
      var r := xs[0];
      var q, rest := Quotient(p, r), xs[1..];
      forall i | 0 <= i < |rest|
        ensures Horner(q, rest[i]) == 0
      {
        var x := xs[i + 1];
        FactorTheorem(p, r, x);
        var d := Plus(x, r);
        XorZero(Times(d, Horner(q, x)));
        XorDiffers(x, r);
        NoZeroDivisors(d, Horner(q, x));
      }
      assert Distinct(rest) by {
        forall i, j | 0 <= i < j < |rest|
          ensures rest[i] != rest[j]
        {
          assert xs[i + 1] != xs[j + 1];
        }
      }
      RootsBound(q, rest);
      ZeroQuotient(p, r);
    }
  }

  /** k values at k distinct points determine k coefficients. */
  lemma Uniqueness(p: Poly, q: Poly, xs: seq<byte>)
    requires |p| == |q| == |xs| && Distinct(xs)
    requires forall i :: 0 <= i < |xs| ==> Horner(p, xs[i]) == Horner(q, xs[i])
    ensures p == q
  {
    hide Times, Xor, Horner;
    var d := Add(p, q);
    forall i | 0 <= i < |xs|
      ensures Horner(d, xs[i]) == 0
    {
      HornerAdd(p, q, xs[i]);
      XorSelf(Horner(p, xs[i]));
    }
    RootsBound(d, xs);
    forall i | 0 <= i < |p|
      ensures p[i] == q[i]
    {
      assert d[i] == Plus(p[i], q[i]);
      XorDiffers(p[i], q[i]);
    }
  }

  // ---- Lagrange interpolation

  /** The product of (t - xs[m]) over the first n points, leaving out point j. */
  function Others(xs: seq<byte>, j: nat, t: byte, n: nat): byte
    requires n <= |xs|
  {
    if n == 0 then 1
    else if n - 1 == j then Others(xs, j, t, n - 1)
    else Times(Others(xs, j, t, n - 1), Plus(t, xs[n - 1]))
  }

  lemma {:induction false} OthersVanish(xs: seq<byte>, j: nat, i: nat, n: nat)
    requires i < n <= |xs| && i != j
    ensures Others(xs, j, xs[i], n) == 0
  {
    hide Times, Xor;
    var before := Others(xs, j, xs[i], n - 1);
    TimesZeroOne(before);
    XorSelf(xs[i]);
    if i < n - 1 {
      OthersVanish(xs, j, i, n - 1);
      TimesZeroOne(Plus(xs[i], xs[n - 1]));
    }
  }

  lemma {:induction false} OthersNonzero(xs: seq<byte>, j: nat, n: nat)
    requires n <= |xs| && j < |xs| && Distinct(xs)
    ensures Others(xs, j, xs[j], n) != 0
  {
    hide Times, Xor;
    if n > 0 {
      OthersNonzero(xs, j, n - 1);
      if n - 1 != j {
        XorDiffers(xs[j], xs[n - 1]);
        NoZeroDivisors(Others(xs, j, xs[j], n - 1), Plus(xs[j], xs[n - 1]));
      }
    }
  }

  /** The interpolant through the first n of the points, evaluated at t. */
  ghost function Lagrange(xs: seq<byte>, ys: seq<byte>, t: byte, n: nat): byte
    requires n <= |xs| == |ys| && Distinct(xs)
  {
    if n == 0 then 0 else Plus(Lagrange(xs, ys, t, n - 1), Times(ys[n - 1], Basis(xs, n - 1, t)))
  }

  /** The j-th basis polynomial: 1 at xs[j] and 0 at every other point. */
  ghost function Basis(xs: seq<byte>, j: nat, t: byte): byte
    requires j < |xs| && Distinct(xs)
  {
    OthersNonzero(xs, j, |xs|);
    Times(Others(xs, j, t, |xs|), Inverse(Others(xs, j, xs[j], |xs|)))
  }

  lemma BasisAtPoints(xs: seq<byte>, j: nat, i: nat)
    requires j < |xs| && i < |xs| && Distinct(xs)
    ensures Basis(xs, j, xs[i]) == if i == j then 1 else 0
  {
    hide Times, Xor, Others;
    OthersNonzero(xs, j, |xs|);
    if i != j {
      OthersVanish(xs, j, i, |xs|);
      TimesZeroOne(Inverse(Others(xs, j, xs[j], |xs|)));
    }
  }

  lemma {:induction false} LagrangeAtPoints(xs: seq<byte>, ys: seq<byte>, i: nat, n: nat)
    requires n <= |xs| == |ys| && i < |xs| && Distinct(xs)
    ensures Lagrange(xs, ys, xs[i], n) == if i < n then ys[i] else 0
  {
    hide Times, Xor, Basis;
    if n > 0 {
      LagrangeAtPoints(xs, ys, i, n - 1);
      BasisAtPoints(xs, n - 1, i);
      TimesZeroOne(ys[n - 1]);
      XorZero(ys[i]);
      XorZero(0);
    }
  }

  // The interpolant is itself a polynomial with one coefficient per point.

  /** (x - r) times p. */
  function TimesLinear(p: Poly, r: byte): (q: Poly)
    ensures |q| == |p| + 1
  {
    Add([0] + p, Scale(p, r) + [0])
  }

  lemma HornerTimesLinear(p: Poly, r: byte, x: byte)
    ensures Horner(TimesLinear(p, r), x) == Times(Horner(p, x), Plus(x, r))
  {
    hide Times, Xor, Raise;
    var h := Horner(p, x);
    HornerAdd([0] + p, Scale(p, r) + [0], x);
    assert ([0] + p)[1..] == p;
    XorZero(Times(x, h));
    HornerAppend(Scale(p, r), 0, x);
    TimesZeroOne(Raise(x, |p|));
    HornerScale(p, r, x);
    XorZero(Times(r, h));
    TimesPlusRight(h, x, r);
    TimesCommutes(x, h);
    TimesCommutes(r, h);
  }

  function OthersPoly(xs: seq<byte>, j: nat, n: nat): (p: Poly)
    requires n <= |xs|
    ensures |p| == if j < n then n else n + 1
  {
    if n == 0 then [1]
    else if n - 1 == j then OthersPoly(xs, j, n - 1)
    else TimesLinear(OthersPoly(xs, j, n - 1), xs[n - 1])
  }

  lemma {:induction false} HornerOthersPoly(xs: seq<byte>, j: nat, n: nat, t: byte)
    requires n <= |xs|
    ensures Horner(OthersPoly(xs, j, n), t) == Others(xs, j, t, n)
  {
    hide Times, Xor, TimesLinear;
    if n == 0 {
      assert [1][1..] == [];
      TimesZeroOne(t);
      XorZero(1);
    } else {
      HornerOthersPoly(xs, j, n - 1, t);
      HornerTimesLinear(OthersPoly(xs, j, n - 1), xs[n - 1], t);
    }
  }

  ghost function LagrangePoly(xs: seq<byte>, ys: seq<byte>, n: nat): (p: Poly)
    requires n <= |xs| == |ys| && Distinct(xs)
    ensures |p| == |xs|
  {
    if n == 0 then seq(|xs|, _ => 0)
    else
      OthersNonzero(xs, n - 1, |xs|);
      var c := Times(ys[n - 1], Inverse(Others(xs, n - 1, xs[n - 1], |xs|)));
      Add(LagrangePoly(xs, ys, n - 1), Scale(OthersPoly(xs, n - 1, |xs|), c))
  }

  lemma {:induction false} HornerZeros(n: nat, t: byte)
    ensures Horner(seq(n, _ => 0), t) == 0
  {
    hide Times, Xor;
    if n > 0 {
      HornerZeros(n - 1, t);
      var z: Poly := seq(n, _ => 0);
      assert z[1..] == seq(n - 1, _ => 0);
      TimesZeroOne(t);
      XorZero(0);
    }
  }

  lemma {:induction false} HornerLagrangePoly(xs: seq<byte>, ys: seq<byte>, n: nat, t: byte)
    requires n <= |xs| == |ys| && Distinct(xs)
    ensures Horner(LagrangePoly(xs, ys, n), t) == Lagrange(xs, ys, t, n)
  {
    hide Times, Xor, Others, Horner, OthersPoly, Add, Scale;
    if n == 0 {
      HornerZeros(|xs|, t);
    } else {
      HornerLagrangePoly(xs, ys, n - 1, t);
      OthersNonzero(xs, n - 1, |xs|);
      var o, d := OthersPoly(xs, n - 1, |xs|), Inverse(Others(xs, n - 1, xs[n - 1], |xs|));
      var c := Times(ys[n - 1], d);
      HornerAdd(LagrangePoly(xs, ys, n - 1), Scale(o, c), t);
      HornerScale(o, c, t);
      HornerOthersPoly(xs, n - 1, |xs|, t);
      TimesAssociates(ys[n - 1], d, Others(xs, n - 1, t, |xs|));
      TimesCommutes(d, Others(xs, n - 1, t, |xs|));
    }
  }

  /** Interpolating a polynomial's own values gives the polynomial back, at every argument. */
  lemma LagrangeRecovers(p: Poly, xs: seq<byte>, ys: seq<byte>, t: byte)
    requires |p| == |xs| == |ys| && Distinct(xs)
    requires forall i :: 0 <= i < |xs| ==> ys[i] == Horner(p, xs[i])
    ensures Lagrange(xs, ys, t, |xs|) == Horner(p, t)
  {
    hide Horner, Lagrange, LagrangePoly;
    var q := LagrangePoly(xs, ys, |xs|);
    forall i | 0 <= i < |xs|
      ensures Horner(q, xs[i]) == Horner(p, xs[i])
    {
      HornerLagrangePoly(xs, ys, |xs|, xs[i]);
      LagrangeAtPoints(xs, ys, i, |xs|);
    }
    Uniqueness(q, p, xs);
    HornerLagrangePoly(xs, ys, |xs|, t);
  }

  /** Any values at k distinct points are those of some polynomial with k coefficients. */
  lemma InterpolantExists(xs: seq<byte>, ys: seq<byte>) returns (p: Poly)
    requires |xs| == |ys| && Distinct(xs)
    ensures |p| == |xs|
    ensures forall i :: 0 <= i < |xs| ==> Horner(p, xs[i]) == ys[i]
  {
    hide Horner, Lagrange, LagrangePoly;
    p := LagrangePoly(xs, ys, |xs|);
    forall i | 0 <= i < |xs|
      ensures Horner(p, xs[i]) == ys[i]
    {
      HornerLagrangePoly(xs, ys, |xs|, xs[i]);
      LagrangeAtPoints(xs, ys, i, |xs|);
    }
  }
}
