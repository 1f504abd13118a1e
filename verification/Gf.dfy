/** The table-driven field arithmetic of crates/reconstitution/src/gf.rs. */
module Tables {
  import opened Bits
  import opened Field
  import opened Generator
  import opened Polynomial

  /** Multiplying by 3 and reducing, as the table construction does it in 16 bits. */
  lemma TripleInWord(x: byte)
    ensures Xor(x, 2 * x) < 512
    ensures Xor(x, 2 * x) < 256 ==> Xor(x, 2 * x) == Times(3, x)
    ensures Xor(x, 2 * x) >= 256 ==> Xor(Xor(x, 2 * x), POLY) == Times(3, x)
  {
    hide Times, Xor;
    assert Pow2(8) == 256;
    XorTop(x, 2 * x, 8);
    TimesThree(x);
    XorAssociates(x, 2 * x, POLY);
    XorZero(2 * x);
  }

  lemma PowerZero()
    ensures Power(0) == 1
  {
  }

  /** A power not met before leaves the log entries of the earlier ones alone. */
  lemma PowerIsNew(i: nat)
    requires i < 255
    ensures forall j: nat :: j < i ==> Power(j) != Power(i)
  {
    hide Power;
    forall j: nat | j < i
      ensures Power(j) != Power(i)
    {
      PowersDistinct(j, i);
    }
  }

  class Gf {
    const exp: array<byte>
    const log: array<byte>

    ghost predicate Valid()
      reads exp, log
    {
      && exp.Length == 512 && log.Length == 256
      && (forall i :: 0 <= i < 512 ==> exp[i] == Power(i))
      && (forall i :: 0 <= i < 255 ==> log[Power(i)] == i)
    }

    constructor ()
      ensures Valid() && fresh(exp) && fresh(log)
    {
      hide Power, Times, Xor;
      var e, l := new byte[512], new byte[256];
      var x: nat := 1;
      PowerZero();
      for i := 0 to 255
        invariant x == Power(i)
        invariant forall j :: 0 <= j < i ==> e[j] == Power(j)
        invariant forall j :: 0 <= j < i ==> l[Power(j)] == j
      {
        e[i] := x;
        PowerIsNew(i);
        l[x] := i;
        TripleInWord(x);
        PowerNext(i, x);
        x := Xor(x, 2 * x);
        if x / 0x100 % 2 == 1 {
          x := Xor(x, POLY);
        }
      }
      for i := 255 to 512
        invariant forall j :: 0 <= j < i ==> e[j] == Power(j)
        invariant forall j :: 0 <= j < 255 ==> l[Power(j)] == j
      {
        e[i] := e[i - 255];
        PowerPeriodic(i - 255);
      }
      exp, log := e, l;
    }

    /** What the log table holds: the exponent of every nonzero byte. */
    lemma LogInverts(a: byte)
      requires Valid() && a > 0
      ensures log[a] < 255 && Power(log[a]) == a
    {
      EveryByteIsAPower(a);
    }

    lemma ZeroProduct(a: byte, b: byte)
      requires a == 0 || b == 0
      ensures Times(a, b) == 0
    {
      TimesZeroOne(a);
      TimesZeroOne(b);
    }

    lemma ProductByLogs(a: byte, b: byte)
      requires Valid() && a > 0 && b > 0
      ensures log[a] as int + log[b] as int < 512 && exp[log[a] as int + log[b] as int] == Times(a, b)
    {
      hide Power, Times;
      LogInverts(a);
      LogInverts(b);
      PowerAdds(log[a], log[b]);
    }

    lemma QuotientByLogs(a: byte, b: byte)
      requires Valid() && a > 0 && b > 0
      ensures 0 <= log[a] as int + 255 - log[b] as int < 512
      ensures Times(exp[log[a] as int + 255 - log[b] as int], b) == a
    {
      hide Power, Times;
      LogInverts(a);
      LogInverts(b);
      PowerAdds(log[a] as int + 255 - log[b] as int, log[b] as int);
      PowerPeriodic(log[a]);
    }

    function Mul(a: byte, b: byte): (r: byte)
      requires Valid()
      reads exp, log
      ensures r == Times(a, b)
    {
      if a == 0 || b == 0 then
        ZeroProduct(a, b);
        0
      else
        ProductByLogs(a, b);
        exp[log[a] as int + log[b] as int]
    }

    function Div(a: byte, b: byte): (r: byte)
      requires Valid() && b != 0
      reads exp, log
      ensures Times(r, b) == a
    {
      if a == 0 then
        ZeroProduct(a, b);
        0
      else
        QuotientByLogs(a, b);
        exp[log[a] as int + 255 - log[b] as int]
    }

    /** Horner's rule from the highest coefficient down. */
    method Eval(coeffs: seq<byte>, x: byte) returns (acc: byte)
      requires Valid()
      ensures acc == Value(coeffs, x)
    {
      acc := 0;
      for i := |coeffs| downto 0
        invariant acc == Horner(coeffs[i..], x)
      {
        assert coeffs[i..][1..] == coeffs[i + 1..];
        TimesCommutes(acc, x);
        XorCommutes(Mul(acc, x), coeffs[i]);
        acc := Plus(Mul(acc, x), coeffs[i]);
      }
      assert coeffs[0..] == coeffs;
      HornerIsValue(coeffs, x);
    }
  }
}
