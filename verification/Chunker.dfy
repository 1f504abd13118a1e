/**
 Content-defined chunking (crates/lifestream/src/chunker.rs). The hash is a 64-bit word with
 wrapping addition; the gear table is a parameter, so everything here holds for any table.
 */
module Chunking {
  import opened Bits

  const MIN: nat := 2 * 1024
  const NORMAL: nat := 8 * 1024
  const MAX: nat := 64 * 1024

  const MASK_S: nat := 0x0003_5907_0353_0000
  const MASK_L: nat := 0x0000_d903_0353_0000

  // The bits each mask tests, by place.
  const STRICT_BITS: set<nat> := {16, 17, 20, 22, 24, 25, 32, 33, 34, 40, 43, 44, 46, 48, 49}
  const LOOSE_BITS: set<nat> := {16, 17, 20, 22, 24, 25, 32, 33, 40, 43, 44, 46, 47}

  const WRAP: nat := 0x1_0000_0000_0000_0000

  type Gear = g: seq<nat> | |g| == 256 witness seq(256, _ => 0)

  datatype Chunk = Chunk(start: nat, end: nat)

  class Chunker {
    const gear: Gear

    constructor (table: Gear)
      ensures gear == table
    {
      gear := table;
    }

    /** The hash after the bytes from MIN up to i. */
    function Hash(src: seq<byte>, i: nat): nat
      requires i <= |src|
    {
      if i <= MIN then 0 else (2 * Hash(src, i - 1) + gear[src[i - 1]]) % WRAP
    }

    /** The test the cut loop makes at index i, strict before NORMAL and loose after. */
    predicate Hit(src: seq<byte>, i: nat)
      requires i < |src|
    {
      And(Hash(src, i + 1), if i < NORMAL then MASK_S else MASK_L) == 0
    }

    /** How far a cut can reach. */
    function Limit(src: seq<byte>): nat {
      if |src| > MAX then MAX else |src|
    }

    /** The first hit at or after i, or the limit. */
    function FirstHit(src: seq<byte>, i: nat): (len: nat)
      requires i <= Limit(src)
      ensures i <= len <= Limit(src)
      ensures forall j :: i <= j < len ==> !Hit(src, j)
      ensures len < Limit(src) ==> Hit(src, len)
      decreases Limit(src) - i
    {
      if i == Limit(src) || Hit(src, i) then i else FirstHit(src, i + 1)
    }

    function CutLength(src: seq<byte>): (len: nat)
      ensures len <= |src| && len <= MAX
      ensures src != [] ==> len > 0
      ensures len < |src| ==> len >= MIN
    {
      if |src| <= MIN then |src| else FirstHit(src, MIN)
    }

    method Cut(src: seq<byte>) returns (len: nat)
      ensures len == CutLength(src)
    {
      hide And, FirstHit;
      var n := |src|;
      if n <= MIN {
        return n;
      }
      if n > MAX {
        n := MAX;
      }
      var center := if n < NORMAL then n else NORMAL;
      var hash: nat := 0;
      var i := MIN;
      while i < center
        invariant MIN <= i <= center
        invariant hash == Hash(src, i)
        invariant forall j :: MIN <= j < i ==> !Hit(src, j)
      {
        hash := (2 * hash + gear[src[i]]) % WRAP;
        if And(hash, MASK_S) == 0 {
          FirstHitUnique(src, MIN, i);
          return i;
        }
        i := i + 1;
      }
      while i < n
        invariant center <= i <= n
        invariant hash == Hash(src, i)
        invariant forall j :: MIN <= j < i ==> !Hit(src, j)
      {
        hash := (2 * hash + gear[src[i]]) % WRAP;
        if And(hash, MASK_L) == 0 {
          FirstHitUnique(src, MIN, i);
          return i;
        }
        i := i + 1;
      }
      FirstHitUnique(src, MIN, n);
      return n;
    }

    /** The cut is at the first hit from 2 KiB on, at 64 KiB if there is none before, or at the end of what there is. */
    lemma CutIs(src: seq<byte>, len: nat)
      ensures len == CutLength(src) <==>
        if |src| <= 2048 then len == |src|
        else
          && 2048 <= len <= |src| && len <= 65536
          && (forall j :: 2048 <= j < len ==> !Hit(src, j))
          && (len == |src| || len == 65536 || Hit(src, len))
    {
      hide FirstHit, Hit;
      if |src| > 2048 {
        var cut := CutLength(src);
        assert cut == FirstHit(src, 2048);
        if 2048 <= len < cut {
          assert !Hit(src, len);
        }
      }
    }

    /** The hit in bits: fifteen of the hash are zero up to 8 KiB, and thirteen after. */
    lemma HitInBits(src: seq<byte>, i: nat)
      requires i < |src|
      ensures Hit(src, i) <==>
        if i < 8192 then
          forall k <- STRICT_BITS :: ZeroBit(Hash(src, i + 1), k)
        else
          forall k <- LOOSE_BITS :: ZeroBit(Hash(src, i + 1), k)
    {
      hide Hash, And, ZeroBit, Ones;
      if i < 8192 {
        StrictOnes();
        OnesTest(Hash(src, i + 1), MASK_S, 0);
      } else {
        LooseOnes();
        OnesTest(Hash(src, i + 1), MASK_L, 0);
      }
    }

    /** The hash starts at zero and takes up the bytes from 2 KiB on, one after the other, in 64 bits. */
    lemma HashTakesUp(src: seq<byte>, i: nat)
      requires i < |src|
      ensures i < 2048 ==> Hash(src, i + 1) == 0
      ensures 2048 <= i ==> Hash(src, i + 1) == (Hash(src, i) * 2 + gear[src[i]]) % 0x1_0000_0000_0000_0000
    {
    }

    /** The chunks from a position on. */
    function ChunksFrom(data: seq<byte>, pos: nat): seq<Chunk>
      requires pos <= |data|
      decreases |data| - pos
    {
      if pos == |data| then []
      else
        var end := pos + CutLength(data[pos..]);
        [Chunk(pos, end)] + ChunksFrom(data, end)
    }

    lemma ChunksEnd(data: seq<byte>)
      ensures ChunksFrom(data, |data|) == []
    {
    }

    lemma ChunksNext(data: seq<byte>, pos: nat)
      requires pos < |data|
      ensures
        var end := pos + CutLength(data[pos..]);
        end <= |data| && ChunksFrom(data, pos) == [Chunk(pos, end)] + ChunksFrom(data, end)
    {
      hide CutLength;
    }

    method Split(data: seq<byte>) returns (out: seq<Chunk>)
      ensures out == ChunksFrom(data, 0)
    {
      hide ChunksFrom, CutLength;
      out := [];
      var pos := 0;
      ChunksEnd(data);
      while pos < |data|
        invariant pos <= |data|
        invariant out + ChunksFrom(data, pos) == ChunksFrom(data, 0)
      {
        var len := Cut(data[pos..]);
        ChunksNext(data, pos);
        out := out + [Chunk(pos, pos + len)];
        pos := pos + len;
      }
    }

    // ---- the chunks tile the data

    /** The chunks run from `start` to `end` without gap or overlap. */
    predicate Tiles(cs: seq<Chunk>, start: nat, end: nat) {
      if cs == [] then start == end
      else cs[0].start == start && start < cs[0].end <= start + MAX && Tiles(cs[1..], cs[0].end, end)
    }

    /** All chunks but the last are at least 2 KiB long, and all at most 64. */
    predicate Sized(cs: seq<Chunk>) {
      && (forall i :: 0 <= i < |cs| ==> cs[i].end <= cs[i].start + 65536)
      && (forall i :: 0 <= i < |cs| - 1 ==> cs[i].end >= cs[i].start + 2048)
    }

    lemma {:induction false} ChunksTile(data: seq<byte>, pos: nat)
      requires pos <= |data|
      ensures Tiles(ChunksFrom(data, pos), pos, |data|) && Sized(ChunksFrom(data, pos))
      decreases |data| - pos
    {
      hide CutLength;
      if pos < |data| {
        var end := pos + CutLength(data[pos..]);
        CutBounds(data[pos..]);
        ChunksTile(data, end);
        assert ChunksFrom(data, pos)[1..] == ChunksFrom(data, end);
      }
    }

    // ---- a chunk depends on nothing beyond the byte at its end

    lemma {:induction false} HashOfPrefix(a: seq<byte>, b: seq<byte>, i: nat)
      requires i <= |a| && i <= |b| && a[..i] == b[..i]
      ensures Hash(a, i) == Hash(b, i)
    {
      if i > MIN {
        assert a[..i - 1] == a[..i][..i - 1] && b[..i - 1] == b[..i][..i - 1];
        HashOfPrefix(a, b, i - 1);
        assert a[i - 1] == a[..i][i - 1] && b[i - 1] == b[..i][i - 1];
      }
    }

    /** The cut is the first hit, however long the search for it was allowed to be. */
    lemma {:induction false} FirstHitUnique(src: seq<byte>, i: nat, len: nat)
      requires i <= len <= Limit(src)
      requires forall j :: i <= j < len ==> !Hit(src, j)
      requires len == Limit(src) || Hit(src, len)
      ensures FirstHit(src, i) == len
      decreases len - i
    {
      if i < len {
        FirstHitUnique(src, i + 1, len);
      }
    }

    lemma CutOfPrefix(a: seq<byte>, b: seq<byte>, p: nat)
      requires p <= |a| && p <= |b| && a[..p] == b[..p] && CutLength(a) < p
      ensures CutLength(b) == CutLength(a)
    {
      hide Hash, FirstHit;
      var len := CutLength(a);
      forall j | MIN <= j <= len
        ensures Hit(a, j) == Hit(b, j)
      {
        assert a[..j + 1] == a[..p][..j + 1] && b[..j + 1] == b[..p][..j + 1];
        HashOfPrefix(a, b, j + 1);
      }
      FirstHitUnique(b, MIN, len);
    }

    /** Inputs that agree on their first p bytes have the same chunks ending before p. */
    lemma {:induction false} CommonPrefixChunks(a: seq<byte>, b: seq<byte>, p: nat, pos: nat, c: Chunk)
      requires pos <= p <= |a| && p <= |b| && a[..p] == b[..p]
      requires c in ChunksFrom(a, pos) && c.end < p
      ensures c in ChunksFrom(b, pos)
      decreases |a| - pos
    {
      hide Hash, FirstHit, CutLength;
      if pos < |a| {
        var end := pos + CutLength(a[pos..]);
        if end < p {
          assert a[pos..][..p - pos] == a[..p][pos..] && b[pos..][..p - pos] == b[..p][pos..];
          CutOfPrefix(a[pos..], b[pos..], p - pos);
          if c != Chunk(pos, end) {
            CommonPrefixChunks(a, b, p, end, c);
          }
        } else {
          EndsAreLater(a, end, c);
        }
      }
    }

    lemma {:induction false} EndsAreLater(data: seq<byte>, pos: nat, c: Chunk)
      requires pos <= |data|
      ensures c in ChunksFrom(data, pos) ==> c.start >= pos && c.end > pos
      decreases |data| - pos
    {
      if pos < |data| {
        EndsAreLater(data, pos + CutLength(data[pos..]), c);
      }
    }

    // ---- after a common boundary the chunks coincide

    function Shift(cs: seq<Chunk>, d: nat): (s: seq<Chunk>)
      ensures |s| == |cs|
    {
      seq(|cs|, i requires 0 <= i < |cs| => Chunk(cs[i].start + d, cs[i].end + d))
    }

    /** Chunking looks only ahead: from a boundary on it is chunking of the rest, moved. */
    lemma {:induction false} ChunksOfRest(data: seq<byte>, u: nat, pos: nat)
      requires u <= |data| && pos <= |data| - u
      ensures ChunksFrom(data, u + pos) == Shift(ChunksFrom(data[u..], pos), u)
      decreases |data| - u - pos
    {
      hide CutLength;
      if u + pos < |data| {
        assert data[u..][pos..] == data[u + pos..];
        var end := pos + CutLength(data[u + pos..]);
        ChunksOfRest(data, u, end);
        var rest := ChunksFrom(data[u..], end);
        assert Shift([Chunk(pos, end)] + rest, u) == [Chunk(u + pos, u + end)] + Shift(rest, u);
      }
    }

    /** u is where some chunk of the data ends, or its start. */
    predicate Boundary(data: seq<byte>, u: nat) {
      u == 0 || exists c :: c in ChunksFrom(data, 0) && c.end == u
    }

    lemma {:induction false} SplitAtBoundary(data: seq<byte>, pos: nat, c: Chunk) returns (before: seq<Chunk>)
      requires pos <= |data| && c in ChunksFrom(data, pos)
      ensures c.end <= |data| && ChunksFrom(data, pos) == before + ChunksFrom(data, c.end)
      ensures Tiles(before, pos, c.end)
      decreases |data| - pos
    {
      hide CutLength;
      var end := pos + CutLength(data[pos..]);
      var rest := ChunksFrom(data, end);
      CutBounds(data[pos..]);
      if c == Chunk(pos, end) {
        before := [c];
        assert before[1..] == [];
      } else {
        var b := SplitAtBoundary(data, end, c);
        before := [Chunk(pos, end)] + b;
        assert before[1..] == b;
        assert before + ChunksFrom(data, c.end) == [Chunk(pos, end)] + rest;
      }
    }

    lemma CutBounds(src: seq<byte>)
      requires src != []
      ensures 0 < CutLength(src) <= |src| && CutLength(src) <= MAX && (CutLength(src) < |src| ==> CutLength(src) >= MIN)
    {
    }

    /**
     Once two inputs share a boundary from which their remaining bytes are equal, all later
     boundaries coincide up to the shift: both chunkings end in the same list.
     */
    lemma Resynchronize(a: seq<byte>, b: seq<byte>, u: nat, v: nat)
      returns (beforeA: seq<Chunk>, beforeB: seq<Chunk>, rest: seq<Chunk>)
      requires u <= |a| && v <= |b| && Boundary(a, u) && Boundary(b, v) && a[u..] == b[v..]
      ensures ChunksFrom(a, 0) == beforeA + Shift(rest, u) && Tiles(beforeA, 0, u)
      ensures ChunksFrom(b, 0) == beforeB + Shift(rest, v) && Tiles(beforeB, 0, v)
      ensures Tiles(rest, 0, |a| - u)
    {
      hide CutLength, ChunksFrom;
      rest := ChunksFrom(a[u..], 0);
      ChunksTile(a[u..], 0);
      ChunksOfRest(a, u, 0);
      ChunksOfRest(b, v, 0);
      beforeA, beforeB := [], [];
      if u > 0 {
        var c :| c in ChunksFrom(a, 0) && c.end == u;
        beforeA := SplitAtBoundary(a, 0, c);
      }
      if v > 0 {
        var c :| c in ChunksFrom(b, 0) && c.end == v;
        beforeB := SplitAtBoundary(b, 0, c);
      }
    }

    // ---- the hash is a sum over a fixed window

    /** The gear values of a window, the last with weight 1 and each earlier one doubled. */
    function WindowSum(w: seq<byte>): nat {
      if w == [] then 0 else 2 * WindowSum(w[..|w| - 1]) + gear[w[|w| - 1]]
    }

    /** Modulo 2^k, the hash forgets everything before its last k bytes. */
    lemma {:induction false} HashIsWindowSum(src: seq<byte>, i: nat, n: nat, k: nat) returns (h: nat)
      requires n <= k <= 64 && MIN + n <= i <= |src|
      ensures Hash(src, i) % Pow2(k) == (Pow2(n) * h + WindowSum(src[i - n..i])) % Pow2(k)
    {
      hide WindowSum, Hash, Pow2;
      if n == 0 {
        h := Hash(src, i);
        assert src[i - n..i] == [];
        EmptyWindow(h);
      } else {
        h := HashIsWindowSum(src, i - 1, n - 1, k);
        assert i - 1 - (n - 1) == i - n;
        WindowStep(src, i, n, k, h);
      }
    }

    /** One byte more, hashed and in the window. */
    lemma WindowStep(src: seq<byte>, i: nat, n: nat, k: nat, h: nat)
      requires 0 < n <= k <= 64 && MIN + n <= i <= |src|
      requires Hash(src, i - 1) % Pow2(k) == (Pow2(n - 1) * h + WindowSum(src[i - n..i - 1])) % Pow2(k)
      ensures Hash(src, i) % Pow2(k) == (Pow2(n) * h + WindowSum(src[i - n..i])) % Pow2(k)
    {
      hide WindowSum, Hash, Pow2;
      var s, g, w := WindowSum(src[i - n..i - 1]), gear[src[i - 1]], src[i - n..i];
      assert w[..n - 1] == src[i - n..i - 1] && w[n - 1] == src[i - 1];
      WindowUnfolds(w);
      HashUnfolds(src, i);
      WrapKeepsLow(2 * Hash(src, i - 1) + g, k);
      DoubleMod(Hash(src, i - 1), Pow2(n - 1) * h + s, g, Pow2(k));
      DoubleWindow(n, h, s, g);
    }

    lemma DoubleWindow(n: nat, h: nat, s: nat, g: nat)
      requires n > 0
      ensures 2 * (Pow2(n - 1) * h + s) + g == Pow2(n) * h + (2 * s + g)
    {
      var m := Pow2(n - 1);
      assert Pow2(n) == 2 * m;
      DoubleProduct(m, h);
    }

    lemma DoubleProduct(m: nat, h: nat)
      ensures (2 * m) * h == 2 * (m * h)
    {
    }

    lemma EmptyWindow(h: nat)
      ensures Pow2(0) * h + WindowSum([]) == h
    {
    }

    lemma WindowUnfolds(w: seq<byte>)
      requires w != []
      ensures WindowSum(w) == 2 * WindowSum(w[..|w| - 1]) + gear[w[|w| - 1]]
    {
    }

    lemma HashUnfolds(src: seq<byte>, i: nat)
      requires MIN < i <= |src|
      ensures Hash(src, i) == (2 * Hash(src, i - 1) + gear[src[i - 1]]) % WRAP
    {
    }

    /** Under a mask below 2^k the hash is the sum over its last k bytes. */
    lemma MaskedWindow(src: seq<byte>, i: nat, k: nat, mask: nat)
      requires k <= 64 && mask < Pow2(k) && MIN + k <= i <= |src|
      ensures And(Hash(src, i), mask) == And(WindowSum(src[i - k..i]), mask)
    {
      hide WindowSum, Hash, And;
      var p, s := Pow2(k), WindowSum(src[i - k..i]);
      var h := HashIsWindowSum(src, i, k, k);
      ModOfMultiple(h, p, s);
      AndLow(Hash(src, i), mask, k);
      AndLow(s, mask, k);
    }

    lemma MaskBounds()
      ensures MASK_S < Pow2(50) && MASK_L < Pow2(48)
    {
      Pow2Values();
      Pow2Adds(32, 16);
      assert Pow2(50) == 4 * Pow2(48);
    }

    /**
     Once 50 bytes past MIN have been hashed, the strict test at i is a function of the last
     50 bytes alone, and once 48 have, the loose test is a function of the last 48.
     */
    lemma RollingWindow(src: seq<byte>, i: nat)
      requires i < |src|
      ensures MIN + 49 <= i < NORMAL ==> (Hit(src, i) <==> And(WindowSum(src[i - 49..i + 1]), MASK_S) == 0)
      ensures NORMAL <= i ==> (Hit(src, i) <==> And(WindowSum(src[i - 47..i + 1]), MASK_L) == 0)
    {
      hide WindowSum, Hash, And, Pow2;
      MaskBounds();
      if MIN + 49 <= i < NORMAL {
        MaskedWindow(src, i + 1, 50, MASK_S);
      } else if NORMAL <= i {
        MaskedWindow(src, i + 1, 48, MASK_L);
      }
    }

    /** So two cuts, wherever they started, test alike at equal windows. */
    lemma EqualWindowsTestAlike(a: seq<byte>, i: nat, b: seq<byte>, j: nat)
      requires MIN + 49 <= i < |a| && MIN + 49 <= j < |b| && (i < NORMAL <==> j < NORMAL)
      requires a[i - 49..i + 1] == b[j - 49..j + 1]
      ensures Hit(a, i) <==> Hit(b, j)
    {
      hide WindowSum, Hash, And, Hit;
      RollingWindow(a, i);
      RollingWindow(b, j);
      assert a[i - 47..i + 1] == a[i - 49..i + 1][2..] && b[j - 47..j + 1] == b[j - 49..j + 1][2..];
    }
  }

  /** The word after k halvings. */
  function Halved(word: nat, k: nat): nat {
    if k == 0 then word else Halved(word, k - 1) / 2
  }

  predicate ZeroBit(word: nat, k: nat) {
    Halved(word, k) % 2 == 0
  }

  /** The places of the ones of a word, counted from j. */
  function Ones(word: nat, j: nat): set<nat> {
    if word == 0 then {} else (if word % 2 == 1 then {j} else {}) + Ones(word / 2, j + 1)
  }

  /** The places of the ones of a hexadecimal digit. */
  function OnesOfNibble(d: nat, j: nat): set<nat> {
    (if d % 2 == 1 then {j} else {}) + ((if d / 2 % 2 == 1 then {j + 1} else {})
    + ((if d / 4 % 2 == 1 then {j + 2} else {}) + (if d / 8 % 2 == 1 then {j + 3} else {})))
  }

  lemma OnesOfDigit(m: nat, d: nat, j: nat)
    requires d < 16
    ensures Ones(16 * m + d, j) == OnesOfNibble(d, j) + Ones(m, j + 4)
  {
    hide Ones;
    OnesHalved(8 * m, d, j);
    OnesHalved(4 * m, d / 2, j + 1);
    OnesHalved(2 * m, d / 4, j + 2);
    OnesHalved(m, d / 8, j + 3);
    HalvedDigit(d);
    var a, b, c := Ones(8 * m + d / 2, j + 1), Ones(4 * m + d / 4, j + 2), Ones(2 * m + d / 8, j + 3);
    assert Ones(16 * m + d, j) == (if d % 2 == 1 then {j} else {}) + a;
    assert a == (if d / 2 % 2 == 1 then {j + 1} else {}) + b;
    assert b == (if d / 4 % 2 == 1 then {j + 2} else {}) + c;
    assert c == (if d / 8 % 2 == 1 then {j + 3} else {}) + Ones(m, j + 4);
  }

  lemma HalvedDigit(d: nat)
    requires d < 16
    ensures d / 2 / 2 == d / 4 && d / 4 / 2 == d / 8 && d / 8 / 2 == 0
  {
  }

  lemma OnesHalved(m: nat, d: nat, j: nat)
    ensures Ones(2 * m + d, j) == (if d % 2 == 1 then {j} else {}) + Ones(m + d / 2, j + 1)
  {
    assert (2 * m + d) / 2 == m + d / 2 && (2 * m + d) % 2 == d % 2;
  }

  lemma NoOnes(j: nat)
    ensures Ones(0, j) == {}
  {
  }

  /** The digits the masks are made of. */
  lemma NibblesAre(j: nat)
    ensures OnesOfNibble(0, j) == {} && OnesOfNibble(3, j) == {j, j + 1} && OnesOfNibble(5, j) == {j, j + 2}
    ensures OnesOfNibble(7, j) == {j, j + 1, j + 2} && OnesOfNibble(9, j) == {j, j + 3} && OnesOfNibble(13, j) == {j, j + 2, j + 3}
  {
  }

  lemma DigitInFront(m: nat, d: nat, j: nat, rest: set<nat>, all: set<nat>)
    requires d < 16 && Ones(m, j + 4) == rest && OnesOfNibble(d, j) + rest == all
    ensures Ones(16 * m + d, j) == all
  {
    OnesOfDigit(m, d, j);
  }

  lemma OnesMoved(word: nat, j: nat)
    ensures Ones(0x1_0000 * word, j) == Ones(word, j + 16)
  {
    hide Ones;
    OnesOfDigit(0x1000 * word, 0, j);
    OnesOfDigit(0x100 * word, 0, j + 4);
    OnesOfDigit(0x10 * word, 0, j + 8);
    OnesOfDigit(word, 0, j + 12);
  }

  /** The low half of both masks. */
  lemma LowOnes(m: nat, rest: set<nat>)
    requires Ones(m, 32) == rest
    ensures Ones(0x1_0000_0000 * m + 0x353_0000, 0) == {16, 17, 20, 22, 24, 25} + rest
  {
    hide Ones, OnesOfNibble;
    NibblesAre(16);
    NibblesAre(20);
    NibblesAre(24);
    NibblesAre(28);
    DigitInFront(m, 0, 28, rest, rest);
    DigitInFront(0x10 * m, 3, 24, rest, {24, 25} + rest);
    DigitInFront(0x100 * m + 0x3, 5, 20, {24, 25} + rest, {20, 22} + ({24, 25} + rest));
    DigitInFront(0x1000 * m + 0x35, 3, 16, {20, 22} + ({24, 25} + rest), {16, 17} + ({20, 22} + ({24, 25} + rest)));
    OnesMoved(0x1_0000 * m + 0x353, 0);
  }

  lemma StrictOnes()
    ensures Ones(MASK_S, 0) == STRICT_BITS
  {
    hide Ones, OnesOfNibble;
    NoOnes(52);
    NibblesAre(48);
    DigitInFront(0, 3, 48, {}, {48, 49});
    NibblesAre(44);
    DigitInFront(0x3, 5, 44, {48, 49}, {44, 46, 48, 49});
    NibblesAre(40);
    DigitInFront(0x35, 9, 40, {44, 46, 48, 49}, {40, 43, 44, 46, 48, 49});
    NibblesAre(36);
    DigitInFront(0x359, 0, 36, {40, 43, 44, 46, 48, 49}, {40, 43, 44, 46, 48, 49});
    NibblesAre(32);
    DigitInFront(0x3590, 7, 32, {40, 43, 44, 46, 48, 49}, {32, 33, 34, 40, 43, 44, 46, 48, 49});
    LowOnes(0x3_5907, {32, 33, 34, 40, 43, 44, 46, 48, 49});
  }

  lemma LooseOnes()
    ensures Ones(MASK_L, 0) == LOOSE_BITS
  {
    hide Ones, OnesOfNibble;
    NoOnes(48);
    NibblesAre(44);
    DigitInFront(0, 13, 44, {}, {44, 46, 47});
    NibblesAre(40);
    DigitInFront(0xd, 9, 40, {44, 46, 47}, {40, 43, 44, 46, 47});
    NibblesAre(36);
    DigitInFront(0xd9, 0, 36, {40, 43, 44, 46, 47}, {40, 43, 44, 46, 47});
    NibblesAre(32);
    DigitInFront(0xd90, 3, 32, {40, 43, 44, 46, 47}, {32, 33, 40, 43, 44, 46, 47});
    LowOnes(0xd903, {32, 33, 40, 43, 44, 46, 47});
  }

  /** A word, halved j times, has no one where the mask has one. */
  lemma {:induction false} OnesTest(word: nat, mask: nat, j: nat)
    ensures And(Halved(word, j), mask) == 0 <==> forall k <- Ones(mask, j) :: ZeroBit(word, k)
    decreases mask
  {
    hide And;
    AndUnfolds(Halved(word, j), mask);
    if mask != 0 {
      OnesTest(word, mask / 2, j + 1);
      assert ZeroBit(word, j) <==> Halved(word, j) % 2 == 0;
      hide ZeroBit;
      var all, rest := Ones(mask, j), Ones(mask / 2, j + 1);
      hide Ones;
      assert forall k :: k in all <==> k in rest || (k == j && mask % 2 == 1);
    }
  }

  lemma AndUnfolds(a: nat, b: nat)
    ensures b == 0 ==> And(a, b) == 0
    ensures And(a, b) == 0 <==> !(a % 2 == 1 && b % 2 == 1) && And(a / 2, b / 2) == 0
  {
    if a != 0 && b != 0 {
      BitProduct(a % 2, b % 2);
    }
  }

  lemma BitProduct(x: nat, y: nat)
    requires x < 2 && y < 2
    ensures x * y == if x == 1 && y == 1 then 1 else 0
  {
  }

  /** Doubling and adding respects congruence. */
  lemma DoubleMod(a: nat, b: nat, g: nat, p: nat)
    requires p > 0 && a % p == b % p
    ensures (2 * a + g) % p == (2 * b + g) % p
  {
    DoubleParts(a, g, p);
    DoubleParts(b, g, p);
    ModOfMultiple(2 * (a / p), p, 2 * (a % p) + g);
    ModOfMultiple(2 * (b / p), p, 2 * (b % p) + g);
  }

  lemma DoubleParts(a: nat, g: nat, p: nat)
    requires p > 0
    ensures a / p >= 0 && 2 * a + g == p * (2 * (a / p)) + (2 * (a % p) + g)
  {
    SwapFactors(p, a / p);
  }

  lemma SwapFactors(p: int, x: int)
    ensures p * (2 * x) == 2 * (p * x)
  {
  }

  /** Wrapping at 64 bits does not disturb the low k bits. */
  lemma WrapKeepsLow(x: nat, k: nat)
    requires k <= 64
    ensures (x % WRAP) % Pow2(k) == x % Pow2(k)
  {
    hide Pow2;
    var p, m := Pow2(k), Pow2(64 - k);
    Pow2Values();
    Pow2Adds(k, 64 - k);
    var q := x / WRAP;
    assert x == p * (m * q) + x % WRAP by {
      assert x == WRAP * q + x % WRAP;
      assert WRAP * q == p * m * q;
      Associate(p, m, q);
    }
    ModOfMultiple(m * q, p, x % WRAP);
  }

  lemma Associate(a: nat, b: nat, c: nat)
    ensures a * b * c == a * (b * c)
  {
  }

  /** A mask below 2^k only sees the low k bits. */
  lemma {:induction false} AndLow(a: nat, mask: nat, k: nat)
    requires mask < Pow2(k)
    ensures And(a, mask) == And(a % Pow2(k), mask)
  {
    if k > 0 {
      var p := Pow2(k - 1);
      AndLow(a / 2, mask / 2, k - 1);
      HalveMod(a, p);
    }
  }

  lemma HalveMod(a: nat, p: nat)
    requires p > 0
    ensures a % (2 * p) / 2 == (a / 2) % p && a % (2 * p) % 2 == a % 2
  {
    var q, r := (a / 2) / p, (a / 2) % p;
    assert a == q * (2 * p) + (2 * r + a % 2);
    DivUnique(a, 2 * p, q, 2 * r + a % 2);
  }
}
