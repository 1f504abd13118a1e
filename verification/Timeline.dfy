/** The activity timeline of Glass (crates/glass/src/model.rs): buckets over a window, and where an event lands. */
module Timeline {
  import opened Outcomes

  datatype Window = Window(start: nat, end: nat)

  /** Saturating: a window that ends before it starts spans nothing. */
  function Span(w: Window): nat {
    if w.end >= w.start then w.end - w.start else 0
  }

  predicate InWindow(w: Window, t: nat) {
    w.start <= t <= w.end
  }

  datatype Bucket = Bucket(start: nat, end: nat, grants: nat, uses: nat, denials: nat, revokes: nat)

  datatype EventKind = GrantKind | UseKind | DenyKind | RevokeKind

  function Total(b: Bucket): nat {
    b.grants + b.uses + b.denials + b.revokes
  }

  /** span * num / den, in arithmetic wide enough not to wrap. */
  function Scale(span: nat, num: nat, den: nat): nat {
    if den == 0 then 0 else span * num / den
  }

  function EmptyBucket(w: Window, buckets: nat, i: nat): Bucket {
    Bucket(w.start + Scale(Span(w), i, buckets), w.start + Scale(Span(w), i + 1, buckets), 0, 0, 0, 0)
  }

  function Buckets(w: Window, buckets: nat): (bs: seq<Bucket>)
    ensures |bs| == buckets
  {
    seq(buckets, i requires 0 <= i < buckets => EmptyBucket(w, buckets, i))
  }

  method MakeBuckets(w: Window, buckets: nat) returns (bs: seq<Bucket>)
    ensures bs == Buckets(w, buckets)
  {
    bs := [];
    for i := 0 to buckets
      invariant |bs| == i && forall k :: 0 <= k < i ==> bs[k] == EmptyBucket(w, buckets, k)
    {
      bs := bs + [EmptyBucket(w, buckets, i)];
    }
  }

  /** off * buckets / span, the slot of a time off from the start. */
  function Slot(off: nat, buckets: nat, span: nat): nat
    requires span > 0
  {
    SlotIsNat(off, buckets, span);
    off * buckets / span
  }

  lemma SlotIsNat(off: nat, buckets: nat, span: nat)
    requires span > 0
    ensures off * buckets / span >= 0
  {
    ProductMonotonic(0, off, buckets);
    DivIsNat(off * buckets, span);
  }

  lemma DivIsNat(x: nat, d: nat)
    requires d > 0
    ensures x / d >= 0
  {
  }

  function BucketIndex(w: Window, buckets: nat, t: nat): Option<nat> {
    if buckets == 0 || !InWindow(w, t) then None
    else if Span(w) == 0 then Some(0)
    else
      var i := Slot(t - w.start, buckets, Span(w));
      Some(if i < buckets - 1 then i else buckets - 1)
  }

  lemma ProductMonotonic(a: nat, b: nat, c: nat)
    requires a <= b
    ensures a * c <= b * c
  {
    assert (b - a) * c >= 0;
  }

  /** The floor of a division, by its defining bounds. */
  lemma DivBounds(x: nat, d: nat)
    requires d > 0
    ensures (x / d) * d <= x < (x / d) * d + d
  {
    assert x == (x / d) * d + x % d;
  }

  /** A quotient bounds every multiple of the divisor below the dividend, and conversely. */
  lemma DivAtLeast(x: nat, d: nat, q: nat)
    requires d > 0
    ensures q * d <= x <==> q <= x / d
  {
    DivBounds(x, d);
    if q <= x / d {
      ProductMonotonic(q, x / d, d);
    } else {
      ProductMonotonic(x / d + 1, q, d);
      assert (x / d + 1) * d == (x / d) * d + d;
    }
  }

  lemma ScaleMonotonic(span: nat, i: nat, j: nat, den: nat)
    requires i <= j && den > 0
    ensures Scale(span, i, den) <= Scale(span, j, den)
  {
    var q := span * i / den;
    ProductMonotonic(i, j, span);
    DivAtLeast(span * i, den, q);
    DivAtLeast(span * j, den, q);
  }

  lemma ScaleWhole(span: nat, den: nat)
    requires den > 0
    ensures Scale(span, den, den) == span && Scale(span, 0, den) == 0
  {
    DivAtLeast(span * den, den, span);
    DivAtLeast(span * den, den, span + 1);
    assert (span + 1) * den == span * den + den;
    assert span * 0 == 0;
  }

  /** The buckets tile the window: each starts where the one before ends, from its start to its end. */
  lemma BucketsTile(w: Window, buckets: nat)
    requires buckets > 0
    ensures
      var bs := Buckets(w, buckets);
      && bs[0].start == w.start && bs[buckets - 1].end == w.start + Span(w)
      && (forall i :: 0 <= i < buckets ==> bs[i].start <= bs[i].end)
      && (forall i :: 0 < i < buckets ==> bs[i].start == bs[i - 1].end)
  {
    hide Scale;
    ScaleWhole(Span(w), buckets);
    forall i | 0 <= i < buckets
      ensures Scale(Span(w), i, buckets) <= Scale(Span(w), i + 1, buckets)
    {
      ScaleMonotonic(Span(w), i, i + 1, buckets);
    }
  }

  /** An event of the window lands in a bucket whose span holds its time. */
  lemma LandsInside(w: Window, buckets: nat, t: nat)
    requires buckets > 0 && InWindow(w, t)
    ensures
      var i := BucketIndex(w, buckets, t);
      && i.Some? && i.value < buckets
      && Buckets(w, buckets)[i.value].start <= t <= Buckets(w, buckets)[i.value].end
  {
    hide Scale;
    var span, off := Span(w), t - w.start;
    ScaleWhole(span, buckets);
    if span == 0 {
      ScaleMonotonic(0, 0, 1, buckets);
      NoSpan(buckets);
    } else {
      var q := off * buckets / span;
      var i := BucketIndex(w, buckets, t).value;
      DivAtLeast(off * buckets, span, i);
      StartBefore(span, buckets, off, i);
      if q < buckets - 1 {
        DivAtLeast(off * buckets, span, i + 1);
        EndAfter(span, buckets, off, i);
      } else {
        assert i + 1 == buckets;
      }
    }
  }

  lemma NoSpan(buckets: nat)
    requires buckets > 0
    ensures Scale(0, 0, buckets) == 0 && Scale(0, 1, buckets) == 0
  {
  }

  /** span * i <= off * buckets puts the start of bucket i at or before off. */
  lemma StartBefore(span: nat, buckets: nat, off: nat, i: nat)
    requires buckets > 0 && i * span <= off * buckets
    ensures Scale(span, i, buckets) <= off
  {
    DivAtLeast(span * i, buckets, off + 1);
    assert (off + 1) * buckets == off * buckets + buckets;
    assert span * i == i * span;
  }

  lemma EndAfter(span: nat, buckets: nat, off: nat, i: nat)
    requires buckets > 0 && (i + 1) * span > off * buckets
    ensures off <= Scale(span, i + 1, buckets)
  {
    DivAtLeast(span * (i + 1), buckets, off);
    assert span * (i + 1) == (i + 1) * span;
  }

  function Tally(b: Bucket, k: EventKind): Bucket {
    match k
    case GrantKind => b.(grants := b.grants + 1)
    case UseKind => b.(uses := b.uses + 1)
    case DenyKind => b.(denials := b.denials + 1)
    case RevokeKind => b.(revokes := b.revokes + 1)
  }

  datatype Happening = Happening(time: nat, kind: EventKind)

  function CountIn(w: Window, events: seq<Happening>): nat {
    if events == [] then 0
    else CountIn(w, events[..|events| - 1]) + (if InWindow(w, events[|events| - 1].time) then 1 else 0)
  }

  function AllTotals(bs: seq<Bucket>): nat {
    if bs == [] then 0 else AllTotals(bs[..|bs| - 1]) + Total(bs[|bs| - 1])
  }

  function Landed(w: Window, bs: seq<Bucket>, e: Happening): seq<Bucket> {
    match BucketIndex(w, |bs|, e.time)
    case None => bs
    case Some(i) => if i < |bs| then bs[i := Tally(bs[i], e.kind)] else bs
  }

  function TimelineOf(w: Window, buckets: nat, events: seq<Happening>): (bs: seq<Bucket>)
    ensures |bs| == buckets
  {
    if events == [] then Buckets(w, buckets)
    else Landed(w, TimelineOf(w, buckets, events[..|events| - 1]), events[|events| - 1])
  }

  /** Counts the k-th event where it lands, if it does. */
  method Land(w: Window, buckets: nat, bs: seq<Bucket>, ghost events: seq<Happening>, ghost k: nat, e: Happening)
    returns (bs': seq<Bucket>)
    requires k < |events| && events[k] == e && bs == TimelineOf(w, buckets, events[..k])
    ensures bs' == TimelineOf(w, buckets, events[..k + 1])
  {
    hide BucketIndex, Buckets;
    assert events[..k + 1][..k] == events[..k];
    bs' := bs;
    if InWindow(w, e.time) {
      var i := BucketIndex(w, buckets, e.time);
      if i.Some? {
        IndexInRange(w, buckets, e.time);
        bs' := bs[i.value := Tally(bs[i.value], e.kind)];
      }
    } else {
      OutsideIsNowhere(w, buckets, e.time);
    }
  }

  lemma IndexInRange(w: Window, buckets: nat, t: nat)
    ensures BucketIndex(w, buckets, t).Some? ==> BucketIndex(w, buckets, t).value < buckets
  {
    if BucketIndex(w, buckets, t).Some? {
      LandsInside(w, buckets, t);
    }
  }

  lemma OutsideIsNowhere(w: Window, buckets: nat, t: nat)
    requires !InWindow(w, t)
    ensures BucketIndex(w, buckets, t) == None
  {
  }

  lemma {:induction false} TallyOne(bs: seq<Bucket>, i: nat, k: EventKind)
    requires i < |bs|
    ensures AllTotals(bs[i := Tally(bs[i], k)]) == AllTotals(bs) + 1
  {
    var n := |bs| - 1;
    var bs' := bs[i := Tally(bs[i], k)];
    if i < n {
      assert bs'[..n] == bs[..n][i := Tally(bs[i], k)];
      TallyOne(bs[..n], i, k);
    } else {
      assert bs'[..n] == bs[..n];
    }
  }

  lemma {:induction false} EmptyTotals(w: Window, n: nat, i: nat)
    requires i <= n
    ensures AllTotals(Buckets(w, n)[..i]) == 0
  {
    hide EmptyBucket;
    if i > 0 {
      EmptyTotals(w, n, i - 1);
      assert Buckets(w, n)[..i][..i - 1] == Buckets(w, n)[..i - 1];
      EmptyCounts(w, n, i - 1);
    }
  }

  lemma EmptyCounts(w: Window, n: nat, i: nat)
    ensures Total(EmptyBucket(w, n, i)) == 0
  {
  }

  /** Every event of the window is counted in one bucket, and the buckets keep their spans. */
  lemma {:induction false} CountsSum(w: Window, buckets: nat, events: seq<Happening>)
    requires buckets > 0
    ensures AllTotals(TimelineOf(w, buckets, events)) == CountIn(w, events)
    ensures forall i :: 0 <= i < buckets ==>
      && TimelineOf(w, buckets, events)[i].start == Buckets(w, buckets)[i].start
      && TimelineOf(w, buckets, events)[i].end == Buckets(w, buckets)[i].end
  {
    hide BucketIndex, Buckets, AllTotals;
    if events == [] {
      EmptyTotals(w, buckets, buckets);
      assert Buckets(w, buckets)[..buckets] == Buckets(w, buckets);
    } else {
      var n := |events| - 1;
      CountsSum(w, buckets, events[..n]);
      var bs, e := TimelineOf(w, buckets, events[..n]), events[n];
      if InWindow(w, e.time) {
        LandsInside(w, buckets, e.time);
        TallyOne(bs, BucketIndex(w, buckets, e.time).value, e.kind);
      } else {
        OutsideIsNowhere(w, buckets, e.time);
      }
    }
  }
}
