/**
 Where each output sits on the shared desktop (crates/compositor/src/layout.rs): left to right, top
 aligned. Coordinates are unbounded; the program's fit 32 bits.
 */
module Layout {

  /** A width that is not positive takes no room. */
  function Room(w: int): nat {
    if w > 0 then w else 0
  }

  /** The right edge of the first i outputs. */
  function Edge(sizes: seq<(int, int)>, i: nat): nat
    requires i <= |sizes|
  {
    if i == 0 then 0 else Edge(sizes, i - 1) + Room(sizes[i - 1].0)
  }

  method Arrange(sizes: seq<(int, int)>) returns (positions: seq<(int, int)>)
    ensures |positions| == |sizes|
    ensures forall i :: 0 <= i < |sizes| ==> positions[i] == (Edge(sizes, i), 0)
  {
    positions := [];
    var x := 0;
    for i := 0 to |sizes|
      invariant |positions| == i && x == Edge(sizes, i)
      invariant forall k :: 0 <= k < i ==> positions[k] == (Edge(sizes, k), 0)
    {
      positions := positions + [(x, 0)];
      x := x + Room(sizes[i].0);
    }
  }

  /** The box the outputs span: all their widths, and the tallest height. */
  method Span(sizes: seq<(int, int)>) returns (width: nat, height: nat)
    ensures width == Edge(sizes, |sizes|)
    ensures forall i :: 0 <= i < |sizes| ==> sizes[i].1 <= height
    ensures height == 0 || exists i :: 0 <= i < |sizes| && sizes[i].1 == height
  {
    width, height := 0, 0;
    for i := 0 to |sizes|
      invariant width == Edge(sizes, i)
      invariant forall k :: 0 <= k < i ==> sizes[k].1 <= height
      invariant height == 0 || exists k :: 0 <= k < i && sizes[k].1 == height
    {
      width := width + Room(sizes[i].0);
      if sizes[i].1 > height {
        height := sizes[i].1;
      }
    }
  }

  lemma {:induction false} EdgesAscend(sizes: seq<(int, int)>, i: nat, j: nat)
    requires i <= j <= |sizes|
    ensures Edge(sizes, i) <= Edge(sizes, j)
  {
    if i < j {
      EdgesAscend(sizes, i, j - 1);
    }
  }

  lemma EdgeNext(sizes: seq<(int, int)>, i: nat)
    requires i < |sizes|
    ensures Edge(sizes, i + 1) == Edge(sizes, i) + Room(sizes[i].0)
  {
    hide Room;
  }

  /** Outputs do not overlap: a later one starts at or after the end of an earlier one. */
  lemma OutputsDisjoint(sizes: seq<(int, int)>, i: nat, j: nat)
    requires i < j < |sizes|
    ensures Edge(sizes, i) <= Edge(sizes, j) && Edge(sizes, i) + sizes[i].0 <= Edge(sizes, j)
  {
    hide Edge;
    EdgeNext(sizes, i);
    EdgesAscend(sizes, i + 1, j);
  }

  /** Together they fill the span: every column is in one output. */
  lemma {:induction false} OutputsFill(sizes: seq<(int, int)>, n: nat, x: nat)
    requires n <= |sizes| && x < Edge(sizes, n)
    ensures exists i :: 0 <= i < n && Edge(sizes, i) <= x < Edge(sizes, i) + sizes[i].0
  {
    if x < Edge(sizes, n - 1) {
      OutputsFill(sizes, n - 1, x);
    } else {
      assert Edge(sizes, n - 1) <= x < Edge(sizes, n - 1) + sizes[n - 1].0;
    }
  }
}
