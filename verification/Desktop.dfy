/**
 What a scan lights and where the outputs come to stand (crates/compositor/src/softdrm.rs), said of the
 connectors the kernel reports and of the names and sizes of the outputs.
 */
module Desktop {
  import opened Outcomes
  import opened Layout
  import opened Hotplug

  // ---- a scan

  /** A display found to be lit comes up on its CRTC under the connector's name and size, if it comes up. */
  lemma {:induction false} LitSays(d: Device, found: Found, id: nat, n: nat, i: nat)
    requires i < n <= |found| && Unlit(d, found, n)
    requires forall a, b :: 0 <= a < b < |found| ==> found[a].1 != found[b].1 && found[a].0.handle != found[b].0.handle
    ensures
      var (c, crtc), d' := found[i], Lit(d, found[..n], id).0;
      && (c.handle in d'.connectors <==> c.lights)
      && (c.lights ==>
            && d'.connectors[c.handle] == crtc && crtc in d'.surfaces
            && var o := d'.surfaces[crtc].output;
               o.name == c.name && o.width == c.width && o.height == c.height)
  {
    hide Lit;
    LitStep(d, found, id, n);
    LightAdds(d, found, id, n - 1);
    if i < n - 1 {
      LitSays(d, found, id, n - 1, i);
    }
  }

  /** A lit display the kernel reports connected stays as it is. */
  lemma ScanKeepsLit(d: Device, conns: seq<Conn>, id: nat, i: nat)
    requires Assigned(d) && Numbered(d, id) && DistinctHandles(conns) && i < |conns|
    requires conns[i].readable && conns[i].connected && conns[i].handle in d.connectors
    ensures
      var (k, d') := (conns[i].handle, Scanned(d, conns, id).0);
      && k in d'.connectors && d'.connectors[k] == d.connectors[k]
      && d.connectors[k] in d.surfaces && d.connectors[k] in d'.surfaces
      && d'.surfaces[d.connectors[k]] == d.surfaces[d.connectors[k]]
  {
    hide Lit, ToLight, Dropped, Fresh, Unlit;
    var k, connected := conns[i].handle, Connected(conns);
    assert k in connected;
    DroppedKeeps(d, connected, k);
    DropKeepsAssigned(d, connected, id);
    var dropped, found := Dropped(d, connected), ToLight(conns, d.connectors.Keys, d.surfaces.Keys);
    assert dropped.connectors[k] in dropped.connectors.Values;
    FoundIsFresh(conns, d.connectors.Keys, d.surfaces.Keys);
    FreshUnlit(dropped, found, conns, d.connectors.Keys, d.surfaces.Keys);
    LightKeepsOld(dropped, found, id, |found|);
    assert found[..|found|] == found;
    assert d.connectors[k] in d.connectors.Values;
  }

  /** A display whose connector is not connected, or cannot be read, is dark after a scan. */
  lemma ScanDropsGone(d: Device, conns: seq<Conn>, id: nat, i: nat)
    requires Assigned(d) && Numbered(d, id) && DistinctHandles(conns) && i < |conns|
    requires !(conns[i].readable && conns[i].connected)
    ensures conns[i].handle !in Scanned(d, conns, id).0.connectors
  {
    ScanKeeps(d, conns, id);
    hide Scanned, Assigned, Numbered;
    forall k | 0 <= k < |conns| && conns[k].handle == conns[i].handle
      ensures k == i
    {
    }
  }

  /** A display found to be lit shows on the CRTC found for it if it comes up, and is dark if it does not. */
  lemma ScanLightsFound(d: Device, conns: seq<Conn>, id: nat, k: nat)
    requires Assigned(d) && Numbered(d, id) && DistinctHandles(conns)
    requires k < |ToLight(conns, d.connectors.Keys, d.surfaces.Keys)|
    ensures
      var (c, crtc) := ToLight(conns, d.connectors.Keys, d.surfaces.Keys)[k];
      var d' := Scanned(d, conns, id).0;
      && (c.handle in d'.connectors <==> c.lights)
      && (c.lights ==>
            && d'.connectors[c.handle] == crtc && crtc in d'.surfaces
            && var o := d'.surfaces[crtc].output;
               o.name == c.name && o.width == c.width && o.height == c.height)
  {
    hide Lit, ToLight, Dropped, Unlit;
    var dropped, found := Dropped(d, Connected(conns)), ToLight(conns, d.connectors.Keys, d.surfaces.Keys);
    DropKeepsAssigned(d, Connected(conns), id);
    FoundIsFresh(conns, d.connectors.Keys, d.surfaces.Keys);
    FreshUnlit(dropped, found, conns, d.connectors.Keys, d.surfaces.Keys);
    LitSays(dropped, found, id, |found|, k);
    assert found[..|found|] == found;
  }

  // ---- the primary device

  /** While there are devices one of them is the primary, and none is otherwise. */
  ghost predicate PrimaryPresent(b: Backend) {
    if b.devices == map[] then b.primary == None else b.primary.Some? && b.primary.value in b.devices
  }

  /** From a start without a named primary that stays so; the primary changes only when it goes. */
  lemma StepKeepsPrimary(b: Backend, e: Event)
    requires PrimaryPresent(b) && (e.Remove? ==> PicksAnother(b, e.node, e.pick))
    ensures PrimaryPresent(After(b, e)) && PrimaryPresent(Initial(None))
    ensures
      var b' := After(b, e);
      && (e.Add? ==> b'.devices.Keys == b.devices.Keys + {e.node})
      && (e.Remove? ==> b'.devices.Keys == b.devices.Keys - {e.node})
      && (e.Change? || e.Relayout? ==> b'.devices.Keys == b.devices.Keys)
      && (b.primary.Some? && b'.primary != b.primary ==> e.Remove? && b.primary == Some(e.node))
  {
    hide Scanned, Changes, Edge, Sizes, Placed, Tallest, Globals;
    if e.Remove? && e.node in b.devices {
      assert b.devices.Keys == {e.node} <==> (b.devices - {e.node}).Keys == {};
    }
  }

  // ---- the order and the places of the outputs

  /** Names in the order of their characters: a prefix comes first, and otherwise the first difference decides. */
  lemma {:induction false} NameOrder(a: string, b: string)
    ensures NameLeq(a, b) <==> a <= b || exists k :: 0 <= k < |a| && k < |b| && a[..k] == b[..k] && a[k] < b[k]
  {
    if a != [] && b != [] {
      var x, y := a[1..], b[1..];
      NameOrder(x, y);
      assert a == [a[0]] + x && b == [b[0]] + y;
      if NameLeq(a, b) {
        if a[0] < b[0] {
          assert a[..0] == b[..0];
        } else if !(x <= y) {
          var k :| 0 <= k < |x| && k < |y| && x[..k] == y[..k] && x[k] < y[k];
          assert a[..k + 1] == [a[0]] + x[..k] == b[..k + 1];
          assert a[k + 1] < b[k + 1];
        }
      }
      if k :| 0 <= k < |a| && k < |b| && a[..k] == b[..k] && a[k] < b[k] {
        FirstDifference(a, b, k);
      }
    }
  }

  lemma {:induction false} FirstDifference(a: string, b: string, k: nat)
    requires k < |a| && k < |b| && a[..k] == b[..k] && a[k] < b[k]
    ensures NameLeq(a, b)
  {
    if k > 0 {
      assert a[..k][0] == b[..k][0];
      assert a[1..][..k - 1] == a[..k][1..] && b[1..][..k - 1] == b[..k][1..];
      FirstDifference(a[1..], b[1..], k - 1);
    }
  }

  /** The output is lit on that device. */
  predicate LitOn(b: Backend, node: Node, o: Output) {
    node in b.devices && exists c :: c in b.devices[node].surfaces && b.devices[node].surfaces[c].output == o
  }

  /** An output of the primary device comes before all others, and among those of the primary, or the others, names decide. */
  lemma OrderSays(b: Backend, order: seq<Output>, i: nat, j: nat)
    requires Ordering(b, order) && i < j < |order|
    ensures
      var x, y := order[i], order[j];
      var first, second := b.primary.Some? && LitOn(b, b.primary.value, x), b.primary.Some? && LitOn(b, b.primary.value, y);
      && x != y && (second ==> first)
      && (first == second ==>
            x.name <= y.name || exists k :: 0 <= k < |x.name| && k < |y.name| && x.name[..k] == y.name[..k] && x.name[k] < y.name[k])
  {
    hide NameLeq;
    assert Precedes(b, order[i], order[j]);
    NameOrder(order[i].name, order[j].name);
  }

  /** The desktop is as high as its tallest output, and at least one row. */
  lemma {:induction false} TallestIs(order: seq<Output>)
    ensures Tallest(order) >= 1 && forall o <- order :: o.height <= Tallest(order)
    ensures Tallest(order) == 1 || exists o <- order :: o.height == Tallest(order)
  {
    if order != [] {
      var n := |order| - 1;
      TallestIs(order[..n]);
      assert order == order[..n] + [order[n]];
      assert forall o :: o in order <==> o in order[..n] || o == order[n];
    }
  }

  /**
   A layout maps the outputs in its order, the first at the origin, each next where the one before ends, none
   over another; the desktop ends where the last does and is as high as the tallest, and never empty.
   */
  lemma RelayoutSays(b: Backend, order: seq<Output>)
    requires Inv(b) && Ordering(b, order)
    ensures
      var b' := Relaid(b, order);
      && b'.mapped == order && b'.space.Keys == Members(order) && (b'.placeholder <==> order == [])
      && (forall i :: 0 <= i < |order| ==> order[i] in b'.space && b'.space[order[i]].1 == 0)
      && (order != [] ==> b'.space[order[0]].0 == 0)
      && (forall i :: 0 < i < |order| ==>
            b'.space[order[i]].0 == b'.space[order[i - 1]].0 + (if order[i - 1].width > 0 then order[i - 1].width else 0))
      && (order != [] ==>
            var last := order[|order| - 1];
            var end := b'.space[last].0 + (if last.width > 0 then last.width else 0);
            b'.size.0 == if end > 0 then end else 1)
      && b'.size.1 >= 1 && (forall o <- order :: o.height <= b'.size.1)
      && (b'.size.1 == 1 || exists o <- order :: o.height == b'.size.1)
      && b'.devices == b.devices && b'.globals == b.globals && b'.primary == b.primary && b'.next == b.next
  {
    hide Edge, Sizes, Placed, Tallest, DevicesSound, AllGlobals, AllOutputs, Settled;
    RelayoutKeepsInv(b, order);
    PlacedIs(order);
    TallestIs(order);
    forall i | 0 <= i < |order|
      ensures Edge(Sizes(order), i + 1) == Edge(Sizes(order), i) + (if order[i].width > 0 then order[i].width else 0)
    {
      NextEdge(order, i);
    }
    NoEdge(order);
  }

  lemma NextEdge(order: seq<Output>, i: nat)
    requires i < |order|
    ensures Edge(Sizes(order), i + 1) == Edge(Sizes(order), i) + (if order[i].width > 0 then order[i].width else 0)
  {
    EdgeNext(Sizes(order), i);
  }

  lemma NoEdge(order: seq<Output>)
    ensures Edge(Sizes(order), 0) == 0
  {
  }
}
