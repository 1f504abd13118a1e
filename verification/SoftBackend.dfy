/**
 The display backend as the program has it (crates/compositor/src/softdrm.rs): fields that device
 events update in place, each method held to the state machine's step of the same name.
 */
module SoftBackend {
  import opened Outcomes
  import opened Layout
  import opened Hotplug

  // ---- phases of a scan

  /** Which connectors are connected, and for each not yet lit a free CRTC. */
  method ReadConnectors(d: Device, conns: seq<Conn>) returns (connected: set<Connector>, toLight: Found)
    ensures connected == Connected(conns) && toLight == ToLight(conns, d.connectors.Keys, d.surfaces.Keys)
  {
    hide FreeCrtc;
    connected, toLight := {}, [];
    var used := d.surfaces.Keys;
    for i := 0 to |conns|
      invariant connected == Connected(conns[..i])
      invariant toLight == ToLight(conns[..i], d.connectors.Keys, d.surfaces.Keys)
      invariant used == d.surfaces.Keys + Crtcs(toLight)
    {
      var c := conns[i];
      assert conns[..i + 1][..i] == conns[..i];
      if IsConnected(c) {
        connected := connected + {c.handle};
        if c.handle !in d.connectors && c.hasMode {
          var crtc := FreeCrtc(c.encoders, used);
          if crtc.Some? {
            OneMoreCrtc(toLight, c, crtc.value);
            used := used + {crtc.value};
            toLight := toLight + [(c, crtc.value)];
          }
        }
      }
    }
    assert conns[..|conns|] == conns;
  }

  lemma OneMoreCrtc(found: Found, c: Conn, crtc: Crtc)
    ensures Crtcs(found + [(c, crtc)]) == Crtcs(found) + {crtc}
  {
    var more := found + [(c, crtc)];
    assert more[|found|].1 == crtc;
    forall x | x in Crtcs(found)
      ensures x in Crtcs(more)
    {
      var i :| 0 <= i < |found| && found[i].1 == x;
      assert more[i].1 == x;
    }
  }

  /** The device without some of its connectors and the displays on them. */
  function Without(d: Device, gone: set<Connector>): Device {
    Device(d.surfaces - (set k | k in gone && k in d.connectors :: d.connectors[k]), d.connectors - gone)
  }

  /** The globals of the displays on some connectors. */
  function GlobalsOn(d: Device, gone: set<Connector>): set<nat> {
    set k | k in gone && k in d.connectors && d.connectors[k] in d.surfaces :: d.surfaces[d.connectors[k]].global
  }

  lemma WithoutOneMore(d: Device, gone: set<Connector>, k: Connector)
    requires Assigned(d) && k in d.connectors && k !in gone
    ensures
      var d', d'' := Without(d, gone), Without(d, gone + {k});
      var crtc := d.connectors[k];
      && k in d'.connectors && d'.connectors[k] == crtc && crtc in d'.surfaces && d'.surfaces[crtc] == d.surfaces[crtc]
      && d'' == Device(d'.surfaces - {crtc}, d'.connectors - {k})
      && GlobalsOn(d, gone + {k}) == GlobalsOn(d, gone) + {d.surfaces[crtc].global}
  {
    assert d.connectors[k] in d.connectors.Values;
    var d', d'' := Without(d, gone), Without(d, gone + {k});
    assert d''.connectors == d'.connectors - {k};
    assert d''.surfaces == d'.surfaces - {d.connectors[k]};
  }

  /** Drops the displays whose connector is gone, and says which globals to withdraw. */
  method DropGone(d: Device, connected: set<Connector>) returns (d': Device, withdrawn: set<nat>)
    requires Assigned(d)
    ensures d' == Dropped(d, connected) && withdrawn == GlobalsOn(d, d.connectors.Keys - connected)
  {
    hide Assigned, Without, GlobalsOn, Dropped;
    var gone := d.connectors.Keys - connected;
    var left := gone;
    var surfaces, connectors := d.surfaces, d.connectors;
    withdrawn := {};
    NothingGone(d);
    assert gone - left == {};
    while left != {}
      invariant left <= gone
      invariant Device(surfaces, connectors) == Without(d, gone - left) && withdrawn == GlobalsOn(d, gone - left)
      decreases |left|
    {
      var k :| k in left;
      WithoutOneMore(d, gone - left, k);
      assert gone - (left - {k}) == (gone - left) + {k};
      var crtc := connectors[k];
      withdrawn := withdrawn + {surfaces[crtc].global};
      connectors, surfaces := connectors - {k}, surfaces - {crtc};
      left := left - {k};
    }
    assert gone - left == gone;
    d' := Device(surfaces, connectors);
    DroppedIsWithout(d, connected);
  }

  lemma NothingGone(d: Device)
    ensures Without(d, {}) == d && GlobalsOn(d, {}) == {}
  {
    assert Without(d, {}).surfaces == d.surfaces && Without(d, {}).connectors == d.connectors;
  }

  lemma DroppedIsWithout(d: Device, connected: set<Connector>)
    ensures Without(d, d.connectors.Keys - connected) == Dropped(d, connected)
  {
    var gone := set k | k in d.connectors && k !in connected;
    assert gone == d.connectors.Keys - connected;
    assert (set k | k in gone && k in d.connectors :: d.connectors[k]) == (set k | k in gone :: d.connectors[k]);
  }

  /** The ids from one to below another. */
  function Ids(lo: nat, hi: nat): set<nat>
    requires lo <= hi
  {
    if lo == hi then {} else Ids(lo, hi - 1) + {hi - 1}
  }

  /** Lights the found displays that can be, and says which globals were created. */
  method LightFound(d: Device, found: Found, id: nat) returns (d': Device, next: nat, created: set<nat>, changed: bool)
    ensures (d', next) == Lit(d, found, id) && next >= id && created == Ids(id, next)
    ensures changed <==> exists i :: 0 <= i < |found| && found[i].0.lights
  {
    d', next, created, changed := d, id, {}, false;
    for i := 0 to |found|
      invariant (d', next) == Lit(d, found[..i], id) && next >= id && created == Ids(id, next)
      invariant changed <==> exists k :: 0 <= k < i && found[k].0.lights
    {
      assert found[..i + 1][..i] == found[..i];
      var (c, crtc) := found[i];
      if c.lights {
        var output := Output(next, c.name, c.width, c.height);
        d' := Device(d'.surfaces[crtc := Surface(output, next)], d'.connectors[c.handle := crtc]);
        created := created + {next};
        next := next + 1;
        changed := true;
      }
    }
    assert found[..|found|] == found;
  }

  lemma {:induction false} IdsAre(lo: nat, hi: nat)
    requires lo <= hi
    ensures forall i :: i in Ids(lo, hi) <==> lo <= i < hi
  {
    if lo < hi {
      IdsAre(lo, hi - 1);
    }
  }

  /** The globals to withdraw and those created are what tells the device's before from after. */
  lemma GlobalsMove(d: Device, conns: seq<Conn>, id: nat, withdrawn: set<nat>, created: set<nat>)
    requires Assigned(d) && Numbered(d, id) && DistinctHandles(conns)
    requires withdrawn == GlobalsOn(d, d.connectors.Keys - Connected(conns))
    requires Scanned(d, conns, id).1 >= id && created == Ids(id, Scanned(d, conns, id).1)
    ensures
      var d' := Scanned(d, conns, id).0;
      withdrawn == Globals(d) - Globals(d') && created == Globals(d') - Globals(d)
  {
    hide ToLight, Connected, Lit, GlobalsOn, Dropped, Assigned, Fresh;
    var dropped := Dropped(d, Connected(conns));
    var found := ToLight(conns, d.connectors.Keys, d.surfaces.Keys);
    var d' := Scanned(d, conns, id).0;
    DropKeepsAssigned(d, Connected(conns), id);
    FoundIsFresh(conns, d.connectors.Keys, d.surfaces.Keys);
    assert found[..|found|] == found;
    LitGlobals(dropped, found, id, |found|, conns, d.connectors.Keys, d.surfaces.Keys);
    DroppedGlobals(d, Connected(conns), id, withdrawn);
    IdsAre(id, Scanned(d, conns, id).1);
  }

  lemma DroppedGlobals(d: Device, connected: set<Connector>, id: nat, withdrawn: set<nat>)
    requires Assigned(d) && Numbered(d, id)
    requires withdrawn == GlobalsOn(d, d.connectors.Keys - connected)
    ensures Globals(d) == Globals(Dropped(d, connected)) + withdrawn && Globals(Dropped(d, connected)) !! withdrawn
    ensures forall g <- Globals(d) :: g < id
  {
    var d' := Dropped(d, connected);
    forall g | g in Globals(d)
      ensures g in Globals(d') + withdrawn
    {
      var c :| c in d.surfaces && d.surfaces[c].global == g;
      var k :| k in d.connectors && d.connectors[k] == c;
      assert k in connected ==> c in d'.surfaces;
    }
    forall g | g in withdrawn
      ensures g in Globals(d) && g !in Globals(d')
    {
      var k :| k in d.connectors && k !in connected && d.connectors[k] in d.surfaces && d.surfaces[d.connectors[k]].global == g;
    }
  }

  /** Lighting adds the ids it uses, one global each. */
  lemma {:induction false} LitGlobals(d: Device, found: Found, id: nat, n: nat, conns: seq<Conn>, lit: set<Connector>, used: set<Crtc>)
    requires n <= |found| && Fresh(found, conns, lit, used)
    requires d.connectors.Keys <= lit && d.surfaces.Keys <= used
    ensures Lit(d, found[..n], id).1 >= id
    ensures Globals(Lit(d, found[..n], id).0) == Globals(d) + Ids(id, Lit(d, found[..n], id).1)
  {
    if n > 0 {
      hide Lit, Fresh, Globals, Ids;
      LitGlobals(d, found, id, n - 1, conns, lit, used);
      NextIsNew(d, found, id, n, conns, lit, used);
      LitStep(d, found, id, n);
      var before, next := Lit(d, found[..n - 1], id).0, Lit(d, found[..n - 1], id).1;
      var c, crtc := found[n - 1].0, found[n - 1].1;
      if c.lights {
        OneMoreGlobal(before, crtc, Surface(Output(next, c.name, c.width, c.height), next), c.handle);
      }
    }
  }

  lemma OneMoreGlobal(d: Device, crtc: Crtc, s: Surface, k: Connector)
    requires crtc !in d.surfaces
    ensures Globals(Device(d.surfaces[crtc := s], d.connectors[k := crtc])) == Globals(d) + {s.global}
  {
    var d' := Device(d.surfaces[crtc := s], d.connectors[k := crtc]);
    assert d'.surfaces[crtc] == s;
    forall g | g in Globals(d)
      ensures g in Globals(d')
    {
      var c :| c in d.surfaces && d.surfaces[c].global == g;
      assert d'.surfaces[c].global == g;
    }
  }

  // ---- the layout's order

  lemma {:induction false} NameTotal(a: string, b: string)
    ensures NameLeq(a, b) || NameLeq(b, a)
  {
    if a != [] && b != [] {
      NameTotal(a[1..], b[1..]);
    }
  }

  lemma {:induction false} NameTransitive(a: string, b: string, c: string)
    requires NameLeq(a, b) && NameLeq(b, c)
    ensures NameLeq(a, c)
  {
    if a != [] && b != [] && c != [] && a[0] == b[0] == c[0] {
      NameTransitive(a[1..], b[1..], c[1..]);
    }
  }

  lemma PrecedesOrders(b: Backend, x: Output, y: Output, z: Output)
    ensures Precedes(b, x, y) || Precedes(b, y, x)
    ensures Precedes(b, x, y) && Precedes(b, y, z) ==> Precedes(b, x, z)
  {
    hide NameLeq, OnPrimary;
    NameTotal(x.name, y.name);
    if NameLeq(x.name, y.name) && NameLeq(y.name, z.name) {
      NameTransitive(x.name, y.name, z.name);
    }
  }

  /** Distinct outputs in layout order. */
  ghost predicate InOrder(b: Backend, order: seq<Output>) {
    forall i, j :: 0 <= i < j < |order| ==> order[i] != order[j] && Precedes(b, order[i], order[j])
  }

  method Insert(b: Backend, order: seq<Output>, o: Output) returns (order': seq<Output>)
    requires InOrder(b, order) && o !in order
    ensures InOrder(b, order') && Members(order') == Members(order) + {o}
  {
    hide Precedes;
    var k := 0;
    while k < |order| && Precedes(b, order[k], o)
      invariant k <= |order| && forall i :: 0 <= i < k ==> Precedes(b, order[i], o)
    {
      k := k + 1;
    }
    forall i | k <= i < |order|
      ensures Precedes(b, o, order[i])
    {
      PrecedesOrders(b, o, order[k], order[i]);
    }
    order' := order[..k] + [o] + order[k..];
  }

  method InsertDevice(b: Backend, order: seq<Output>, d: Device) returns (order': seq<Output>)
    requires InOrder(b, order) && Numbered(d, b.next) && Members(order) !! Outputs(d)
    ensures InOrder(b, order') && Members(order') == Members(order) + Outputs(d)
  {
    hide InOrder;
    order' := order;
    var left := d.surfaces.Keys;
    while left != {}
      invariant left <= d.surfaces.Keys
      invariant InOrder(b, order')
      invariant Members(order') == Members(order) + set c | c in d.surfaces.Keys - left :: d.surfaces[c].output
      decreases |left|
    {
      var c :| c in left;
      var o := d.surfaces[c].output;
      assert o in Outputs(d);
      assert forall e <- d.surfaces :: e != c ==> d.surfaces[e].output != o;
      assert o !in Members(order');
      order' := Insert(b, order', o);
      assert d.surfaces.Keys - (left - {c}) == (d.surfaces.Keys - left) + {c};
      left := left - {c};
    }
    assert d.surfaces.Keys - left == d.surfaces.Keys;
  }

  /** Every lit output across all devices, the primary's first and then by name. */
  method LitInOrder(b: Backend) returns (order: seq<Output>)
    requires DevicesSound(b.devices, b.next)
    ensures Ordering(b, order)
  {
    hide InOrder, DevicesSound, AllOutputs;
    order := [];
    NothingInOrder(b);
    var left := b.devices.Keys;
    assert b.devices - left == map[];
    while left != {}
      invariant left <= b.devices.Keys
      invariant InOrder(b, order) && Members(order) == AllOutputs(b.devices - left)
      decreases |left|
    {
      var n :| n in left;
      OneMoreDevice(b.devices, left, n, b.next);
      order := InsertDevice(b, order, b.devices[n]);
      left := left - {n};
    }
    assert b.devices - left == b.devices;
    OrderingIs(b, order);
  }

  lemma NothingInOrder(b: Backend)
    ensures InOrder(b, []) && Members([]) == AllOutputs(map[])
  {
  }

  lemma OrderingIs(b: Backend, order: seq<Output>)
    requires InOrder(b, order) && Members(order) == AllOutputs(b.devices)
    ensures Ordering(b, order)
  {
  }

  lemma OneMoreDevice(devices: map<Node, Device>, left: set<Node>, n: Node, next: nat)
    requires DevicesSound(devices, next) && n in left && left <= devices.Keys
    ensures Numbered(devices[n], next)
    ensures AllOutputs(devices - (left - {n})) == AllOutputs(devices - left) + Outputs(devices[n])
    ensures AllOutputs(devices - left) !! Outputs(devices[n])
  {
    var more := devices - (left - {n});
    SplitOne(more, n);
    assert more - {n} == devices - left;
  }

  /** Maps each output at its position. */
  method MapAll(space: map<Output, (int, int)>, order: seq<Output>, positions: seq<(int, int)>)
    returns (space': map<Output, (int, int)>)
    requires |positions| == |order|
    requires forall i :: 0 <= i < |order| ==> positions[i] == (Edge(Sizes(order), i), 0)
    ensures space' == space + Placed(order)
  {
    hide Edge, Sizes;
    space' := space;
    for i := 0 to |order|
      invariant space' == space + PlacedUpTo(order, i)
    {
      space' := space'[order[i] := positions[i]];
    }
  }

  // ---- the object

  class SoftBackend {
    var primary: Option<Node>
    var devices: map<Node, Device>
    var globals: set<nat>
    var next: nat
    var mapped: seq<Output>
    var space: map<Output, (int, int)>
    var placeholder: bool
    var dirty: bool
    var size: (int, int)

    /** The primary is the device the system names as such, if it names one. */
    constructor (primary: Option<Node>)
      ensures Now() == Hotplug.Initial(primary)
    {
      this.primary, devices, globals, next := primary, map[], {}, 0;
      mapped, space, placeholder, dirty, size := [], map[], true, false, (1920, 1080);
    }

    function Now(): Backend
      reads this
    {
      Backend(primary, devices, globals, next, mapped, space, placeholder, dirty, size)
    }

    /** Reads the connectors, drops what was unplugged, lights what was plugged in. */
    method ScanConnectors(node: Node, report: Option<seq<Conn>>)
      requires DevicesSound(devices, next) && (report.Some? ==> DistinctHandles(report.value))
      modifies this
      ensures Now() == Scan(old(Now()), node, report)
    {
      hide DevicesSound, Lit, Dropped, ToLight, Connected, Assigned, Numbered;
      if node !in devices || report == None {
        return;
      }
      var d, conns := devices[node], report.value;
      SoundAt(devices, node, next);
      var connected, toLight := ReadConnectors(d, conns);
      var dropped, withdrawn := DropGone(d, connected);
      var lit, next', created, anyLit := LightFound(dropped, toLight, next);
      assert (lit, next') == Scanned(d, conns, next);
      GlobalsMove(d, conns, next, withdrawn, created);
      var changed := dropped != d || anyLit;
      assert changed == Changes(d, conns) by { DropChanges(d, Connected(conns)); }
      globals := globals - withdrawn + created;
      devices, next, dirty := devices[node := lit], next', dirty || changed;
    }

    /** Takes a device up, in the place of one already there if need be, and scans it. */
    method DeviceAdded(node: Node, report: Option<seq<Conn>>)
      requires Inv(Now()) && (report.Some? ==> DistinctHandles(report.value))
      modifies this
      ensures Now() == Added(old(Now()), node, report)
      ensures Inv(Now()) <==> node !in old(devices) || old(devices)[node].surfaces == map[]
    {
      hide Scan, Inv, DevicesSound;
      AddKeepsInv(Now(), node, report);
      InvSound(Now());
      DarkSound(devices, node, next);
      if primary == None {
        primary := Some(node);
      }
      devices := devices[node := DARK];
      ScanConnectors(node, report);
    }

    method DeviceChanged(node: Node, report: Option<seq<Conn>>)
      requires Inv(Now()) && (report.Some? ==> DistinctHandles(report.value))
      modifies this
      ensures Now() == Scan(old(Now()), node, report) && Inv(Now())
    {
      hide Inv, Scanned, Changes, DevicesSound;
      InvSound(Now());
      ScanKeepsInv(Now(), node, report);
      if node in devices {
        ScanConnectors(node, report);
      }
    }

    /** Lets a device go; its globals are withdrawn, and another becomes the primary if it was. */
    method DeviceRemoved(node: Node)
      requires Inv(Now())
      modifies this
      ensures Inv(Now())
      ensures exists pick: Option<Node> :: PicksAnother(old(Now()), node, pick) && Now() == Removed(old(Now()), node, pick)
    {
      hide Inv;
      var pick: Option<Node> := None;
      ghost var before := Now();
      if node in devices {
        globals := globals - Globals(devices[node]);
        devices := devices - {node};
        if devices.Keys != {} {
          var n :| n in devices.Keys;
          pick := Some(n);
        }
        if primary == Some(node) {
          primary := pick;
        }
        dirty := true;
      }
      RemoveKeepsInv(before, node, pick);
      assert PicksAnother(before, node, pick);
      assert Now() == Removed(before, node, pick);
    }

    /** Lays the desktop out over the lit outputs. */
    method Relayout()
      requires Inv(Now())
      modifies this
      ensures exists order :: Ordering(old(Now()), order) && Now() == Relaid(old(Now()), order)
      ensures Inv(Now()) && !dirty
    {
      hide Inv, Ordering, DevicesSound, Placed, Edge, Tallest;
      ghost var before := Now();
      InvSound(before);
      var order := LitInOrder(Now());
      var positions := Arrange(Sizes(order));
      space := MapAll(space - Members(mapped), order, positions);
      mapped := order;
      var width, height := Span(Sizes(order));
      TallestIs(order, height);
      size := (if width < 1 then 1 else width, if height < 1 then 1 else height);
      placeholder, dirty := |order| == 0, false;
      RelayoutKeepsInv(before, order);
      assert Now() == Relaid(before, order);
    }
  }

  lemma InvSound(b: Backend)
    requires Inv(b)
    ensures DevicesSound(b.devices, b.next)
  {
    hide DevicesSound;
  }

  lemma DropChanges(d: Device, connected: set<Connector>)
    ensures Dropped(d, connected) != d <==> exists k :: k in d.connectors && k !in connected
  {
    var gone := set k | k in d.connectors && k !in connected;
    if k :| k in d.connectors && k !in connected {
      assert k in gone && k !in Dropped(d, connected).connectors;
    } else {
      assert gone == {};
      assert Dropped(d, connected).connectors == d.connectors && Dropped(d, connected).surfaces == d.surfaces;
    }
  }

  lemma {:induction false} TallestBounds(order: seq<Output>, n: nat)
    requires n <= |order|
    ensures Tallest(order[..n]) >= 1 && forall i :: 0 <= i < n ==> order[i].height <= Tallest(order[..n])
    ensures Tallest(order[..n]) == 1 || exists i :: 0 <= i < n && order[i].height == Tallest(order[..n])
  {
    if n > 0 {
      TallestBounds(order, n - 1);
      assert order[..n][..n - 1] == order[..n - 1];
    }
  }

  lemma TallestIs(order: seq<Output>, height: nat)
    requires forall i :: 0 <= i < |order| ==> Sizes(order)[i].1 <= height
    requires height == 0 || exists i :: 0 <= i < |order| && Sizes(order)[i].1 == height
    ensures Tallest(order) == if height < 1 then 1 else height
  {
    hide Tallest;
    TallestBounds(order, |order|);
    assert order[..|order|] == order;
    var t := Tallest(order);
    if t > 1 {
      var i :| 0 <= i < |order| && order[i].height == t;
      assert Sizes(order)[i].1 == t;
    }
    if height > 0 {
      var i :| 0 <= i < |order| && Sizes(order)[i].1 == height;
      assert order[i].height == height;
    }
  }
}
