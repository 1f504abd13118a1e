/**
 The display hotplug state machine (crates/compositor/src/softdrm.rs): devices come, change and go,
 each display lit on a CRTC of its own, and the desktop is laid out over the lit ones. What the kernel
 reports of a device's connectors is a parameter, as is which display can be brought up.
 */
module Hotplug {
  import opened Outcomes
  import opened Layout

  type Connector = nat
  type Crtc = nat
  type Node = nat

  datatype Output = Output(id: nat, name: string, width: int, height: int)

  /** A lit display: its output and the global that advertises it. */
  datatype Surface = Surface(output: Output, global: nat)

  datatype Device = Device(surfaces: map<Crtc, Surface>, connectors: map<Connector, Crtc>)

  /** A connector as the kernel reports it; an encoder that cannot be read lists nothing. */
  datatype Conn = Conn(handle: Connector, readable: bool, connected: bool, hasMode: bool,
                       encoders: seq<seq<Crtc>>, lights: bool, name: string, width: int, height: int)

  // ---- scanning one device

  predicate IsConnected(c: Conn) {
    c.readable && c.connected
  }

  function FirstUnused(crtcs: seq<Crtc>, used: set<Crtc>): Option<Crtc> {
    if crtcs == [] then None else if crtcs[0] !in used then Some(crtcs[0]) else FirstUnused(crtcs[1..], used)
  }

  /** A free CRTC reachable through one of the encoders. */
  function FreeCrtc(encoders: seq<seq<Crtc>>, used: set<Crtc>): Option<Crtc> {
    if encoders == [] then None
    else
      match FirstUnused(encoders[0], used)
      case Some(c) => Some(c)
      case None => FreeCrtc(encoders[1..], used)
  }

  function Connected(conns: seq<Conn>): set<Connector> {
    set i | 0 <= i < |conns| && IsConnected(conns[i]) :: conns[i].handle
  }

  type Found = seq<(Conn, Crtc)>

  function Crtcs(found: Found): set<Crtc> {
    set i | 0 <= i < |found| :: found[i].1
  }

  /** The displays to light, each with a CRTC none before it took. */
  function ToLight(conns: seq<Conn>, lit: set<Connector>, used: set<Crtc>): Found {
    if conns == [] then []
    else
      var found, c := ToLight(conns[..|conns| - 1], lit, used), conns[|conns| - 1];
      if !IsConnected(c) || c.handle in lit || !c.hasMode then found
      else
        match FreeCrtc(c.encoders, used + Crtcs(found))
        case None => found
        case Some(crtc) => found + [(c, crtc)]
  }

  /** The device without the displays whose connector is gone. */
  function Dropped(d: Device, connected: set<Connector>): Device {
    var gone := set k | k in d.connectors && k !in connected;
    Device(d.surfaces - (set k | k in gone :: d.connectors[k]), d.connectors - gone)
  }

  /** The device with the found displays lit that can be, and the next unused id. */
  function Lit(d: Device, found: Found, id: nat): (Device, nat) {
    if found == [] then (d, id)
    else
      var (before, next) := Lit(d, found[..|found| - 1], id);
      var (c, crtc) := found[|found| - 1];
      if c.lights then
        (Device(before.surfaces[crtc := Surface(Output(next, c.name, c.width, c.height), next)], before.connectors[c.handle := crtc]), next + 1)
      else (before, next)
  }

  function Scanned(d: Device, conns: seq<Conn>, id: nat): (Device, nat) {
    Lit(Dropped(d, Connected(conns)), ToLight(conns, d.connectors.Keys, d.surfaces.Keys), id)
  }

  /** Every display is lit on a CRTC of its own, and every lit CRTC has its display. */
  ghost predicate Assigned(d: Device) {
    && (forall a, b :: a in d.connectors && b in d.connectors && d.connectors[a] == d.connectors[b] ==> a == b)
    && d.connectors.Values == d.surfaces.Keys
  }

  /** Surfaces know their output by one id, below the next unused; no two share it. */
  ghost predicate Numbered(d: Device, next: nat) {
    && (forall c <- d.surfaces :: d.surfaces[c].global == d.surfaces[c].output.id < next)
    && (forall a, b :: a in d.surfaces && b in d.surfaces && d.surfaces[a].global == d.surfaces[b].global ==> a == b)
  }

  function Globals(d: Device): set<nat> {
    set c | c in d.surfaces :: d.surfaces[c].global
  }

  function Outputs(d: Device): set<Output> {
    set c | c in d.surfaces :: d.surfaces[c].output
  }

  ghost predicate DistinctHandles(conns: seq<Conn>) {
    forall i, j :: 0 <= i < j < |conns| ==> conns[i].handle != conns[j].handle
  }

  lemma {:induction false} FirstUnusedIs(crtcs: seq<Crtc>, used: set<Crtc>)
    ensures FirstUnused(crtcs, used).Some? ==> FirstUnused(crtcs, used).value in crtcs && FirstUnused(crtcs, used).value !in used
    ensures FirstUnused(crtcs, used).None? ==> forall c <- crtcs :: c in used
  {
    if crtcs != [] && crtcs[0] in used {
      FirstUnusedIs(crtcs[1..], used);
      assert crtcs == [crtcs[0]] + crtcs[1..];
    }
  }

  /** One of the encoders lists the CRTC. */
  predicate Lists(encoders: seq<seq<Crtc>>, crtc: Crtc) {
    exists e <- encoders :: crtc in e
  }

  lemma {:induction false} FreeCrtcIs(encoders: seq<seq<Crtc>>, used: set<Crtc>)
    ensures FreeCrtc(encoders, used).Some? ==>
      FreeCrtc(encoders, used).value !in used && Lists(encoders, FreeCrtc(encoders, used).value)
    ensures FreeCrtc(encoders, used).None? ==> forall e <- encoders :: forall c <- e :: c in used
  {
    if encoders != [] {
      FirstUnusedIs(encoders[0], used);
      FreeCrtcIs(encoders[1..], used);
      assert encoders == [encoders[0]] + encoders[1..];
    }
  }

  /**
   What is found to light is new: CRTCs not in use and not shared, each listed by an encoder of its connector;
   connectors connected, with a mode, unlit and not repeated.
   */
  ghost predicate Fresh(found: Found, conns: seq<Conn>, lit: set<Connector>, used: set<Crtc>) {
    && (forall i :: 0 <= i < |found| ==> found[i].1 !in used && found[i].0.handle !in lit)
    && (forall i, j :: 0 <= i < j < |found| ==> found[i].1 != found[j].1 && found[i].0.handle != found[j].0.handle)
    && (forall i :: 0 <= i < |found| ==> found[i].0 in conns && IsConnected(found[i].0))
    && (forall i :: 0 <= i < |found| ==> found[i].0.hasMode && Lists(found[i].0.encoders, found[i].1))
  }

  lemma {:induction false} FoundIsFresh(conns: seq<Conn>, lit: set<Connector>, used: set<Crtc>)
    requires DistinctHandles(conns)
    ensures Fresh(ToLight(conns, lit, used), conns, lit, used)
  {
    hide FreeCrtc, Fresh;
    if conns == [] {
      NothingFresh(conns, lit, used);
    } else {
      var n := |conns| - 1;
      FoundIsFresh(conns[..n], lit, used);
      var found, c := ToLight(conns[..n], lit, used), conns[n];
      FreeCrtcIs(c.encoders, used + Crtcs(found));
      MoreFresh(found, conns, lit, used);
      if ToLight(conns, lit, used) != found {
        OneMoreFresh(found, c, FreeCrtc(c.encoders, used + Crtcs(found)).value, conns, lit, used);
      }
    }
  }

  lemma NothingFresh(conns: seq<Conn>, lit: set<Connector>, used: set<Crtc>)
    ensures Fresh([], conns, lit, used)
  {
  }

  lemma MoreFresh(found: Found, conns: seq<Conn>, lit: set<Connector>, used: set<Crtc>)
    requires conns != [] && Fresh(found, conns[..|conns| - 1], lit, used)
    ensures Fresh(found, conns, lit, used)
  {
  }

  lemma OneMoreFresh(found: Found, c: Conn, crtc: Crtc, conns: seq<Conn>, lit: set<Connector>, used: set<Crtc>)
    requires DistinctHandles(conns) && conns != [] && c == conns[|conns| - 1]
    requires Fresh(found, conns[..|conns| - 1], lit, used)
    requires IsConnected(c) && c.handle !in lit && c.hasMode && crtc !in used + Crtcs(found) && Lists(c.encoders, crtc)
    ensures Fresh(found + [(c, crtc)], conns, lit, used)
  {
    var n := |conns| - 1;
    forall i | 0 <= i < |found|
      ensures found[i].0.handle != c.handle && found[i].1 != crtc
    {
      assert found[i].0 in conns[..n];
      var k :| 0 <= k < n && conns[..n][k] == found[i].0;
      assert conns[k].handle != conns[n].handle;
      assert found[i].1 in Crtcs(found);
    }
  }

  /** A connected display with a mode stays dark only when every CRTC it can reach is taken. */
  lemma {:induction false} LightsWhatItCan(conns: seq<Conn>, lit: set<Connector>, used: set<Crtc>, i: nat)
    requires i < |conns| && IsConnected(conns[i]) && conns[i].handle !in lit && conns[i].hasMode
    ensures
      var found := ToLight(conns, lit, used);
      (exists k :: 0 <= k < |found| && found[k].0 == conns[i])
      || forall e <- conns[i].encoders :: forall c <- e :: c in used + Crtcs(found)
  {
    hide FreeCrtc;
    var n := |conns| - 1;
    var before, found := ToLight(conns[..n], lit, used), ToLight(conns, lit, used);
    assert Crtcs(before) <= Crtcs(found) by {
      forall k | 0 <= k < |before|
        ensures before[k].1 in Crtcs(found)
      {
        assert found[k] == before[k];
      }
    }
    if i == n {
      FreeCrtcIs(conns[n].encoders, used + Crtcs(before));
      if FreeCrtc(conns[n].encoders, used + Crtcs(before)).Some? {
        assert found[|before|].0 == conns[n];
      }
    } else {
      LightsWhatItCan(conns[..n], lit, used, i);
      if k :| 0 <= k < |before| && before[k].0 == conns[..n][i] {
        assert found[k].0 == conns[i];
      }
    }
  }

  lemma DropKeepsAssigned(d: Device, connected: set<Connector>, next: nat)
    requires Assigned(d) && Numbered(d, next)
    ensures
      var d' := Dropped(d, connected);
      && Assigned(d') && Numbered(d', next)
      && d'.connectors.Keys == d.connectors.Keys * connected
      && (forall c <- d'.surfaces :: c in d.surfaces && d'.surfaces[c] == d.surfaces[c])
  {
    var d' := Dropped(d, connected);
    forall c | c in d'.surfaces
      ensures c in d'.connectors.Values
    {
      var k :| k in d.connectors && d.connectors[k] == c;
      assert k in connected;
      assert k in d'.connectors && d'.connectors[k] == c;
    }
    forall c | c in d'.connectors.Values
      ensures c in d'.surfaces
    {
      var k :| k in d'.connectors && d'.connectors[k] == c;
      assert k in d.connectors && d.connectors[k] == c;
      assert c in d.connectors.Values;
    }
  }

  lemma LitStep(d: Device, found: Found, id: nat, n: nat)
    requires 0 < n <= |found|
    ensures
      var (before, next) := Lit(d, found[..n - 1], id);
      var (c, crtc) := found[n - 1];
      Lit(d, found[..n], id) ==
        if c.lights then
          (Device(before.surfaces[crtc := Surface(Output(next, c.name, c.width, c.height), next)], before.connectors[c.handle := crtc]), next + 1)
        else (before, next)
  {
    assert found[..n][..n - 1] == found[..n - 1] && found[..n][n - 1] == found[n - 1];
  }

  /** What lighting keeps and adds. */
  lemma {:induction false} LightAdds(d: Device, found: Found, id: nat, n: nat)
    requires n <= |found|
    ensures
      var (d', next) := Lit(d, found[..n], id);
      && next >= id
      && (forall k <- d'.connectors :: k in d.connectors || exists i :: 0 <= i < n && found[i].0.handle == k)
      && (forall c <- d'.surfaces :: c in d.surfaces || exists i :: 0 <= i < n && found[i].1 == c)
  {
    assert found[..0] == [];
    if n > 0 {
      hide Lit;
      LightAdds(d, found, id, n - 1);
      LitStep(d, found, id, n);
    }
  }

  ghost predicate Unlit(d: Device, found: Found, n: nat) {
    forall i :: 0 <= i < n && i < |found| ==> found[i].0.handle !in d.connectors && found[i].1 !in d.surfaces
  }

  lemma {:induction false} LightKeepsOld(d: Device, found: Found, id: nat, n: nat)
    requires n <= |found| && Unlit(d, found, n)
    ensures
      var d' := Lit(d, found[..n], id).0;
      && (forall k <- d.connectors :: k in d'.connectors && d'.connectors[k] == d.connectors[k])
      && (forall c <- d.surfaces :: c in d'.surfaces && d'.surfaces[c] == d.surfaces[c])
      && (forall c <- d'.surfaces :: (c in d.surfaces && d'.surfaces[c] == d.surfaces[c]) || d'.surfaces[c].global >= id)
  {
    assert found[..0] == [];
    if n > 0 {
      hide Lit;
      LightKeepsOld(d, found, id, n - 1);
      LitStep(d, found, id, n);
      LightAdds(d, found, id, n - 1);
    }
  }

  /** The next display to light has a connector and a CRTC of its own. */
  lemma NextIsNew(d: Device, found: Found, id: nat, n: nat, conns: seq<Conn>, lit: set<Connector>, used: set<Crtc>)
    requires 0 < n <= |found| && Fresh(found, conns, lit, used)
    requires d.connectors.Keys <= lit && d.surfaces.Keys <= used
    ensures
      var before := Lit(d, found[..n - 1], id).0;
      found[n - 1].0.handle !in before.connectors && found[n - 1].1 !in before.surfaces
  {
    hide Lit;
    LightAdds(d, found, id, n - 1);
  }

  lemma {:induction false} LightKeepsAssigned(d: Device, found: Found, id: nat, n: nat, conns: seq<Conn>, lit: set<Connector>, used: set<Crtc>)
    requires Assigned(d) && Numbered(d, id) && n <= |found| && Fresh(found, conns, lit, used)
    requires d.connectors.Keys <= lit && d.surfaces.Keys <= used
    ensures
      var (d', next) := Lit(d, found[..n], id);
      Assigned(d') && Numbered(d', next)
  {
    assert found[..0] == [];
    if n > 0 {
      hide Lit, Assigned, Numbered, Fresh;
      LightKeepsAssigned(d, found, id, n - 1, conns, lit, used);
      LitStep(d, found, id, n);
      NextIsNew(d, found, id, n, conns, lit, used);
      var (before, next) := Lit(d, found[..n - 1], id);
      var (c, crtc) := found[n - 1];
      if c.lights {
        LightOne(before, c.handle, crtc, Surface(Output(next, c.name, c.width, c.height), next), next);
      }
    }
  }

  lemma LightOne(d: Device, k: Connector, crtc: Crtc, s: Surface, next: nat)
    requires Assigned(d) && Numbered(d, next) && k !in d.connectors && crtc !in d.surfaces
    requires s.global == s.output.id == next
    ensures
      var d' := Device(d.surfaces[crtc := s], d.connectors[k := crtc]);
      Assigned(d') && Numbered(d', next + 1)
  {
    var d' := Device(d.surfaces[crtc := s], d.connectors[k := crtc]);
    assert forall a <- d.connectors :: d.connectors[a] in d.connectors.Values;
    forall c | c in d'.surfaces
      ensures c in d'.connectors.Values
    {
      if c == crtc {
        assert d'.connectors[k] == c;
      } else {
        var a :| a in d.connectors && d.connectors[a] == c;
        assert d'.connectors[a] == c;
      }
    }
  }

  lemma FreshUnlit(d: Device, found: Found, conns: seq<Conn>, lit: set<Connector>, used: set<Crtc>)
    requires Fresh(found, conns, lit, used) && d.connectors.Keys <= lit && d.surfaces.Keys <= used
    ensures Unlit(d, found, |found|)
  {
  }

  lemma FoundConnected(found: Found, conns: seq<Conn>, lit: set<Connector>, used: set<Crtc>, i: nat)
    requires Fresh(found, conns, lit, used) && i < |found|
    ensures found[i].0.handle in Connected(conns)
  {
    assert found[i].0 in conns;
    var k :| 0 <= k < |conns| && conns[k] == found[i].0;
    assert conns[k].handle in Connected(conns);
  }

  /** A scan leaves every display on a CRTC of its own, with new outputs numbered anew, and drops only what is gone. */
  lemma ScanKeeps(d: Device, conns: seq<Conn>, id: nat)
    requires Assigned(d) && Numbered(d, id) && DistinctHandles(conns)
    ensures
      var (d', next) := Scanned(d, conns, id);
      && Assigned(d') && Numbered(d', next) && next >= id
      && d'.connectors.Keys <= Connected(conns)
      && (forall k <- d.connectors :: k in Connected(conns) ==> k in d'.connectors && d'.connectors[k] == d.connectors[k])
      && (forall c <- d'.surfaces :: (c in d.surfaces && d'.surfaces[c] == d.surfaces[c]) || d'.surfaces[c].global >= id)
  {
    hide FreeCrtc, ToLight, Dropped, Lit, Connected, Assigned, Numbered, Fresh, Unlit;
    var dropped := Dropped(d, Connected(conns));
    var found := ToLight(conns, d.connectors.Keys, d.surfaces.Keys);
    DropKeepsAssigned(d, Connected(conns), id);
    FoundIsFresh(conns, d.connectors.Keys, d.surfaces.Keys);
    assert found[..|found|] == found;
    LightKeepsAssigned(dropped, found, id, |found|, conns, d.connectors.Keys, d.surfaces.Keys);
    FreshUnlit(dropped, found, conns, d.connectors.Keys, d.surfaces.Keys);
    LightKeepsOld(dropped, found, id, |found|);
    LightAdds(dropped, found, id, |found|);
    var (d', next) := Scanned(d, conns, id);
    forall k | k in d'.connectors
      ensures k in Connected(conns)
    {
      if k !in dropped.connectors {
        var i :| 0 <= i < |found| && found[i].0.handle == k;
        FoundConnected(found, conns, d.connectors.Keys, d.surfaces.Keys, i);
      }
    }
    forall k | k in d.connectors && k in Connected(conns)
      ensures k in d'.connectors && d'.connectors[k] == d.connectors[k]
    {
      DroppedKeeps(d, Connected(conns), k);
    }
  }

  lemma DroppedKeeps(d: Device, connected: set<Connector>, k: Connector)
    requires k in d.connectors && k in connected
    ensures k in Dropped(d, connected).connectors && Dropped(d, connected).connectors[k] == d.connectors[k]
  {
  }

  // ---- the backend

  datatype Backend = Backend(
    primary: Option<Node>, devices: map<Node, Device>, globals: set<nat>, next: nat,
    mapped: seq<Output>, space: map<Output, (int, int)>, placeholder: bool, dirty: bool, size: (int, int))

  const DARK: Device := Device(map[], map[])

  /** Nothing is lit at the start; the device named as the primary, if any, may be still to come. */
  function Initial(primary: Option<Node>): Backend {
    Backend(primary, map[], {}, 0, [], map[], true, false, (1920, 1080))
  }

  function AllOutputs(devices: map<Node, Device>): set<Output> {
    set n, c | n in devices && c in devices[n].surfaces :: devices[n].surfaces[c].output
  }

  function AllGlobals(devices: map<Node, Device>): set<nat> {
    set n, c | n in devices && c in devices[n].surfaces :: devices[n].surfaces[c].global
  }

  /** Whether a scan drops or lights anything. */
  predicate Changes(d: Device, conns: seq<Conn>) {
    (exists k :: k in d.connectors && k !in Connected(conns))
    || var found := ToLight(conns, d.connectors.Keys, d.surfaces.Keys);
       exists i :: 0 <= i < |found| && found[i].0.lights
  }

  /** The globals of what is dropped are withdrawn, those of what is lit are created. */
  function Scan(b: Backend, node: Node, report: Option<seq<Conn>>): Backend {
    if node !in b.devices || report == None then b
    else
      var d := b.devices[node];
      var (d', next) := Scanned(d, report.value, b.next);
      b.(devices := b.devices[node := d'], next := next,
         globals := b.globals - (Globals(d) - Globals(d')) + (Globals(d') - Globals(d)),
         dirty := b.dirty || Changes(d, report.value))
  }

  function Added(b: Backend, node: Node, report: Option<seq<Conn>>): Backend {
    Scan(b.(primary := if b.primary == None then Some(node) else b.primary, devices := b.devices[node := DARK]), node, report)
  }

  /** If the primary device goes, another becomes it. */
  function Removed(b: Backend, node: Node, pick: Option<Node>): Backend {
    if node !in b.devices then b
    else
      b.(devices := b.devices - {node}, globals := b.globals - Globals(b.devices[node]),
         primary := if b.primary == Some(node) then pick else b.primary, dirty := true)
  }

  /** Another device is picked to be the primary while there is one. */
  predicate PicksAnother(b: Backend, node: Node, pick: Option<Node>) {
    if node in b.devices && b.devices.Keys != {node} then pick.Some? && pick.value in b.devices && pick.value != node
    else pick == None
  }

  function Members(outputs: seq<Output>): set<Output> {
    set o | o in outputs
  }

  function Sizes(order: seq<Output>): (sizes: seq<(int, int)>)
    ensures |sizes| == |order|
  {
    seq(|order|, i requires 0 <= i < |order| => (order[i].width, order[i].height))
  }

  predicate NameLeq(a: string, b: string) {
    a == [] || (b != [] && (a[0] < b[0] || (a[0] == b[0] && NameLeq(a[1..], b[1..]))))
  }

  predicate OnPrimary(b: Backend, o: Output) {
    b.primary.Some? && b.primary.value in b.devices && o in Outputs(b.devices[b.primary.value])
  }

  /** The primary device's outputs first, then by name. */
  predicate Precedes(b: Backend, x: Output, y: Output) {
    (OnPrimary(b, x) && !OnPrimary(b, y)) || (OnPrimary(b, x) == OnPrimary(b, y) && NameLeq(x.name, y.name))
  }

  /** Every lit output once, in the order of the layout. */
  ghost predicate Ordering(b: Backend, order: seq<Output>) {
    && (forall i, j :: 0 <= i < j < |order| ==> order[i] != order[j] && Precedes(b, order[i], order[j]))
    && Members(order) == AllOutputs(b.devices)
  }

  ghost predicate NoRepeats(order: seq<Output>) {
    forall i, j :: 0 <= i < j < |order| ==> order[i] != order[j]
  }

  /** The first n outputs, each at the right edge of those before it. */
  function PlacedUpTo(order: seq<Output>, n: nat): map<Output, (int, int)>
    requires n <= |order|
  {
    if n == 0 then map[] else PlacedUpTo(order, n - 1)[order[n - 1] := (Edge(Sizes(order), n - 1), 0)]
  }

  function Placed(order: seq<Output>): map<Output, (int, int)> {
    PlacedUpTo(order, |order|)
  }

  /** The heights' maximum, at least one. */
  function Tallest(order: seq<Output>): nat {
    if order == [] then 1
    else
      var t, h := Tallest(order[..|order| - 1]), order[|order| - 1].height;
      if h > t then h else t
  }

  /** The old arrangement is dropped, the outputs laid out in the order given. */
  function Relaid(b: Backend, order: seq<Output>): Backend {
    var width := Edge(Sizes(order), |order|);
    b.(mapped := order, space := (b.space - Members(b.mapped)) + Placed(order),
       placeholder := order == [], dirty := false, size := (if width < 1 then 1 else width, Tallest(order)))
  }

  /** Distinct displays anywhere have distinct globals. */
  ghost predicate Distinct(devices: map<Node, Device>) {
    forall m, n, c, e :: m in devices && n in devices && m != n && c in devices[m].surfaces && e in devices[n].surfaces ==>
      devices[m].surfaces[c].global != devices[n].surfaces[e].global
  }

  ghost predicate DevicesSound(devices: map<Node, Device>, next: nat) {
    (forall n <- devices :: Assigned(devices[n]) && Numbered(devices[n], next)) && Distinct(devices)
  }

  /** While nothing is due, the mapped outputs are the lit ones, laid out, and the placeholder stands in for none. */
  ghost predicate Settled(b: Backend) {
    !b.dirty ==>
      && Members(b.mapped) == AllOutputs(b.devices)
      && (b.placeholder <==> AllOutputs(b.devices) == {})
      && (forall i :: 0 <= i < |b.mapped| ==> b.mapped[i] in b.space && b.space[b.mapped[i]] == (Edge(Sizes(b.mapped), i), 0))
  }

  ghost predicate Inv(b: Backend) {
    && DevicesSound(b.devices, b.next)
    && b.globals == AllGlobals(b.devices)
    && b.space.Keys == Members(b.mapped)
    && Settled(b)
  }

  // ---- every event keeps it

  lemma {:induction false} NothingLit(d: Device, found: Found, id: nat, n: nat)
    requires n <= |found| && forall i :: 0 <= i < |found| ==> !found[i].0.lights
    ensures Lit(d, found[..n], id) == (d, id)
  {
    if n > 0 {
      NothingLit(d, found, id, n - 1);
      assert found[..n][..n - 1] == found[..n - 1];
    }
  }

  lemma UnchangedScan(d: Device, conns: seq<Conn>, id: nat)
    requires !Changes(d, conns)
    ensures Scanned(d, conns, id) == (d, id)
  {
    var found := ToLight(conns, d.connectors.Keys, d.surfaces.Keys);
    var dropped := Dropped(d, Connected(conns));
    assert (set k | k in d.connectors && k !in Connected(conns)) == {};
    assert dropped.surfaces == d.surfaces && dropped.connectors == d.connectors;
    NothingLit(dropped, found, id, |found|);
    assert found[..|found|] == found;
  }

  lemma ScanSound(devices: map<Node, Device>, node: Node, conns: seq<Conn>, next: nat)
    requires DevicesSound(devices, next) && node in devices && DistinctHandles(conns)
    ensures
      var (d', next') := Scanned(devices[node], conns, next);
      DevicesSound(devices[node := d'], next')
  {
    hide Scanned, Assigned;
    ScanKeeps(devices[node], conns, next);
  }

  lemma GlobalsSplit(devices: map<Node, Device>, node: Node, d: Device)
    ensures AllGlobals(devices[node := d]) == AllGlobals(devices - {node}) + Globals(d)
    ensures AllOutputs(devices[node := d]) == AllOutputs(devices - {node}) + Outputs(d)
    ensures node in devices ==> AllGlobals(devices) == AllGlobals(devices - {node}) + Globals(devices[node])
    ensures node in devices ==> AllOutputs(devices) == AllOutputs(devices - {node}) + Outputs(devices[node])
  {
    var devices' := devices[node := d];
    SplitOne(devices', node);
    assert devices' - {node} == devices - {node};
    if node in devices {
      SplitOne(devices, node);
    }
  }

  lemma SplitOne(devices: map<Node, Device>, node: Node)
    requires node in devices
    ensures AllGlobals(devices) == AllGlobals(devices - {node}) + Globals(devices[node])
    ensures AllOutputs(devices) == AllOutputs(devices - {node}) + Outputs(devices[node])
  {
    var rest := devices - {node};
    forall g | g in AllGlobals(devices)
      ensures g in AllGlobals(rest) + Globals(devices[node])
    {
      var n, c :| n in devices && c in devices[n].surfaces && devices[n].surfaces[c].global == g;
      assert n == node || (n in rest && rest[n] == devices[n]);
    }
    forall o | o in AllOutputs(devices)
      ensures o in AllOutputs(rest) + Outputs(devices[node])
    {
      var n, c :| n in devices && c in devices[n].surfaces && devices[n].surfaces[c].output == o;
      assert n == node || (n in rest && rest[n] == devices[n]);
    }
  }

  /** No other device has a global of this one, nor one not used yet. */
  lemma GlobalsApart(devices: map<Node, Device>, node: Node, next: nat)
    requires DevicesSound(devices, next)
    ensures node in devices ==> AllGlobals(devices - {node}) !! Globals(devices[node])
    ensures forall g <- AllGlobals(devices - {node}) :: g < next
  {
  }

  lemma NewGlobals(d: Device, conns: seq<Conn>, next: nat)
    requires Assigned(d) && Numbered(d, next) && DistinctHandles(conns)
    ensures forall g <- Globals(Scanned(d, conns, next).0) :: g in Globals(d) || g >= next
  {
    hide Scanned, Assigned;
    ScanKeeps(d, conns, next);
  }

  lemma ScanKeepsInv(b: Backend, node: Node, report: Option<seq<Conn>>)
    requires Inv(b) && (report.Some? ==> DistinctHandles(report.value))
    ensures Inv(Scan(b, node, report))
  {
    hide Scanned, DevicesSound, AllGlobals, AllOutputs, Changes, Assigned, Numbered;
    if node in b.devices && report.Some? {
      var d := b.devices[node];
      var (d', next) := Scanned(d, report.value, b.next);
      var b' := Scan(b, node, report);
      ScanSound(b.devices, node, report.value, b.next);
      SoundAt(b.devices, node, b.next);
      GlobalsSplit(b.devices, node, d');
      GlobalsApart(b.devices, node, b.next);
      NewGlobals(d, report.value, b.next);
      SetsMove(AllGlobals(b.devices - {node}), Globals(d), Globals(d'), b.next);
      if !Changes(d, report.value) {
        UnchangedScan(d, report.value, b.next);
        assert b.devices[node := d] == b.devices;
      }
    }
  }

  lemma SoundAt(devices: map<Node, Device>, node: Node, next: nat)
    requires DevicesSound(devices, next) && node in devices
    ensures Assigned(devices[node]) && Numbered(devices[node], next)
  {
  }

  lemma SetsMove(rest: set<nat>, g: set<nat>, g': set<nat>, next: nat)
    requires rest !! g && (forall x <- rest :: x < next) && forall x <- g' :: x in g || x >= next
    ensures rest + g - (g - g') + (g' - g) == rest + g'
  {
  }

  lemma RemoveKeepsInv(b: Backend, node: Node, pick: Option<Node>)
    requires Inv(b)
    ensures Inv(Removed(b, node, pick))
  {
    hide AllGlobals, AllOutputs, Assigned, Numbered;
    if node in b.devices {
      GlobalsSplit(b.devices, node, DARK);
      GlobalsApart(b.devices, node, b.next);
    }
  }

  /** Adding a device keeps everything exactly when it takes the place of no lit display. */
  lemma AddKeepsInv(b: Backend, node: Node, report: Option<seq<Conn>>)
    requires Inv(b) && (report.Some? ==> DistinctHandles(report.value))
    ensures Inv(Added(b, node, report)) <==> node !in b.devices || b.devices[node].surfaces == map[]
  {
    hide AllGlobals, AllOutputs, Scanned, DevicesSound, Changes;
    var b0 := b.(primary := if b.primary == None then Some(node) else b.primary, devices := b.devices[node := DARK]);
    GlobalsSplit(b.devices, node, DARK);
    DarkSound(b.devices, node, b.next);
    GlobalsApart(b.devices, node, b.next);
    if node !in b.devices || b.devices[node].surfaces == map[] {
      if node !in b.devices {
        assert b.devices - {node} == b.devices;
      } else {
        assert Globals(b.devices[node]) == {} && Outputs(b.devices[node]) == {};
      }
      ScanKeepsInv(b0, node, report);
    } else {
      DoubleAddLeaks(b, node, report);
    }
  }

  lemma DarkSound(devices: map<Node, Device>, node: Node, next: nat)
    requires DevicesSound(devices, next)
    ensures DevicesSound(devices[node := DARK], next)
  {
  }

  /** Adding a device again over lit displays leaves their globals advertised with nothing behind them. */
  lemma DoubleAddLeaks(b: Backend, node: Node, report: Option<seq<Conn>>)
    requires Inv(b) && (report.Some? ==> DistinctHandles(report.value))
    requires node in b.devices && b.devices[node].surfaces != map[]
    ensures Leaks(Added(b, node, report))
  {
    hide AllGlobals, AllOutputs, Scan, DevicesSound, Assigned, Numbered;
    var b0 := b.(primary := if b.primary == None then Some(node) else b.primary, devices := b.devices[node := DARK]);
    var c :| c in b.devices[node].surfaces;
    var g := b.devices[node].surfaces[c].global;
    assert g in Globals(b.devices[node]);
    GlobalsSplit(b.devices, node, DARK);
    GlobalsApart(b.devices, node, b.next);
    SoundAt(b.devices, node, b.next);
    assert g < b.next by { GlobalBelow(b.devices[node], b.next, c); }
    DarkSound(b.devices, node, b.next);
    ScanKeepsLeak(b0, node, report, g);
  }

  lemma GlobalBelow(d: Device, next: nat, c: Crtc)
    requires Numbered(d, next) && c in d.surfaces
    ensures d.surfaces[c].global < next
  {
  }

  lemma {:induction false} PlacedKeys(order: seq<Output>, n: nat)
    requires n <= |order|
    ensures PlacedUpTo(order, n).Keys == Members(order[..n])
  {
    hide Edge, Sizes;
    if n > 0 {
      PlacedKeys(order, n - 1);
      assert order[..n] == order[..n - 1] + [order[n - 1]];
    }
  }

  lemma {:induction false} PlacedAt(order: seq<Output>, n: nat, i: nat)
    requires i < n <= |order| && NoRepeats(order)
    ensures order[i] in PlacedUpTo(order, n) && PlacedUpTo(order, n)[order[i]] == (Edge(Sizes(order), i), 0)
  {
    hide Edge, Sizes;
    if i < n - 1 {
      PlacedAt(order, n - 1, i);
    }
  }

  lemma PlacedIs(order: seq<Output>)
    requires NoRepeats(order)
    ensures Placed(order).Keys == Members(order)
    ensures forall i :: 0 <= i < |order| ==> order[i] in Placed(order) && Placed(order)[order[i]] == (Edge(Sizes(order), i), 0)
  {
    hide PlacedUpTo, Edge, Sizes;
    PlacedKeys(order, |order|);
    assert order[..|order|] == order;
    forall i | 0 <= i < |order|
      ensures order[i] in Placed(order) && Placed(order)[order[i]] == (Edge(Sizes(order), i), 0)
    {
      PlacedAt(order, |order|, i);
    }
  }

  /** After a layout exactly the lit outputs are mapped, and nothing is due. */
  lemma RelayoutKeepsInv(b: Backend, order: seq<Output>)
    requires Inv(b) && Ordering(b, order)
    ensures Inv(Relaid(b, order)) && !Relaid(b, order).dirty && Relaid(b, order).space == Placed(order)
  {
    hide AllGlobals, AllOutputs, DevicesSound, Precedes, Tallest, Placed, Edge;
    assert NoRepeats(order);
    PlacedIs(order);
    var b' := Relaid(b, order);
    assert b.space - Members(b.mapped) == map[];
    assert b'.space == Placed(order);
    if order == [] {
      assert Members(order) == {};
    } else {
      assert order[0] in Members(order);
    }
  }

  datatype Event =
    | Add(node: Node, report: Option<seq<Conn>>)
    | Change(node: Node, report: Option<seq<Conn>>)
    | Remove(node: Node, pick: Option<Node>)
    | Relayout(order: seq<Output>)

  /** What the kernel and the run loop can do: reports name each connector once, layouts are over the lit outputs. */
  ghost predicate Possible(b: Backend, e: Event) {
    match e
    case Add(_, report) => report.Some? ==> DistinctHandles(report.value)
    case Change(_, report) => report.Some? ==> DistinctHandles(report.value)
    case Remove(_, _) => true
    case Relayout(order) => Ordering(b, order)
  }

  function After(b: Backend, e: Event): Backend {
    match e
    case Add(node, report) => Added(b, node, report)
    case Change(node, report) => Scan(b, node, report)
    case Remove(node, pick) => Removed(b, node, pick)
    case Relayout(order) => Relaid(b, order)
  }

  function Run(primary: Option<Node>, events: seq<Event>): Backend {
    if events == [] then Initial(primary) else After(Run(primary, events[..|events| - 1]), events[|events| - 1])
  }

  ghost predicate RunPossible(primary: Option<Node>, events: seq<Event>) {
    forall i :: 0 <= i < |events| ==> Possible(Run(primary, events[..i]), events[i])
  }

  /** A device is added where one with lit displays stands already. */
  predicate AddsOverLit(b: Backend, e: Event) {
    e.Add? && e.node in b.devices && b.devices[e.node].surfaces != map[]
  }

  /** A global in use before is advertised with no lit display behind it. */
  ghost predicate Leaks(b: Backend) {
    exists g :: g in b.globals && g < b.next && g !in AllGlobals(b.devices)
  }

  lemma {:induction false} StepKeepsSound(b: Backend, e: Event)
    requires DevicesSound(b.devices, b.next) && Possible(b, e)
    ensures DevicesSound(After(b, e).devices, After(b, e).next)
  {
    hide Scanned, Changes, Ordering, Distinct, Assigned, Numbered;
    match e
    case Add(node, report) =>
      DarkSound(b.devices, node, b.next);
      if report.Some? {
        ScanSound(b.devices[node := DARK], node, report.value, b.next);
      }
    case Change(node, report) =>
      if node in b.devices && report.Some? {
        ScanSound(b.devices, node, report.value, b.next);
      }
    case Remove(node, _) => FewerSound(b.devices, node, b.next);
    case Relayout(_) =>
  }

  lemma FewerSound(devices: map<Node, Device>, node: Node, next: nat)
    requires DevicesSound(devices, next)
    ensures DevicesSound(devices - {node}, next)
  {
    hide Assigned, Numbered;
  }

  /** A scan gives no old global a display. */
  lemma ScanKeepsLeak(b: Backend, node: Node, report: Option<seq<Conn>>, g: nat)
    requires DevicesSound(b.devices, b.next) && (report.Some? ==> DistinctHandles(report.value))
    requires g in b.globals && g < b.next && g !in AllGlobals(b.devices)
    ensures
      var b' := Scan(b, node, report);
      g in b'.globals && g < b'.next && g !in AllGlobals(b'.devices)
  {
    hide AllGlobals, AllOutputs, Scanned, DevicesSound, Changes, Assigned, Numbered;
    if node in b.devices && report.Some? {
      var d := b.devices[node];
      SoundAt(b.devices, node, b.next);
      NewGlobals(d, report.value, b.next);
      GlobalsSplit(b.devices, node, Scanned(d, report.value, b.next).0);
      ScanKeeps(d, report.value, b.next);
    }
  }

  /** Nothing mends a leak. */
  lemma StepKeepsLeak(b: Backend, e: Event)
    requires DevicesSound(b.devices, b.next) && Possible(b, e) && Leaks(b)
    ensures Leaks(After(b, e))
  {
    hide AllGlobals, AllOutputs, Scan, DevicesSound, Changes, Ordering, Placed, Tallest, Edge;
    var g :| g in b.globals && g < b.next && g !in AllGlobals(b.devices);
    match e {
      case Add(node, report) =>
        GlobalsSplit(b.devices, node, DARK);
        DarkSound(b.devices, node, b.next);
        NoGlobals(b.devices, node, g);
        ScanKeepsLeak(b.(primary := if b.primary == None then Some(node) else b.primary, devices := b.devices[node := DARK]), node, report, g);
      case Change(node, report) => ScanKeepsLeak(b, node, report, g);
      case Remove(node, _) => NoGlobals(b.devices, node, g);
      case Relayout(_) =>
    }
    var b' := After(b, e);
    assert g in b'.globals && g < b'.next && g !in AllGlobals(b'.devices);
  }

  lemma NoGlobals(devices: map<Node, Device>, node: Node, g: nat)
    requires g !in AllGlobals(devices)
    ensures g !in AllGlobals(devices - {node}) && g !in AllGlobals(devices[node := DARK])
    ensures node in devices ==> g !in Globals(devices[node])
  {
    GlobalsSplit(devices, node, DARK);
    if node !in devices {
      assert devices - {node} == devices;
    }
  }

  /** Adding a device again over lit displays is the one event that breaks the invariant. */
  lemma StepKeepsInv(b: Backend, e: Event)
    requires Inv(b) && Possible(b, e)
    ensures if AddsOverLit(b, e) then Leaks(After(b, e)) else Inv(After(b, e))
  {
    hide Inv, Added, Scan, Removed, Relaid, Ordering, Leaks;
    match e
    case Add(node, report) =>
      if AddsOverLit(b, e) {
        DoubleAddLeaks(b, node, report);
      } else {
        AddKeepsInv(b, node, report);
      }
    case Change(node, report) => ScanKeepsInv(b, node, report);
    case Remove(node, pick) => RemoveKeepsInv(b, node, pick);
    case Relayout(order) => RelayoutKeepsInv(b, order);
  }

  /** The invariant, or a leak it rules out. */
  ghost predicate SoundOrLeaking(b: Backend, leaks: bool) {
    DevicesSound(b.devices, b.next) && if leaks then Leaks(b) else Inv(b)
  }

  lemma LeakBreaksInv(b: Backend)
    requires Leaks(b)
    ensures !Inv(b)
  {
  }

  ghost predicate AddedOverLit(primary: Option<Node>, events: seq<Event>) {
    exists i :: 0 <= i < |events| && AddsOverLit(Run(primary, events[..i]), events[i])
  }

  lemma {:induction false} RunIsSoundOrLeaks(primary: Option<Node>, events: seq<Event>)
    requires RunPossible(primary, events)
    ensures SoundOrLeaking(Run(primary, events), AddedOverLit(primary, events))
  {
    if events == [] {
      hide Run;
      StartsSound(primary);
    } else {
      hide After, Possible, AddsOverLit, DevicesSound, Inv, Leaks;
      var n := |events| - 1;
      var b, e := Run(primary, events[..n]), events[n];
      RunPrefix(primary, events);
      RunIsSoundOrLeaks(primary, events[..n]);
      assert Possible(b, e);
      StepKeepsSound(b, e);
      if AddedOverLit(primary, events[..n]) {
        StepKeepsLeak(b, e);
      } else {
        StepKeepsInv(b, e);
      }
    }
  }

  lemma StartsSound(primary: Option<Node>)
    ensures Run(primary, []) == Initial(primary) && Inv(Initial(primary)) && !AddedOverLit(primary, [])
  {
  }

  lemma RunPrefix(primary: Option<Node>, events: seq<Event>)
    requires RunPossible(primary, events) && events != []
    ensures
      var n := |events| - 1;
      && RunPossible(primary, events[..n])
      && (AddedOverLit(primary, events) <==> AddedOverLit(primary, events[..n]) || AddsOverLit(Run(primary, events[..n]), events[n]))
  {
    hide Run, Possible, AddsOverLit;
    var n := |events| - 1;
    assert forall i :: 0 <= i <= n ==> events[..n][..i] == events[..i];
    forall i | 0 <= i < n
      ensures Possible(Run(primary, events[..n][..i]), events[..n][i])
    {
      assert Possible(Run(primary, events[..i]), events[i]);
    }
    if i :| 0 <= i < n && AddsOverLit(Run(primary, events[..n][..i]), events[..n][i]) {
      assert AddsOverLit(Run(primary, events[..i]), events[i]);
    }
    if i :| 0 <= i < |events| && AddsOverLit(Run(primary, events[..i]), events[i]) {
      assert i < n ==> AddsOverLit(Run(primary, events[..n][..i]), events[..n][i]);
    }
  }

  /**
   The invariant holds after a run, whichever device is named as the primary at its start, exactly when
   no device was added where one with lit displays stood already.
   */
  lemma RunKeeps(primary: Option<Node>, events: seq<Event>)
    requires RunPossible(primary, events)
    ensures Inv(Run(primary, events)) <==> !AddedOverLit(primary, events)
  {
    hide Inv, Leaks, AddedOverLit, DevicesSound, Run;
    RunIsSoundOrLeaks(primary, events);
    if AddedOverLit(primary, events) {
      LeakBreaksInv(Run(primary, events));
    }
  }
}
