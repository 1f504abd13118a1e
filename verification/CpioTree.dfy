/**
 The directory tree an archive is built from, and its edits (crates/keybuild/src/cpio.rs).
 The sorted map of a directory is a list in ascending order of names; a directory is edited
 where it stands, so an edit also says what the tree is like when it fails half-way.
 */
module CpioTree {
  import opened Outcomes
  import opened Bits

  datatype Node = Dir(dir: DirNode)
                | File(mode: nat, data: seq<byte>)
                | Symlink(target: string)
                | Device(mode: nat, ifmt: nat, major: nat, minor: nat)

  datatype DirNode = DirNode(mode: nat, entries: Entries)

  datatype Entries = Nil | Cons(name: string, node: Node, rest: Entries)

  datatype Error = BadPath | ThroughNonDirectory

  const WORD: nat := 0x1_0000_0000

  const S_IFCHR: nat := 0x2000
  const S_IFBLK: nat := 0x6000

  const DEFAULT_DIR_MODE: nat := 0x1ed

  datatype NodeKind = Char | Block {
    function Ifmt(): nat {
      if Char? then S_IFCHR else S_IFBLK
    }
  }

  // ---- the order of names

  predicate Less(a: string, b: string) {
    if a == [] then b != []
    else b != [] && (a[0] < b[0] || (a[0] == b[0] && Less(a[1..], b[1..])))
  }

  lemma {:induction false} LessTotal(a: string, b: string)
    ensures Less(a, b) || Less(b, a) || a == b
    ensures !(Less(a, b) && Less(b, a)) && !Less(a, a)
  {
    if a != [] && b != [] {
      LessTotal(a[1..], b[1..]);
      LessTotal(a[1..], a[1..]);
      if a[0] == b[0] && a[1..] == b[1..] {
        assert a == [a[0]] + a[1..] && b == [b[0]] + b[1..];
      }
    } else if a != [] {
      LessTotal(a[1..], a[1..]);
    }
  }

  lemma {:induction false} LessTransitive(a: string, b: string, c: string)
    requires Less(a, b) && Less(b, c)
    ensures Less(a, c)
  {
    if a != [] && a[0] == b[0] && b[0] == c[0] {
      LessTransitive(a[1..], b[1..], c[1..]);
    }
  }

  /** The order is that of the first difference, and a beginning comes before what it begins. */
  lemma {:induction false} LessIs(a: string, b: string)
    ensures Less(a, b) <==> a < b || exists k :: 0 <= k < |a| && k < |b| && a[..k] == b[..k] && a[k] < b[k]
  {
    if a != [] && b != [] {
      var x, y := a[1..], b[1..];
      LessIs(x, y);
      assert a == [a[0]] + x && b == [b[0]] + y;
      if Less(a, b) {
        if a[0] < b[0] {
          assert a[..0] == b[..0];
        } else if !(x < y) {
          var k :| 0 <= k < |x| && k < |y| && x[..k] == y[..k] && x[k] < y[k];
          assert a[..k + 1] == [a[0]] + x[..k] == b[..k + 1];
          assert a[k + 1] < b[k + 1];
        }
      }
      if k :| 0 <= k < |a| && k < |b| && a[..k] == b[..k] && a[k] < b[k] {
        FirstDifference(a, b, k);
      }
    }
  }

  lemma {:induction false} FirstDifference(a: string, b: string, k: nat)
    requires k < |a| && k < |b| && a[..k] == b[..k] && a[k] < b[k]
    ensures Less(a, b)
  {
    if k > 0 {
      assert a[..k][0] == b[..k][0];
      assert a[1..][..k - 1] == a[..k][1..] && b[1..][..k - 1] == b[..k][1..];
      FirstDifference(a[1..], b[1..], k - 1);
    }
  }

  // ---- directories as maps

  function Find(e: Entries, name: string): Option<Node> {
    match e
    case Nil => None
    case Cons(m, node, rest) => if m == name then Some(node) else Find(rest, name)
  }

  /** Sets the entry of a name, in its place in the order. */
  function Insert(e: Entries, name: string, node: Node): Entries {
    match e
    case Nil => Cons(name, node, Nil)
    case Cons(m, old_, rest) =>
      if m == name then Cons(name, node, rest)
      else if Less(name, m) then Cons(name, node, e)
      else Cons(m, old_, Insert(rest, name, node))
  }

  predicate Sorted(e: Entries) {
    e.Cons? ==> Sorted(e.rest) && (e.rest.Cons? ==> Less(e.name, e.rest.name))
  }

  lemma {:induction false} FindInserted(e: Entries, name: string, node: Node, m: string)
    ensures Find(Insert(e, name, node), m) == if m == name then Some(node) else Find(e, m)
  {
    if e.Cons? {
      FindInserted(e.rest, name, node, m);
    }
  }

  lemma {:induction false} InsertKeepsSorted(e: Entries, name: string, node: Node)
    requires Sorted(e)
    ensures Sorted(Insert(e, name, node))
  {
    if e.Cons? {
      LessTotal(name, e.name);
      InsertKeepsSorted(e.rest, name, node);
    }
  }

  /** In a sorted list, what is found in the tail comes after the head. */
  lemma {:induction false} FoundIsLater(e: Entries, name: string)
    requires Sorted(e) && e.Cons? && Find(e.rest, name).Some?
    ensures Less(e.name, name)
  {
    if e.rest.name != name {
      FoundIsLater(e.rest, name);
      LessTransitive(e.name, e.rest.name, name);
    }
  }

  /** Setting an entry to what it already is changes nothing. */
  lemma {:induction false} InsertSame(e: Entries, name: string, node: Node)
    requires Sorted(e) && Find(e, name) == Some(node)
    ensures Insert(e, name, node) == e
  {
    if e.name != name {
      FoundIsLater(e, name);
      LessTotal(e.name, name);
      InsertSame(e.rest, name, node);
    }
  }

  /** Every directory of the tree is in order. */
  predicate Ordered(d: DirNode) {
    Sorted(d.entries) && AllOrdered(d.entries)
  }

  predicate AllOrdered(e: Entries) {
    e.Cons? ==> (e.node.Dir? ==> Ordered(e.node.dir)) && AllOrdered(e.rest)
  }

  lemma {:induction false} FoundIsOrdered(e: Entries, name: string)
    requires AllOrdered(e) && Find(e, name).Some? && Find(e, name).value.Dir?
    ensures Ordered(Find(e, name).value.dir)
  {
    if e.name != name {
      FoundIsOrdered(e.rest, name);
    }
  }

  lemma {:induction false} InsertKeepsOrdered(e: Entries, name: string, node: Node)
    requires AllOrdered(e) && (node.Dir? ==> Ordered(node.dir))
    ensures AllOrdered(Insert(e, name, node))
  {
    if e.Cons? && e.name != name && !Less(name, e.name) {
      InsertKeepsOrdered(e.rest, name, node);
    }
  }

  // ---- paths

  /** The parts between slashes, empty ones included. */
  function SplitSlash(path: string): (parts: seq<string>)
    ensures parts != []
  {
    if path == [] then [[]]
    else
      var rest := SplitSlash(path[1..]);
      if path[0] == '/' then [[]] + rest else [[path[0]] + rest[0]] + rest[1..]
  }

  function NonEmpty(parts: seq<string>): seq<string> {
    if parts == [] then []
    else (if parts[0] == [] then [] else [parts[0]]) + NonEmpty(parts[1..])
  }

  function Components(path: string): Result<seq<string>, Error> {
    var parts := NonEmpty(SplitSlash(path));
    if parts == [] || "." in parts || ".." in parts then Err(BadPath) else Ok(parts)
  }

  /** A name an archive path is made of. */
  predicate IsName(s: string) {
    s != [] && '/' !in s
  }

  // ---- what the tree's own methods build

  /** Modes are permission bits, types are type bits, numbers are words and names are names. */
  predicate WellMade(d: DirNode) {
    d.mode < 0x1000 && WellMadeEntries(d.entries)
  }

  predicate WellMadeNode(n: Node) {
    match n
    case Dir(d) => WellMade(d)
    case File(mode, _) => mode < 0x1000
    case Symlink(_) => true
    case Device(mode, ifmt, major, minor) =>
      mode < 0x1000 && (ifmt == S_IFCHR || ifmt == S_IFBLK) && major < WORD && minor < WORD
  }

  predicate WellMadeEntries(e: Entries) {
    e.Cons? ==> IsName(e.name) && WellMadeNode(e.node) && WellMadeEntries(e.rest)
  }

  lemma {:induction false} FoundIsWellMade(e: Entries, name: string)
    requires WellMadeEntries(e) && Find(e, name).Some?
    ensures WellMadeNode(Find(e, name).value)
  {
    if e.name != name {
      FoundIsWellMade(e.rest, name);
    }
  }

  lemma {:induction false} InsertKeepsWellMade(e: Entries, name: string, node: Node)
    requires WellMadeEntries(e) && IsName(name) && WellMadeNode(node)
    ensures WellMadeEntries(Insert(e, name, node))
  {
    if e.Cons? && e.name != name && !Less(name, e.name) {
      InsertKeepsWellMade(e.rest, name, node);
    }
  }

  lemma {:induction false} SplitHasNoSlash(path: string)
    ensures forall i :: 0 <= i < |SplitSlash(path)| ==> '/' !in SplitSlash(path)[i]
  {
    if path != [] {
      SplitHasNoSlash(path[1..]);
    }
  }

  lemma {:induction false} NonEmptyAreNames(parts: seq<string>)
    requires forall i :: 0 <= i < |parts| ==> '/' !in parts[i]
    ensures forall i :: 0 <= i < |NonEmpty(parts)| ==> IsName(NonEmpty(parts)[i])
  {
    if parts != [] {
      NonEmptyAreNames(parts[1..]);
    }
  }

  lemma ComponentsAreNames(path: string)
    requires Components(path).Ok?
    ensures Components(path).value != []
    ensures forall i :: 0 <= i < |Components(path).value| ==> IsName(Components(path).value[i])
  {
    SplitHasNoSlash(path);
    NonEmptyAreNames(SplitSlash(path));
  }

  /** What stands on both sides of a slash is split apart, and empty parts count for nothing. */
  lemma PartsJoined(a: string, b: string)
    ensures NonEmpty(SplitSlash(a + "/" + b)) == NonEmpty(SplitSlash(a)) + NonEmpty(SplitSlash(b))
  {
    SplitJoined(a, b);
    NonEmptyConcat(SplitSlash(a), SplitSlash(b));
  }

  lemma {:induction false} SplitJoined(a: string, b: string)
    ensures SplitSlash(a + "/" + b) == SplitSlash(a) + SplitSlash(b)
  {
    hide SplitSlash;
    var whole := a + "/" + b;
    SplitFirst(whole);
    SplitFirst(a);
    if a == [] {
      assert whole[1..] == b;
    } else {
      SplitJoined(a[1..], b);
      assert whole[1..] == a[1..] + "/" + b && whole[0] == a[0];
      MoreParts(a[0], SplitSlash(a[1..]), SplitSlash(b));
    }
  }

  lemma SplitFirst(path: string)
    ensures path == [] ==> SplitSlash(path) == [[]]
    ensures path != [] ==> SplitSlash(path) == WithFirst(path[0], SplitSlash(path[1..]))
  {
  }

  /** The parts of a path that has one character more in front. */
  function WithFirst(c: char, parts: seq<string>): seq<string>
    requires parts != []
  {
    if c == '/' then [[]] + parts else [[c] + parts[0]] + parts[1..]
  }

  lemma MoreParts(c: char, parts: seq<string>, more: seq<string>)
    requires parts != []
    ensures WithFirst(c, parts + more) == WithFirst(c, parts) + more
  {
  }

  lemma {:induction false} NonEmptyConcat(a: seq<string>, b: seq<string>)
    ensures NonEmpty(a + b) == NonEmpty(a) + NonEmpty(b)
  {
    hide NonEmpty;
    NonEmptyFirst(a);
    NonEmptyFirst(a + b);
    if a == [] {
      assert a + b == b;
    } else {
      NonEmptyConcat(a[1..], b);
      assert (a + b)[1..] == a[1..] + b;
    }
  }

  lemma NonEmptyFirst(parts: seq<string>)
    ensures parts == [] ==> NonEmpty(parts) == []
    ensures parts != [] ==> NonEmpty(parts) == (if parts[0] == [] then [] else [parts[0]]) + NonEmpty(parts[1..])
  {
  }

  lemma {:induction false} OnePart(name: string)
    requires '/' !in name
    ensures SplitSlash(name) == [name]
  {
    if name != [] {
      OnePart(name[1..]);
      assert name == [name[0]] + name[1..];
    }
  }

  /** Names with slashes between them. */
  function Written(names: seq<string>): string {
    if names == [] then "" else if |names| == 1 then names[0] else names[0] + "/" + Written(names[1..])
  }

  /** A path spelled from names comes apart into them, unless it is empty or one of them is a dot or two. */
  lemma {:induction false} WrittenComponents(names: seq<string>)
    requires forall i :: 0 <= i < |names| ==> IsName(names[i])
    ensures NonEmpty(SplitSlash(Written(names))) == names
    ensures Components(Written(names)) == if names == [] || "." in names || ".." in names then Err(BadPath) else Ok(names)
  {
    hide SplitSlash;
    if names == [] {
      OnePart("");
      assert NonEmpty([[]]) == [];
    } else {
      OnePart(names[0]);
      assert NonEmpty([names[0]]) == [names[0]];
      if |names| > 1 {
        WrittenComponents(names[1..]);
        PartsJoined(names[0], Written(names[1..]));
        assert names == [names[0]] + names[1..];
      }
    }
  }

  /** Slashes before, after and doubled make no difference. */
  lemma ExtraSlashes(a: string, b: string)
    ensures Components("/" + a) == Components(a) && Components(a + "/") == Components(a)
    ensures Components(a + "//" + b) == Components(a + "/" + b)
  {
    hide SplitSlash;
    PartsJoined("", a);
    PartsJoined(a, "");
    PartsJoined(a, b);
    PartsJoined(a + "/", b);
    NothingSplit();
    assert a + "/" + "" == a + "/" && "" + "/" + a == "/" + a && (a + "/") + "/" + b == a + "//" + b;
    var parts := NonEmpty(SplitSlash(a));
    assert [] + parts == parts && parts + [] == parts;
  }

  lemma NothingSplit()
    ensures NonEmpty(SplitSlash("")) == []
  {
  }

  // ---- edits

  const EMPTY_DIR := DirNode(DEFAULT_DIR_MODE, Nil)

  /** What is done in the directory a walk ends in. */
  datatype Edit = Nothing | Place(name: string, node: Node)

  function EditHere(d: DirNode, edit: Edit): DirNode {
    match edit
    case Nothing => d
    case Place(name, node) => d.(entries := Insert(d.entries, name, node))
  }

  /**
   Walks down `dirs`, creating what is missing, and edits the directory it ends in. The flag
   says whether it got there; the directory is the tree as the walk left it either way.
   */
  function Walk(d: DirNode, dirs: seq<string>, edit: Edit): (DirNode, bool)
    decreases |dirs|
  {
    if dirs == [] then (EditHere(d, edit), true)
    else
      var found := Find(d.entries, dirs[0]);
      var entries := if found.Some? then d.entries else Insert(d.entries, dirs[0], Dir(EMPTY_DIR));
      match (if found.Some? then found.value else Dir(EMPTY_DIR))
      case Dir(sub) =>
        var (sub', ok) := Walk(sub, dirs[1..], edit);
        (d.(entries := Insert(entries, dirs[0], Dir(sub'))), ok)
      case _ => (d.(entries := entries), false)
  }

  /** A directory the walk has gone through, as it stands, and the name it went on by. */
  datatype Frame = Frame(dir: DirNode, name: string)

  /** The whole tree, when the walk stands in `d` and came through `frames`. */
  function Plug(frames: seq<Frame>, d: DirNode): DirNode {
    if frames == [] then d
    else
      var last := frames[|frames| - 1];
      Plug(frames[..|frames| - 1], last.dir.(entries := Insert(last.dir.entries, last.name, Dir(d))))
  }

  /** The tree and the outcome of a walk that stands in `cur` with `dirs` still to go. */
  function WalkOn(frames: seq<Frame>, cur: DirNode, dirs: seq<string>, edit: Edit): (DirNode, bool) {
    var (d, ok) := Walk(cur, dirs, edit);
    (Plug(frames, d), ok)
  }

  lemma PlugNothing(d: DirNode)
    ensures Plug([], d) == d
  {
  }

  lemma NothingLeft(d: DirNode, edit: Edit)
    ensures Walk(d, [], edit) == (EditHere(d, edit), true)
  {
  }

  /** One directory further. */
  lemma WalkStep(frames: seq<Frame>, cur: DirNode, dirs: seq<string>, edit: Edit)
    requires dirs != []
    ensures
      var found := Find(cur.entries, dirs[0]);
      var next := if found.Some? then cur else cur.(entries := Insert(cur.entries, dirs[0], Dir(EMPTY_DIR)));
      match (if found.Some? then found.value else Dir(EMPTY_DIR))
      case Dir(sub) => WalkOn(frames, cur, dirs, edit) == WalkOn(frames + [Frame(next, dirs[0])], sub, dirs[1..], edit)
      case _ => WalkOn(frames, cur, dirs, edit) == (Plug(frames, next), false)
  {
    hide Insert, Find;
    var found := Find(cur.entries, dirs[0]);
    var next := if found.Some? then cur else cur.(entries := Insert(cur.entries, dirs[0], Dir(EMPTY_DIR)));
    assert (frames + [Frame(next, dirs[0])])[..|frames|] == frames;
  }

  class Tree {
    var root: DirNode

    ghost predicate Valid()
      reads this
    {
      Ordered(root) && WellMade(root)
    }

    constructor ()
      ensures Valid() && root == EMPTY_DIR
    {
      root := EMPTY_DIR;
    }

    /**
     Walks down directory by directory, creating what is missing where it stands, and edits the one it
     comes to. Meeting a leaf it stops, with the tree as it is by then.
     */
    method DirAt(dirs: seq<string>, edit: Edit) returns (r: Result<(), Error>)
      requires Valid() && forall i :: 0 <= i < |dirs| ==> IsName(dirs[i])
      requires edit.Place? ==> !edit.node.Dir? && IsName(edit.name) && WellMadeNode(edit.node)
      modifies this
      ensures Valid()
      ensures (root, r.Ok?) == Walk(old(root), dirs, edit)
      ensures r.Err? ==> r == Err(ThroughNonDirectory) && root == old(root)
    {
      hide Find, Insert, Walk, Plug, Ordered, WellMade;
      WalkKeepsOrdered(root, dirs, edit);
      WalkKeepsWellMade(root, dirs, edit);
      if !Walk(root, dirs, edit).1 {
        FailedWalkChangesNothing(root, dirs, edit);
      }
      var cur := root;
      var frames: seq<Frame> := [];
      PlugNothing(cur);
      PlugNothing(Walk(cur, dirs, edit).0);
      for i := 0 to |dirs|
        invariant WalkOn(frames, cur, dirs[i..], edit) == Walk(old(root), dirs, edit)
      {
        WalkStep(frames, cur, dirs[i..], edit);
        assert dirs[i..][1..] == dirs[i + 1..];
        var node := Find(cur.entries, dirs[i]);
        if node.None? {
          cur := cur.(entries := Insert(cur.entries, dirs[i], Dir(EMPTY_DIR)));
          node := Some(Dir(EMPTY_DIR));
        }
        match node.value {
          case Dir(sub) =>
            frames, cur := frames + [Frame(cur, dirs[i])], sub;
          case _ =>
            root := Plug(frames, cur);
            return Err(ThroughNonDirectory);
        }
      }
      NothingLeft(cur, edit);
      assert dirs[|dirs|..] == [];
      root := Plug(frames, EditHere(cur, edit));
      r := Ok(());
    }

    method Mkdir(path: string) returns (r: Result<(), Error>)
      requires Valid()
      modifies this
      ensures Valid()
      ensures Components(path).Err? ==> r == Err(Components(path).error) && root == old(root)
      ensures Components(path).Ok? ==> (root, r.Ok?) == Walk(old(root), Components(path).value, Nothing)
      ensures r.Err? ==> root == old(root)
    {
      var parts := Components(path);
      if parts.Err? {
        return Err(parts.error);
      }
      ComponentsAreNames(path);
      r := DirAt(parts.value, Nothing);
    }

    method Put(path: string, node: Node) returns (r: Result<(), Error>)
      requires Valid() && !node.Dir? && WellMadeNode(node)
      modifies this
      ensures Valid()
      ensures Components(path).Err? ==> r == Err(Components(path).error) && root == old(root)
      ensures Components(path).Ok? ==> (root, r.Ok?) == PutResult(old(root), Components(path).value, node)
      ensures r.Err? ==> root == old(root)
    {
      var parts := Components(path);
      if parts.Err? {
        return Err(parts.error);
      }
      ComponentsAreNames(path);
      var n := |parts.value| - 1;
      r := DirAt(parts.value[..n], Place(parts.value[n], node));
    }

    method InsertFile(path: string, data: seq<byte>, mode: nat) returns (r: Result<(), Error>)
      requires Valid()
      modifies this
      ensures Valid() && (r.Err? ==> root == old(root))
      ensures Components(path).Err? ==> r == Err(Components(path).error) && root == old(root)
      ensures Components(path).Ok? ==>
        (root, r.Ok?) == PutResult(old(root), Components(path).value, File(mode % 0x1000, data))
    {
      r := Put(path, File(mode % 0x1000, data));
    }

    method AddSymlink(path: string, target: string) returns (r: Result<(), Error>)
      requires Valid()
      modifies this
      ensures Valid() && (r.Err? ==> root == old(root))
      ensures Components(path).Err? ==> r == Err(Components(path).error) && root == old(root)
      ensures Components(path).Ok? ==>
        (root, r.Ok?) == PutResult(old(root), Components(path).value, Symlink(target))
    {
      r := Put(path, Symlink(target));
    }

    method AddDevice(path: string, mode: nat, kind: NodeKind, major: nat, minor: nat) returns (r: Result<(), Error>)
      requires Valid() && major < WORD && minor < WORD
      modifies this
      ensures Valid() && (r.Err? ==> root == old(root))
      ensures Components(path).Err? ==> r == Err(Components(path).error) && root == old(root)
      ensures Components(path).Ok? ==>
        (root, r.Ok?) == PutResult(old(root), Components(path).value, Device(mode % 0x1000, kind.Ifmt(), major, minor))
    {
      r := Put(path, Device(mode % 0x1000, kind.Ifmt(), major, minor));
    }
  }

  /** Placing a leaf: walk to all but the last part, and set the last. */
  function PutResult(d: DirNode, parts: seq<string>, node: Node): (DirNode, bool)
    requires parts != []
  {
    Walk(d, parts[..|parts| - 1], Place(parts[|parts| - 1], node))
  }

  lemma {:induction false} WalkKeepsOrdered(d: DirNode, dirs: seq<string>, edit: Edit)
    requires Ordered(d) && (edit.Place? ==> edit.node.Dir? ==> Ordered(edit.node.dir))
    ensures Ordered(Walk(d, dirs, edit).0)
    decreases |dirs|
  {
    if dirs == [] {
      if edit.Place? {
        InsertKeepsSorted(d.entries, edit.name, edit.node);
        InsertKeepsOrdered(d.entries, edit.name, edit.node);
      }
    } else {
      var found := Find(d.entries, dirs[0]);
      var entries := if found.Some? then d.entries else Insert(d.entries, dirs[0], Dir(EMPTY_DIR));
      InsertKeepsSorted(d.entries, dirs[0], Dir(EMPTY_DIR));
      InsertKeepsOrdered(d.entries, dirs[0], Dir(EMPTY_DIR));
      var node := if found.Some? then found.value else Dir(EMPTY_DIR);
      if node.Dir? {
        if found.Some? {
          FoundIsOrdered(d.entries, dirs[0]);
        }
        WalkKeepsOrdered(node.dir, dirs[1..], edit);
        var sub := Dir(Walk(node.dir, dirs[1..], edit).0);
        InsertKeepsSorted(entries, dirs[0], sub);
        InsertKeepsOrdered(entries, dirs[0], sub);
      }
    }
  }

  lemma {:induction false} WalkKeepsWellMade(d: DirNode, dirs: seq<string>, edit: Edit)
    requires WellMade(d) && forall i :: 0 <= i < |dirs| ==> IsName(dirs[i])
    requires edit.Place? ==> IsName(edit.name) && WellMadeNode(edit.node)
    ensures WellMade(Walk(d, dirs, edit).0)
    decreases |dirs|
  {
    if dirs == [] {
      if edit.Place? {
        InsertKeepsWellMade(d.entries, edit.name, edit.node);
      }
    } else {
      var found := Find(d.entries, dirs[0]);
      var entries := if found.Some? then d.entries else Insert(d.entries, dirs[0], Dir(EMPTY_DIR));
      InsertKeepsWellMade(d.entries, dirs[0], Dir(EMPTY_DIR));
      var node := if found.Some? then found.value else Dir(EMPTY_DIR);
      if found.Some? {
        FoundIsWellMade(d.entries, dirs[0]);
      }
      if node.Dir? {
        WalkKeepsWellMade(node.dir, dirs[1..], edit);
        InsertKeepsWellMade(entries, dirs[0], Dir(Walk(node.dir, dirs[1..], edit).0));
      }
    }
  }

  /** In a directory just created nothing can be in the way. */
  lemma {:induction false} FreshWalkSucceeds(dirs: seq<string>, edit: Edit)
    ensures Walk(EMPTY_DIR, dirs, edit).1
  {
    if dirs != [] {
      FreshWalkSucceeds(dirs[1..], edit);
    }
  }

  /** A walk that meets a non-directory has created nothing before it. */
  lemma {:induction false} FailedWalkChangesNothing(d: DirNode, dirs: seq<string>, edit: Edit)
    requires Ordered(d) && !Walk(d, dirs, edit).1
    ensures Walk(d, dirs, edit).0 == d
    decreases |dirs|
  {
    var found := Find(d.entries, dirs[0]);
    if found.None? {
      FreshWalkSucceeds(dirs[1..], edit);
    } else if found.value.Dir? {
      FoundIsOrdered(d.entries, dirs[0]);
      FailedWalkChangesNothing(found.value.dir, dirs[1..], edit);
      InsertSame(d.entries, dirs[0], found.value);
    }
  }

  // ---- what an edit changes, path by path

  datatype Thing = Directory(mode: nat) | Leaf(node: Node)

  /** What the tree has at a path. */
  function At(d: DirNode, path: seq<string>): Option<Thing>
    decreases |path|
  {
    if path == [] then Some(Directory(d.mode))
    else
      match Find(d.entries, path[0])
      case None => None
      case Some(Dir(sub)) => At(sub, path[1..])
      case Some(leaf) => if |path| == 1 then Some(Leaf(leaf)) else None
  }

  /** A leaf stands at one of the directories to walk through. */
  predicate Blocked(d: DirNode, dirs: seq<string>) {
    exists k :: 0 < k <= |dirs| && At(d, dirs[..k]).Some? && At(d, dirs[..k]).value.Leaf?
  }

  lemma {:induction false} BlockedUnfolds(d: DirNode, dirs: seq<string>)
    requires dirs != []
    ensures Blocked(d, dirs) <==>
      var found := Find(d.entries, dirs[0]);
      found.Some? && (!found.value.Dir? || Blocked(found.value.dir, dirs[1..]))
  {
    var found := Find(d.entries, dirs[0]);
    if found.Some? {
      if found.value.Dir? {
        forall k | 0 < k < |dirs|
          ensures At(d, dirs[..k + 1]) == At(found.value.dir, dirs[1..][..k])
        {
          assert dirs[..k + 1][1..] == dirs[1..][..k];
        }
        if Blocked(d, dirs) {
          assert dirs[..1][1..] == [] && At(d, dirs[..1]) == At(found.value.dir, []);
          var k :| 0 < k <= |dirs| && At(d, dirs[..k]).Some? && At(d, dirs[..k]).value.Leaf?;
          assert At(d, dirs[..k - 1 + 1]) == At(found.value.dir, dirs[1..][..k - 1]);
        }
      } else {
        assert |dirs[..1]| == 1 && At(d, dirs[..1]) == Some(Leaf(found.value));
      }
    }
  }

  /** An edit fails exactly when a leaf stands where a directory is needed. */
  lemma {:induction false} FailsIffBlocked(d: DirNode, dirs: seq<string>, edit: Edit)
    ensures !Walk(d, dirs, edit).1 <==> Blocked(d, dirs)
    decreases |dirs|
  {
    if dirs != [] {
      BlockedUnfolds(d, dirs);
      var found := Find(d.entries, dirs[0]);
      if found.None? {
        FreshWalkSucceeds(dirs[1..], edit);
      } else if found.value.Dir? {
        FailsIffBlocked(found.value.dir, dirs[1..], edit);
      }
    }
  }

  /** What a path holds after a successful edit, given what it held. */
  function Expected(before: Option<Thing>, dirs: seq<string>, edit: Edit, q: seq<string>): Option<Thing> {
    if q <= dirs then (if before.Some? then before else Some(Directory(DEFAULT_DIR_MODE)))
    else if edit.Place? && dirs + [edit.name] <= q then
      (if q == dirs + [edit.name] then Some(Leaf(edit.node)) else None)
    else before
  }

  /**
   A successful edit sets its own path, creates the missing directories on the way with the
   default mode, drops whatever was beneath the path it set, and touches nothing else.
   */
  lemma {:induction false} EditTouchesOnlyItsPath(d: DirNode, dirs: seq<string>, edit: Edit, q: seq<string>)
    requires Walk(d, dirs, edit).1 && (edit.Place? ==> !edit.node.Dir?)
    ensures At(Walk(d, dirs, edit).0, q) == Expected(At(d, q), dirs, edit, q)
    decreases |dirs|
  {
    if dirs == [] {
      if edit.Place? && q != [] {
        FindInserted(d.entries, edit.name, edit.node, q[0]);
        assert ([] + [edit.name] <= q) <==> q[0] == edit.name;
      }
    } else {
      var found := Find(d.entries, dirs[0]);
      var entries := if found.Some? then d.entries else Insert(d.entries, dirs[0], Dir(EMPTY_DIR));
      var sub := if found.Some? then found.value.dir else EMPTY_DIR;
      if q != [] {
        FindInserted(d.entries, dirs[0], Dir(EMPTY_DIR), q[0]);
        FindInserted(entries, dirs[0], Dir(Walk(sub, dirs[1..], edit).0), q[0]);
        if edit.Place? {
          assert (dirs + [edit.name])[1..] == dirs[1..] + [edit.name];
        }
        if q[0] == dirs[0] {
          EditTouchesOnlyItsPath(sub, dirs[1..], edit, q[1..]);
          assert q == [q[0]] + q[1..];
          if found.None? && q[1..] != [] {
            assert At(EMPTY_DIR, q[1..]) == None;
          }
        }
      }
    }
  }
}
