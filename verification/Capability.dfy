/**
 Rights and resources of the Weave (crates/weave/src/capability.rs). A path keeps its spelling, and is
 compared by its components, as the standard library compares paths on Unix.
 */
module Capability {

  /** The three bits a rights word can carry. */
  datatype Rights = Rights(read: bool, write: bool, exec: bool)

  /** At least the requested rights. */
  predicate Contains(have: Rights, want: Rights) {
    (want.read ==> have.read) && (want.write ==> have.write) && (want.exec ==> have.exec)
  }

  datatype Resource =
    | File(path: string)
    | Net(host: string, port: nat)
    | Device(name: string)
    | Service(name: string, action: string)

  /** A path up to its first slash. */
  function First(path: string): (piece: string)
    ensures |piece| <= |path| && piece == path[..|piece|] && '/' !in piece
    ensures |piece| < |path| ==> path[|piece|] == '/'
  {
    if path == "" || path[0] == '/' then "" else [path[0]] + First(path[1..])
  }

  /** The pieces between slashes that lead somewhere: neither empty nor a dot. */
  function Pieces(path: string): seq<string>
    decreases |path|
  {
    if path == "" then []
    else
      var piece := First(path);
      (if piece == "" || piece == "." then [] else [piece])
      + (if |piece| < |path| then Pieces(path[|piece| + 1..]) else [])
  }

  /** The root of an absolute path, or the dot a relative one starts with. */
  function Root(path: string): seq<string> {
    if path != "" && path[0] == '/' then ["/"] else if First(path) == "." then ["."] else []
  }

  function Components(path: string): seq<string> {
    Root(path) + Pieces(path)
  }

  /** The same resource, however its path is spelled. */
  predicate Same(a: Resource, b: Resource) {
    match (a, b)
    case (File(p), File(q)) => Components(p) == Components(q)
    case _ => a == b
  }

  /** A file grant covers the path and everything beneath it; anything else must match exactly. */
  predicate Covers(have: Resource, want: Resource) {
    match (have, want)
    case (File(a), File(b)) => Components(a) <= Components(b)
    case _ => have == want
  }

  /** A resource and the rights wanted over it (crates/aura/src/tool.rs). */
  datatype Need = Need(resource: Resource, rights: Rights)

  predicate SameNeed(a: Need, b: Need) {
    Same(a.resource, b.resource) && a.rights == b.rights
  }

  /** A grant of the first meets a need for the second. */
  predicate Meets(have: Need, want: Need) {
    Covers(have.resource, want.resource) && Contains(have.rights, want.rights)
  }

  /** Needs that meet each other are the same capability, and nothing else tells them apart. */
  lemma MeetsIsPreorder(a: Need, b: Need, c: Need)
    ensures Meets(a, a)
    ensures Meets(a, b) && Meets(b, c) ==> Meets(a, c)
    ensures Meets(a, b) && Meets(b, a) <==> SameNeed(a, b)
  {
    hide Components;
  }

  // ---- coverage, said of the paths as they are written

  /** A piece of a path that leads somewhere: neither empty nor a dot, and without a slash. */
  predicate IsPiece(name: string) {
    name != "" && name != "." && '/' !in name
  }

  lemma {:induction false} FirstOf(piece: string, rest: string)
    requires '/' !in piece && (rest == "" || rest[0] == '/')
    ensures First(piece + rest) == piece
  {
    if piece == "" {
      assert piece + rest == rest;
    } else {
      assert (piece + rest)[1..] == piece[1..] + rest;
      FirstOf(piece[1..], rest);
    }
  }

  /** A slash parts the pieces before it from those behind it. */
  lemma {:induction false} PiecesJoined(path: string, rest: string)
    ensures Pieces(path + "/" + rest) == Pieces(path) + Pieces(rest)
    decreases |path|
  {
    hide First, Pieces;
    var piece := First(path);
    var whole := path + "/" + rest;
    FirstJoined(path, rest);
    PiecesStep(whole);
    if |piece| < |path| {
      PiecesStep(path);
      assert whole[|piece| + 1..] == path[|piece| + 1..] + "/" + rest;
      PiecesJoined(path[|piece| + 1..], rest);
    } else {
      LastPiece(path);
      assert whole[|piece| + 1..] == rest;
    }
  }

  lemma PiecesStep(path: string)
    requires |First(path)| < |path|
    ensures Pieces(path) == (if First(path) == "" || First(path) == "." then [] else [First(path)]) + Pieces(path[|First(path)| + 1..])
  {
    hide First;
  }

  lemma LastPiece(path: string)
    requires |First(path)| == |path|
    ensures Pieces(path) == if First(path) == "" || First(path) == "." then [] else [First(path)]
  {
    hide First;
  }

  lemma OnePiece(name: string)
    requires IsPiece(name)
    ensures Pieces(name) == [name]
  {
    FirstOf(name, "");
    assert name + "" == name;
  }

  lemma ComponentsJoined(path: string, rest: string)
    requires path != ""
    ensures Components(path + "/" + rest) == Components(path) + Pieces(rest)
  {
    hide Pieces, Root;
    PiecesJoined(path, rest);
    RootJoined(path, rest);
  }

  lemma RootJoined(path: string, rest: string)
    requires path != ""
    ensures Root(path + "/" + rest) == Root(path)
  {
    hide First;
    FirstJoined(path, rest);
  }

  lemma FirstJoined(path: string, rest: string)
    ensures First(path + "/" + rest) == First(path)
  {
    var piece := First(path);
    assert path == piece + path[|piece|..];
    assert path + "/" + rest == piece + (path[|piece|..] + "/" + rest);
    FirstOf(piece, path[|piece|..] + "/" + rest);
  }

  /** A grant over a directory covers every path that continues its own. */
  lemma CoversBeneath(dir: string, rest: string)
    requires dir != ""
    ensures Covers(File(dir), File(dir)) && Covers(File(dir), File(dir + "/")) && Covers(File(dir), File(dir + "/" + rest))
  {
    hide Components, Pieces, First;
    ComponentsJoined(dir, rest);
    ComponentsJoined(dir, "");
    assert dir + "/" + "" == dir + "/";
  }

  /** A grant over something in a directory covers neither the directory nor anything beside it. */
  lemma CoversNothingBeside(dir: string, name: string, other: string, rest: string)
    requires dir != "" && IsPiece(name) && IsPiece(other) && name != other
    ensures !Covers(File(dir + "/" + name), File(dir))
    ensures !Covers(File(dir + "/" + name), File(dir + "/" + other))
    ensures !Covers(File(dir + "/" + name), File(dir + "/" + other + "/" + rest))
  {
    hide Components, Pieces, First;
    ComponentsJoined(dir, name);
    ComponentsJoined(dir, other);
    ComponentsJoined(dir + "/" + other, rest);
    OnePiece(name);
    OnePiece(other);
    var k := |Components(dir)|;
    assert Components(dir + "/" + name)[k] == name && Components(dir + "/" + other)[k] == other;
  }

  /** Names that begin alike are still different names. */
  lemma LogIsNotLogs()
    ensures Covers(File("/var"), File("/var/log")) && !Covers(File("/var/log"), File("/var"))
    ensures !Covers(File("/var/log"), File("/var/logs")) && !Covers(File("/var/logs"), File("/var/log"))
  {
    hide Covers;
    CoversBeneath("/var", "log");
    CoversNothingBeside("/var", "log", "logs", "");
    CoversNothingBeside("/var", "logs", "log", "");
    assert "/var" + "/" + "log" == "/var/log" && "/var" + "/" + "logs" == "/var/logs";
  }

  /** Pieces written out again, each behind a slash but the first. */
  function Written(pieces: seq<string>): string {
    if pieces == [] then "" else if |pieces| == 1 then pieces[0] else pieces[0] + "/" + Written(pieces[1..])
  }

  lemma {:induction false} WrittenPieces(pieces: seq<string>)
    requires forall i :: 0 <= i < |pieces| ==> IsPiece(pieces[i])
    ensures Pieces(Written(pieces)) == pieces
  {
    if pieces != [] {
      hide Pieces;
      OnePiece(pieces[0]);
      if |pieces| > 1 {
        WrittenPieces(pieces[1..]);
        PiecesJoined(pieces[0], Written(pieces[1..]));
      }
    }
  }

  lemma {:induction false} PiecesArePieces(path: string)
    ensures forall i :: 0 <= i < |Pieces(path)| ==> IsPiece(Pieces(path)[i])
    decreases |path|
  {
    hide First;
    if path != "" {
      var piece := First(path);
      if |piece| < |path| {
        PiecesArePieces(path[|piece| + 1..]);
      }
    }
  }

  /** A file grant covers exactly the paths that are its own continued, however they are spelled. */
  lemma CoversIffContinues(dir: string, path: string)
    requires dir != ""
    ensures Covers(File(dir), File(path)) <==> exists rest :: Same(File(path), File(dir + "/" + rest))
  {
    hide Components;
    if Covers(File(dir), File(path)) {
      var k := |Components(dir)|;
      var pieces := Components(path)[k..];
      BehindTheRoot(dir, path);
      WrittenPieces(pieces);
      ComponentsJoined(dir, Written(pieces));
      assert Same(File(path), File(dir + "/" + Written(pieces)));
    }
    if rest :| Same(File(path), File(dir + "/" + rest)) {
      ComponentsJoined(dir, rest);
    }
  }

  lemma BehindTheRoot(dir: string, path: string)
    requires dir != "" && Components(dir) <= Components(path)
    ensures forall i :: |Components(dir)| <= i < |Components(path)| ==> IsPiece(Components(path)[i])
  {
    hide Pieces, First;
    PiecesArePieces(path);
    PiecesArePieces(dir);
    var a, b := Root(dir), Root(path);
    assert Components(dir) == a + Pieces(dir) && Components(path) == b + Pieces(path);
    if Components(dir) == [] {
      RelativeHasPieces(dir);
    }
    forall i | |Components(dir)| <= i < |Components(path)|
      ensures IsPiece(Components(path)[i])
    {
      assert Components(path)[i] == Pieces(path)[i - |b|];
    }
  }

  /** A path that is not empty has a component. */
  lemma RelativeHasPieces(path: string)
    requires path != ""
    ensures Components(path) != []
  {
  }

  /** Anything but a file is covered by itself alone. */
  lemma OthersCoverThemselves(a: Resource, b: Resource)
    requires !(a.File? && b.File?)
    ensures Covers(a, b) <==> a == b
  {
  }

  /** Every right asked for has to be granted, and no other matters. */
  lemma ContainsIs(have: Rights, want: Rights)
    ensures Contains(have, want) <==> !(want.read && !have.read) && !(want.write && !have.write) && !(want.exec && !have.exec)
    ensures !Contains(Rights(true, false, false), Rights(true, true, false))
    ensures Contains(Rights(true, true, false), Rights(true, false, false))
  {
  }

  /** Doubled slashes and dots between names make no other path; a root and a leading dot do. */
  lemma SpelledAlike(dir: string, rest: string)
    requires dir != ""
    ensures Same(File(dir + "/" + ("/" + rest)), File(dir + "/" + rest))
    ensures Same(File(dir + "/" + ("./" + rest)), File(dir + "/" + rest))
    ensures !Same(File("/a"), File("a")) && !Same(File("./a"), File("a"))
  {
    hide Components, Pieces, First;
    ComponentsJoined(dir, rest);
    ComponentsJoined(dir, "/" + rest);
    ComponentsJoined(dir, "./" + rest);
    PiecesJoined("", rest);
    PiecesJoined(".", rest);
    assert "" + "/" + rest == "/" + rest && "." + "/" + rest == "./" + rest;
    NoPieces();
    ThreeRoots();
  }

  lemma NoPieces()
    ensures Pieces("") == [] && Pieces(".") == []
  {
    FirstOf(".", "");
    assert "." + "" == ".";
  }

  lemma ThreeRoots()
    ensures Components("/a")[0] == "/" && Components("./a")[0] == "." && Components("a") == ["a"]
  {
    FirstOf(".", "/a");
    FirstOf("a", "");
    assert "." + "/a" == "./a" && "a" + "" == "a";
    hide First;
    OnePiece("a");
  }
}
