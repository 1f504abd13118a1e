/**
 Reading back what was written: the writer's archive of a tree is read as the tree's listing,
 and has what an unpacker relies on.
 */
module CpioRoundTrip {
  import opened Outcomes
  import opened Bits
  import Utf8
  import opened CpioTree
  import opened CpioArchive

  // ---- reading back what was written

  /** The archive listing of a tree: pre-order, names ascending, full paths. */
  function Listing(path: string, e: Entries): seq<Entry>
    decreases e, 0
  {
    match e
    case Nil => []
    case Cons(name, node, rest) => NodeListing(JoinPath(path, name), node) + Listing(path, rest)
  }

  function NodeListing(path: string, n: Node): seq<Entry>
    decreases n, 0
  {
    match n
    case Dir(d) => [DirEntry(path, d.mode)] + Listing(path, d.entries)
    case File(mode, data) => [FileEntry(path, mode, data)]
    case Symlink(target) => [SymlinkEntry(path, target)]
    case Device(mode, ifmt, major, minor) =>
      [DeviceEntry(path, mode, if ifmt == S_IFCHR then Char else Block, major, minor)]
  }

  /** Lengths fit the 32-bit fields that hold them. */
  predicate Fits(r: Record) {
    |Utf8.Encode(r.name)| < WORD - 1 && |r.data| < WORD
  }

  predicate GoodRecord(r: Record) {
    r.mode < WORD && r.nlink < WORD && r.rdevmajor < WORD && r.rdevminor < WORD && Fits(r)
  }

  lemma {:induction false} HexFieldAt(f: seq<nat>, i: nat)
    requires i < |f|
    ensures HexFields(f)[i * 8..i * 8 + 8] == Hex(f[i], 8)
  {
    hide Hex;
    var n := |f| - 1;
    if i < n {
      HexFieldAt(f[..n], i);
    }
  }

  lemma SubSlice(s: seq<byte>, pos: nat, len: nat, lo: nat, hi: nat)
    requires pos + len <= |s| && lo <= hi <= len
    ensures s[pos + lo..pos + hi] == s[pos..pos + len][lo..hi]
  {
    var a, b := s[pos + lo..pos + hi], s[pos..pos + len][lo..hi];
    assert forall i :: 0 <= i < |a| ==> a[i] == s[pos + lo + i] == b[i];
  }

  /** Where the parts of a record start, and that the reader finds them there. */
  lemma HeaderReads(bytes: seq<byte>, pos: nat, r: Record, ino: nat, i: nat)
    requires GoodRecord(r) && ino < WORD && i < 13
    requires pos + |Head(r, ino)| <= |bytes| && bytes[pos..pos + |Head(r, ino)|] == Head(r, ino)
    ensures pos + HEADER_LEN <= |bytes| && bytes[pos..pos + 6] == MAGIC
    ensures FieldAt(bytes, pos, i) == Ok(Fields(r, ino)[i])
  {
    hide HexFields, Hex, Fields, ParseHex8, Utf8.Encode, Pad;
    var f, h := Fields(r, ino), Head(r, ino);
    assert h[..6] == MAGIC && h[6..HEADER_LEN] == HexFields(f);
    assert bytes[pos..pos + 6] == bytes[pos..pos + |h|][..6];
    SubSlice(bytes, pos, |h|, 6 + i * 8, 6 + i * 8 + 8);
    SubSlice(h, 6, HEADER_LEN - 6, i * 8, i * 8 + 8);
    HexFieldAt(f, i);
    FieldsAreWords(r, ino);
    FieldRoundTrip(f[i]);
  }

  lemma NameReads(bytes: seq<byte>, pos: nat, r: Record, ino: nat)
    requires pos + |Head(r, ino)| <= |bytes| && bytes[pos..pos + |Head(r, ino)|] == Head(r, ino)
    ensures
      var n := |Utf8.Encode(r.name)|;
      && pos + HEADER_LEN + n + 1 <= |bytes|
      && bytes[pos + HEADER_LEN..pos + HEADER_LEN + n] == Utf8.Encode(r.name)
      && |Head(r, ino)| == HEADER_LEN + n + 1 + Pad(HEADER_LEN + n + 1)
  {
    hide HexFields, Fields, Utf8.Encode, Pad;
    var n, h := |Utf8.Encode(r.name)|, Head(r, ino);
    assert h[HEADER_LEN..HEADER_LEN + n] == Utf8.Encode(r.name);
    assert bytes[pos + HEADER_LEN..pos + HEADER_LEN + n] == bytes[pos..pos + |h|][HEADER_LEN..HEADER_LEN + n];
  }

  lemma AlignIsPad(pos: nat, n: nat)
    requires pos % 4 == 0
    ensures Align4(pos + n) == pos + n + Pad(n)
  {
  }

  /** The five fields the reader uses. */
  lemma FieldsRead(bytes: seq<byte>, pos: nat, r: Record, ino: nat)
    requires GoodRecord(r) && ino < WORD
    requires pos + |Head(r, ino)| <= |bytes| && bytes[pos..pos + |Head(r, ino)|] == Head(r, ino)
    ensures pos + HEADER_LEN <= |bytes| && bytes[pos..pos + 6] == MAGIC
    ensures FieldAt(bytes, pos, 1) == Ok(r.mode) && FieldAt(bytes, pos, 6) == Ok(|r.data|)
    ensures FieldAt(bytes, pos, 9) == Ok(r.rdevmajor) && FieldAt(bytes, pos, 10) == Ok(r.rdevminor)
    ensures FieldAt(bytes, pos, 11) == Ok(|Utf8.Encode(r.name)| + 1)
  {
    hide Head, FieldAt, Utf8.Encode;
    HeaderReads(bytes, pos, r, ino, 1);
    HeaderReads(bytes, pos, r, ino, 6);
    HeaderReads(bytes, pos, r, ino, 9);
    HeaderReads(bytes, pos, r, ino, 10);
    HeaderReads(bytes, pos, r, ino, 11);
  }

  /** The data follows the head, and the next record follows the padded data. */
  lemma DataReads(bytes: seq<byte>, pos: nat, r: Record, ino: nat)
    requires pos % 4 == 0 && pos + |EncodeRecord(r, ino)| <= |bytes|
    requires bytes[pos..pos + |EncodeRecord(r, ino)|] == EncodeRecord(r, ino)
    ensures
      var start := pos + |Head(r, ino)|;
      && bytes[pos..start] == Head(r, ino)
      && start + |r.data| <= |bytes| && bytes[start..start + |r.data|] == r.data
      && Align4(start + |r.data|) == pos + |EncodeRecord(r, ino)|
  {
    hide Head, Pad, Align4;
    var h, e := Head(r, ino), EncodeRecord(r, ino);
    SubSlice(bytes, pos, |e|, 0, |h|);
    SubSlice(bytes, pos, |e|, |h|, |h| + |r.data|);
    assert e[..|h|] == h && e[|h|..|h| + |r.data|] == r.data;
    HeadAligned(r, ino);
    AlignIsPad(pos + |h|, |r.data|);
  }

  /** A record written at an aligned position is read back field by field. */
  lemma RecordReads(bytes: seq<byte>, pos: nat, r: Record, ino: nat)
    requires GoodRecord(r) && ino < WORD && pos % 4 == 0
    requires pos + |EncodeRecord(r, ino)| <= |bytes|
    requires bytes[pos..pos + |EncodeRecord(r, ino)|] == EncodeRecord(r, ino)
    ensures ParseRecord(bytes, pos)
         == Ok(Parsed(r.name, r.mode, r.rdevmajor, r.rdevminor, r.data, pos + |EncodeRecord(r, ino)|))
  {
    hide Head, FieldAt, EncodeRecord, Utf8.Encode, Utf8.Decode, Pad, Align4;
    DataReads(bytes, pos, r, ino);
    FieldsRead(bytes, pos, r, ino);
    NameReads(bytes, pos, r, ino);
    Utf8.DecodeEncode(r.name);
    AlignIsPad(pos, HEADER_LEN + |Utf8.Encode(r.name)| + 1);
  }

  lemma {:induction false} EncodePrefix(rs: seq<Record>, ino: nat, k: nat)
    requires k <= |rs|
    ensures EncodeRecords(rs[..k], ino) <= EncodeRecords(rs, ino)
  {
    hide EncodeRecord;
    if k < |rs| {
      var n := |rs| - 1;
      EncodePrefix(rs[..n], ino, k);
      assert rs[..n][..k] == rs[..k];
    } else {
      assert rs[..k] == rs;
    }
  }

  lemma {:induction false} EncodedAligned(rs: seq<Record>, ino: nat)
    ensures |EncodeRecords(rs, ino)| % 4 == 0
  {
    hide EncodeRecord;
    if rs != [] {
      var n := |rs| - 1;
      EncodedAligned(rs[..n], ino);
      RecordAligned(rs[n], (ino + n) % WORD);
    }
  }

  /** Record k sits where the records before it end. */
  lemma RecordInPlace(rs: seq<Record>, ino: nat, k: nat)
    requires k < |rs|
    ensures
      var bytes, pos := EncodeRecords(rs, ino), |EncodeRecords(rs[..k], ino)|;
      var e := EncodeRecord(rs[k], (ino + k) % WORD);
      && pos % 4 == 0 && pos + |e| <= |bytes| && bytes[pos..pos + |e|] == e
      && pos + |e| == |EncodeRecords(rs[..k + 1], ino)|
  {
    hide EncodeRecord;
    EncodedAligned(rs[..k], ino);
    EncodePrefix(rs, ino, k + 1);
    AppendRecord(rs[..k], rs[k], ino);
    assert rs[..k] + [rs[k]] == rs[..k + 1];
  }

  /** What the reader makes of a record. */
  function EntryOf(r: Record): Result<Entry, ReadError> {
    ToEntry(Parsed(r.name, r.mode, r.rdevmajor, r.rdevminor, r.data, 0))
  }

  /** The entries of the records before the first one named like the trailer. */
  function UntilTrailer(rs: seq<Record>): seq<Entry>
    requires forall i :: 0 <= i < |rs| ==> EntryOf(rs[i]).Ok?
  {
    if rs == [] || rs[0].name == TRAILER then [] else [EntryOf(rs[0]).value] + UntilTrailer(rs[1..])
  }

  lemma {:induction false} ReadsUntilTrailer(rs: seq<Record>, ino: nat, k: nat)
    requires k < |rs| && rs[|rs| - 1].name == TRAILER
    requires forall i :: 0 <= i < |rs| ==> GoodRecord(rs[i]) && EntryOf(rs[i]).Ok?
    ensures ReadFrom(EncodeRecords(rs, ino), |EncodeRecords(rs[..k], ino)|) == Ok(UntilTrailer(rs[k..]))
    decreases |rs| - k
  {
    hide EncodeRecord, EncodeRecords, ParseRecord, ToEntry, GoodRecord;
    RecordInPlace(rs, ino, k);
    RecordReads(EncodeRecords(rs, ino), |EncodeRecords(rs[..k], ino)|, rs[k], (ino + k) % WORD);
    EntryIgnoresPosition(rs[k], |EncodeRecords(rs[..k + 1], ino)|);
    if rs[k].name != TRAILER {
      ReadsUntilTrailer(rs, ino, k + 1);
      assert rs[k..][1..] == rs[k + 1..];
    }
  }

  lemma EntryIgnoresPosition(r: Record, next: nat)
    ensures ToEntry(Parsed(r.name, r.mode, r.rdevmajor, r.rdevminor, r.data, next)) == EntryOf(r)
  {
  }

  // ---- the records of a tree are its listing

  predicate AllFit(rs: seq<Record>) {
    forall i :: 0 <= i < |rs| ==> Fits(rs[i])
  }

  /** Record by record, the reader's entries are the listing. */
  ghost predicate Lists(rs: seq<Record>, es: seq<Entry>) {
    |rs| == |es| && forall i :: 0 <= i < |rs| ==> EntryOf(rs[i]) == Ok(es[i]) && (Fits(rs[i]) ==> GoodRecord(rs[i]))
  }

  lemma ListsConcat(a: seq<Record>, x: seq<Entry>, b: seq<Record>, y: seq<Entry>)
    requires Lists(a, x) && Lists(b, y)
    ensures Lists(a + b, x + y)
  {
  }

  lemma LeafLists(path: string, n: Node)
    requires WellMadeNode(n) && !n.Dir?
    ensures Lists(NodeRecords(path, n), NodeListing(path, n))
  {
    hide Utf8.Encode, Utf8.Decode;
    if n.Symlink? {
      Utf8.DecodeEncode(n.target);
    }
  }

  lemma {:induction false} EntriesList(path: string, e: Entries)
    requires WellMadeEntries(e)
    ensures Lists(EntryRecords(path, e), Listing(path, e))
    decreases e, 0
  {
    hide Lists;
    if e.Nil? {
      NothingLists();
    } else {
      var child := JoinPath(path, e.name);
      EntriesList(path, e.rest);
      if e.node.Dir? {
        DirLists(child, e.node.dir);
      } else {
        LeafLists(child, e.node);
      }
      ListsConcat(NodeRecords(child, e.node), NodeListing(child, e.node), EntryRecords(path, e.rest), Listing(path, e.rest));
    }
  }

  lemma NothingLists()
    ensures Lists([], [])
  {
  }

  lemma {:induction false} DirLists(path: string, d: DirNode)
    requires path != [] && WellMade(d)
    ensures Lists(DirRecords(path, d), [DirEntry(path, d.mode)] + Listing(path, d.entries))
    decreases d, 1
  {
    EntriesList(path, d.entries);
    var own := Record(path, S_IFDIR + d.mode, 2, 0, 0, []);
    assert Lists([own], [DirEntry(path, d.mode)]);
    ListsConcat([own], [DirEntry(path, d.mode)], EntryRecords(path, d.entries), Listing(path, d.entries));
  }

  // ---- where the trailer's name can occur

  /** A node's first record is its own; a directory's entries follow. */
  lemma OwnRecordFirst(path: string, n: Node)
    requires path != []
    ensures
      var rs := NodeRecords(path, n);
      && rs != [] && rs[0].name == path
      && rs[1..] == if n.Dir? then EntryRecords(path, n.dir.entries) else []
  {
    hide Utf8.Encode, EntryRecords;
  }

  predicate HasSlashes(rs: seq<Record>) {
    forall i :: 0 <= i < |rs| ==> '/' in rs[i].name
  }

  lemma {:induction false} NestedNamesHaveSlash(path: string, e: Entries)
    requires path != []
    ensures HasSlashes(EntryRecords(path, e))
    decreases e
  {
    hide NodeRecords;
    if e.Cons? {
      var child := JoinPath(path, e.name);
      assert child[|path|] == '/';
      NestedNamesHaveSlash(path, e.rest);
      OwnRecordFirst(child, e.node);
      if e.node.Dir? {
        NestedNamesHaveSlash(child, e.node.dir.entries);
      }
      var rs := NodeRecords(child, e.node);
      assert forall i :: 0 < i < |rs| ==> rs[i] == rs[1..][i - 1];
    }
  }

  predicate NamedTrailer(rs: seq<Record>) {
    exists i :: 0 <= i < |rs| && rs[i].name == TRAILER
  }

  lemma NamedTrailerConcat(a: seq<Record>, b: seq<Record>)
    ensures NamedTrailer(a + b) <==> NamedTrailer(a) || NamedTrailer(b)
  {
    if NamedTrailer(a) {
      var i :| 0 <= i < |a| && a[i].name == TRAILER;
      assert (a + b)[i].name == TRAILER;
    }
    if NamedTrailer(b) {
      var i :| 0 <= i < |b| && b[i].name == TRAILER;
      assert (a + b)[|a| + i].name == TRAILER;
    }
    if NamedTrailer(a + b) {
      var i :| 0 <= i < |a + b| && (a + b)[i].name == TRAILER;
      assert if i < |a| then a[i].name == TRAILER else b[i - |a|].name == TRAILER;
    }
  }

  lemma SlashesAreNotTrailers(rs: seq<Record>)
    requires HasSlashes(rs)
    ensures !NamedTrailer(rs)
  {
    assert '/' !in TRAILER;
  }

  /** A record of the whole tree is named like the trailer exactly when a root entry is. */
  lemma {:induction false} TrailerOnlyAtRoot(e: Entries)
    requires WellMadeEntries(e)
    ensures NamedTrailer(EntryRecords([], e)) <==> Find(e, "TRAILER!!!").Some?
  {
    hide NodeRecords, HasSlashes;
    if e.Cons? {
      TrailerOnlyAtRoot(e.rest);
      var own := NodeRecords(e.name, e.node);
      OwnRecordFirst(e.name, e.node);
      if e.node.Dir? {
        NestedNamesHaveSlash(e.name, e.node.dir.entries);
        SlashesAreNotTrailers(own[1..]);
      }
      assert own == [own[0]] + own[1..];
      NamedTrailerConcat([own[0]], own[1..]);
      NamedTrailerConcat(own, EntryRecords([], e.rest));
      assert NamedTrailer([own[0]]) <==> [own[0]][0].name == TRAILER;
    }
  }

  lemma ListsTail(rs: seq<Record>, es: seq<Entry>)
    requires Lists(rs, es) && rs != []
    ensures Lists(rs[1..], es[1..]) && EntryOf(rs[0]) == Ok(es[0]) && es == [es[0]] + es[1..]
  {
  }

  lemma ListsReadable(rs: seq<Record>, es: seq<Entry>)
    requires Lists(rs, es) && EntryOf(TRAILER_RECORD).Ok?
    ensures forall i :: 0 <= i < |rs + [TRAILER_RECORD]| ==> EntryOf((rs + [TRAILER_RECORD])[i]).Ok?
  {
  }

  lemma {:induction false} UntilTrailerLength(rs: seq<Record>, es: seq<Entry>)
    requires Lists(rs, es) && EntryOf(TRAILER_RECORD).Ok?
    requires forall i :: 0 <= i < |rs + [TRAILER_RECORD]| ==> EntryOf((rs + [TRAILER_RECORD])[i]).Ok?
    ensures UntilTrailer(rs + [TRAILER_RECORD]) <= es
    ensures UntilTrailer(rs + [TRAILER_RECORD]) == es <==> !NamedTrailer(rs)
  {
    hide EntryOf, Lists, NamedTrailer;
    if rs == [] {
      ListsEmpty(es);
      NoTrailerInNothing();
    } else {
      ListsTail(rs, es);
      ListsReadable(rs[1..], es[1..]);
      UntilTrailerLength(rs[1..], es[1..]);
      assert (rs + [TRAILER_RECORD])[1..] == rs[1..] + [TRAILER_RECORD];
      NamedTrailerConcat([rs[0]], rs[1..]);
      assert rs == [rs[0]] + rs[1..];
      NamedTrailerOne(rs[0]);
    }
  }

  lemma ListsEmpty(es: seq<Entry>)
    requires Lists([], es)
    ensures es == []
  {
  }

  lemma NoTrailerInNothing()
    ensures !NamedTrailer([])
  {
  }

  lemma NamedTrailerOne(r: Record)
    ensures NamedTrailer([r]) <==> r.name == TRAILER
  {
    assert [r][0] == r;
  }

  /** The bytes `Write` makes of a tree. */
  function Archive(root: DirNode): seq<byte> {
    EncodeRecords(DirRecords([], root) + [TRAILER_RECORD], INO_BASE)
  }

  /**
   Reading back what was written gives the tree's listing, whenever lengths fit their fields:
   exactly when no root entry bears the name that ends an archive. With one, the reader stops
   there and returns only what comes before.
   */
  lemma RoundTrip(root: DirNode)
    requires WellMade(root) && AllFit(DirRecords([], root))
    ensures ReadFrom(Archive(root), 0) == Ok(Listing([], root.entries)) <==> Find(root.entries, "TRAILER!!!").None?
    ensures ReadFrom(Archive(root), 0).Ok? && ReadFrom(Archive(root), 0).value <= Listing([], root.entries)
  {
    hide EncodeRecords, EntryOf, UntilTrailer, ReadFrom, NamedTrailer, Lists, GoodRecord, Fits;
    var rs, es := EntryRecords([], root.entries), Listing([], root.entries);
    assert DirRecords([], root) == rs;
    EntriesList([], root.entries);
    TrailerReads();
    ListsReadable(rs, es);
    UntilTrailerLength(rs, es);
    ArchiveReads(rs, es);
    TrailerOnlyAtRoot(root.entries);
  }

  lemma ArchiveReads(rs: seq<Record>, es: seq<Entry>)
    requires Lists(rs, es) && AllFit(rs)
    requires forall i :: 0 <= i < |rs + [TRAILER_RECORD]| ==> EntryOf((rs + [TRAILER_RECORD])[i]).Ok?
    ensures ReadFrom(EncodeRecords(rs + [TRAILER_RECORD], INO_BASE), 0) == Ok(UntilTrailer(rs + [TRAILER_RECORD]))
  {
    hide EncodeRecords, EntryOf, UntilTrailer, ReadFrom, GoodRecord, Fits;
    var all := rs + [TRAILER_RECORD];
    TrailerReads();
    assert forall i :: 0 <= i < |rs| ==> all[i] == rs[i];
    NothingEncoded();
    assert all[..0] == [] && all[0..] == all;
    ReadsUntilTrailer(all, INO_BASE, 0);
  }

  /** The error of a reader that runs out of bytes. */
  predicate RanOut(e: ReadError) {
    e == TruncatedHeader || e == TruncatedName || e == TruncatedData
  }

  /** A record cut off is not read, or all that is missing are zeros after its data. */
  lemma CutRecord(bytes: seq<byte>, pos: nat, r: Record, ino: nat, cut: nat)
    requires GoodRecord(r) && ino < WORD && pos % 4 == 0
    requires pos + |EncodeRecord(r, ino)| <= |bytes| && cut < pos + |EncodeRecord(r, ino)|
    requires bytes[pos..pos + |EncodeRecord(r, ino)|] == EncodeRecord(r, ino)
    ensures
      match ParseRecord(bytes[..cut], pos)
      case Err(e) => RanOut(e)
      case Ok(p) => p == Parsed(r.name, r.mode, r.rdevmajor, r.rdevminor, r.data, pos + |EncodeRecord(r, ino)|) && r.data != []
  {
    hide Head, FieldAt, EncodeRecord, Utf8.Encode, Utf8.Decode, Pad, Align4;
    DataReads(bytes, pos, r, ino);
    FieldsRead(bytes, pos, r, ino);
    NameReads(bytes, pos, r, ino);
    Utf8.DecodeEncode(r.name);
    AlignIsPad(pos, HEADER_LEN + |Utf8.Encode(r.name)| + 1);
    DatalessRecord(r, ino);
    if pos + HEADER_LEN <= cut {
      FieldsStay(bytes, pos, cut);
      assert bytes[..cut][pos..pos + 6] == bytes[pos..pos + 6];
      var nameStart, nameEnd := pos + HEADER_LEN, pos + HEADER_LEN + |Utf8.Encode(r.name)| + 1;
      var start := Align4(nameEnd);
      if nameEnd <= cut {
        assert bytes[..cut][nameStart..nameEnd - 1] == bytes[nameStart..nameEnd - 1];
        if start + |r.data| <= cut {
          assert bytes[..cut][start..start + |r.data|] == bytes[start..start + |r.data|];
        }
      }
    }
  }

  lemma DatalessRecord(r: Record, ino: nat)
    ensures r.data == [] ==> |EncodeRecord(r, ino)| == |Head(r, ino)|
  {
    hide Head;
  }

  lemma FieldsStay(bytes: seq<byte>, pos: nat, cut: nat)
    requires pos + HEADER_LEN <= cut <= |bytes|
    ensures forall i :: 0 <= i < 13 ==> FieldAt(bytes[..cut], pos, i) == FieldAt(bytes, pos, i)
  {
    hide ParseHex8;
    forall i | 0 <= i < 13
      ensures FieldAt(bytes[..cut], pos, i) == FieldAt(bytes, pos, i)
    {
      var at := pos + 6 + i * 8;
      assert bytes[..cut][at..at + 8] == bytes[at..at + 8];
    }
  }

  lemma {:induction false} CutIsRefusedFrom(rs: seq<Record>, ino: nat, k: nat, cut: nat)
    requires k < |rs| && rs[|rs| - 1] == TRAILER_RECORD
    requires forall i :: 0 <= i < |rs| ==> GoodRecord(rs[i]) && EntryOf(rs[i]).Ok? && (i < |rs| - 1 ==> rs[i].name != TRAILER)
    requires cut < |EncodeRecords(rs, ino)|
    ensures
      var r := ReadFrom(EncodeRecords(rs, ino)[..cut], |EncodeRecords(rs[..k], ino)|);
      r.Err? && RanOut(r.error)
    decreases |rs| - k
  {
    hide EncodeRecord, EncodeRecords, ParseRecord, ToEntry, GoodRecord;
    var bytes, pos, next := EncodeRecords(rs, ino), |EncodeRecords(rs[..k], ino)|, |EncodeRecords(rs[..k + 1], ino)|;
    RecordInPlace(rs, ino, k);
    RecordNeedsRoom(bytes[..cut], pos);
    if next <= cut {
      assert rs[..|rs|] == rs;
      assert bytes[..cut][pos..next] == bytes[pos..next];
      RecordReads(bytes[..cut], pos, rs[k], (ino + k) % WORD);
    } else {
      CutRecord(bytes, pos, rs[k], (ino + k) % WORD, cut);
    }
    EntryIgnoresPosition(rs[k], next);
    if ParseRecord(bytes[..cut], pos).Ok? {
      if k < |rs| - 1 {
        CutIsRefusedFrom(rs, ino, k + 1, cut);
      }
    }
  }

  /** An archive that has lost its end, however little of it, is refused. */
  lemma CutIsRefused(root: DirNode, cut: nat)
    requires WellMade(root) && AllFit(DirRecords([], root)) && Find(root.entries, "TRAILER!!!").None?
    requires cut < |Archive(root)|
    ensures ReadFrom(Archive(root)[..cut], 0).Err? && RanOut(ReadFrom(Archive(root)[..cut], 0).error)
  {
    hide EncodeRecords, EntryOf, ReadFrom, Lists, GoodRecord, Fits;
    var rs, es := EntryRecords([], root.entries), Listing([], root.entries);
    assert DirRecords([], root) == rs;
    var all := rs + [TRAILER_RECORD];
    EntriesList([], root.entries);
    TrailerReads();
    ListsReadable(rs, es);
    TrailerOnlyAtRoot(root.entries);
    ListsGood(rs, es);
    NothingEncoded();
    assert all[..0] == [];
    CutIsRefusedFrom(all, INO_BASE, 0, cut);
  }

  lemma ListsGood(rs: seq<Record>, es: seq<Entry>)
    requires Lists(rs, es) && AllFit(rs)
    ensures forall i :: 0 <= i < |rs| ==> GoodRecord(rs[i])
  {
    hide EntryOf, GoodRecord, Fits;
  }

  lemma NothingEncoded()
    ensures EncodeRecords([], INO_BASE) == []
  {
  }

  lemma TrailerReads()
    ensures EntryOf(TRAILER_RECORD).Ok? && GoodRecord(TRAILER_RECORD)
  {
    hide Utf8.Encode, Utf8.Decode;
    EncodedLength(TRAILER);
  }

  lemma {:induction false} EncodedLength(s: string)
    ensures |Utf8.Encode(s)| <= 4 * |s|
  {
    hide Utf8.EncodeChar;
    if s != [] {
      EncodedLength(s[1..]);
    }
  }

  // ---- what an unpacker relies on

  /** Where record k of an archive starts. */
  function Start(rs: seq<Record>, k: nat): nat
    requires k < |rs|
  {
    |EncodeRecords(rs[..k], INO_BASE)|
  }

  /** Record k starts on a multiple of four, and its first field there is its inode. */
  lemma InodeReads(rs: seq<Record>, k: nat)
    requires k < |rs| && GoodRecord(rs[k])
    ensures
      var bytes, pos := EncodeRecords(rs, INO_BASE), Start(rs, k);
      && pos % 4 == 0 && pos + HEADER_LEN <= |bytes|
      && FieldAt(bytes, pos, 0) == Ok((INO_BASE + k) % WORD)
  {
    hide EncodeRecords, Head, FieldAt, Pad;
    var bytes, pos, ino := EncodeRecords(rs, INO_BASE), Start(rs, k), (INO_BASE + k) % WORD;
    RecordInPlace(rs, INO_BASE, k);
    DataReads(bytes, pos, rs[k], ino);
    HeaderReads(bytes, pos, rs[k], ino, 0);
  }

  /** Eight hexadecimal digits at a position are a number's. */
  predicate Says(bytes: seq<byte>, at: nat, v: nat) {
    at + 8 <= |bytes| && bytes[at..at + 8] == Hex(v, 8)
  }

  /** The head of every record: the magic of the newc format and its thirteen numbers, each in its place. */
  lemma HeadSays(rs: seq<Record>, k: nat)
    requires k < |rs| && GoodRecord(rs[k])
    ensures
      var bytes, pos, r := EncodeRecords(rs, INO_BASE), Start(rs, k), rs[k];
      && pos % 4 == 0 && pos + 110 <= |bytes|
      && bytes[pos..pos + 6] == ['0' as byte, '7' as byte, '0' as byte, '7' as byte, '0' as byte, '1' as byte]
      && Says(bytes, pos + 6, (721 + k) % 0x1_0000_0000) // inode
      && Says(bytes, pos + 14, r.mode)
      && Says(bytes, pos + 22, 0) && Says(bytes, pos + 30, 0) // user and group
      && Says(bytes, pos + 38, r.nlink)
      && Says(bytes, pos + 46, 0) // modification time
      && Says(bytes, pos + 54, |r.data|)
      && Says(bytes, pos + 62, 0) && Says(bytes, pos + 70, 0) // the device it is on
      && Says(bytes, pos + 78, r.rdevmajor) && Says(bytes, pos + 86, r.rdevminor)
      && Says(bytes, pos + 94, |Utf8.Encode(r.name)| + 1)
      && Says(bytes, pos + 102, 0) // checksum
  {
    hide EncodeRecords, Head, Hex, Utf8.Encode, Pad, Fields, Says;
    var bytes, pos, ino := EncodeRecords(rs, INO_BASE), Start(rs, k), (INO_BASE + k) % WORD;
    RecordInPlace(rs, INO_BASE, k);
    DataReads(bytes, pos, rs[k], ino);
    forall i | 0 <= i < 13
      ensures pos + HEADER_LEN <= |bytes| && bytes[pos..pos + 6] == MAGIC
      ensures Says(bytes, pos + 6 + 8 * i, Fields(rs[k], ino)[i])
    {
      FieldSays(bytes, pos, rs[k], ino, i);
    }
    FieldNumbers(rs[k], ino);
  }

  lemma FieldSays(bytes: seq<byte>, pos: nat, r: Record, ino: nat, i: nat)
    requires i < 13 && pos + |Head(r, ino)| <= |bytes| && bytes[pos..pos + |Head(r, ino)|] == Head(r, ino)
    ensures pos + HEADER_LEN <= |bytes| && bytes[pos..pos + 6] == MAGIC
    ensures Says(bytes, pos + 6 + 8 * i, Fields(r, ino)[i])
  {
    hide HexFields, Hex, Fields, Utf8.Encode, Pad;
    var f, h := Fields(r, ino), Head(r, ino);
    assert h[..6] == MAGIC && h[6..HEADER_LEN] == HexFields(f);
    assert bytes[pos..pos + 6] == bytes[pos..pos + |h|][..6];
    SubSlice(bytes, pos, |h|, 6 + i * 8, 6 + i * 8 + 8);
    SubSlice(h, 6, HEADER_LEN - 6, i * 8, i * 8 + 8);
    HexFieldAt(f, i);
  }

  lemma FieldNumbers(r: Record, ino: nat)
    requires GoodRecord(r)
    ensures
      var f := Fields(r, ino);
      && f[0] == ino && f[1] == r.mode && f[2] == 0 && f[3] == 0 && f[4] == r.nlink && f[5] == 0
      && f[6] == |r.data| && f[7] == 0 && f[8] == 0 && f[9] == r.rdevmajor && f[10] == r.rdevminor
      && f[11] == |Utf8.Encode(r.name)| + 1 && f[12] == 0
  {
    hide Utf8.Encode;
  }

  /**
   The name follows the header and ends in a NUL byte; zeros lead from there to the data and from the
   data to the next record, as few as make both start on a multiple of four.
   */
  lemma RecordFollows(rs: seq<Record>, k: nat) returns (a: nat, b: nat)
    requires k < |rs|
    ensures a < 4 && (110 + |Utf8.Encode(rs[k].name)| + 1 + a) % 4 == 0
    ensures b < 4 && (|rs[k].data| + b) % 4 == 0
    ensures
      var bytes, pos, end := EncodeRecords(rs, INO_BASE), Start(rs, k), |EncodeRecords(rs[..k + 1], INO_BASE)|;
      && pos + 110 <= end <= |bytes|
      && bytes[pos + 110..end] == Utf8.Encode(rs[k].name) + [0] + Zeros(a) + rs[k].data + Zeros(b)
  {
    hide EncodeRecords, EncodeRecord, Utf8.Encode, Zeros;
    a, b := RecordParts(rs[k], (INO_BASE + k) % WORD);
    TailInPlace(rs, k);
  }

  lemma TailInPlace(rs: seq<Record>, k: nat)
    requires k < |rs| && |EncodeRecord(rs[k], (INO_BASE + k) % WORD)| >= 110
    ensures
      var bytes, pos, end := EncodeRecords(rs, INO_BASE), Start(rs, k), |EncodeRecords(rs[..k + 1], INO_BASE)|;
      pos + 110 <= end <= |bytes| && bytes[pos + 110..end] == EncodeRecord(rs[k], (INO_BASE + k) % WORD)[110..]
  {
    hide EncodeRecords, EncodeRecord;
    var bytes, pos, e := EncodeRecords(rs, INO_BASE), Start(rs, k), EncodeRecord(rs[k], (INO_BASE + k) % WORD);
    RecordInPlace(rs, INO_BASE, k);
    SubSlice(bytes, pos, |e|, 110, |e|);
  }

  lemma RecordParts(r: Record, ino: nat) returns (a: nat, b: nat)
    ensures a < 4 && (110 + |Utf8.Encode(r.name)| + 1 + a) % 4 == 0
    ensures b < 4 && (|r.data| + b) % 4 == 0
    ensures |EncodeRecord(r, ino)| >= 110
    ensures EncodeRecord(r, ino)[110..] == Utf8.Encode(r.name) + [0] + Zeros(a) + r.data + Zeros(b)
  {
    hide HexFields, Fields, Utf8.Encode, Pad;
    var name := Utf8.Encode(r.name) + [0];
    a, b := Pad(HEADER_LEN + |name|), Pad(|r.data|);
    var front := MAGIC + HexFields(Fields(r, ino));
    assert EncodeRecord(r, ino) == front + (name + Zeros(a) + r.data + Zeros(b));
  }

  /** The last record bears the trailer's name, no mode, one link and no data, and the archive ends with it. */
  lemma LastSays(root: DirNode)
    ensures
      var bytes, pos := Archive(root), |EncodeRecords(DirRecords([], root), INO_BASE)|;
      && |bytes| == pos + 124
      && Says(bytes, pos + 14, 0) && Says(bytes, pos + 38, 1) && Says(bytes, pos + 54, 0) && Says(bytes, pos + 78, 0)
      && Says(bytes, pos + 86, 0) && Says(bytes, pos + 94, 11)
      && bytes[pos + 110..] == Utf8.Encode("TRAILER!!!") + [0, 0, 0, 0]
  {
    hide EncodeRecords, DirRecords, Says, Utf8.Encode;
    var rs := DirRecords([], root);
    var all := rs + [TRAILER_RECORD];
    assert all[..|rs|] == rs && all[|rs|] == TRAILER_RECORD && all[..|rs| + 1] == all;
    TrailerReads();
    TrailerLength();
    HeadSays(all, |rs|);
    var a, b := RecordFollows(all, |rs|);
    assert a == 3 && b == 0;
    var name := Utf8.Encode("TRAILER!!!");
    assert name + [0] + Zeros(3) + [] + Zeros(0) == name + [0, 0, 0, 0];
    assert Archive(root)[|EncodeRecords(rs, INO_BASE)| + 110..|Archive(root)|] == name + [0, 0, 0, 0];
  }

  lemma TrailerLength()
    ensures |Utf8.Encode("TRAILER!!!")| == 10
  {
    AsciiLength("TRAILER!!!");
  }

  lemma {:induction false} AsciiLength(s: string)
    requires forall i :: 0 <= i < |s| ==> s[i] as int < 128
    ensures |Utf8.Encode(s)| == |s|
  {
    if s != [] {
      AsciiLength(s[1..]);
    }
  }

  /** What the mode, the links, the device and the data of an entry are, each type by its own bits. */
  lemma NodeSays(path: string, n: Node)
    requires path != [] && WellMadeNode(n)
    ensures NodeRecords(path, n) != []
    ensures
      var r := NodeRecords(path, n)[0];
      && r.name == path
      && (n.Dir? ==> r == Record(path, 0x4000 + n.dir.mode, 2, 0, 0, []))
      && (n == Dir(EMPTY_DIR) ==> r.mode == 0x41ED)
      && (n.File? ==> r == Record(path, 0x8000 + n.mode, 1, 0, 0, n.data))
      && (n.Symlink? ==> r == Record(path, 0xA1FF, 1, 0, 0, Utf8.Encode(n.target)))
      && (n.Device? && n.ifmt == Char.Ifmt() ==> r == Record(path, 0x2000 + n.mode, 1, n.major, n.minor, []))
      && (n.Device? && n.ifmt == Block.Ifmt() ==> r == Record(path, 0x6000 + n.mode, 1, n.major, n.minor, []))
  {
    hide Utf8.Encode, EntryRecords;
  }

  /** No two records of an archive share an inode, as long as their count fits one: an unpacker links nothing. */
  lemma InodesDistinct(rs: seq<Record>, i: nat, j: nat)
    requires i < j < |rs| <= WORD && GoodRecord(rs[i]) && GoodRecord(rs[j])
    ensures
      var bytes := EncodeRecords(rs, INO_BASE);
      && Start(rs, i) + HEADER_LEN <= |bytes| && Start(rs, j) + HEADER_LEN <= |bytes|
      && FieldAt(bytes, Start(rs, i), 0).Ok? && FieldAt(bytes, Start(rs, j), 0).Ok?
      && FieldAt(bytes, Start(rs, i), 0) != FieldAt(bytes, Start(rs, j), 0)
  {
    hide EncodeRecords, FieldAt;
    InodeReads(rs, i);
    InodeReads(rs, j);
  }

  /** A path's directory, if it is not at the top, is listed before it. */
  ghost predicate DirectoriesFirst(es: seq<Entry>, top: string) {
    forall i, dir, name :: 0 <= i < |es| && es[i].path == dir + "/" + name && '/' !in name && dir != [] ==>
      dir == top || exists j :: 0 <= j < i && es[j].DirEntry? && es[j].path == dir
  }

  /** The last slash of a path is where it splits. */
  lemma LastSlash(d: string, n: string, e: string, m: string)
    requires d + "/" + n == e + "/" + m && '/' !in n && '/' !in m
    ensures d == e && n == m
  {
    var s := d + "/" + n;
    SlashBound(d, n, e, m);
    SlashBound(e, m, d, n);
    assert d == s[..|d|] && e == s[..|e|] && n == s[|d| + 1..] && m == s[|e| + 1..];
  }

  lemma SlashBound(d: string, n: string, e: string, m: string)
    requires d + "/" + n == e + "/" + m && '/' !in n
    ensures |e| <= |d|
  {
    var s := d + "/" + n;
    assert s[|e|] == '/';
    assert forall k :: |d| < k < |s| ==> s[k] == n[k - |d| - 1] && s[k] in n;
  }

  lemma FirstConcat(a: seq<Entry>, b: seq<Entry>, top: string)
    requires DirectoriesFirst(a, top) && DirectoriesFirst(b, top)
    ensures DirectoriesFirst(a + b, top)
  {
    var c := a + b;
    forall i, dir, name | 0 <= i < |c| && c[i].path == dir + "/" + name && '/' !in name && dir != [] && dir != top
      ensures exists j :: 0 <= j < i && c[j].DirEntry? && c[j].path == dir
    {
      if i < |a| {
        assert a[i].path == dir + "/" + name;
        var j :| 0 <= j < i && a[j].DirEntry? && a[j].path == dir;
        assert c[j] == a[j];
      } else {
        assert b[i - |a|].path == dir + "/" + name;
        var j :| 0 <= j < i - |a| && b[j].DirEntry? && b[j].path == dir;
        assert c[|a| + j] == b[j];
      }
    }
  }

  /** A path splits at its last slash into the directory it was joined from. */
  ghost predicate SplitsAt(path: string, top: string) {
    forall dir, name :: path == dir + "/" + name && '/' !in name && dir != [] ==> dir == top
  }

  lemma FirstInside(path: string, mode: nat, inner: seq<Entry>, top: string)
    requires DirectoriesFirst(inner, path) && SplitsAt(path, top)
    ensures DirectoriesFirst([DirEntry(path, mode)] + inner, top)
  {
    var c := [DirEntry(path, mode)] + inner;
    forall i, dir, name | 0 <= i < |c| && c[i].path == dir + "/" + name && '/' !in name && dir != [] && dir != top
      ensures exists j :: 0 <= j < i && c[j].DirEntry? && c[j].path == dir
    {
      if i > 0 {
        assert inner[i - 1].path == dir + "/" + name;
        if dir == path {
          assert c[0].DirEntry? && c[0].path == dir;
        } else {
          var j :| 0 <= j < i - 1 && inner[j].DirEntry? && inner[j].path == dir;
          assert c[j + 1] == inner[j];
        }
      }
    }
  }

  lemma JoinedSplits(top: string, name: string)
    requires IsName(name)
    ensures SplitsAt(JoinPath(top, name), top)
  {
    forall dir, n | JoinPath(top, name) == dir + "/" + n && '/' !in n && dir != []
      ensures dir == top
    {
      if top != [] {
        LastSlash(top, name, dir, n);
      }
    }
  }

  /** Every directory is listed before anything in it, at every depth of the tree. */
  lemma {:induction false} ListingDirectoriesFirst(path: string, e: Entries)
    requires WellMadeEntries(e)
    ensures DirectoriesFirst(Listing(path, e), path)
    decreases e
  {
    hide DirectoriesFirst, SplitsAt;
    if e.Nil? {
      FirstNothing(path);
    } else {
      var child := JoinPath(path, e.name);
      ListingDirectoriesFirst(path, e.rest);
      JoinedSplits(path, e.name);
      var own := NodeListing(child, e.node);
      if e.node.Dir? {
        var d := e.node.dir;
        assert WellMadeNode(e.node) && WellMade(d);
        ListingDirectoriesFirst(child, d.entries);
        FirstInside(child, d.mode, Listing(child, d.entries), path);
      } else {
        assert own == [own[0]];
      }
      FirstConcat(own, Listing(path, e.rest), path);
    }
  }

  lemma FirstNothing(top: string)
    ensures DirectoriesFirst([], top)
  {
  }
}
