/** The newc archive format (crates/keybuild/src/cpio.rs): its writer and its reader. */
module CpioArchive {
  import opened Outcomes
  import opened Bits
  import Utf8
  import opened CpioTree

  const MAGIC: seq<byte> := [0x30, 0x37, 0x30, 0x37, 0x30, 0x31]
  const TRAILER: string := "TRAILER!!!"
  const HEADER_LEN: nat := 6 + 13 * 8
  const INO_BASE: nat := 721

  const S_IFDIR: nat := 0x4000
  const S_IFREG: nat := 0x8000
  const S_IFLNK: nat := 0xA000

  // ---- hexadecimal fields

  function HexDigit(d: nat): byte
    requires d < 16
  {
    if d < 10 then 0x30 + d else 0x41 + (d - 10)
  }

  function Hex(v: nat, n: nat): (s: seq<byte>)
    ensures |s| == n
  {
    if n == 0 then [] else Hex(v / 16, n - 1) + [HexDigit(v % 16)]
  }

  /** The value of a digit in either case. */
  function DigitValue(b: byte): Option<nat> {
    if 0x30 <= b <= 0x39 then Some(b - 0x30)
    else if 0x41 <= b <= 0x46 then Some(b - 0x41 + 10)
    else if 0x61 <= b <= 0x66 then Some(b - 0x61 + 10)
    else None
  }

  function HexValue(s: seq<byte>): Option<nat> {
    if s == [] then Some(0)
    else
      match (HexValue(s[..|s| - 1]), DigitValue(s[|s| - 1]))
      case (Some(v), Some(d)) => Some(16 * v + d)
      case _ => None
  }

  datatype ReadError = TruncatedHeader | BadMagic | NonAsciiField | NonHexField
                     | TruncatedName | NonUtf8Name | TruncatedData | NonUtf8Target

  /** An 8-byte field; like the standard library's parser it lets a leading plus sign by. */
  function ParseHex8(field: seq<byte>): Result<nat, ReadError>
    requires |field| == 8
  {
    if Utf8.Decode(field).None? then Err(NonAsciiField)
    else
      var digits := if field[0] == 0x2B then field[1..] else field;
      match HexValue(digits)
      case Some(v) => Ok(v)
      case None => Err(NonHexField)
  }

  function Pow16(n: nat): (p: nat)
    ensures p > 0
  {
    if n == 0 then 1 else 16 * Pow16(n - 1)
  }

  /** The writer's numerals, highest first: digit i stands for the i-th of these weights. */
  lemma HexDigits(v: nat, i: nat)
    requires i < 8
    ensures
      var weights := [0x1000_0000, 0x100_0000, 0x10_0000, 0x1_0000, 0x1000, 0x100, 0x10, 1];
      Hex(v, 8)[i] == "0123456789ABCDEF"[v / weights[i] % 16] as byte
  {
    hide Hex;
    HexDigitAt(v, 8, i);
    var p := Pow16(7 - i);
    Pow16Values();
    NumeralIs(v / p % 16);
  }

  lemma NumeralIs(d: nat)
    requires d < 16
    ensures HexDigit(d) == "0123456789ABCDEF"[d] as byte
  {
  }

  lemma Pow16Values()
    ensures Pow16(0) == 1 && Pow16(1) == 0x10 && Pow16(2) == 0x100 && Pow16(3) == 0x1000
    ensures Pow16(4) == 0x1_0000 && Pow16(5) == 0x10_0000 && Pow16(6) == 0x100_0000 && Pow16(7) == 0x1000_0000
  {
    hide Pow16;
    assert Pow16(0) == 1 by { Pow16Zero(); }
    Pow16Next(0);
    Pow16Next(1);
    Pow16Next(2);
    Pow16Next(3);
    Pow16Next(4);
    Pow16Next(5);
    Pow16Next(6);
  }

  lemma Pow16Zero()
    ensures Pow16(0) == 1
  {
  }

  lemma {:induction false} HexDigitAt(v: nat, n: nat, i: nat)
    requires i < n
    ensures Hex(v, n)[i] == HexDigit(v / Pow16(n - 1 - i) % 16)
  {
    hide Pow16;
    if i == n - 1 {
      Pow16Zero();
    } else {
      HexDigitAt(v / 16, n - 1, i);
      Pow16Next(n - 2 - i);
      DivBySixteens(v, Pow16(n - 2 - i));
    }
  }

  lemma DivBySixteens(v: nat, p: nat)
    requires p > 0
    ensures v / 16 / p == v / (16 * p)
  {
    var q, r := v / 16, v % 16;
    var t, d := q / p, q % p;
    assert v == 16 * (t * p + d) + r;
    assert 16 * (t * p) == t * (16 * p);
    DivUnique(v, 16 * p, t, 16 * d + r);
  }

  lemma {:induction false} HexRoundTrip(v: nat, n: nat)
    requires v < Pow16(n)
    ensures HexValue(Hex(v, n)) == Some(v)
    ensures forall i :: 0 <= i < n ==> Hex(v, n)[i] < 0x80 && Hex(v, n)[i] != 0x2B
  {
    if n > 0 {
      HexRoundTrip(v / 16, n - 1);
      assert Hex(v, n)[..n - 1] == Hex(v / 16, n - 1);
    }
  }

  lemma FieldRoundTrip(v: nat)
    requires v < WORD
    ensures ParseHex8(Hex(v, 8)) == Ok(v)
  {
    hide Hex, HexValue, Utf8.Decode;
    HexRoundTrip(v, 8);
    Utf8.AsciiDecodes(Hex(v, 8));
  }

  /** The byte is the numeral of the value, in either case. */
  predicate IsNumeral(b: byte, v: nat) {
    v < 16 && (b as char == "0123456789ABCDEF"[v] || b as char == "0123456789abcdef"[v])
  }

  lemma NumeralRead(b: byte, v: nat)
    ensures DigitValue(b) == Some(v) <==> IsNumeral(b, v)
    ensures DigitValue(b).Some? ==> b < 0x80
  {
    var upper, lower := "0123456789ABCDEF", "0123456789abcdef";
    assert forall d :: 0 <= d < 10 ==> upper[d] as int == lower[d] as int == 0x30 + d;
    assert forall d :: 10 <= d < 16 ==> upper[d] as int == 0x41 + d - 10 && lower[d] as int == 0x61 + d - 10;
  }

  /** What the reader takes a field for: its digits with their weights, where a plus may stand for a first zero. */
  lemma FieldReads(field: seq<byte>, d: seq<nat>)
    requires |field| == 8 == |d|
    requires (field[0] == 0x2B && d[0] == 0) || IsNumeral(field[0], d[0])
    requires forall i :: 1 <= i < 8 ==> IsNumeral(field[i], d[i])
    ensures ParseHex8(field) == Ok(d[0] * 0x1000_0000 + d[1] * 0x100_0000 + d[2] * 0x10_0000 + d[3] * 0x1_0000
                                   + d[4] * 0x1000 + d[5] * 0x100 + d[6] * 0x10 + d[7])
  {
    hide HexValue, IsNumeral, DigitValue, Utf8.Decode;
    forall i | 0 <= i < 8
      ensures field[i] < 0x80 && ((field[0] == 0x2B && i == 0) || DigitValue(field[i]) == Some(d[i]))
    {
      NumeralRead(field[i], d[i]);
    }
    Utf8.AsciiDecodes(field);
    var plus := field[0] == 0x2B;
    DigitsWeigh(field, d, 8, if plus then 1 else 0);
    assert field[0..8] == field && field[1..8] == field[1..];
    PlusIsNoNumeral();
    NumeralRead(field[0], d[0]);
    WeighedAre(d, if plus then 1 else 0);
  }

  lemma PlusIsNoNumeral()
    ensures DigitValue(0x2B) == None
  {
  }

  /** The first n digits, from the k-th on, with their weights. */
  function Weighed(d: seq<nat>, n: nat, k: nat): nat
    requires k <= n <= |d|
  {
    if n == k then 0 else 16 * Weighed(d, n - 1, k) + d[n - 1]
  }

  lemma {:induction false} DigitsWeigh(field: seq<byte>, d: seq<nat>, n: nat, k: nat)
    requires k <= n <= |field| == |d| && forall i :: k <= i < |field| ==> DigitValue(field[i]) == Some(d[i])
    ensures HexValue(field[k..n]) == Some(Weighed(d, n, k))
  {
    if n > k {
      DigitsWeigh(field, d, n - 1, k);
      assert field[k..n][..n - 1 - k] == field[k..n - 1];
    }
  }

  lemma WeighedAre(d: seq<nat>, k: nat)
    requires |d| == 8 && (k == 0 || (k == 1 && d[0] == 0))
    ensures Weighed(d, 8, k) == d[0] * 0x1000_0000 + d[1] * 0x100_0000 + d[2] * 0x10_0000 + d[3] * 0x1_0000
                                + d[4] * 0x1000 + d[5] * 0x100 + d[6] * 0x10 + d[7]
  {
    assert Weighed(d, 1, k) == d[0];
    assert Weighed(d, 2, k) == 16 * Weighed(d, 1, k) + d[1];
    assert Weighed(d, 3, k) == 16 * Weighed(d, 2, k) + d[2];
    assert Weighed(d, 4, k) == 16 * Weighed(d, 3, k) + d[3];
    assert Weighed(d, 5, k) == 16 * Weighed(d, 4, k) + d[4];
    assert Weighed(d, 6, k) == 16 * Weighed(d, 5, k) + d[5];
    assert Weighed(d, 7, k) == 16 * Weighed(d, 6, k) + d[6];
  }

  /** And nothing else is taken for a number. */
  lemma FieldRefused(field: seq<byte>, i: nat)
    requires |field| == 8 && i < 8 && (forall v: nat :: !IsNumeral(field[i], v)) && !(i == 0 && field[0] == 0x2B)
    ensures ParseHex8(field).Err?
  {
    hide HexValue, IsNumeral, Utf8.Decode, DigitValue;
    if d :| DigitValue(field[i]) == Some(d) {
      NumeralRead(field[i], d);
    }
    var k := if field[0] == 0x2B then 1 else 0;
    assert field[0..] == field;
    NotHex(field[k..], i - k);
  }

  lemma {:induction false} NotHex(s: seq<byte>, i: nat)
    requires i < |s| && DigitValue(s[i]) == None
    ensures HexValue(s) == None
  {
    hide DigitValue;
    if i < |s| - 1 {
      NotHex(s[..|s| - 1], i);
    }
  }

  // ---- the writer

  /** One record as the writer is asked for it. */
  datatype Record = Record(name: string, mode: nat, nlink: nat, rdevmajor: nat, rdevminor: nat, data: seq<byte>)

  /** How many zero bytes bring a length to a multiple of four. */
  function Pad(len: nat): (n: nat)
    ensures n < 4 && (len + n) % 4 == 0
  {
    (4 - len % 4) % 4
  }

  function NameSize(name: string): nat {
    (|Utf8.Encode(name)| % WORD + 1) % WORD
  }

  /** The thirteen fields of a record. */
  function Fields(r: Record, ino: nat): (f: seq<nat>)
    ensures |f| == 13
  {
    [ino, r.mode, 0, 0, r.nlink, 0, |r.data| % WORD, 0, 0, r.rdevmajor, r.rdevminor, NameSize(r.name), 0]
  }

  function HexFields(f: seq<nat>): (s: seq<byte>)
    ensures |s| == 8 * |f|
  {
    if f == [] then [] else HexFields(f[..|f| - 1]) + Hex(f[|f| - 1], 8)
  }

  /** Header and name of a record that starts on a multiple of four. */
  function Head(r: Record, ino: nat): seq<byte> {
    var name := Utf8.Encode(r.name) + [0];
    MAGIC + HexFields(Fields(r, ino)) + name + Zeros(Pad(HEADER_LEN + |name|))
  }

  function EncodeRecord(r: Record, ino: nat): seq<byte> {
    Head(r, ino) + r.data + Zeros(Pad(|r.data|))
  }

  function EncodeRecords(rs: seq<Record>, ino: nat): seq<byte> {
    if rs == [] then []
    else EncodeRecords(rs[..|rs| - 1], ino) + EncodeRecord(rs[|rs| - 1], (ino + |rs| - 1) % WORD)
  }

  const TRAILER_RECORD := Record(TRAILER, 0, 1, 0, 0, [])

  function JoinPath(path: string, name: string): string {
    if path == [] then name else path + "/" + name
  }

  /** The records of a directory: its own, unless it is the root, then its entries in order. */
  function DirRecords(path: string, d: DirNode): seq<Record>
    decreases d, 1
  {
    (if path == [] then [] else [Record(path, S_IFDIR + d.mode, 2, 0, 0, [])]) + EntryRecords(path, d.entries)
  }

  function NodeRecords(path: string, n: Node): seq<Record>
    decreases n, 0
  {
    match n
    case Dir(d) => DirRecords(path, d)
    case File(mode, data) => [Record(path, S_IFREG + mode, 1, 0, 0, data)]
    case Symlink(target) => [Record(path, S_IFLNK + 0x1ff, 1, 0, 0, Utf8.Encode(target))]
    case Device(mode, ifmt, major, minor) => [Record(path, ifmt + mode, 1, major, minor, [])]
  }

  function EntryRecords(path: string, e: Entries): seq<Record>
    decreases e, 0
  {
    match e
    case Nil => []
    case Cons(name, node, rest) => NodeRecords(JoinPath(path, name), node) + EntryRecords(path, rest)
  }

  /** The growing archive: the bytes so far and the inode the next record gets. */
  class Writer {
    var out: seq<byte>
    var ino: nat
    // The records written so far.
    ghost var records: seq<Record>

    ghost predicate Valid()
      reads this
    {
      && out == EncodeRecords(records, INO_BASE)
      && ino == (INO_BASE + |records|) % WORD
      && |out| % 4 == 0
    }

    constructor ()
      ensures Valid() && records == []
    {
      out, ino, records := [], INO_BASE, [];
    }

    /** Eight uppercase digits, highest first. */
    method PushHex8(v: nat)
      requires v < WORD
      modifies this`out
      ensures out == old(out) + Hex(v, 8)
    {
      hide Hex, Pow16;
      ghost var start := out;
      NoDigits(v);
      var shift := 8;
      while shift > 0
        invariant 0 <= shift <= 8
        invariant out == start + Hex(v / Pow16(shift), 8 - shift)
      {
        shift := shift - 1;
        var w := v / Pow16(shift);
        DropDigit(v, shift);
        HexUnfolds(w, 7 - shift);
        out := out + [HexDigit(w % 16)];
      }
    }

    method Pad4()
      modifies this`out
      ensures out == old(out) + Zeros(Pad(|old(out)|))
    {
      hide Pad;
      ghost var start := out;
      ghost var n := 0;
      PadLeft(|start|, n);
      while |out| % 4 != 0
        invariant n <= Pad(|start|) && out == start + Zeros(n)
        invariant |out| % 4 == 0 <==> n == Pad(|start|)
        decreases Pad(|start|) - n
      {
        out := out + [0];
        PadLeft(|start|, n + 1);
        n := n + 1;
        assert Zeros(n) == Zeros(n - 1) + [0];
      }
    }

    method PushFields(fields: seq<nat>)
      requires forall i :: 0 <= i < |fields| ==> fields[i] < WORD
      modifies this`out
      ensures out == old(out) + HexFields(fields)
    {
      ghost var start := out;
      for i := 0 to |fields|
        invariant out == start + HexFields(fields[..i])
      {
        PushHex8(fields[i]);
        assert fields[..i + 1][..i] == fields[..i];
      }
      assert fields[..|fields|] == fields;
    }

    method WriteHead(r: Record)
      requires |out| % 4 == 0 && ino < WORD
      requires r.mode < WORD && r.nlink < WORD && r.rdevmajor < WORD && r.rdevminor < WORD
      modifies this`out
      ensures out == old(out) + Head(r, ino) && |out| % 4 == 0
    {
      hide HexFields, Pad, Fields, Utf8.Encode;
      FieldsAreWords(r, ino);
      ghost var start := out;
      out := out + MAGIC;
      PushFields(Fields(r, ino));
      var name := Utf8.Encode(r.name) + [0];
      out := out + name;
      PadShift(|start|, HEADER_LEN + |name|);
      Pad4();
      HeadAligned(r, ino);
    }

    method WriteRecord(r: Record)
      requires Valid()
      requires r.mode < WORD && r.nlink < WORD && r.rdevmajor < WORD && r.rdevminor < WORD
      modifies this
      ensures Valid() && records == old(records) + [r]
    {
      hide Head, Pad, EncodeRecords, EncodeRecord;
      ghost var start := out;
      WriteHead(r);
      PadShift(|out|, |r.data|);
      out := out + r.data;
      Pad4();
      RecordInPieces(start, r, ino);
      RecordAligned(r, ino);
      AppendRecord(records, r, INO_BASE);
      NextIno(|records|);
      ino := (ino + 1) % WORD;
      records := records + [r];
    }

    method WriteNode(path: string, n: Node)
      requires Valid() && WellMadeNode(n)
      modifies this
      ensures Valid() && records == old(records) + NodeRecords(path, n)
      decreases n, 0
    {
      hide Valid;
      match n {
        case Dir(sub) => WriteDir(path, sub);
        case File(mode, data) => WriteRecord(Record(path, S_IFREG + mode, 1, 0, 0, data));
        case Symlink(target) => WriteRecord(Record(path, S_IFLNK + 0x1ff, 1, 0, 0, Utf8.Encode(target)));
        case Device(mode, ifmt, major, minor) => WriteRecord(Record(path, ifmt + mode, 1, major, minor, []));
      }
    }

    method WriteDir(path: string, d: DirNode)
      requires Valid() && WellMade(d)
      modifies this
      ensures Valid() && records == old(records) + DirRecords(path, d)
      decreases d, 1
    {
      hide Valid, NodeRecords;
      if path != [] {
        WriteRecord(Record(path, S_IFDIR + d.mode, 2, 0, 0, []));
      }
      ghost var start := records;
      var rest := d.entries;
      while rest.Cons?
        invariant Valid() && WellMadeEntries(rest) && (rest == d.entries || rest < d.entries)
        invariant records + EntryRecords(path, rest) == start + EntryRecords(path, d.entries)
        decreases rest
      {
        WriteNode(JoinPath(path, rest.name), rest.node);
        rest := rest.rest;
      }
      assert records == start + EntryRecords(path, d.entries);
    }
  }

  /** A head ends aligned. */
  lemma HeadAligned(r: Record, ino: nat)
    ensures |Head(r, ino)| % 4 == 0
  {
    hide HexFields, Utf8.Encode, Fields;
    var n := HEADER_LEN + |Utf8.Encode(r.name) + [0]|;
    assert |Head(r, ino)| == n + Pad(n);
  }

  /** A record that starts aligned ends aligned. */
  lemma RecordAligned(r: Record, ino: nat)
    ensures |EncodeRecord(r, ino)| % 4 == 0
  {
    hide Head;
    HeadAligned(r, ino);
    assert |EncodeRecord(r, ino)| == |Head(r, ino)| + (|r.data| + Pad(|r.data|));
  }

  lemma NextIno(n: nat)
    ensures ((INO_BASE + n) % WORD + 1) % WORD == (INO_BASE + n + 1) % WORD
  {
  }

  lemma RecordInPieces(start: seq<byte>, r: Record, ino: nat)
    ensures start + EncodeRecord(r, ino) == start + Head(r, ino) + r.data + Zeros(Pad(|r.data|))
  {
    hide Head, Pad;
  }

  lemma FieldsAreWords(r: Record, ino: nat)
    requires ino < WORD && r.mode < WORD && r.nlink < WORD && r.rdevmajor < WORD && r.rdevminor < WORD
    ensures forall i :: 0 <= i < 13 ==> Fields(r, ino)[i] < WORD
  {
  }

  lemma AppendRecord(rs: seq<Record>, r: Record, ino: nat)
    ensures EncodeRecords(rs + [r], ino) == EncodeRecords(rs, ino) + EncodeRecord(r, (ino + |rs|) % WORD)
  {
    hide EncodeRecord;
    assert (rs + [r])[..|rs|] == rs;
  }

  /** Padding is due up to the next multiple of four, and no further. */
  lemma PadLeft(len: nat, n: nat)
    requires n <= Pad(len)
    ensures (len + n) % 4 == 0 <==> n == Pad(len)
  {
  }

  lemma PadShift(a: nat, n: nat)
    requires a % 4 == 0
    ensures Pad(a + n) == Pad(n)
  {
  }

  lemma NoDigits(v: nat)
    ensures Hex(v / Pow16(8), 0) == [] && v / Pow16(0) == v
  {
  }

  lemma HexUnfolds(w: nat, n: nat)
    ensures Hex(w, n + 1) == Hex(w / 16, n) + [HexDigit(w % 16)]
  {
  }

  /** One hexadecimal digit less. */
  lemma DropDigit(v: nat, n: nat)
    ensures v / Pow16(n + 1) == (v / Pow16(n)) / 16
  {
    hide Pow16;
    Pow16Next(n);
    DivTwice(v, Pow16(n));
  }

  lemma Pow16Next(n: nat)
    ensures Pow16(n + 1) == 16 * Pow16(n)
  {
  }

  lemma DivTwice(v: nat, p: nat)
    requires p > 0
    ensures v / (16 * p) == (v / p) / 16
  {
    var q, r := v / p, v % p;
    var t, d := q / 16, q % 16;
    assert q * p == t * (16 * p) + d * p;
    DigitTimes(d, p);
    DivUnique(v, 16 * p, t, d * p + r);
  }

  lemma DigitTimes(d: nat, p: nat)
    requires d < 16
    ensures d * p <= 15 * p
  {
  }

  method Write(root: DirNode) returns (bytes: seq<byte>)
    requires WellMade(root)
    ensures bytes == EncodeRecords(DirRecords([], root) + [TRAILER_RECORD], INO_BASE)
  {
    hide EncodeRecords, DirRecords;
    var w := new Writer();
    w.WriteDir([], root);
    assert [] + DirRecords([], root) == DirRecords([], root);
    w.WriteRecord(TRAILER_RECORD);
    bytes := w.out;
  }

  // ---- the reader

  datatype Entry = DirEntry(path: string, mode: nat)
                 | FileEntry(path: string, mode: nat, data: seq<byte>)
                 | SymlinkEntry(path: string, target: string)
                 | DeviceEntry(path: string, mode: nat, kind: NodeKind, major: nat, minor: nat)

  function Align4(n: nat): nat {
    (n + 3) / 4 * 4
  }

  /** One record as read: its name, the fields that matter, its data, and where the next starts. */
  datatype Parsed = Parsed(name: string, mode: nat, major: nat, minor: nat, data: seq<byte>, next: nat)

  function FieldAt(bytes: seq<byte>, pos: nat, i: nat): Result<nat, ReadError>
    requires pos + HEADER_LEN <= |bytes| && i < 13
  {
    ParseHex8(bytes[pos + 6 + i * 8..pos + 6 + i * 8 + 8])
  }

  /** The record at a position, with the checks in the order they are made. */
  function ParseRecord(bytes: seq<byte>, pos: nat): (r: Result<Parsed, ReadError>)
    ensures r.Ok? ==> r.value.next >= pos + HEADER_LEN
  {
    if pos + HEADER_LEN > |bytes| then Err(TruncatedHeader)
    else if bytes[pos..pos + 6] != MAGIC then Err(BadMagic)
    else
      var mode := FieldAt(bytes, pos, 1);
      if mode.Err? then Err(mode.error) else
      var filesize := FieldAt(bytes, pos, 6);
      if filesize.Err? then Err(filesize.error) else
      var major := FieldAt(bytes, pos, 9);
      if major.Err? then Err(major.error) else
      var minor := FieldAt(bytes, pos, 10);
      if minor.Err? then Err(minor.error) else
      var namesize := FieldAt(bytes, pos, 11);
      if namesize.Err? then Err(namesize.error) else
      var nameStart := pos + HEADER_LEN;
      var nameEnd := nameStart + namesize.value;
      if nameEnd > |bytes| || namesize.value < 1 then Err(TruncatedName) else
      var name := Utf8.Decode(bytes[nameStart..nameEnd - 1]);
      if name.None? then Err(NonUtf8Name) else
      var dataStart := Align4(nameEnd);
      var dataEnd := dataStart + filesize.value;
      if dataEnd > |bytes| then Err(TruncatedData) else
      Ok(Parsed(name.value, mode.value, major.value, minor.value, bytes[dataStart..dataEnd], Align4(dataEnd)))
  }

  /** `mode & S_IFMT`: bits 12 to 15. */
  function FileType(mode: nat): nat {
    mode / 0x1000 % 16 * 0x1000
  }

  function ToEntry(p: Parsed): Result<Entry, ReadError> {
    var kind, perm := FileType(p.mode), p.mode % 0x1000;
    if kind == S_IFDIR then Ok(DirEntry(p.name, perm))
    else if kind == S_IFLNK then
      match Utf8.Decode(p.data)
      case None => Err(NonUtf8Target)
      case Some(target) => Ok(SymlinkEntry(p.name, target))
    else if kind == S_IFCHR || kind == S_IFBLK then
      Ok(DeviceEntry(p.name, perm, if kind == S_IFCHR then Char else Block, p.major, p.minor))
    else Ok(FileEntry(p.name, perm, p.data))
  }

  /** The entry a record is read as, by the four bits of its mode that say what it is. */
  lemma EntrySays(p: Parsed)
    ensures
      var kind, perm, e := p.mode / 0x1000 % 16, p.mode % 0x1000, ToEntry(p);
      && (kind == 4 ==> e == Ok(DirEntry(p.name, perm)))
      && (kind == 10 ==> (e.Ok? <==> Utf8.Decode(p.data).Some?))
      && (kind == 10 && e.Ok? ==> e.value.SymlinkEntry? && e.value.path == p.name && Utf8.Encode(e.value.target) == p.data)
      && (kind == 2 ==> e == Ok(DeviceEntry(p.name, perm, Char, p.major, p.minor)))
      && (kind == 6 ==> e == Ok(DeviceEntry(p.name, perm, Block, p.major, p.minor)))
      && (kind !in {2, 4, 6, 10} ==> e == Ok(FileEntry(p.name, perm, p.data)))
  {
    hide Utf8.Decode, Utf8.Encode;
    if Utf8.Decode(p.data).Some? {
      Utf8.EncodeDecode(p.data);
    }
  }

  function Prepend(e: Entry, r: Result<seq<Entry>, ReadError>): Result<seq<Entry>, ReadError> {
    if r.Ok? then Ok([e] + r.value) else r
  }

  /** Everything up to the trailer, from a position on. */
  function ReadFrom(bytes: seq<byte>, pos: nat): Result<seq<Entry>, ReadError>
    decreases if pos <= |bytes| then |bytes| - pos else 0
  {
    match ParseRecord(bytes, pos)
    case Err(e) => Err(e)
    case Ok(p) =>
      if p.name == TRAILER then Ok([])
      else
        match ToEntry(p)
        case Err(e) => Err(e)
        case Ok(entry) => Prepend(entry, ReadFrom(bytes, p.next))
  }

  function PrependAll(es: seq<Entry>, r: Result<seq<Entry>, ReadError>): Result<seq<Entry>, ReadError> {
    if r.Ok? then Ok(es + r.value) else r
  }

  /** Terminates on any bytes: every record takes at least a header. */
  method Read(bytes: seq<byte>) returns (r: Result<seq<Entry>, ReadError>)
    ensures r == ReadFrom(bytes, 0)
  {
    hide ParseRecord, ToEntry;
    var entries: seq<Entry> := [];
    var pos := 0;
    assert forall es: seq<Entry> :: [] + es == es;
    while true
      invariant ReadFrom(bytes, 0) == PrependAll(entries, ReadFrom(bytes, pos))
      decreases if pos <= |bytes| then |bytes| - pos else 0
    {
      RecordNeedsRoom(bytes, pos);
      var p := ParseRecord(bytes, pos);
      if p.Err? {
        return Err(p.error);
      }
      if p.value.name == TRAILER {
        assert entries + [] == entries;
        return Ok(entries);
      }
      var e := ToEntry(p.value);
      if e.Err? {
        return Err(e.error);
      }
      ghost var later := ReadFrom(bytes, p.value.next);
      if later.Ok? {
        assert entries + ([e.value] + later.value) == (entries + [e.value]) + later.value;
      }
      entries := entries + [e.value];
      pos := p.value.next;
    }
  }

  lemma RecordNeedsRoom(bytes: seq<byte>, pos: nat)
    ensures ParseRecord(bytes, pos).Ok? ==> pos + HEADER_LEN <= |bytes|
  {
  }
}
