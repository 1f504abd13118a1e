/**
 The GUID partition table a Key is built with (crates/keybuild/src/gpt.rs): placement of the
 partitions and the bytes of both copies of the table (sections 5.3.2 and 5.3.3 of the UEFI
 Specification). Addresses are 64-bit words; a disk too large for them is not built.
 */
module Gpt {
  import opened Bits
  import Utf16
  import Crc

  const SECTOR: nat := 512
  const ALIGN_SECTORS: nat := 2048
  const ENTRY_COUNT: nat := 128
  const ENTRY_SIZE: nat := 128
  const ENTRY_ARRAY_SECTORS: nat := 32
  const HEADER_SIZE: nat := 92
  const FIRST_USABLE: nat := 34

  const WORD64: nat := 0x1_0000_0000_0000_0000

  type Guid = g: seq<byte> | |g| == 16 witness seq(16, _ => 0)

  datatype PartSpec = PartSpec(typeGuid: Guid, uniqueGuid: Guid, name: string, size: nat)

  datatype Placed = Placed(firstLba: nat, lastLba: nat, offset: nat, size: nat)

  datatype Disk = Disk(totalBytes: nat, parts: seq<Placed>, front: seq<byte>, back: seq<byte>, backOffset: nat)

  // ---- little-endian numbers and byte buffers

  function LittleEndian(v: nat, n: nat): (s: seq<byte>)
    ensures |s| == n
  {
    if n == 0 then [] else [v % 256] + LittleEndian(v / 256, n - 1)
  }

  function FromLittleEndian(s: seq<byte>): nat {
    if s == [] then 0 else s[0] + 256 * FromLittleEndian(s[1..])
  }

  function Pow256(n: nat): nat {
    if n == 0 then 1 else 256 * Pow256(n - 1)
  }

  lemma {:induction false} LittleEndianRoundTrip(v: nat, n: nat)
    requires v < Pow256(n)
    ensures FromLittleEndian(LittleEndian(v, n)) == v
  {
    if n > 0 {
      LittleEndianRoundTrip(v / 256, n - 1);
      assert LittleEndian(v, n)[1..] == LittleEndian(v / 256, n - 1);
    }
  }

  /** A buffer with some bytes copied over it. */
  function Splice(s: seq<byte>, off: nat, b: seq<byte>): (r: seq<byte>)
    requires off + |b| <= |s|
    ensures |r| == |s|
  {
    s[..off] + b + s[off + |b|..]
  }

  method CopyInto(a: array<byte>, off: nat, b: seq<byte>)
    requires off + |b| <= a.Length
    modifies a
    ensures a[..] == Splice(old(a[..]), off, b)
  {
    ghost var s := a[..];
    SpliceNothing(s, off);
    hide Splice;
    assert b[..0] == [];
    for i := 0 to |b|
      invariant a[..] == Splice(s, off, b[..i])
    {
      ghost var before := a[..];
      a[off + i] := b[i];
      assert a[..] == before[off + i := b[i]];
      SpliceNext(s, off, b, i);
    }
    assert b[..|b|] == b;
  }

  lemma SpliceNothing(s: seq<byte>, off: nat)
    requires off <= |s|
    ensures Splice(s, off, []) == s
  {
  }

  lemma SpliceNext(s: seq<byte>, off: nat, b: seq<byte>, i: nat)
    requires off + |b| <= |s| && i < |b|
    ensures Splice(s, off, b[..i])[off + i := b[i]] == Splice(s, off, b[..i + 1])
  {
    assert b[..i + 1] == b[..i] + [b[i]];
  }

  /** Copying two pieces side by side is copying them as one. */
  lemma SpliceAdjacent(s: seq<byte>, off: nat, a: seq<byte>, b: seq<byte>)
    requires off + |a| + |b| <= |s|
    ensures Splice(Splice(s, off, a), off + |a|, b) == Splice(s, off, a + b)
  {
  }

  // ---- placement

  function DivCeil(x: nat, a: nat): nat
    requires a > 0
  {
    (x + a - 1) / a
  }

  function AlignUp(x: nat, a: nat): nat
    requires a > 0
  {
    DivCeil(x, a) * a
  }

  /** How many sectors a partition takes: whole alignment units, at least one. */
  function PartSectors(size: nat): nat {
    var sectors := DivCeil(size, SECTOR);
    AlignUp(if sectors < 1 then 1 else sectors, ALIGN_SECTORS)
  }

  function PlaceAt(p: PartSpec, cursor: nat): Placed {
    var sectors := PartSectors(p.size);
    Placed(cursor, cursor + sectors - 1, cursor * SECTOR, sectors * SECTOR)
  }

  /** Where the next partition starts, after these from a cursor. */
  function EndOf(parts: seq<PartSpec>, cursor: nat): nat {
    if parts == [] then cursor else EndOf(parts[..|parts| - 1], cursor) + PartSectors(parts[|parts| - 1].size)
  }

  function Place(parts: seq<PartSpec>, cursor: nat): (placed: seq<Placed>)
    ensures |placed| == |parts|
  {
    seq(|parts|, i requires 0 <= i < |parts| => PlaceAt(parts[i], EndOf(parts[..i], cursor)))
  }

  lemma PartSectorsBounds(size: nat)
    ensures PartSectors(size) >= ALIGN_SECTORS && PartSectors(size) % ALIGN_SECTORS == 0
    ensures PartSectors(size) * SECTOR >= size
    ensures if size > 0 then PartSectors(size) * SECTOR - size < 0x10_0000 else PartSectors(size) * SECTOR == 0x10_0000
  {
  }

  lemma {:induction false} EndOfAligned(parts: seq<PartSpec>, cursor: nat)
    requires cursor % ALIGN_SECTORS == 0
    ensures EndOf(parts, cursor) % ALIGN_SECTORS == 0 && EndOf(parts, cursor) >= cursor
  {
    hide PartSectors;
    if parts != [] {
      EndOfAligned(parts[..|parts| - 1], cursor);
      PartSectorsBounds(parts[|parts| - 1].size);
    }
  }

  lemma {:induction false} EndOfGrows(parts: seq<PartSpec>, cursor: nat, i: nat)
    requires i <= |parts|
    ensures EndOf(parts[..i], cursor) <= EndOf(parts, cursor)
  {
    hide PartSectors;
    if i == |parts| {
      assert parts[..i] == parts;
    } else {
      var n := |parts| - 1;
      EndOfGrows(parts[..n], cursor, i);
      assert parts[..n][..i] == parts[..i];
    }
  }

  /** Starts and ends on 1 MiB boundaries, inside the usable sectors, with room for the image. */
  ghost predicate WellPlaced(p: Placed, size: nat, end: nat) {
    && p.firstLba % 2048 == 0 && (p.lastLba + 1) % 2048 == 0
    && 34 <= p.firstLba <= p.lastLba < end
    && p.offset == p.firstLba * 512 && p.size == (p.lastLba + 1 - p.firstLba) * 512
    && p.size >= size && (if size > 0 then p.size - size < 0x10_0000 else p.size == 0x10_0000)
  }

  lemma PlaceAtIsGood(p: PartSpec, cursor: nat, end: nat)
    requires cursor % ALIGN_SECTORS == 0 && cursor >= ALIGN_SECTORS && cursor + PartSectors(p.size) <= end
    ensures WellPlaced(PlaceAt(p, cursor), p.size, end)
  {
    hide PartSectors;
    PartSectorsBounds(p.size);
  }

  /** Every partition is well placed in the disk. */
  lemma PlacementGood(parts: seq<PartSpec>, i: nat)
    requires i < |parts|
    ensures WellPlaced(Place(parts, ALIGN_SECTORS)[i], parts[i].size, EndOf(parts, ALIGN_SECTORS))
  {
    hide PartSectors, EndOf, WellPlaced;
    EndOfAligned(parts[..i], ALIGN_SECTORS);
    EndOfAppend(parts, ALIGN_SECTORS, i);
    EndOfGrows(parts, ALIGN_SECTORS, i + 1);
    PlaceAtIsGood(parts[i], EndOf(parts[..i], ALIGN_SECTORS), EndOf(parts, ALIGN_SECTORS));
  }

  /** Partitions follow each other without gap, from the first megabyte to the backup table. */
  lemma PartitionsContiguous(parts: seq<PartSpec>, i: nat)
    requires i < |parts|
    ensures
      var ps := Place(parts, ALIGN_SECTORS);
      && ps[i].firstLba == (if i == 0 then 2048 else ps[i - 1].lastLba + 1)
      && (i == |parts| - 1 ==> ps[i].lastLba + 1 == EndOf(parts, ALIGN_SECTORS))
  {
    hide PartSectors;
    PartSectorsBounds(parts[i].size);
    EndOfAppend(parts, ALIGN_SECTORS, i);
    if i > 0 {
      EndOfAppend(parts, ALIGN_SECTORS, i - 1);
    }
    if i == |parts| - 1 {
      assert parts[..i + 1] == parts;
    }
  }

  lemma EndOfAppend(parts: seq<PartSpec>, cursor: nat, i: nat)
    requires i < |parts|
    ensures EndOf(parts[..i + 1], cursor) == EndOf(parts[..i], cursor) + PartSectors(parts[i].size)
  {
    assert parts[..i + 1][..i] == parts[..i];
  }

  /** Distinct partitions share no sector. */
  lemma PartitionsDisjoint(parts: seq<PartSpec>, i: nat, j: nat)
    requires i < j < |parts|
    ensures Place(parts, ALIGN_SECTORS)[i].lastLba < Place(parts, ALIGN_SECTORS)[j].firstLba
  {
    hide PartSectors;
    PartSectorsBounds(parts[i].size);
    EndOfAppend(parts, ALIGN_SECTORS, i);
    EndOfGrows(parts[..j], ALIGN_SECTORS, i + 1);
    assert parts[..j][..i + 1] == parts[..i + 1];
  }

  // ---- the header

  datatype HeaderArgs = HeaderArgs(myLba: nat, altLba: nat, firstUsable: nat, lastUsable: nat,
                                   diskGuid: Guid, entriesLba: nat, entryCrc: nat)

  /** "EFI PART" */
  const SIGNATURE: seq<byte> := [0x45, 0x46, 0x49, 0x20, 0x50, 0x41, 0x52, 0x54]
  const REVISION: seq<byte> := [0x00, 0x00, 0x01, 0x00]

  function Identity(): (s: seq<byte>)
    ensures |s| == 16
  {
    SIGNATURE + REVISION + LittleEndian(HEADER_SIZE, 4)
  }

  function Locations(a: HeaderArgs): (s: seq<byte>)
    ensures |s| == 56
  {
    LittleEndian(a.myLba, 8) + LittleEndian(a.altLba, 8) + LittleEndian(a.firstUsable, 8)
    + LittleEndian(a.lastUsable, 8) + a.diskGuid + LittleEndian(a.entriesLba, 8)
  }

  function Table(a: HeaderArgs): (s: seq<byte>)
    ensures |s| == 12
  {
    LittleEndian(ENTRY_COUNT, 4) + LittleEndian(ENTRY_SIZE, 4) + LittleEndian(a.entryCrc, 4)
  }

  /** A header sector with a given number in its CRC field. */
  function HeaderBytes(a: HeaderArgs, crc: nat): (s: seq<byte>)
    ensures |s| == SECTOR
  {
    Identity() + LittleEndian(crc, 4) + Zeros(4) + Locations(a) + Table(a) + Zeros(420)
  }

  /** The CRC of the first 92 bytes, its own field taken as zero. */
  function HeaderCrc(a: HeaderArgs): nat {
    Crc.Crc32(HeaderBytes(a, 0)[..HEADER_SIZE])
  }

  method WriteLocations(s: array<byte>, a: HeaderArgs)
    requires s.Length == SECTOR
    modifies s
    ensures s[..] == Splice(old(s[..]), 24, Locations(a))
  {
    hide Splice, LittleEndian;
    ghost var before := s[..];
    var b := LittleEndian(a.myLba, 8);
    CopyInto(s, 24, b);
    SpliceAdjacent(before, 24, b, LittleEndian(a.altLba, 8));
    b := b + LittleEndian(a.altLba, 8);
    CopyInto(s, 32, LittleEndian(a.altLba, 8));
    SpliceAdjacent(before, 24, b, LittleEndian(a.firstUsable, 8));
    b := b + LittleEndian(a.firstUsable, 8);
    CopyInto(s, 40, LittleEndian(a.firstUsable, 8));
    SpliceAdjacent(before, 24, b, LittleEndian(a.lastUsable, 8));
    b := b + LittleEndian(a.lastUsable, 8);
    CopyInto(s, 48, LittleEndian(a.lastUsable, 8));
    SpliceAdjacent(before, 24, b, a.diskGuid);
    b := b + a.diskGuid;
    CopyInto(s, 56, a.diskGuid);
    SpliceAdjacent(before, 24, b, LittleEndian(a.entriesLba, 8));
    CopyInto(s, 72, LittleEndian(a.entriesLba, 8));
  }

  method WriteIdentityAndTable(s: array<byte>, a: HeaderArgs)
    requires s.Length == SECTOR
    modifies s
    ensures s[..] == Splice(Splice(old(s[..]), 0, Identity()), 80, Table(a))
  {
    hide Splice, LittleEndian;
    ghost var before := s[..];
    CopyInto(s, 0, SIGNATURE);
    SpliceAdjacent(before, 0, SIGNATURE, REVISION);
    CopyInto(s, 8, REVISION);
    SpliceAdjacent(before, 0, SIGNATURE + REVISION, LittleEndian(HEADER_SIZE, 4));
    CopyInto(s, 12, LittleEndian(HEADER_SIZE, 4));
    ghost var mid := s[..];
    var b := LittleEndian(ENTRY_COUNT, 4);
    CopyInto(s, 80, b);
    SpliceAdjacent(mid, 80, b, LittleEndian(ENTRY_SIZE, 4));
    b := b + LittleEndian(ENTRY_SIZE, 4);
    CopyInto(s, 84, LittleEndian(ENTRY_SIZE, 4));
    SpliceAdjacent(mid, 80, b, LittleEndian(a.entryCrc, 4));
    CopyInto(s, 88, LittleEndian(a.entryCrc, 4));
  }

  lemma HeaderFromPieces(a: HeaderArgs, crc: nat)
    ensures Splice(Splice(Splice(Zeros(SECTOR), 0, Identity()), 80, Table(a)), 24, Locations(a)) == HeaderBytes(a, 0)
    ensures Splice(HeaderBytes(a, 0), 16, LittleEndian(crc, 4)) == HeaderBytes(a, crc)
  {
    hide Identity, Locations, Table, LittleEndian;
    ZeroField();
    var s0 := Splice(Zeros(SECTOR), 0, Identity());
    assert s0 == Identity() + Zeros(496);
    var s1 := Splice(s0, 80, Table(a));
    assert s1 == Identity() + Zeros(64) + Table(a) + Zeros(420);
    assert Splice(s1, 24, Locations(a)) == Identity() + Zeros(8) + Locations(a) + Table(a) + Zeros(420);
    assert Zeros(4) + Zeros(4) == Zeros(8);
  }

  lemma ZeroField()
    ensures LittleEndian(0, 4) == Zeros(4)
  {
  }

  method Header(a: HeaderArgs) returns (s: array<byte>)
    ensures fresh(s) && s[..] == HeaderBytes(a, HeaderCrc(a))
  {
    hide Splice, HeaderBytes, Identity, Table, Locations, Crc.Crc32;
    s := new byte[SECTOR](_ => 0);
    assert s[..] == Zeros(SECTOR);
    WriteIdentityAndTable(s, a);
    WriteLocations(s, a);
    HeaderFromPieces(a, HeaderCrc(a));
    var crc := Crc.ComputeCrc32(s[..HEADER_SIZE]);
    CopyInto(s, 16, LittleEndian(crc, 4));
  }

  // ---- the entry array

  function Take(s: seq<Utf16.Unit>, n: nat): seq<Utf16.Unit> {
    if |s| < n then s else s[..n]
  }

  function UnitBytes(units: seq<Utf16.Unit>): (s: seq<byte>)
    ensures |s| == 2 * |units|
  {
    if units == [] then [] else UnitBytes(units[..|units| - 1]) + LittleEndian(units[|units| - 1], 2)
  }

  /** The name's field: at most 36 UTF-16 units, then zeros. */
  function NameBytes(name: string): (s: seq<byte>)
    ensures |s| == 72
  {
    var units := Take(Utf16.Encode(name), 36);
    UnitBytes(units) + Zeros(72 - 2 * |units|)
  }

  function EntryBytes(p: PartSpec, pl: Placed): (s: seq<byte>)
    ensures |s| == ENTRY_SIZE
  {
    p.typeGuid + p.uniqueGuid + LittleEndian(pl.firstLba, 8) + LittleEndian(pl.lastLba, 8) + Zeros(8) + NameBytes(p.name)
  }

  function EntriesBytes(parts: seq<PartSpec>, placed: seq<Placed>): (s: seq<byte>)
    requires |parts| == |placed|
    ensures |s| == ENTRY_SIZE * |parts|
  {
    if parts == [] then []
    else
      var n := |parts| - 1;
      EntriesBytes(parts[..n], placed[..n]) + EntryBytes(parts[n], placed[n])
  }

  function EntryArray(parts: seq<PartSpec>, placed: seq<Placed>): (s: seq<byte>)
    requires |parts| == |placed| <= ENTRY_COUNT
    ensures |s| == ENTRY_COUNT * ENTRY_SIZE
  {
    EntriesBytes(parts, placed) + Zeros(ENTRY_COUNT * ENTRY_SIZE - ENTRY_SIZE * |parts|)
  }

  /** The fields of an entry before its flags. */
  function EntryHead(p: PartSpec, pl: Placed): (s: seq<byte>)
    ensures |s| == 48
  {
    p.typeGuid + p.uniqueGuid + LittleEndian(pl.firstLba, 8) + LittleEndian(pl.lastLba, 8)
  }

  method WriteEntryHead(a: array<byte>, off: nat, p: PartSpec, pl: Placed)
    requires off + 48 <= a.Length
    modifies a
    ensures a[..] == Splice(old(a[..]), off, EntryHead(p, pl))
  {
    hide LittleEndian, Splice;
    ghost var before := a[..];
    CopyInto(a, off, p.typeGuid);
    SpliceAdjacent(before, off, p.typeGuid, p.uniqueGuid);
    CopyInto(a, off + 16, p.uniqueGuid);
    var b := p.typeGuid + p.uniqueGuid;
    SpliceAdjacent(before, off, b, LittleEndian(pl.firstLba, 8));
    CopyInto(a, off + 32, LittleEndian(pl.firstLba, 8));
    b := b + LittleEndian(pl.firstLba, 8);
    SpliceAdjacent(before, off, b, LittleEndian(pl.lastLba, 8));
    CopyInto(a, off + 40, LittleEndian(pl.lastLba, 8));
  }

  method WriteName(a: array<byte>, off: nat, units: seq<Utf16.Unit>)
    requires off + 2 * |units| <= a.Length
    modifies a
    ensures a[..] == Splice(old(a[..]), off, UnitBytes(units))
  {
    hide LittleEndian, Splice;
    ghost var before := a[..];
    SpliceNothing(before, off);
    for j := 0 to |units|
      invariant a[..] == Splice(before, off, UnitBytes(units[..j]))
    {
      assert units[..j + 1][..j] == units[..j];
      SpliceAdjacent(before, off, UnitBytes(units[..j]), LittleEndian(units[j], 2));
      CopyInto(a, off + j * 2, LittleEndian(units[j], 2));
    }
    assert units[..|units|] == units;
  }

  /** An entry whose head and name are written over zeros is the whole entry. */
  lemma EntryOverZeros(s: seq<byte>, off: nat, p: PartSpec, pl: Placed)
    requires off + ENTRY_SIZE <= |s| && s[off..off + ENTRY_SIZE] == Zeros(ENTRY_SIZE)
    ensures
      var units := Take(Utf16.Encode(p.name), 36);
      && Splice(Splice(s, off, EntryHead(p, pl)), off + 56, UnitBytes(units)) == Splice(s, off, EntryBytes(p, pl))
  {
    hide Splice, LittleEndian, UnitBytes;
    var head, name := EntryHead(p, pl), UnitBytes(Take(Utf16.Encode(p.name), 36));
    TwoPieces(s, off, head, 8, name, 72 - |name|);
    assert head + Zeros(8) + name + Zeros(72 - |name|) == EntryBytes(p, pl);
  }

  lemma ZerosWithin(s: seq<byte>, off: nat, n: nat, i: nat, k: nat)
    requires off + n <= |s| && s[off..off + n] == Zeros(n) && i + k <= n
    ensures s[off + i..off + i + k] == Zeros(k)
  {
    forall j | off + i <= j < off + i + k
      ensures s[j] == 0
    {
      assert s[j] == s[off..off + n][j - off];
    }
  }

  lemma TwoPieces(s: seq<byte>, off: nat, a: seq<byte>, n: nat, b: seq<byte>, m: nat)
    requires off + |a| + n + |b| + m <= |s|
    requires s[off..off + |a| + n + |b| + m] == Zeros(|a| + n + |b| + m)
    ensures Splice(Splice(s, off, a), off + |a| + n, b) == Splice(s, off, a + Zeros(n) + b + Zeros(m))
  {
    ZerosWithin(s, off, |a| + n + |b| + m, |a|, n);
    ZerosWithin(s, off, |a| + n + |b| + m, |a| + n + |b|, m);
  }

  /** Writes one entry over zeros, the name unit by unit. */
  method WriteEntry(a: array<byte>, off: nat, p: PartSpec, pl: Placed)
    requires off + ENTRY_SIZE <= a.Length
    requires a[off..off + ENTRY_SIZE] == Zeros(ENTRY_SIZE)
    modifies a
    ensures a[..] == Splice(old(a[..]), off, EntryBytes(p, pl))
  {
    hide LittleEndian, Splice, EntryBytes, EntryHead, UnitBytes;
    EntryOverZeros(a[..], off, p, pl);
    WriteEntryHead(a, off, p, pl);
    WriteName(a, off + 56, Take(Utf16.Encode(p.name), 36));
  }

  method BuildEntries(parts: seq<PartSpec>, placed: seq<Placed>) returns (entries: seq<byte>)
    requires |parts| == |placed| <= ENTRY_COUNT
    ensures entries == EntryArray(parts, placed)
  {
    hide EntryBytes;
    var a := new byte[ENTRY_COUNT * ENTRY_SIZE](_ => 0);
    assert a[..] == [] + Zeros(ENTRY_COUNT * ENTRY_SIZE);
    for i := 0 to |parts|
      invariant a[..] == EntriesBytes(parts[..i], placed[..i]) + Zeros(ENTRY_COUNT * ENTRY_SIZE - ENTRY_SIZE * i)
    {
      ghost var before := a[..];
      assert a[i * ENTRY_SIZE..i * ENTRY_SIZE + ENTRY_SIZE] == Zeros(ENTRY_SIZE);
      WriteEntry(a, i * ENTRY_SIZE, parts[i], placed[i]);
      assert parts[..i + 1][..i] == parts[..i] && placed[..i + 1][..i] == placed[..i];
      assert before[i * ENTRY_SIZE + ENTRY_SIZE..] == Zeros(ENTRY_COUNT * ENTRY_SIZE - ENTRY_SIZE * (i + 1));
    }
    assert parts[..|parts|] == parts && placed[..|placed|] == placed;
    entries := a[..];
  }

  // ---- the protective MBR and the whole disk

  /** The disk's length as the 32-bit field holds it. */
  function MbrSpan(totalSectors: nat): nat
    requires totalSectors > 0
  {
    if totalSectors - 1 < 0xFFFF_FFFF then totalSectors - 1 else 0xFFFF_FFFF
  }

  function PmbrBytes(totalSectors: nat): (s: seq<byte>)
    requires totalSectors > 0
    ensures |s| == SECTOR
  {
    Zeros(447) + PmbrRecord(MbrSpan(totalSectors)) + Zeros(48) + [0x55, 0xAA]
  }

  /** The partition record of the protective MBR after its first byte. */
  function PmbrRecord(span: nat): (s: seq<byte>)
    ensures |s| == 15
  {
    [0x00, 0x02, 0x00, 0xEE, 0xFF, 0xFF, 0xFF] + LittleEndian(1, 4) + LittleEndian(span, 4)
  }

  method WritePmbrRecord(s: array<byte>, span: nat)
    requires s.Length >= SECTOR
    modifies s
    ensures s[..] == Splice(old(s[..]), 447, PmbrRecord(span))
  {
    hide LittleEndian, Splice;
    ghost var before := s[..];
    CopyInto(s, 447, [0x00, 0x02, 0x00]);
    SpliceAdjacent(before, 447, [0x00, 0x02, 0x00], [0xEE]);
    CopyInto(s, 450, [0xEE]);
    SpliceAdjacent(before, 447, [0x00, 0x02, 0x00] + [0xEE], [0xFF, 0xFF, 0xFF]);
    CopyInto(s, 451, [0xFF, 0xFF, 0xFF]);
    var b: seq<byte> := [0x00, 0x02, 0x00, 0xEE, 0xFF, 0xFF, 0xFF];
    assert [0x00, 0x02, 0x00] + [0xEE] + [0xFF, 0xFF, 0xFF] == b;
    SpliceAdjacent(before, 447, b, LittleEndian(1, 4));
    CopyInto(s, 454, LittleEndian(1, 4));
    SpliceAdjacent(before, 447, b + LittleEndian(1, 4), LittleEndian(span, 4));
    CopyInto(s, 458, LittleEndian(span, 4));
  }

  lemma PmbrOverZeros(s: seq<byte>, totalSectors: nat)
    requires totalSectors > 0 && |s| >= SECTOR && s[..SECTOR] == Zeros(SECTOR)
    ensures Splice(Splice(s, 447, PmbrRecord(MbrSpan(totalSectors))), 510, [0x55, 0xAA])
         == Splice(s, 0, PmbrBytes(totalSectors))
  {
    hide PmbrRecord;
    var b := PmbrRecord(MbrSpan(totalSectors));
    assert s[..447] == s[..SECTOR][..447] == Zeros(447);
    assert s[462..510] == s[..SECTOR][462..510] == Zeros(48);
    assert Splice(s, 447, b) == Zeros(447) + b + Zeros(48) + s[510..];
  }

  /** Writes the protective MBR over zeros. */
  method WritePmbr(s: array<byte>, totalSectors: nat)
    requires s.Length >= SECTOR && totalSectors > 0 && s[..SECTOR] == Zeros(SECTOR)
    modifies s
    ensures s[..] == Splice(old(s[..]), 0, PmbrBytes(totalSectors))
  {
    hide PmbrRecord, PmbrBytes, Splice;
    PmbrOverZeros(s[..], totalSectors);
    WritePmbrRecord(s, MbrSpan(totalSectors));
    CopyInto(s, 510, [0x55, 0xAA]);
  }

  // ---- the whole disk

  /** The backup table follows the last partition: its entry array, then its header. */
  function BackupLba(parts: seq<PartSpec>): nat {
    EndOf(parts, ALIGN_SECTORS)
  }

  function TotalSectors(parts: seq<PartSpec>): nat {
    BackupLba(parts) + ENTRY_ARRAY_SECTORS + 1
  }

  function EntryCrc(parts: seq<PartSpec>): nat
    requires |parts| <= ENTRY_COUNT
  {
    Crc.Crc32(EntryArray(parts, Place(parts, ALIGN_SECTORS)))
  }

  function PrimaryArgs(disk: Guid, parts: seq<PartSpec>): HeaderArgs
    requires |parts| <= ENTRY_COUNT
  {
    HeaderArgs(1, TotalSectors(parts) - 1, FIRST_USABLE, BackupLba(parts) - 1, disk, 2, EntryCrc(parts))
  }

  function BackupArgs(disk: Guid, parts: seq<PartSpec>): HeaderArgs
    requires |parts| <= ENTRY_COUNT
  {
    HeaderArgs(TotalSectors(parts) - 1, 1, FIRST_USABLE, BackupLba(parts) - 1, disk, BackupLba(parts), EntryCrc(parts))
  }

  function SealedHeader(a: HeaderArgs): (s: seq<byte>)
    ensures |s| == SECTOR
  {
    HeaderBytes(a, HeaderCrc(a))
  }

  function DiskOf(disk: Guid, parts: seq<PartSpec>): Disk
    requires |parts| <= ENTRY_COUNT
  {
    var placed := Place(parts, ALIGN_SECTORS);
    Disk(TotalSectors(parts) * SECTOR, placed,
         PmbrBytes(TotalSectors(parts)) + SealedHeader(PrimaryArgs(disk, parts)) + EntryArray(parts, placed),
         EntryArray(parts, placed) + SealedHeader(BackupArgs(disk, parts)),
         BackupLba(parts) * SECTOR)
  }

  lemma BackupAfterParts(parts: seq<PartSpec>)
    ensures BackupLba(parts) >= ALIGN_SECTORS
  {
    EndOfAligned(parts, ALIGN_SECTORS);
  }

  method PlaceAll(parts: seq<PartSpec>, start: nat) returns (placed: seq<Placed>, cursor: nat)
    ensures placed == Place(parts, start) && cursor == EndOf(parts, start)
  {
    placed, cursor := [], start;
    for i := 0 to |parts|
      invariant placed == Place(parts[..i], start) && cursor == EndOf(parts[..i], start)
    {
      var sectors := DivCeil(parts[i].size, SECTOR);
      sectors := AlignUp(if sectors < 1 then 1 else sectors, ALIGN_SECTORS);
      var first, last := cursor, cursor + sectors - 1;
      PlaceAppend(parts, start, i);
      placed := placed + [Placed(first, last, first * SECTOR, sectors * SECTOR)];
      cursor := last + 1;
    }
    assert parts[..|parts|] == parts;
  }

  lemma PlaceAppend(parts: seq<PartSpec>, start: nat, i: nat)
    requires i < |parts|
    ensures Place(parts[..i + 1], start) == Place(parts[..i], start) + [PlaceAt(parts[i], EndOf(parts[..i], start))]
    ensures EndOf(parts[..i + 1], start) == EndOf(parts[..i], start) + PartSectors(parts[i].size)
  {
    hide PartSectors, EndOf;
    EndOfAppend(parts, start, i);
    forall j | 0 <= j <= i
      ensures parts[..i + 1][..j] == parts[..j]
    {
    }
    forall j | 0 <= j < i
      ensures parts[..i][..j] == parts[..j]
    {
    }
  }

  method Headers(disk: Guid, cursor: nat, entryCrc: nat) returns (primary: seq<byte>, backup: seq<byte>)
    requires cursor > 0
    ensures |primary| == |backup| == SECTOR
    ensures
      var last := cursor + ENTRY_ARRAY_SECTORS;
      var p := HeaderArgs(1, last, FIRST_USABLE, cursor - 1, disk, 2, entryCrc);
      var b := HeaderArgs(last, 1, FIRST_USABLE, cursor - 1, disk, cursor, entryCrc);
      primary == HeaderBytes(p, HeaderCrc(p)) && backup == HeaderBytes(b, HeaderCrc(b))
  {
    hide HeaderBytes, HeaderCrc;
    var last := cursor + ENTRY_ARRAY_SECTORS;
    var p := Header(HeaderArgs(1, last, FIRST_USABLE, cursor - 1, disk, 2, entryCrc));
    primary := p[..];
    var b := Header(HeaderArgs(last, 1, FIRST_USABLE, cursor - 1, disk, cursor, entryCrc));
    backup := b[..];
  }

  /** The table is laid out and stamped; the words of a disk that has addresses do not wrap. */
  method Build(diskGuid: Guid, parts: seq<PartSpec>) returns (d: Disk)
    requires |parts| <= ENTRY_COUNT
    requires TotalSectors(parts) * SECTOR < WORD64
    ensures d == DiskOf(diskGuid, parts)
  {
    hide Place, EndOf, EntryArray, PmbrBytes, HeaderBytes, HeaderCrc, Crc.Crc32, DiskOf;
    AlignsAtOneMegabyte();
    BackupAfterParts(parts);
    var placed, cursor := PlaceAll(parts, AlignUp(FIRST_USABLE, ALIGN_SECTORS));
    var total := cursor + ENTRY_ARRAY_SECTORS + 1;
    var entries := BuildEntries(parts, placed);
    var entryCrc := Crc.ComputeCrc32(entries);
    var primary, backup := Headers(diskGuid, cursor, entryCrc);
    var front := Front(total, primary, entries);
    var back := Back(entries, backup);
    d := Disk(total * SECTOR, placed, front, back, cursor * SECTOR);
    DiskUnfolds(diskGuid, parts);
  }

  lemma DiskUnfolds(disk: Guid, parts: seq<PartSpec>)
    requires |parts| <= ENTRY_COUNT && BackupLba(parts) > 0
    ensures
      var placed, total, cursor := Place(parts, ALIGN_SECTORS), TotalSectors(parts), BackupLba(parts);
      var entries := EntryArray(parts, placed);
      var primary := HeaderArgs(1, cursor + ENTRY_ARRAY_SECTORS, FIRST_USABLE, cursor - 1, disk, 2, Crc.Crc32(entries));
      var backup := HeaderArgs(cursor + ENTRY_ARRAY_SECTORS, 1, FIRST_USABLE, cursor - 1, disk, cursor, Crc.Crc32(entries));
      DiskOf(disk, parts) == Disk(total * SECTOR, placed,
        PmbrBytes(total) + HeaderBytes(primary, HeaderCrc(primary)) + entries,
        entries + HeaderBytes(backup, HeaderCrc(backup)), cursor * SECTOR)
  {
    hide Place, EntryArray, PmbrBytes, HeaderBytes, HeaderCrc, EndOf;
    BackupAfterParts(parts);
  }

  lemma AlignsAtOneMegabyte()
    ensures AlignUp(FIRST_USABLE, ALIGN_SECTORS) == ALIGN_SECTORS
  {
  }

  method Front(total: nat, primary: seq<byte>, entries: seq<byte>) returns (front: seq<byte>)
    requires total > 0 && |primary| == SECTOR && |entries| == ENTRY_COUNT * ENTRY_SIZE
    ensures front == PmbrBytes(total) + primary + entries
  {
    hide PmbrBytes;
    var a := new byte[FIRST_USABLE * SECTOR](_ => 0);
    assert a[..SECTOR] == Zeros(SECTOR);
    WritePmbr(a, total);
    CopyInto(a, SECTOR, primary);
    CopyInto(a, 2 * SECTOR, entries);
    front := a[..];
  }

  method Back(entries: seq<byte>, backup: seq<byte>) returns (back: seq<byte>)
    requires |backup| == SECTOR && |entries| == ENTRY_COUNT * ENTRY_SIZE
    ensures back == entries + backup
  {
    var a := new byte[(ENTRY_ARRAY_SECTORS + 1) * SECTOR](_ => 0);
    CopyInto(a, 0, entries);
    CopyInto(a, ENTRY_ARRAY_SECTORS * SECTOR, backup);
    back := a[..];
  }
}
