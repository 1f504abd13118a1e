/**
 The init's own reader of a GUID partition table (crates/init/src/lib.rs), and its agreement
 with the writer: what the Key was built with is what the boot finds, in either copy.
 */
module GptReader {
  import opened Outcomes
  import opened Bits
  import opened Gpt
  import Utf16
  import Crc

  datatype GptPart = GptPart(number: nat, name: string)

  /** An unsigned little-endian field. */
  function Field(s: seq<byte>, off: nat, n: nat): nat
    requires off + n <= |s|
  {
    FromLittleEndian(s[off..off + n])
  }

  // ---- names

  function UnitsOf(b: seq<byte>): (units: seq<Utf16.Unit>)
    ensures |units| == |b| / 2
  {
    seq(|b| / 2, i requires 0 <= i < |b| / 2 => (b[2 * i] as int + 256 * b[2 * i + 1] as int) as Utf16.Unit)
  }

  function UntilZero(units: seq<Utf16.Unit>): seq<Utf16.Unit> {
    if units == [] || units[0] == 0 then [] else [units[0]] + UntilZero(units[1..])
  }

  /** The name a field holds: its units up to the first zero. */
  function NameOf(b: seq<byte>): string {
    Utf16.DecodeLossy(UntilZero(UnitsOf(b)))
  }

  method DecodeUtf16le(b: seq<byte>) returns (name: string)
    ensures name == NameOf(b)
  {
    hide Utf16.DecodeLossy;
    var units: seq<Utf16.Unit> := [];
    var i := 0;
    while i < |b| / 2
      invariant 0 <= i <= |b| / 2
      invariant UntilZero(UnitsOf(b)) == units + UntilZero(UnitsOf(b)[i..])
    {
      var u: Utf16.Unit := b[2 * i] as int + 256 * b[2 * i + 1] as int;
      assert UnitsOf(b)[i] == u && UnitsOf(b)[i..][1..] == UnitsOf(b)[i + 1..];
      if u == 0 {
        assert UntilZero(UnitsOf(b)[i..]) == [];
        break;
      }
      units := units + [u];
      i := i + 1;
    }
    assert i == |b| / 2 ==> UnitsOf(b)[i..] == [];
    assert units + [] == units;
    name := Utf16.DecodeLossy(units);
  }

  // ---- the table

  predicate Unused(entry: seq<byte>) {
    forall i :: 0 <= i < 16 && i < |entry| ==> entry[i] == 0
  }

  /** What one slot contributes; an all-zero type GUID marks an unused one. */
  function SlotPart(entry: seq<byte>, i: nat): seq<GptPart>
    requires |entry| == 128
  {
    if Unused(entry) then [] else [GptPart(i + 1, NameOf(entry[56..128]))]
  }

  /** The parts in slots i and on, as far as whole slots go. */
  function PartsFrom(entries: seq<byte>, num: nat, size: nat, i: nat): seq<GptPart>
    requires i <= num
    decreases num - i
  {
    if i == num || i * size + 128 > |entries| then []
    else SlotPart(entries[i * size..i * size + 128], i) + PartsFrom(entries, num, size, i + 1)
  }

  lemma PartsStep(entries: seq<byte>, num: nat, size: nat, i: nat)
    requires i < num && i * size + 128 <= |entries|
    ensures PartsFrom(entries, num, size, i)
         == SlotPart(entries[i * size..i * size + 128], i) + PartsFrom(entries, num, size, i + 1)
  {
    hide SlotPart;
  }

  lemma NoMoreSlots(entries: seq<byte>, num: nat, size: nat, i: nat)
    requires i <= num && (i == num || i * size + 128 > |entries|)
    ensures PartsFrom(entries, num, size, i) == []
  {
  }

  function Parse(header: seq<byte>, entries: seq<byte>): Option<seq<GptPart>> {
    if |header| < 92 || header[0..8] != SIGNATURE then None
    else if Field(header, 84, 4) < 128 then None
    else Some(PartsFrom(entries, Field(header, 80, 4), Field(header, 84, 4), 0))
  }

  /** The 32-bit counts' products stay in a 64-bit word, so the source's overflow check never fails. */
  lemma {:induction false} FieldFits(s: seq<byte>)
    ensures FromLittleEndian(s) < Pow256(|s|)
  {
    if s != [] {
      FieldFits(s[1..]);
    }
  }

  lemma SlotProductFits(header: seq<byte>, i: nat)
    requires |header| >= 92 && i < Field(header, 80, 4)
    ensures i * Field(header, 84, 4) + 128 < WORD64 && i + 1 < 0x1_0000_0000
  {
    FieldFits(header[80..84]);
    FieldFits(header[84..88]);
    var m, n := Field(header, 80, 4), Field(header, 84, 4);
    ProductBelow(i, n, 0xFFFF_FFFE, 0xFFFF_FFFF);
  }

  lemma ProductBelow(a: nat, b: nat, m: nat, n: nat)
    requires a <= m && b <= n
    ensures a * b <= m * n
  {
    assert (m - a) * n >= 0 && a * (n - b) >= 0;
  }

  /** All-zero test, byte by byte. */
  method IsUnused(entry: seq<byte>) returns (unused: bool)
    requires |entry| >= 16
    ensures unused == Unused(entry)
  {
    for i := 0 to 16
      invariant forall j :: 0 <= j < i ==> entry[j] == 0
    {
      if entry[i] != 0 {
        return false;
      }
    }
    return true;
  }

  method ParseGpt(header: seq<byte>, entries: seq<byte>) returns (r: Option<seq<GptPart>>)
    ensures r == Parse(header, entries)
  {
    hide Unused, NameOf, FromLittleEndian, PartsFrom;
    if |header| < 92 || header[0..8] != SIGNATURE {
      return None;
    }
    var num, size := Field(header, 80, 4), Field(header, 84, 4);
    if size < 128 {
      return None;
    }
    var parts: seq<GptPart> := [];
    var i := 0;
    while i < num
      invariant 0 <= i <= num
      invariant PartsFrom(entries, num, size, 0) == parts + PartsFrom(entries, num, size, i)
    {
      var off := i * size;
      if off + 128 > |entries| {
        NoMoreSlots(entries, num, size, i);
        break;
      }
      PartsStep(entries, num, size, i);
      var entry := entries[off..off + 128];
      var unused := IsUnused(entry);
      if !unused {
        var name := DecodeUtf16le(entry[56..128]);
        parts := parts + [GptPart(i + 1, name)];
      }
      i := i + 1;
    }
    if i == num {
      NoMoreSlots(entries, num, size, i);
    }
    assert parts + [] == parts;
    return Some(parts);
  }

  // ---- what the writer wrote

  /** The name as the boot will know it. */
  function ReadName(name: string): string {
    Utf16.DecodeLossy(UntilZero(Take(Utf16.Encode(name), 36)))
  }

  /** The partitions the boot will know, in order, numbered by their place in the list. */
  function Listed(parts: seq<PartSpec>, i: nat): seq<GptPart>
    requires i <= |parts|
    decreases |parts| - i
  {
    if i == |parts| then []
    else (if Unused(parts[i].typeGuid) then [] else [GptPart(i + 1, ReadName(parts[i].name))]) + Listed(parts, i + 1)
  }

  lemma {:induction false} UnitBytesAt(units: seq<Utf16.Unit>, i: nat)
    requires i < |units|
    ensures UnitBytes(units)[2 * i] == units[i] % 256 && UnitBytes(units)[2 * i + 1] == units[i] / 256
  {
    if i < |units| - 1 {
      UnitBytesAt(units[..|units| - 1], i);
    } else {
      TwoBytes(units[i]);
    }
  }

  lemma TwoBytes(u: Utf16.Unit)
    ensures LittleEndian(u, 2) == [u % 256, u / 256]
  {
    assert LittleEndian(u / 256, 1) == [u / 256] + LittleEndian(u / 256 / 256, 0);
  }

  lemma NameUnits(name: string)
    ensures
      var units := Take(Utf16.Encode(name), 36);
      UnitsOf(NameBytes(name)) == units + seq(36 - |units|, _ => 0)
  {
    hide UnitBytes;
    var units := Take(Utf16.Encode(name), 36);
    forall i | 0 <= i < 36
      ensures UnitsOf(NameBytes(name))[i] == (units + seq(36 - |units|, _ => 0))[i]
    {
      if i < |units| {
        UnitBytesAt(units, i);
      }
    }
  }

  lemma {:induction false} UntilZeroPadded(units: seq<Utf16.Unit>, n: nat)
    ensures UntilZero(units + seq(n, _ => 0)) == UntilZero(units)
  {
    if units != [] {
      UntilZeroPadded(units[1..], n);
      assert (units + seq(n, _ => 0))[1..] == units[1..] + seq(n, _ => 0);
    } else {
      assert units + seq(n, _ => 0) == seq(n, _ => 0);
    }
  }

  /** The field the writer fills reads back as the name cut at 36 units and at its first NUL. */
  lemma NameField(name: string)
    ensures NameOf(NameBytes(name)) == ReadName(name)
  {
    hide NameBytes, UnitsOf, Utf16.DecodeLossy, UntilZero;
    NameUnits(name);
    var units := Take(Utf16.Encode(name), 36);
    UntilZeroPadded(units, 36 - |units|);
  }

  lemma {:induction false} UntilZeroFacts(units: seq<Utf16.Unit>)
    ensures |UntilZero(units)| <= |units| && UntilZero(units) == units[..|UntilZero(units)|]
    ensures 0 !in UntilZero(units)
    ensures 0 !in units ==> UntilZero(units) == units
  {
    if units != [] && units[0] != 0 {
      UntilZeroFacts(units[1..]);
      assert units == [units[0]] + units[1..];
    }
  }

  /** A partition is found under its own name exactly when the name has no NUL and fits the field. */
  lemma NameReadBack(name: string)
    ensures ReadName(name) == name <==> '\0' !in name && |Utf16.Encode(name)| <= 36
  {
    hide Utf16.DecodeLossy, UntilZero;
    var all := Utf16.Encode(name);
    var kept := UntilZero(Take(all, 36));
    assert |all| <= 36 ==> Take(all, 36) == all;
    UntilZeroFacts(Take(all, 36));
    Utf16.ZeroUnits(name);
    Utf16.DecodeEncode(name);
    Utf16.DecodedLength(kept);
    assert ReadName(name) == Utf16.DecodeLossy(kept);
    if ReadName(name) == name {
      assert |kept| == |all| && kept == all;
    }
  }

  lemma {:induction false} EntryAt(parts: seq<PartSpec>, placed: seq<Placed>, i: nat)
    requires i < |parts| == |placed|
    ensures EntriesBytes(parts, placed)[128 * i..128 * i + 128] == EntryBytes(parts[i], placed[i])
  {
    hide EntryBytes;
    var n := |parts| - 1;
    if i < n {
      EntryAt(parts[..n], placed[..n], i);
      var s := EntriesBytes(parts[..n], placed[..n]);
      assert EntriesBytes(parts, placed)[128 * i..128 * i + 128] == s[128 * i..128 * i + 128];
    }
  }

  /** A written slot contributes its partition. */
  lemma SlotReads(p: PartSpec, pl: Placed, i: nat)
    ensures SlotPart(EntryBytes(p, pl), i)
         == if Unused(p.typeGuid) then [] else [GptPart(i + 1, ReadName(p.name))]
  {
    hide NameBytes, NameOf, ReadName;
    var e := EntryBytes(p, pl);
    assert e[..16] == p.typeGuid;
    assert e[56..128] == NameBytes(p.name);
    NameField(p.name);
    assert Unused(e) <==> Unused(p.typeGuid) by {
      assert forall j :: 0 <= j < 16 ==> e[j] == p.typeGuid[j];
    }
  }

  lemma {:induction false} EmptySlots(entries: seq<byte>, i: nat)
    requires |entries| == ENTRY_COUNT * ENTRY_SIZE && i <= ENTRY_COUNT
    requires forall j :: 128 * i <= j < |entries| ==> entries[j] == 0
    ensures PartsFrom(entries, ENTRY_COUNT, ENTRY_SIZE, i) == []
    decreases ENTRY_COUNT - i
  {
    if i < ENTRY_COUNT {
      EmptySlots(entries, i + 1);
    }
  }

  lemma SlotOfArray(parts: seq<PartSpec>, placed: seq<Placed>, i: nat)
    requires i < |parts| == |placed| <= ENTRY_COUNT
    ensures EntryArray(parts, placed)[128 * i..128 * i + 128] == EntryBytes(parts[i], placed[i])
  {
    hide EntryBytes, EntriesBytes;
    EntryAt(parts, placed, i);
    var s := EntriesBytes(parts, placed);
    assert EntryArray(parts, placed)[128 * i..128 * i + 128] == s[128 * i..128 * i + 128];
  }

  lemma {:induction false} SlotsRead(parts: seq<PartSpec>, placed: seq<Placed>, i: nat)
    requires i <= |parts| == |placed| <= ENTRY_COUNT
    ensures PartsFrom(EntryArray(parts, placed), ENTRY_COUNT, ENTRY_SIZE, i) == Listed(parts, i)
    decreases |parts| - i
  {
    hide EntryBytes, SlotPart, EntriesBytes, Unused, ReadName, EntryArray, PartsFrom;
    var entries := EntryArray(parts, placed);
    if i == |parts| {
      UnusedTail(parts, placed);
      EmptySlots(entries, i);
    } else {
      SlotsRead(parts, placed, i + 1);
      SlotOfArray(parts, placed, i);
      SlotReads(parts[i], placed[i], i);
      PartsStep(entries, ENTRY_COUNT, ENTRY_SIZE, i);
    }
  }

  lemma UnusedTail(parts: seq<PartSpec>, placed: seq<Placed>)
    requires |parts| == |placed| <= ENTRY_COUNT
    ensures forall j :: 128 * |parts| <= j < ENTRY_COUNT * ENTRY_SIZE ==> EntryArray(parts, placed)[j] == 0
  {
    hide EntriesBytes;
  }

  /** Where each field of a header lies. */
  lemma HeaderPieces(a: HeaderArgs, crc: nat)
    ensures
      var h := HeaderBytes(a, crc);
      && h[0..8] == SIGNATURE && h[16..20] == LittleEndian(crc, 4)
      && h[24..80] == Locations(a) && h[80..92] == Table(a)
      && h[..16] + Zeros(4) + h[20..] == HeaderBytes(a, 0)
  {
    hide Locations, Table, LittleEndian;
    ZeroField();
    assert Identity()[..8] == SIGNATURE;
  }

  lemma TablePieces(a: HeaderArgs)
    ensures
      var t := Table(a);
      && t[0..4] == LittleEndian(ENTRY_COUNT, 4) && t[4..8] == LittleEndian(ENTRY_SIZE, 4)
      && t[8..12] == LittleEndian(a.entryCrc, 4)
  {
    hide LittleEndian;
  }

  lemma LocationPieces(a: HeaderArgs)
    ensures
      var t := Locations(a);
      && t[0..8] == LittleEndian(a.myLba, 8) && t[8..16] == LittleEndian(a.altLba, 8)
      && t[16..24] == LittleEndian(a.firstUsable, 8) && t[24..32] == LittleEndian(a.lastUsable, 8)
      && t[32..48] == a.diskGuid && t[48..56] == LittleEndian(a.entriesLba, 8)
  {
    hide LittleEndian;
    var before := LittleEndian(a.myLba, 8) + LittleEndian(a.altLba, 8) + LittleEndian(a.firstUsable, 8)
                  + LittleEndian(a.lastUsable, 8);
    assert Locations(a) == before + a.diskGuid + LittleEndian(a.entriesLba, 8);
  }

  lemma SubSlice(s: seq<byte>, a: nat, b: nat, i: nat, j: nat)
    requires a <= b <= |s| && i <= j && a + j <= b
    ensures s[a..b][i..j] == s[a + i..a + j]
  {
    var l, r := s[a..b][i..j], s[a + i..a + j];
    forall m | 0 <= m < j - i
      ensures l[m] == r[m]
    {
      assert l[m] == s[a..b][i + m] == s[a + (i + m)];
      assert r[m] == s[(a + i) + m];
    }
  }

  predicate Fits(a: HeaderArgs) {
    && a.myLba < WORD64 && a.altLba < WORD64 && a.firstUsable < WORD64 && a.lastUsable < WORD64
    && a.entriesLba < WORD64 && a.entryCrc < 0x1_0000_0000
  }

  /** Every field of a sealed header reads back. */
  lemma HeaderFields(a: HeaderArgs)
    requires Fits(a)
    ensures
      var h := SealedHeader(a);
      && Field(h, 24, 8) == a.myLba && Field(h, 32, 8) == a.altLba
      && Field(h, 40, 8) == a.firstUsable && Field(h, 48, 8) == a.lastUsable
      && h[56..72] == a.diskGuid && Field(h, 72, 8) == a.entriesLba
  {
    hide LittleEndian, FromLittleEndian, Locations, HeaderBytes, HeaderCrc;
    var h := SealedHeader(a);
    HeaderPieces(a, HeaderCrc(a));
    LocationPieces(a);
    SubSlice(h, 24, 80, 0, 8);
    SubSlice(h, 24, 80, 8, 16);
    SubSlice(h, 24, 80, 16, 24);
    SubSlice(h, 24, 80, 24, 32);
    SubSlice(h, 24, 80, 32, 48);
    SubSlice(h, 24, 80, 48, 56);
    LittleEndianRoundTrip(a.myLba, 8);
    LittleEndianRoundTrip(a.altLba, 8);
    LittleEndianRoundTrip(a.firstUsable, 8);
    LittleEndianRoundTrip(a.lastUsable, 8);
    LittleEndianRoundTrip(a.entriesLba, 8);
  }

  lemma TableFields(a: HeaderArgs)
    requires Fits(a)
    ensures
      var h := SealedHeader(a);
      && h[0..8] == SIGNATURE
      && Field(h, 80, 4) == ENTRY_COUNT && Field(h, 84, 4) == ENTRY_SIZE && Field(h, 88, 4) == a.entryCrc
  {
    hide LittleEndian, FromLittleEndian, Table, HeaderBytes, HeaderCrc;
    var h := SealedHeader(a);
    HeaderPieces(a, HeaderCrc(a));
    TablePieces(a);
    SubSlice(h, 80, 92, 0, 4);
    SubSlice(h, 80, 92, 4, 8);
    SubSlice(h, 80, 92, 8, 12);
    LittleEndianRoundTrip(ENTRY_COUNT, 4);
    LittleEndianRoundTrip(ENTRY_SIZE, 4);
    LittleEndianRoundTrip(a.entryCrc, 4);
  }

  /** The rule of section 5.3.2: the CRC of the first 92 bytes, with the CRC field zeroed. */
  predicate CrcValid(h: seq<byte>)
    requires |h| >= HEADER_SIZE
  {
    Field(h, 16, 4) == Crc.Crc32((h[..16] + Zeros(4) + h[20..])[..HEADER_SIZE])
  }

  lemma SealedIsValid(a: HeaderArgs)
    ensures CrcValid(SealedHeader(a))
  {
    hide HeaderBytes, LittleEndian, FromLittleEndian, Crc.Crc32;
    HeaderPieces(a, HeaderCrc(a));
    Crc.CrcIsWord(HeaderBytes(a, 0)[..HEADER_SIZE]);
    LittleEndianRoundTrip(HeaderCrc(a), 4);
  }

  /** The sectors of the two tables, as the disk's own bytes. */
  function PrimaryHeader(d: Disk): seq<byte>
    requires |d.front| >= 2 * SECTOR
  {
    d.front[SECTOR..2 * SECTOR]
  }

  function PrimaryEntries(d: Disk): seq<byte>
    requires |d.front| >= 2 * SECTOR
  {
    d.front[2 * SECTOR..]
  }

  function BackupHeader(d: Disk): seq<byte>
    requires |d.back| >= ENTRY_ARRAY_SECTORS * SECTOR
  {
    d.back[ENTRY_ARRAY_SECTORS * SECTOR..]
  }

  function BackupEntries(d: Disk): seq<byte>
    requires |d.back| >= ENTRY_ARRAY_SECTORS * SECTOR
  {
    d.back[..ENTRY_ARRAY_SECTORS * SECTOR]
  }

  lemma DiskPieces(disk: Guid, parts: seq<PartSpec>)
    requires |parts| <= ENTRY_COUNT
    ensures
      var d := DiskOf(disk, parts);
      var entries := EntryArray(parts, d.parts);
      && |d.front| == FIRST_USABLE * SECTOR && |d.back| == (ENTRY_ARRAY_SECTORS + 1) * SECTOR
      && PrimaryHeader(d) == SealedHeader(PrimaryArgs(disk, parts)) && PrimaryEntries(d) == entries
      && BackupHeader(d) == SealedHeader(BackupArgs(disk, parts)) && BackupEntries(d) == entries
  {
    hide EntryArray, SealedHeader, PmbrBytes, EndOf, EntryCrc;
    BackupAfterParts(parts);
  }

  lemma DiskParts(disk: Guid, parts: seq<PartSpec>)
    requires |parts| <= ENTRY_COUNT
    ensures DiskOf(disk, parts).parts == Place(parts, ALIGN_SECTORS)
  {
  }

  lemma ArgsFit(disk: Guid, parts: seq<PartSpec>)
    requires |parts| <= ENTRY_COUNT && TotalSectors(parts) * SECTOR < WORD64
    ensures Fits(PrimaryArgs(disk, parts)) && Fits(BackupArgs(disk, parts))
  {
    hide EntryArray, EndOf, Crc.Crc32, Place;
    BackupAfterParts(parts);
    Crc.CrcIsWord(EntryArray(parts, Place(parts, ALIGN_SECTORS)));
  }

  /** Either copy of the table reads back as the partitions the disk was built for. */
  lemma ParsesBack(disk: Guid, parts: seq<PartSpec>)
    requires |parts| <= ENTRY_COUNT && TotalSectors(parts) * SECTOR < WORD64
    ensures
      var d := DiskOf(disk, parts);
      && |d.front| == FIRST_USABLE * SECTOR && |d.back| == (ENTRY_ARRAY_SECTORS + 1) * SECTOR
      && Parse(PrimaryHeader(d), PrimaryEntries(d)) == Some(Listed(parts, 0))
      && Parse(BackupHeader(d), BackupEntries(d)) == Some(Listed(parts, 0))
  {
    hide DiskOf, PrimaryHeader, PrimaryEntries, BackupHeader, BackupEntries, SealedHeader, EntryArray, PartsFrom;
    hide Listed, FromLittleEndian, PrimaryArgs, BackupArgs, TotalSectors, Fits;
    DiskPieces(disk, parts);
    ArgsFit(disk, parts);
    TableFields(PrimaryArgs(disk, parts));
    TableFields(BackupArgs(disk, parts));
    DiskParts(disk, parts);
    SlotsRead(parts, DiskOf(disk, parts).parts, 0);
  }

  /** With every slot used and every name readable, the boot finds each partition by its own name and number. */
  lemma {:induction false} AllFound(parts: seq<PartSpec>, i: nat)
    requires i <= |parts|
    requires forall k :: 0 <= k < |parts| ==> !Unused(parts[k].typeGuid)
    requires forall k :: 0 <= k < |parts| ==> '\0' !in parts[k].name && |Utf16.Encode(parts[k].name)| <= 36
    ensures |Listed(parts, i)| == |parts| - i
    ensures forall k :: i <= k < |parts| ==> Listed(parts, i)[k - i] == GptPart(k + 1, parts[k].name)
    decreases |parts| - i
  {
    hide Unused, ReadName;
    if i < |parts| {
      AllFound(parts, i + 1);
      NameReadBack(parts[i].name);
      assert Listed(parts, i) == [GptPart(i + 1, parts[i].name)] + Listed(parts, i + 1);
      forall k | i + 1 <= k < |parts|
        ensures Listed(parts, i)[k - i] == GptPart(k + 1, parts[k].name)
      {
        assert Listed(parts, i)[k - i] == Listed(parts, i + 1)[k - (i + 1)];
      }
    }
  }

  /** The two headers mirror each other, say where they and their arrays are, and carry valid CRCs. */
  lemma TablesMirror(disk: Guid, parts: seq<PartSpec>)
    requires |parts| <= ENTRY_COUNT && TotalSectors(parts) * SECTOR < WORD64
    ensures
      var d := DiskOf(disk, parts);
      && |d.front| == FIRST_USABLE * SECTOR && |d.back| == (ENTRY_ARRAY_SECTORS + 1) * SECTOR
      && d.backOffset + |d.back| == d.totalBytes
      && var p, b := PrimaryHeader(d), BackupHeader(d);
      && CrcValid(p) && CrcValid(b)
      && Field(p, 24, 8) == Field(b, 32, 8) == 1
      && Field(p, 32, 8) == Field(b, 24, 8) == d.totalBytes / SECTOR - 1
      && Field(p, 72, 8) * SECTOR == 2 * SECTOR && Field(b, 72, 8) * SECTOR == d.backOffset
      && Field(p, 40, 8) == Field(b, 40, 8) == FIRST_USABLE
      && Field(p, 48, 8) == Field(b, 48, 8) == d.backOffset / SECTOR - 1
      && p[56..72] == b[56..72] == disk
      && PrimaryEntries(d) == BackupEntries(d)
      && Field(p, 88, 4) == Field(b, 88, 4) == Crc.Crc32(PrimaryEntries(d))
  {
    hide PrimaryHeader, PrimaryEntries, BackupHeader, BackupEntries, SealedHeader, EntryArray;
    hide FromLittleEndian, CrcValid, Crc.Crc32, EndOf, PmbrBytes;
    var p, b := PrimaryArgs(disk, parts), BackupArgs(disk, parts);
    BackupAfterParts(parts);
    DiskPieces(disk, parts);
    ArgsFit(disk, parts);
    HeaderFields(p);
    HeaderFields(b);
    TableFields(p);
    TableFields(b);
    SealedIsValid(p);
    SealedIsValid(b);
  }

  // ---- what the bytes say, field by field

  /** Fields are little-endian: the byte k places on weighs 256^k. */
  lemma FieldWeighs(s: seq<byte>, off: nat)
    ensures off + 4 <= |s| ==>
      var v := (k: int) requires off <= k < off + 4 => s[k] as int;
      Field(s, off, 4) == v(off) + 0x100 * v(off + 1) + 0x1_0000 * v(off + 2) + 0x100_0000 * v(off + 3)
    ensures off + 8 <= |s| ==>
      var v := (k: int) requires off <= k < off + 8 => s[k] as int;
      Field(s, off, 8) == v(off) + 0x100 * v(off + 1) + 0x1_0000 * v(off + 2) + 0x100_0000 * v(off + 3)
        + 0x1_0000_0000 * v(off + 4) + 0x100_0000_0000 * v(off + 5) + 0x1_0000_0000_0000 * v(off + 6)
        + 0x100_0000_0000_0000 * v(off + 7)
  {
    if off + 4 <= |s| {
      Weights(s[off..off + 4]);
      Weights(s[off..off + 4][2..]);
    }
    if off + 8 <= |s| {
      var t := s[off..off + 8];
      Weights(t);
      Weights(t[2..]);
      Weights(t[2..][2..]);
      Weights(t[2..][2..][2..]);
    }
  }

  lemma Weights(s: seq<byte>)
    requires |s| >= 2
    ensures FromLittleEndian(s) == s[0] as int + 0x100 * s[1] as int + 0x1_0000 * FromLittleEndian(s[2..])
    ensures |s| == 2 ==> FromLittleEndian(s) == s[0] as int + 0x100 * s[1] as int
  {
    assert s[1..][1..] == s[2..];
    assert FromLittleEndian(s[1..]) == s[1] + 256 * FromLittleEndian(s[2..]);
  }

  /** An entry of the array, byte range by byte range. */
  lemma EntryPieces(p: PartSpec, pl: Placed)
    ensures
      var e := EntryBytes(p, pl);
      && e[0..16] == p.typeGuid && e[16..32] == p.uniqueGuid
      && e[32..40] == LittleEndian(pl.firstLba, 8) && e[40..48] == LittleEndian(pl.lastLba, 8)
      && e[48..56] == Zeros(8) && e[56..128] == NameBytes(p.name)
  {
    hide LittleEndian, NameBytes;
  }

  /** The entry of a partition says what section 5.3.3 of the UEFI Specification wants said of it. */
  ghost predicate EntrySays(e: seq<byte>, p: PartSpec, pl: Placed) {
    && |e| == 128
    && e[0..16] == p.typeGuid && e[16..32] == p.uniqueGuid
    && Field(e, 32, 8) == pl.firstLba && Field(e, 40, 8) == pl.lastLba
    && (forall j :: 48 <= j < 56 ==> e[j] == 0)
    && (forall j :: 0 <= j < 36 ==> UnitHeld(e, j) == NameUnit(p.name, j))
  }

  /** The j-th of the 36 units of an entry's name field, low byte first. */
  function UnitHeld(e: seq<byte>, j: nat): int
    requires |e| == 128 && j < 36
  {
    e[56 + 2 * j] as int + 256 * e[57 + 2 * j] as int
  }

  /** The j-th UTF-16 unit of a name, and zero behind its last. */
  function NameUnit(name: string, j: nat): int {
    if j < |Utf16.Encode(name)| then Utf16.Encode(name)[j] as int else 0
  }

  lemma EntryIsSaid(p: PartSpec, pl: Placed)
    requires pl.firstLba < WORD64 && pl.lastLba < WORD64
    ensures EntrySays(EntryBytes(p, pl), p, pl)
  {
    hide EntryBytes, NameBytes, LittleEndian, FromLittleEndian, Utf16.Encode;
    var e := EntryBytes(p, pl);
    EntryPieces(p, pl);
    LittleEndianRoundTrip(pl.firstLba, 8);
    LittleEndianRoundTrip(pl.lastLba, 8);
    forall j | 48 <= j < 56
      ensures e[j] == 0
    {
      assert e[j] == e[48..56][j - 48];
    }
    forall j | 0 <= j < 36
      ensures UnitHeld(e, j) == NameUnit(p.name, j)
    {
      UnitAt(p.name, j);
      assert e[56 + 2 * j] == e[56..128][2 * j] && e[57 + 2 * j] == e[56..128][2 * j + 1];
    }
  }

  lemma UnitAt(name: string, j: nat)
    requires j < 36
    ensures NameBytes(name)[2 * j] as int + 256 * NameBytes(name)[2 * j + 1] as int == NameUnit(name, j)
  {
    hide NameBytes, Utf16.Encode;
    NameUnits(name);
    var units := Take(Utf16.Encode(name), 36);
    assert UnitsOf(NameBytes(name))[j] == (units + seq(36 - |units|, _ => 0))[j];
  }

  /** Each partition has its entry, in its place, in both arrays of the disk, and the other entries are empty. */
  lemma EntriesSay(disk: Guid, parts: seq<PartSpec>, i: nat)
    requires |parts| <= ENTRY_COUNT && TotalSectors(parts) * SECTOR < WORD64 && i < 128
    ensures
      var d := DiskOf(disk, parts);
      && |d.front| == FIRST_USABLE * SECTOR && |d.back| == (ENTRY_ARRAY_SECTORS + 1) * SECTOR
      && |PrimaryEntries(d)| == |BackupEntries(d)| == 128 * 128 && |d.parts| == |parts|
      && (i < |parts| ==>
            && EntrySays(PrimaryEntries(d)[128 * i..128 * i + 128], parts[i], d.parts[i])
            && EntrySays(BackupEntries(d)[128 * i..128 * i + 128], parts[i], d.parts[i]))
      && (i >= |parts| ==> forall j :: 128 * i <= j < 128 * i + 128 ==> PrimaryEntries(d)[j] == BackupEntries(d)[j] == 0)
  {
    hide DiskOf, EntryArray, EntryBytes, EntrySays, PrimaryHeader, BackupHeader, PrimaryEntries, BackupEntries, SealedHeader;
    hide PrimaryArgs, BackupArgs, Place, EndOf, TotalSectors;
    DiskPieces(disk, parts);
    DiskParts(disk, parts);
    var placed := DiskOf(disk, parts).parts;
    if i < |parts| {
      SlotOfArray(parts, placed, i);
      PlacedFits(parts, i);
      EntryIsSaid(parts[i], placed[i]);
    } else {
      UnusedTail(parts, placed);
    }
  }

  lemma PlacedFits(parts: seq<PartSpec>, i: nat)
    requires TotalSectors(parts) * SECTOR < WORD64 && i < |parts|
    ensures Place(parts, ALIGN_SECTORS)[i].firstLba < WORD64 && Place(parts, ALIGN_SECTORS)[i].lastLba < WORD64
  {
    hide Place, EndOf;
    PlacementGood(parts, i);
  }

  /** What does not vary in a header: the signature, revision 1.0, the size, the reserved bytes and the rest of the sector. */
  lemma HeadersSay(a: HeaderArgs)
    ensures
      var h := SealedHeader(a);
      && h[0..8] == [0x45, 0x46, 0x49, 0x20, 0x50, 0x41, 0x52, 0x54]
      && h[8..12] == [0, 0, 1, 0] && h[12..16] == [92, 0, 0, 0]
      && (forall j :: 20 <= j < 24 || 92 <= j < 512 ==> h[j] == 0)
      && h[80..84] == [128, 0, 0, 0] && h[84..88] == [128, 0, 0, 0]
  {
    hide Locations, HeaderCrc;
    var h := SealedHeader(a);
    SmallFields();
    assert h[12..16] == LittleEndian(HEADER_SIZE, 4);
    assert h[80..84] == LittleEndian(ENTRY_COUNT, 4) && h[84..88] == LittleEndian(ENTRY_SIZE, 4);
  }

  lemma SmallFields()
    ensures LittleEndian(92, 4) == [92, 0, 0, 0] && LittleEndian(128, 4) == [128, 0, 0, 0] && LittleEndian(1, 4) == [1, 0, 0, 0]
  {
  }

  /** The protective record: one partition of type 0xEE from the first sector over the whole disk, as far as it can say. */
  lemma ProtectiveRecord(disk: Guid, parts: seq<PartSpec>)
    requires |parts| <= ENTRY_COUNT && TotalSectors(parts) * SECTOR < WORD64
    ensures
      var d := DiskOf(disk, parts);
      && |d.front| == FIRST_USABLE * SECTOR
      && d.front[446..450] == [0x00, 0x00, 0x02, 0x00] && d.front[450..454] == [0xEE, 0xFF, 0xFF, 0xFF]
      && Field(d.front, 454, 4) == 1
      && Field(d.front, 458, 4) == (if d.totalBytes / 512 - 1 < 0xFFFF_FFFF then d.totalBytes / 512 - 1 else 0xFFFF_FFFF)
      && d.front[510..512] == [0x55, 0xAA]
      && forall j :: 0 <= j < 446 || 462 <= j < 510 ==> d.front[j] == 0
  {
    hide EntryArray, SealedHeader, PmbrBytes, EndOf, EntryCrc, FromLittleEndian, LittleEndian;
    BackupAfterParts(parts);
    DiskPieces(disk, parts);
    var d, total := DiskOf(disk, parts), TotalSectors(parts);
    var m := PmbrBytes(total);
    RecordPieces(total);
    assert d.front[..512] == m;
    SubSlice(d.front, 0, 512, 446, 450);
    SubSlice(d.front, 0, 512, 450, 454);
    SubSlice(d.front, 0, 512, 454, 458);
    SubSlice(d.front, 0, 512, 458, 462);
    SubSlice(d.front, 0, 512, 510, 512);
    LittleEndianRoundTrip(1, 4);
    LittleEndianRoundTrip(MbrSpan(total), 4);
    forall j | 0 <= j < 446 || 462 <= j < 510
      ensures d.front[j] == 0
    {
      assert d.front[j] == d.front[..512][j] == m[j];
    }
  }

  lemma RecordPieces(total: nat)
    requires total > 0
    ensures
      var m := PmbrBytes(total);
      && m[446..450] == [0x00, 0x00, 0x02, 0x00] && m[450..454] == [0xEE, 0xFF, 0xFF, 0xFF]
      && m[454..458] == LittleEndian(1, 4) && m[458..462] == LittleEndian(MbrSpan(total), 4) && m[510..512] == [0x55, 0xAA]
      && forall j :: 0 <= j < 446 || 462 <= j < 510 ==> m[j] == 0
  {
    hide LittleEndian;
  }
}
