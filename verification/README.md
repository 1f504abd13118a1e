# Horizon: models and proofs

Dafny models of the algorithms, formats and protocols at the core of Horizon, and proofs of what they
are for. The modules follow the program's crates:

- **Recovery shares** (`Field`, `Generator`, `Polynomial`, `Gf`, `Reconstitution`, over `Bits` and `Gf2`): the log/exp tables
  are the field GF(2^8) of section 4.2 of FIPS 197; any k shares rebuild the secret, and k - 1 reveal its tag and length alone.
- **CRC-32** (`Crc`): the bit-at-a-time register is the polynomial remainder of IEEE 802.3, and no burst of 32 bits escapes it.
- **Chunking** (`Chunker`): chunks tile the data, depend only on the bytes near them, and resynchronize after an edit.
- **Constellation** (`Constellation`, `Mesh`): syncs of content-addressed stores, also cut short after any write, in any
  order between any number of stores.
- **Module order** (`ModuleOrder`): the load order on any dependency graph, and when it is topological.
- **cpio** (`CpioTree`, `CpioArchive`, `CpioRoundTrip`, with `Utf8`): tree edits, the newc writer and its reader.
- **GPT** (`Gpt`, `GptReader`, with `Utf16`): the writer of the Key's partition table against the init's own reader.
- **Planner's grammar and reader** (`Json`, `JsonText`, `JsonAccepted`, `Tools`, `Grammar`, `ToolCalls`, `GrammarAccepted`,
  `GrammarDerives`): the reader takes any spacing of a value's tokens for that value, and nothing else; the generated
  grammar admits exactly the arrays of tool calls, and each is read as what it spells.
- **Aura over the Weave** (`Capability`, `Display`, `Weave`, `Aura`, `Proposals`): what a plan discloses is what a confirm
  grants and all a run touches; every use in the audit log was authorized by the log before it.
- **The ask protocol** (`Planner`, `Shell`): shell, worker thread and two channels, in every interleaving.
- **Glass** (`Timeline`, `Glass`, `GlassRows`, `GlassOrder`, over `Folds`): the fold of the audit log into rows, buckets,
  views and totals, what each field of a row says of the log, and what of it depends on the log's order.
- **Hotplug** (`Layout`, `Hotplug`, `Desktop`, `SoftBackend`): connectors, CRTCs, advertised outputs and the desktop's layout.

Code that works in loops and on fields is modelled by methods and classes, each held to a function of the old
state; what the program promises is then proved of those functions. Bytes and machine words are naturals with
their width written out (`Bits`); the grammar is modelled as rules and expressions, and the text that derives from
them character by character.

Some promises turn out to hold under a condition, which is proved exact:

- A cpio archive reads back exactly when no root entry is named `TRAILER!!!`.
- What a proposal shows and what the confirm grants match one to one exactly when the plan spells no path in two ways
  (`/var/log` and `/var/log/` are shown twice and granted once) and names no two services whose names and actions join
  alike (shown once, granted twice).
- Which refused principals and resources have rows in Glass is independent of the log's order exactly when no two of
  them share a key, as they cannot without a NUL in a principal. Nothing else that is counted depends on that order but
  the number of principals, and that only where keys are shared.
- A resource reads back from its display exactly unless it is a service with a slash in its name.
- Adding display devices keeps the advertised outputs right exactly when none was already there with lit displays.
- Without Escape, an ask stays awaited without end exactly when the worker died with it waiting or in hand.

The grammar admits exactly the arrays of valid calls, where a tool that requires no argument takes its first optional
one with any other. The grammar of an empty catalog admits the empty array, which is read as a plan of no steps.

`dafny verify dfyconfig.toml` checks the whole project.

## Model

| member | source | states |
|---|---|---|
| `Tables.Gf.constructor` | crates/reconstitution/src/gf.rs:14-32 | The loops fill both tables for good: `exp[i]` is the i-th power of 3 for all 512 entries, and `log` inverts it |
| `Tables.TripleInWord` | crates/reconstitution/src/gf.rs:22-25 | The 16-bit step `x ^= x << 1`, then reduced when bit 8 is set, is multiplication by 3 in the field |
| `Generator.PowersDistinct` | crates/reconstitution/src/gf.rs:1-4 | The generator 3 is primitive: no two of its first 255 powers are equal |
| `Generator.EveryByteIsAPower` | crates/reconstitution/src/gf.rs:17-26 | Every nonzero byte is one of the 255 powers, so `log` has an entry for each |
| `Field.TimesIsRemainder` | crates/reconstitution/src/gf.rs:1-6 | The field product is the one byte congruent to the carry-less product modulo the polynomial 0x11b, and nothing else is (section 4.2 of FIPS 197) |
| `Field.TimesAssociates` | crates/reconstitution/src/gf.rs:34-39 | The product is associative |
| `Field.TimesCommutes` | crates/reconstitution/src/gf.rs:34-39 | The product is commutative |
| `Field.TimesPlusRight` | crates/reconstitution/src/gf.rs:34-39 | The product distributes over xor |
| `Tables.Gf.ProductByLogs` | crates/reconstitution/src/gf.rs:38 | The sum of two logs is an index of the table, and what stands there is the product |
| `Tables.Gf.QuotientByLogs` | crates/reconstitution/src/gf.rs:46 | The index log a + 255 - log b is in the table, and what stands there times b is a |
| `Tables.Gf.Mul` | crates/reconstitution/src/gf.rs:34-39 | The two-table product is the field product, zero operands included |
| `Tables.Gf.Div` | crates/reconstitution/src/gf.rs:41-47 | For b != 0 the two-table quotient times b is a |
| `Tables.Gf.Eval` | crates/reconstitution/src/gf.rs:50-56 | Horner over the reversed coefficients is the sum of each coefficient times the power of x |
| `Polynomial.FactorTheorem` | crates/reconstitution/src/gf.rs:49-56 | A polynomial is its quotient by x - r times x - r, plus its value at r |
| `Polynomial.RootsBound` | crates/reconstitution/src/gf.rs:49-56 | A polynomial with as many distinct roots as coefficients is zero everywhere in its coefficients |
| `Polynomial.Uniqueness` | crates/reconstitution/src/gf.rs:49-56 | Two coefficient lists of length k with equal values at k distinct points are equal |
| `Polynomial.LagrangeRecovers` | crates/reconstitution/src/lib.rs:185-206 | Lagrange interpolation through k points of a polynomial with k coefficients has its value at every t |
| `Polynomial.InterpolantExists` | crates/reconstitution/src/lib.rs:185-206 | Any values at k distinct points are those of a polynomial with k coefficients |
| `Reconstitution.Split` | crates/reconstitution/src/lib.rs:119-153 | Accepts exactly a nonempty secret with 0 < k <= n, names the reason otherwise, and hands out the n samples of the secret's polynomials at 1..n |
| `Reconstitution.InterpolateAtZero` | crates/reconstitution/src/lib.rs:191-204 | The num/den loops compute the Lagrange value at zero |
| `Reconstitution.Combine` | crates/reconstitution/src/lib.rs:159-212 | Every error in the order it is found, the first offending share first; otherwise the interpolated secret, if its tag agrees |
| `Reconstitution.ProblemIs` | crates/reconstitution/src/lib.rs:166-176 | Which complaint is made of a share: of its set when id, threshold, tag or length differ from the first's, then of a zero index, then of an index used before |
| `Reconstitution.WellFormedMeans` | crates/reconstitution/src/lib.rs:166-176 | No share is complained of exactly when all agree in id, threshold, tag and length and their indices are nonzero and distinct |
| `Reconstitution.AnyThresholdRecovers` | crates/reconstitution/src/lib.rs:116-118 | Any k or more shares of a split, in any order, rebuild the secret and pass the tag |
| `Reconstitution.BelowThresholdIsRefused` | crates/reconstitution/src/lib.rs:178-183 | Fewer than k shares of a split are well formed but refused |
| `Reconstitution.BelowThresholdRevealsNothing` | crates/reconstitution/src/lib.rs:136-145 | The values k - 1 shares have for a byte of the secret are consistent with every value of that byte, each through exactly one choice of the random coefficients |
| `Reconstitution.BelowThresholdRevealsTheTag` | crates/reconstitution/src/lib.rs:132-151 | k - 1 whole shares, which carry the tag too, are those of a guess of the same length exactly when the guess has the tag, and then through exactly one choice of the coefficients |
| `Crc.ComputeCrc32` | crates/keybuild/src/gpt.rs:284-294 | The nested loop over bytes and bits computes the register function, in 32 bits throughout |
| `Crc.CrcIsRemainder` | crates/keybuild/src/gpt.rs:281-294 | A word is the CRC exactly when its mirrored complement is the remainder of the preset message, shifted up 32, by the generator polynomial (the frame check sequence of IEEE 802.3) |
| `Crc.BurstDetected` | crates/keybuild/src/gpt.rs:284-294 | Two different messages of one length that differ only within 32 consecutive bits have different CRCs |
| `Crc.FourBytesDetected` | crates/keybuild/src/gpt.rs:284-294 | So do two that differ only within four consecutive bytes |
| `Crc.FeedXor` | crates/keybuild/src/gpt.rs:286-291 | The bit step is linear: feeding a sum is the sum of the feeds |
| `Chunking.Chunker.Cut` | crates/lifestream/src/chunker.rs:36-62 | The two loops return the first hit of the mask in force, or the limit |
| `Chunking.Chunker.CutIs` | crates/lifestream/src/chunker.rs:36-62 | The cut is the first hit from 2 KiB on, 64 KiB if there is none before, or the end of the data; shorter data is one chunk |
| `Chunking.Chunker.HitInBits` | crates/lifestream/src/chunker.rs:10-14 | A hit is fifteen given bits of the hash being zero up to 8 KiB, and thirteen after |
| `Chunking.Chunker.Split` | crates/lifestream/src/chunker.rs:25-34 | The loop's ranges are the chunks from zero on |
| `Chunking.Chunker.ChunksTile` | crates/lifestream/src/chunker.rs:25-34 | Chunks tile the data, nonempty and at most MAX, all but the last at least MIN |
| `Chunking.Chunker.CommonPrefixChunks` | crates/lifestream/src/chunker.rs:3-4 | A chunk ending before the first difference of two inputs is a chunk of both |
| `Chunking.Chunker.Resynchronize` | crates/lifestream/src/chunker.rs:3-4 | From a shared boundary with equal suffixes all later boundaries coincide, shifted |
| `Chunking.Chunker.HashIsWindowSum` | crates/lifestream/src/chunker.rs:45-60 | Modulo 2^k the wrapping 64-bit hash is the sum over its last k bytes of gear values times powers of two |
| `Chunking.Chunker.RollingWindow` | crates/lifestream/src/chunker.rs:13-14 | The strict test depends on the last 50 bytes alone, the loose one on the last 48 |
| `Chunking.Chunker.EqualWindowsTestAlike` | crates/lifestream/src/chunker.rs:45-60 | Two positions with equal windows test alike, whatever came before |
| `Constellation.IsAncestor` | crates/constellation/src/lib.rs:133-148 | True exactly when the ancestor is reachable through parents; terminates on every graph, cyclic or with missing objects |
| `Constellation.ReachesEveryParent` | crates/constellation/src/lib.rs:139-146 | A generation reaches every one of its object's parents, at whatever place in the list |
| `Constellation.ReachesIsClosure` | crates/constellation/src/lib.rs:133-148 | A generation is an ancestor exactly when it is in every set that holds the descendant and, with a generation, all its object's parents |
| `Constellation.MergeFastForwards` | crates/constellation/src/lib.rs:117-121 | A ref at any parent of a merge is advanced to the merge, and at the merge is left |
| `Constellation.MovesForward` | crates/constellation/src/lib.rs:112-127 | A ref is set when it is missing, left when equal, advanced exactly when its generation is an ancestor of the source's, and otherwise reported |
| `Constellation.Store.WriteRecord` | crates/constellation/src/transport.rs:20-22 | A record is stored once; a second copy is turned away |
| `Constellation.CopyObjects` | crates/constellation/src/lib.rs:93-99 | Copies exactly the missing objects, in order, and counts them and their bytes |
| `Constellation.SyncRef` | crates/constellation/src/lib.rs:112-125 | One ref is set, left, advanced or reported, by the ancestry in the destination |
| `Constellation.SyncRefs` | crates/constellation/src/lib.rs:110-129 | Every ref of the source is judged once, and the report lists each verdict |
| `Constellation.Sync` | crates/constellation/src/lib.rs:82-103 | The destination becomes the merge of both, written in an order that puts objects before refs; the report accounts for it, and says something moved exactly when something was written. The two stores may be one |
| `Mesh.InterruptedIsBetween` | crates/constellation/src/lib.rs:82-129 | A sync stopped after any write leaves each object and ref the destination's own or the source's, refs only once all objects are there |
| `Mesh.WholeSyncIsAStep` | crates/constellation/src/lib.rs:82-103 | A sync that runs to its end is one of the steps the runs are made of |
| `Mesh.RunKeepsIdentity` | crates/constellation/src/lib.rs:80-103 | Over any run of syncs, cut short or not, and local work, stores never hold two objects under one id |
| `Mesh.RunKeepsHistory` | crates/constellation/src/lib.rs:105-109 | Between any two moments of a run no object is lost and every ref has moved to a descendant |
| `Mesh.RunKeepsRefsClosed` | crates/constellation/src/lib.rs:105-109 | If every ref can be read in full at the start, it can after every single write |
| `Mesh.CompleteMeansReadable` | crates/constellation/src/lib.rs:105-107 | Following links from such a ref never leaves the store |
| `Mesh.CompleteUnfolds` | crates/constellation/src/lib.rs:105-107 | A record can be read in full exactly when it is there and everything its object links to can be |
| `Mesh.SecondSyncIsEmpty` | crates/constellation/src/lib.rs:74-78 | Repeating a sync writes nothing |
| `Mesh.TwoWaySync` | crates/constellation/src/lib.rs:80-81 | Syncing both ways leaves equal object sets, and a ref is equal on both sides, or diverged and untouched |
| `Mesh.TwoWaySyncConverges` | crates/constellation/src/lib.rs:80-81 | With no diverged ref both sides end with the same refs |
| `ModuleOrder.VisitModule` | crates/init/src/lib.rs:712-727 | A visit emits what is newly done exactly once, after its needs unless they need it back, on any graph |
| `ModuleOrder.ModuleLoadOrder` | crates/init/src/lib.rs:701-708 | Every listed and every named module is emitted exactly once, and a need comes first unless it needs the module back |
| `ModuleOrder.TopologicalIffAcyclic` | crates/init/src/lib.rs:695-700 | The order is topological exactly when the graph has no cycle |
| `ModuleOrder.PrefixesAreClosed` | crates/init/src/lib.rs:695-700 | Without cycles every prefix of the order is closed under needs |
| `CpioTree.ComponentsAreNames` | crates/keybuild/src/cpio.rs:233-243 | Accepted paths split into nonempty names without slashes |
| `CpioTree.PartsJoined` | crates/keybuild/src/cpio.rs:233-238 | The parts of two paths with a slash between them are the parts of the one and then of the other |
| `CpioTree.WrittenComponents` | crates/keybuild/src/cpio.rs:233-243 | Names with slashes between them come apart into those names, and are refused exactly when there is none or one is a dot or two |
| `CpioTree.ExtraSlashes` | crates/keybuild/src/cpio.rs:233-238 | Slashes in front, at the end and doubled make no difference |
| `CpioTree.LessIs` | crates/keybuild/src/cpio.rs:122-125 | Entries are ordered by the first character in which their names differ, a beginning before what it begins |
| `CpioTree.Tree.DirAt` | crates/keybuild/src/cpio.rs:213-228 | The loop goes down directory by directory, creates what is missing where it stands, and at a leaf stops with the tree as it was before the walk |
| `CpioTree.Tree.Mkdir` | crates/keybuild/src/cpio.rs:158-160 | A directory at the path, or the error and no change |
| `CpioTree.Tree.Put` | crates/keybuild/src/cpio.rs:204-210 | A leaf at the path in the directory walked to, or the error and no change |
| `CpioTree.FailedWalkChangesNothing` | crates/keybuild/src/cpio.rs:213-228 | A walk that meets a leaf has created nothing before it |
| `CpioTree.FailsIffBlocked` | crates/keybuild/src/cpio.rs:222-225 | An edit fails exactly when a leaf stands at one of the directories to walk through |
| `CpioTree.EditTouchesOnlyItsPath` | crates/keybuild/src/cpio.rs:204-228 | A successful edit changes its own path, its missing ancestors and what was beneath it, and nothing else |
| `CpioTree.WalkKeepsOrdered` | crates/keybuild/src/cpio.rs:216-221 | Entries stay sorted by name without duplicates |
| `CpioArchive.Writer.PushHex8` | crates/keybuild/src/cpio.rs:334-339 | Eight uppercase digits of the value, highest first |
| `CpioArchive.HexDigits` | crates/keybuild/src/cpio.rs:333-339 | Digit i of a field is the numeral, 0 to 9 and A to F, of the i-th weight from 16^7 down to 1 |
| `CpioArchive.Writer.Pad4` | crates/keybuild/src/cpio.rs:342-346 | Zeros up to the next multiple of four |
| `CpioArchive.Writer.WriteRecord` | crates/keybuild/src/cpio.rs:300-331 | One record more in the archive, which stays aligned, under the next inode |
| `CpioArchive.Writer.WriteDir` | crates/keybuild/src/cpio.rs:260-293 | The records of the directory in pre-order, entries by name |
| `CpioArchive.Write` | crates/keybuild/src/cpio.rs:248-255 | The archive is the encoding of the tree's records and the trailer |
| `CpioRoundTrip.HeadSays` | crates/keybuild/src/cpio.rs:295-324 | Record k of an archive starts on a multiple of four with 070701 and, each in its place, inode 721 + k, mode, zero owner, links, zero time, size, device numbers, the name's size with its NUL, and zero checksum |
| `CpioRoundTrip.RecordFollows` | crates/keybuild/src/cpio.rs:325-330 | Then come the name, a NUL, zeros up to a multiple of four, the data, and zeros up to the next |
| `CpioRoundTrip.LastSays` | crates/keybuild/src/cpio.rs:252-254 | An archive ends with a record of 124 bytes that bears the name TRAILER!!!, no mode, one link and no data |
| `CpioRoundTrip.NodeSays` | crates/keybuild/src/cpio.rs:260-293 | A directory's mode has type 0x4000 and two links, a file's 0x8000, a symlink's is 0xA1FF, a device's 0x2000 or 0x6000 with its numbers; each carries its own data |
| `CpioArchive.FieldRoundTrip` | crates/keybuild/src/cpio.rs:427-430 | A written field reads back as its value |
| `CpioArchive.FieldReads` | crates/keybuild/src/cpio.rs:425-430 | A field is its eight digits, in either case, with their weights; the parser of numbers takes a plus in front for a zero |
| `CpioArchive.FieldRefused` | crates/keybuild/src/cpio.rs:425-430 | With anything else in it a field is refused |
| `CpioArchive.EntrySays` | crates/keybuild/src/cpio.rs:386-421 | What a record is read as goes by four bits of its mode; other types than directory, symlink and device are files |
| `CpioArchive.Read` | crates/keybuild/src/cpio.rs:353-423 | Reads any bytes without leaving them, to the entries before the trailer or the first error |
| `CpioRoundTrip.RecordReads` | crates/keybuild/src/cpio.rs:357-385 | A record written at an aligned position reads back field by field, and the next position is where the next record starts |
| `CpioRoundTrip.RoundTrip` | crates/keybuild/src/cpio.rs:348-352 | Reading a written archive gives the tree's listing exactly when no root entry is named TRAILER!!!, and otherwise a prefix of it |
| `CpioRoundTrip.CutIsRefused` | crates/keybuild/src/cpio.rs:357-385 | An archive that has lost its end, however little, is refused for running out of bytes |
| `CpioRoundTrip.TrailerOnlyAtRoot` | crates/keybuild/src/cpio.rs:387-389 | Only an entry of the root can end an archive early |
| `CpioRoundTrip.ListingDirectoriesFirst` | crates/keybuild/src/cpio.rs:257-259 | Every directory is listed before anything in it |
| `CpioRoundTrip.InodesDistinct` | crates/keybuild/src/cpio.rs:300-331 | The inode fields read off an archive at any two records' places differ, while the record count fits 32 bits |
| `CpioRoundTrip.EncodedAligned` | crates/keybuild/src/cpio.rs:295-298 | Every record starts and ends on a multiple of four |
| `Utf8.DecodeEncode` | crates/keybuild/src/cpio.rs:376-378 | A string's UTF-8 bytes decode to it (RFC 3629) |
| `Utf8.BitsOfCode` | crates/keybuild/src/cpio.rs:325 | How many bytes a character takes, the range of each, and what their bits add up to (section 3 of RFC 3629) |
| `Utf8.EncodeDecode` | crates/keybuild/src/cpio.rs:396-401 | Bytes that decode are exactly the encoding of what they decode to |
| `Gpt.PlacementGood` | crates/keybuild/src/gpt.rs:149-166 | Every partition starts and ends on a 1 MiB boundary inside the usable sectors and holds its image with less than 1 MiB to spare |
| `Gpt.PartitionsContiguous` | crates/keybuild/src/gpt.rs:149-166 | Partitions follow each other without gap up to the backup table |
| `Gpt.PartitionsDisjoint` | crates/keybuild/src/gpt.rs:155-166 | Two partitions share no sector |
| `Gpt.PlaceAll` | crates/keybuild/src/gpt.rs:153-166 | The cursor loop computes the placement |
| `Gpt.Header` | crates/keybuild/src/gpt.rs:229-247 | The sector written field by field is the header with its CRC filled in last |
| `GptReader.HeadersSay` | crates/keybuild/src/gpt.rs:229-247 | A header has, each in its place, signature, revision, size, own and other sector, usable range, disk GUID, and the array's sector, count and entry size |
| `Gpt.BuildEntries` | crates/keybuild/src/gpt.rs:251-265 | The array holds the entries in order, names cut at 36 units, and zeros |
| `GptReader.EntriesSay` | crates/keybuild/src/gpt.rs:251-265 | In both arrays of a built disk entry i has the type and the own GUID, the first and the last sector of partition i, no flags, and its name in units of two bytes; the unused ones are zero |
| `Gpt.WritePmbr` | crates/keybuild/src/gpt.rs:269-279 | The protective record spans the disk, clamped to 32 bits |
| `GptReader.ProtectiveRecord` | crates/keybuild/src/gpt.rs:269-279 | Sector 0 of a built disk holds one record of type 0xEE from sector 1 over the rest, clamped to 32 bits, and ends in 0x55 0xAA |
| `Gpt.Build` | crates/keybuild/src/gpt.rs:145-215 | The two tables and the placement of a disk, byte for byte |
| `GptReader.FieldWeighs` | crates/keybuild/src/gpt.rs:251-265 | A field is its bytes with the weights 1, 256, 65536 and on, low byte first |
| `GptReader.DecodeUtf16le` | crates/init/src/lib.rs:780-790 | The units up to the first zero, decoded lossily |
| `GptReader.ParseGpt` | crates/init/src/lib.rs:747-776 | The used slots in order with their numbers and names, or nothing for a bad signature or entry size, on any bytes |
| `GptReader.SlotProductFits` | crates/init/src/lib.rs:760-761 | The products of 32-bit counts fit a 64-bit word, so the overflow check never fails |
| `GptReader.NameReadBack` | crates/init/src/lib.rs:778-790 | A partition is read under its own name exactly when the name has no NUL and at most 36 UTF-16 units |
| `GptReader.ParsesBack` | crates/init/src/lib.rs:740-746 | Either copy of the table of a built disk parses to the partitions it was built for |
| `GptReader.AllFound` | crates/init/src/lib.rs:740-746 | With used slots and readable names that is partition i under number i + 1 and its own name |
| `GptReader.TablesMirror` | crates/keybuild/src/gpt.rs:168-208 | Primary and backup headers mirror each other, say where they and their arrays are, and carry valid CRCs (sections 5.3.2 and 5.3.3 of the UEFI Specification) |
| `Utf16.DecodeEncode` | crates/keybuild/src/gpt.rs:260-262 | A string's UTF-16 units decode to it |
| `Utf16.UnitsOfChar` | crates/keybuild/src/gpt.rs:260-262 | A character is its own code, or a high and a low surrogate that add up to it |
| `Utf16.UnpairedIsLost` | crates/init/src/lib.rs:789 | A surrogate without its partner reads as U+FFFD, and nothing else is lost with it |
| `Utf16.DecodedLength` | crates/init/src/lib.rs:789 | Lossy decoding keeps the number of units |
| `Json.Parser.Ws` | crates/aura/src/llama.rs:567-571 | Skips exactly the white space ahead |
| `Json.Parser.EscapedChar` | crates/aura/src/llama.rs:614-637 | The escape ahead, with the errors of a short or malformed one; surrogate codes become the replacement character |
| `JsonText.CodeReads` | crates/aura/src/llama.rs:618-633 | A backslash, u and the four digits of a character's code, in either case, read as that character |
| `JsonText.SurrogateReads` | crates/aura/src/llama.rs:631-633 | The digits of a surrogate code read as U+FFFD |
| `Json.Parser.StringText` | crates/aura/src/llama.rs:601-651 | The string ahead, scalar by scalar, never past the end of the bytes |
| `Json.Parser.ParseValue` | crates/aura/src/llama.rs:572-586 | The value ahead and the position behind it, or the first error, on any bytes |
| `Json.Parser.ParseArray` | crates/aura/src/llama.rs:652-673 | An array ahead, likewise |
| `Json.Parser.ParseObject` | crates/aura/src/llama.rs:674-706 | An object ahead, likewise |
| `Json.Parse` | crates/aura/src/llama.rs:546-556 | The first value of a text; what follows is not looked at |
| `JsonText.ReadBody` | crates/aura/src/llama.rs:601-651 | A literal's bytes read as the string it denotes, whatever escapes spell it |
| `JsonText.UnescapeIsSpelled` | crates/aura/src/llama.rs:601-651 | What a literal denotes is the one text whose characters its parts spell: plain, by a letter escape, or by a code |
| `JsonText.SpelledIsRead` | crates/aura/src/llama.rs:601-651 | The reader takes a literal that spells a text for that text |
| `JsonText.ReadTree` | crates/aura/src/llama.rs:563-707 | Any spacing of the tokens of strings, words, numbers, arrays and objects reads as their meaning, and the reader stops right behind |
| `JsonText.ParsesSpaced` | crates/aura/src/llama.rs:546-556 | So does a whole text |
| `JsonAccepted.AcceptsOnlyWritten` | crates/aura/src/llama.rs:546-707 | Any bytes taken for a value begin with a spacing of that value's tokens: strings, words, numbers, arrays and objects, commas, colons and brackets well placed |
| `JsonAccepted.ReadsItsMeaning` | crates/aura/src/llama.rs:601-651 | Without a plus sign in a literal, which the parser of codes takes for a zero in front, a tree reads as a value exactly when it is well formed and means it |
| `JsonAccepted.TrailingIsIgnored` | crates/aura/src/llama.rs:551-554 | What is taken for a value is taken for it whatever bytes follow |
| `Grammar.BuildGrammar` | crates/aura/src/llama.rs:360-387 | The loop makes one call rule for each tool and the fixed rules |
| `Grammar.LitText` | crates/aura/src/llama.rs:429-443 | A terminal is its text between quotes, with the backslash and the quote escaped |
| `Grammar.LitReadsBack` | crates/aura/src/llama.rs:429-431 | Read with its escapes a terminal is its text, and no quote ends it early |
| `Grammar.CallRuleIsNotFixed` | crates/aura/src/llama.rs:445-453 | No tool's rule can take the place of a fixed one |
| `Grammar.RulesShared` | crates/aura/src/llama.rs:445-453 | Two tools have one rule exactly when their names differ in nothing but characters other than letters and digits |
| `Grammar.DerivedTokens` | crates/aura/src/llama.rs:377-386 | Every derived text is a derived list of tokens, set apart by the grammar's white space |
| `ToolCalls.ParseToolCalls` | crates/aura/src/llama.rs:460-498 | The steps of the array, or the first error of text, shape or tool name |
| `GrammarAccepted.SpellsArgs` | crates/aura/src/llama.rs:394-427 | An arguments rule spells the required keys in order and then some optional ones, each with a literal, commas well placed; with none required, the first optional key comes with any other |
| `GrammarAccepted.GrammarImpliesParser` | crates/aura/src/llama.rs:348-359 | Every text the grammar of a nonempty catalog with plain names derives is accepted and gives at least one step: those of the calls it spells. Of two tools with one rule name the later one's rule holds |
| `GrammarAccepted.StepIsComplete` | crates/aura/src/llama.rs:348-354 | Such a step names a tool of the catalog and has all required arguments of the tool whose rule it is, each the string of its literal; with distinct rule names that is the tool the name stands for |
| `GrammarDerives.SpelledIsDerivable` | crates/aura/src/llama.rs:371-386 | Every array of valid calls, with any of the grammar's white space between its tokens and any spelling of its literals, is derived |
| `GrammarDerives.GrammarIsExact` | crates/aura/src/llama.rs:345-351 | So the grammar of a nonempty catalog admits exactly those arrays |
| `GrammarAccepted.EmptyCatalogGivesNoStep` | crates/aura/src/llama.rs:356-359 | With an empty catalog the empty array is derivable and accepted with no step |
| `Capability.MeetsIsPreorder` | crates/weave/src/capability.rs:128-150 | Covering and containing are reflexive and transitive, and what meets each other is one capability, however its path is spelled |
| `Capability.CoversBeneath` | crates/weave/src/capability.rs:128-134 | A directory covers every path made of it, a slash and anything more |
| `Capability.CoversNothingBeside` | crates/weave/src/capability.rs:128-134 | What is in a directory covers neither the directory nor anything beside it |
| `Capability.CoversIffContinues` | crates/weave/src/capability.rs:128-134 | Behind a directory given by names, exactly the paths whose names continue it are covered |
| `Capability.LogIsNotLogs` | crates/weave/src/capability.rs:128-134 | `/var` covers `/var/log`; `/var/log` covers neither `/var` nor `/var/logs` |
| `Capability.SpelledAlike` | crates/weave/src/capability.rs:128-134 | Doubled slashes, a slash at the end and single dots do not make another path |
| `Capability.ContainsIs` | crates/weave/src/capability.rs:45-47 | Rights contain others exactly when they have each right the others have |
| `Display.ShowRightsInjective` | crates/weave/src/capability.rs:74-90 | No two sets of rights are displayed alike |
| `Display.DisplayedAlike` | crates/weave/src/capability.rs:169-178 | Two resources are displayed alike exactly when they are one, spelling and all, or services whose names and actions join alike |
| `Display.ShowRightsSays` | crates/weave/src/capability.rs:74-90 | What is displayed of each of the eight sets of rights |
| `Display.ParsedRightsAre` | crates/weave/src/capability.rs:52-64 | A text of rights gives the letters in it, whatever their order and number, and nothing with any character but those and the dash |
| `Display.RightsReadBack` | crates/weave/src/capability.rs:52-90 | Rights read back from their display |
| `Display.ReadsBack` | crates/weave/src/capability.rs:152-178 | A resource reads back from its display exactly unless it is a service with a slash in its name |
| `Display.ParsedShows` | crates/weave/src/capability.rs:152-178 | What is read as a resource is displayed as it was written, but for the ways to write a port, which fits 16 bits |
| `Weave.Broker.Grant` | crates/weave/src/broker.rs:181-217 | A grant under a new id, logged, with a live handle |
| `Weave.Broker.Access` | crates/weave/src/broker.rs:245-317 | A use is counted and logged, or the denial is logged with the first reason the check finds and nothing else changes; uses stay authorized by the log before them |
| `Weave.Broker.Revoke` | crates/weave/src/broker.rs:318-330 | A grant is revoked and that logged, once; an unknown one is refused |
| `Weave.RevokedGivesNothing` | crates/weave/src/broker.rs:295-297 | No handle to a revoked grant ever succeeds |
| `Weave.AllowedExactly` | crates/weave/src/broker.rs:285-317 | An access is allowed exactly when the grant is known, the handle is its live one, it is not revoked, not expired, not used up, and covers the resource and the rights |
| `Weave.RefusedExactly` | crates/weave/src/broker.rs:285-317 | Each reason for a refusal is given exactly when it is the first that is the case |
| `Weave.DirectoryGives` | crates/weave/src/broker.rs:285-317 | A grant over a directory allows a path beneath it exactly for rights the grant has |
| `Weave.FileGivesNothingElse` | crates/weave/src/broker.rs:285-317 | A grant over something in a directory is out of scope for the directory and for what is beside it |
| `Weave.SettledByLog` | crates/weave/src/broker.rs:126-177 | What a replay has of a grant: as it was granted, revoked if that is logged after, its uses counted |
| `Weave.UsesAreWithinTheGrant` | crates/weave/src/broker.rs:245-317 | In a sound log every use of a grant is by its principal, of what it covers, with rights it has, not after a revocation, and one of at most as many as allowed |
| `Weave.NewlyRevokedAre` | crates/weave/src/broker.rs:318-330 | Of the grants a list revokes, those are logged that were there and not revoked, each once |
| `Weave.LogOneMore` | crates/weave/src/broker.rs:126-177 | Replaying a longer log is replaying its last event over the rest, and a log stays sound when its last use was authorized |
| `Weave.UseIsSound` | crates/weave/src/broker.rs:245-317 | An allowed use keeps the table what a replay of the log gives, and every logged use one of a grant made before it, not revoked, within its uses and covering |
| `Aura.Aura.CapabilityFor` | crates/aura/src/lib.rs:400-413 | A live held grant that meets the need, if there is one |
| `Aura.UsableIsAllowed` | crates/aura/src/lib.rs:400-413 | What Aura finds usable the broker allows unless its uses are spent, and what the broker would allow Aura on a held handle is found usable |
| `Aura.Aura.PreviewStep` | crates/aura/src/lib.rs:283-338 | The step's needs with their standing, and the reason it would not run |
| `Aura.MissingNeeds` | crates/aura/src/lib.rs:125-139 | The unheld needs in order of first appearance, a capability once however its path is spelled |
| `Aura.DistinctNeedsStand` | crates/aura/src/lib.rs:123-139 | What is left stands for every need, is taken from them, and holds no capability twice |
| `Aura.Aura.GrantMissing` | crates/aura/src/lib.rs:239-245 | Grants exactly what the preview reports missing, in order; an unlimited wallet then meets all of it |
| `Aura.Aura.BrokerNeeds` | crates/aura/src/lib.rs:376-388 | Accesses go to the step's needs only; all succeed exactly when an unlimited wallet meets them |
| `Aura.Aura.RunStep` | crates/aura/src/lib.rs:361-395 | A tool runs only with every need brokered, and a destructive one only when confirmed |
| `Aura.Aura.Execute` | crates/aura/src/lib.rs:345-359 | One result per step; with an unlimited wallet a step is blocked exactly for the reason foretold; unconfirmed, no destructive tool runs |
| `Aura.PreviewForetellsRun` | crates/aura/src/lib.rs:283-338 | With an unlimited wallet a confirmed run blocks exactly what a preview calls blocked, for the same reason |
| `Aura.EmptyWalletMissesAll` | crates/aura/src/lib.rs:193-205 | From an empty wallet a preview reports all the plan needs missing, whatever the broker holds |
| `Aura.Aura.ApproveAndExecute` | crates/aura/src/lib.rs:251-265 | From an empty wallet the grants are exactly the disclosed capabilities, each once, and every access is to one of them; without limits only unknown tools and bad arguments block |
| `Proposals.FoldsAgree` | crates/glass/src/aura.rs:294-309 | The proposal is ready exactly when the preview is, and destructive exactly when a step is |
| `Proposals.ShownIsGranted` | crates/glass/src/aura.rs:323-338 | The texts shown as missing and the capabilities the confirm grants correspond, and match one to one exactly when, among the plan's needs, being displayed alike and being the same capability agree; then they stand in one order |
| `Proposals.WeaveShowsApart` | crates/weave/src/capability.rs:169-178 | With Weave's display that is so exactly when the plan spells no path in two ways and names no two services that join alike, over the same rights |
| `Proposals.SlashShowsTwice` | crates/aura/src/tool.rs:145-153 | A plan over a path with and without a slash at its end shows two capabilities, and the confirm grants one |
| `Proposals.ServicesShowOnce` | crates/weave/src/capability.rs:176 | A plan over two services displayed alike shows one capability, and the confirm grants two |
| `Planner.NextKeeps` | crates/horizon/src/main.rs:1993-2232 | Every key, tick and worker step keeps the protocol's invariant |
| `Planner.RunKeeps` | crates/horizon/src/main.rs:1799-1822 | So it holds in every interleaving: while planning nothing is proposed or pending, and a pending plan is the worker's answer to the newest ask and is the one on display |
| `Planner.AwaitedInOnePlace` | crates/horizon/src/main.rs:2121-2141 | While the worker lives, the awaited epoch is the newest and is in exactly one of requests, hand and results |
| `Planner.ExecutesOnlyOnConfirm` | crates/horizon/src/main.rs:2184-2191 | A plan is executed by an Enter with that plan pending, and by nothing else |
| `Planner.ExecutionsSound` | crates/horizon/src/main.rs:1802-1805 | In every run each execution carries out the worker's answer to the newest ask, never cancelled, and at most once |
| `Planner.LostIffDied` | crates/horizon/src/main.rs:2110-2118 | An ask sent is lost exactly when the worker died with it waiting or in hand, up to the next Escape |
| `Planner.AwaitedForeverIffLost` | crates/horizon/src/main.rs:2127-2133 | Without Escape a lost ask is awaited forever, and no other is |
| `Planner.WorkLands` | crates/horizon/src/main.rs:2121-2141 | An ask that is not lost is landed by the worker's own steps and a tick, with the answer the worker gave; the Enter after it executes the plan, if that is what it was |
| `Planner.LandsAt` | crates/horizon/src/main.rs:2127-2171 | A tick lands the oldest result for the awaited ask: a plan becomes the proposal, step by step, and is pending; a refusal is shown with its reason, and nothing is pending |
| `Planner.EnterAfterLanding` | crates/horizon/src/main.rs:2192-2222 | The Enter after a landed plan executes that plan; after a refusal it only clears the line |
| `Planner.EnterRunsWhatIsShown` | crates/horizon/src/main.rs:2009-2022 | In every run, Enter on a proposal that has not failed executes the plan it tells of, the worker's answer to the newest ask |
| `Planner.AskToExecution` | crates/horizon/src/main.rs:2098-2222 | From an idle line Enter on an ask, the worker's steps, a tick and Enter again execute the plan the worker answers with |
| `Planner.FirstAsk` | crates/horizon/src/main.rs:2098-2222 | From the start of a shell, an ask, the worker's answer, a tick and Enter leave exactly the ask, the answer and the execution of its plan |
| `Planner.FreshTells` | crates/horizon/src/main.rs:2149-2163 | The proposal has each step's tool, reason, effect and needs, or why it cannot run |
| `Planner.KeyWhileAwaiting` | crates/horizon/src/main.rs:1995-2007 | While an ask is awaited only Escape is heard, and ends the wait |
| `Planner.KeyOnProposal` | crates/horizon/src/main.rs:2009-2022 | Any key takes a proposal off; Enter executes what is pending, and no other key records anything |
| `Planner.KeyOnIdleLine` | crates/horizon/src/main.rs:2023-2119 | Enter on an ask sends it under a new epoch, or says that the planner is not available |
| `Planner.FreshPreviewOnly` | crates/horizon/src/main.rs:2152-2156 | What is shown of a plan depends on nothing but the plan |
| `Shell.Shell.Key` | crates/horizon/src/main.rs:1993-2047 | A key does the protocol's step. Enter on a pending plan grants what it discloses and accesses nothing else; Enter on a line that severs revokes its grants; no other key touches the broker, and the log stays sound |
| `Shell.Shell.SeverAll` | crates/horizon/src/main.rs:2072-2087 | The grants of the line are revoked one by one: none is added, and only their revocations are logged |
| `Shell.Worker.Receive` | crates/horizon/src/main.rs:1815-1816 | The worker takes up the oldest request, as the protocol's step |
| `Shell.Worker.Answer` | crates/horizon/src/main.rs:1816-1820 | It answers the request in hand, as the protocol's step |
| `Shell.Shell.Propose` | crates/horizon/src/main.rs:2098-2119 | An ask goes out under a new epoch, or fails in place when the worker is gone |
| `Shell.Shell.PollPlanner` | crates/horizon/src/main.rs:2127-2141 | Stale results are dropped up to the awaited one, which becomes the proposal |
| `Shell.Shell.FinishPlan` | crates/horizon/src/main.rs:2149-2171 | A plan is previewed, shown and kept; a refusal is shown |
| `Shell.Shell.CancelPlanning` | crates/horizon/src/main.rs:2177-2182 | Nothing is awaited, pending or shown any more |
| `Shell.Shell.Confirm` | crates/horizon/src/main.rs:2192-2222 | Grants the pending plan's disclosed capabilities and runs it against them; with nothing pending it only dismisses |
| `Timeline.BucketsTile` | crates/glass/src/model.rs:368-381 | The buckets tile the window |
| `Timeline.LandsInside` | crates/glass/src/model.rs:390-401 | An event of the window lands in a bucket whose span holds its time |
| `Timeline.CountsSum` | crates/glass/src/model.rs:239-250 | The buckets' counts sum to the events of the window, and their spans stay |
| `GlassRows.BucketCounts` | crates/glass/src/model.rs:239-250 | A bucket counts the grants, the uses, the denials and the revocations that land in it, each kind for itself |
| `GlassRows.LandsExactly` | crates/glass/src/model.rs:390-401 | A time lands in the bucket whose share of the window it falls in, and the window's end in the last |
| `GlassRows.SharesAreEven` | crates/glass/src/model.rs:368-388 | Bucket i starts i shares of the window from its start, rounded down |
| `Timeline.MakeBuckets` | crates/glass/src/model.rs:368-381 | The buckets as computed |
| `Glass.FoldEntry` | crates/glass/src/model.rs:252-293 | One log entry changes the one row it counts towards, found through the index tables |
| `Glass.FoldDenial` | crates/glass/src/model.rs:319-351 | A denial no grant covers goes to the row of its key, the principal and the displayed resource joined by a NUL, made at its first |
| `Glass.DeniedKeysAre` | crates/glass/src/model.rs:327-332 | There is a row for a key exactly when some entry counts towards it |
| `GlassRows.CountsTowards` | crates/glass/src/model.rs:252-293 | A use counts towards the first grant of its id, a denial towards the principal's first grant that covers it or else towards its key, and nothing else counts |
| `GlassRows.GrantRowSays` | crates/glass/src/model.rs:217-237 | A grant's row has the table's fields and standing, the denials that count towards it, its first and last times, and what its uses touched, each once |
| `GlassRows.DeniedRowSays` | crates/glass/src/model.rs:319-351 | A refused row has no grant and no use, the denials of its key, their first and last times, and each right one of them asked for |
| `GlassRows.DeniedByFirst` | crates/glass/src/model.rs:327-332 | It bears the principal and resource of the first denial of its key |
| `GlassRows.RowSpans` | crates/glass/src/model.rs:353-356 | First and last times bound those of the row's entries and are each one of them, or the grant's |
| `GlassRows.RowReason` | crates/glass/src/model.rs:289-290 | The reason on a row is its latest denial's |
| `GlassRows.RowListsTouched` | crates/glass/src/model.rs:358-366 | What is listed under a grant is what its uses touched, by display, but not the granted resource itself |
| `Glass.DenialsConserved` | crates/glass/src/model.rs:268-291 | The rows' denials sum to the denials of the log: each is counted on exactly one row |
| `Glass.RowsCountAlike` | crates/glass/src/model.rs:252-293 | Reordering the log changes no row's uses, denials, first or last time, or rights, nor which keys have rows |
| `GlassOrder.RowsAnyOrderIffApart` | crates/glass/src/model.rs:327-332 | Which principals and displayed resources have rows is the same for every order of the log exactly when no two refused pairs share a key |
| `GlassOrder.NoNulIsApart` | crates/glass/src/model.rs:327 | No two do where refused principals hold no NUL |
| `GlassOrder.KeysCanMeet` | crates/glass/src/model.rs:327 | Two refused principals and devices that share a key, and one row, named after whichever comes first |
| `GlassOrder.TimelineAnyOrder` | crates/glass/src/model.rs:239-250 | The timeline does not depend on the order of the log |
| `GlassOrder.TotalsAnyOrder` | crates/glass/src/model.rs:295-306 | Nor do the totals of the kept rows; the number of principals does not where keys are apart |
| `Glass.Group` | crates/glass/src/model.rs:403-440 | One view for each principal, with its rows and their counts |
| `Glass.GroupsPartition` | crates/glass/src/model.rs:403-416 | The views hold the kept rows, each exactly once |
| `Glass.TotalsAgree` | crates/glass/src/model.rs:442-461 | The totals are the sums over the views and the counts of the kept rows |
| `GlassRows.TotalsSay` | crates/glass/src/model.rs:442-461 | The totals count the rows that are live, live to the network, blocked and severed |
| `GlassRows.KeptAre` | crates/glass/src/model.rs:295-299 | A row is kept exactly if it is live or its last activity is in the window |
| `GlassRows.LatestIs` | crates/glass/src/model.rs:425 | A view's last activity is the latest of its rows' |
| `Glass.CountTotals` | crates/glass/src/model.rs:442-461 | The counting loops compute the totals |
| `Glass.Build` | crates/glass/src/model.rs:202-313 | One pass gives the timeline, the rows, the kept rows' views and the totals |
| `Layout.Arrange` | crates/compositor/src/layout.rs:23-31 | Each output starts where those before it end |
| `Layout.Span` | crates/compositor/src/layout.rs:38-42 | The sum of the widths and the tallest height |
| `Layout.OutputsDisjoint` | crates/compositor/src/layout.rs:17-22 | Outputs do not overlap |
| `Layout.OutputsFill` | crates/compositor/src/layout.rs:33-37 | Every column of the span is in an output |
| `Hotplug.FoundIsFresh` | crates/compositor/src/softdrm.rs:666-703 | The displays to light are connected, unlit and distinct, each with a CRTC neither in use nor shared |
| `Hotplug.LightsWhatItCan` | crates/compositor/src/softdrm.rs:691-703 | A connected display with a mode is passed over only when every CRTC it can reach is taken |
| `Hotplug.ScanKeeps` | crates/compositor/src/softdrm.rs:641-775 | After a scan the connectors' CRTCs are distinct and exactly the lit ones, what stayed connected keeps its CRTC, and what is gone is dropped |
| `Desktop.ScanKeepsLit` | crates/compositor/src/softdrm.rs:655-722 | A lit display the kernel reports connected keeps its CRTC, output and global |
| `Desktop.ScanDropsGone` | crates/compositor/src/softdrm.rs:707-722 | A display whose connector is not connected, or cannot be read, is dark after a scan |
| `Desktop.ScanLightsFound` | crates/compositor/src/softdrm.rs:724-771 | A display found to be lit shows on its CRTC under the connector's name and size if it comes up, and else is dark |
| `Hotplug.ScanKeepsInv` | crates/compositor/src/softdrm.rs:644-775 | A scan keeps the backend's invariant |
| `Hotplug.AddKeepsInv` | crates/compositor/src/softdrm.rs:541-612 | Adding a device keeps it exactly when it takes the place of no lit display |
| `Hotplug.StepKeepsLeak` | crates/compositor/src/softdrm.rs:616-821 | A global advertised with nothing behind it stays, whatever happens after |
| `Hotplug.DoubleAddLeaks` | crates/compositor/src/softdrm.rs:599-609 | Adding a device again over lit displays leaves globals advertised with nothing behind them |
| `Hotplug.RemoveKeepsInv` | crates/compositor/src/softdrm.rs:616-631 | Removing a device keeps it |
| `Hotplug.RelayoutKeepsInv` | crates/compositor/src/softdrm.rs:781-821 | After a layout exactly the lit outputs are mapped, side by side, and the placeholder stands in for none |
| `Desktop.StepKeepsPrimary` | crates/compositor/src/softdrm.rs:596-628 | While there are devices one of them is the primary, which changes only when it goes |
| `Desktop.OrderSays` | crates/compositor/src/softdrm.rs:782-797 | The primary device's outputs come before all others, and names decide within either group |
| `Desktop.RelayoutSays` | crates/compositor/src/softdrm.rs:799-820 | The first output is at the origin, each next where the one before ends, and the desktop ends with the last and is as high as the tallest, and never empty |
| `Hotplug.RunKeeps` | crates/compositor/src/softdrm.rs:540-821 | After a run of additions, changes, removals and layouts, from any primary, the advertised globals are those of the lit displays and, with no layout due, the mapped outputs are the lit ones, exactly when no device was added over one with lit displays |
| `SoftBackend.ReadConnectors` | crates/compositor/src/softdrm.rs:655-705 | The first phase of a scan |
| `SoftBackend.DropGone` | crates/compositor/src/softdrm.rs:707-722 | The second phase, with the globals to withdraw |
| `SoftBackend.LightFound` | crates/compositor/src/softdrm.rs:724-771 | The third phase, with the globals created |
| `SoftBackend.SoftBackend.ScanConnectors` | crates/compositor/src/softdrm.rs:644-775 | The three phases do the scan's step, the globals moved one by one |
| `SoftBackend.SoftBackend.DeviceAdded` | crates/compositor/src/softdrm.rs:545-612 | A device is taken up and scanned, in the place of one already there too; without a primary it becomes it; the invariant holds exactly when no lit display was replaced |
| `SoftBackend.SoftBackend.DeviceRemoved` | crates/compositor/src/softdrm.rs:616-631 | The device and its globals go, and another becomes the primary if it was |
| `SoftBackend.SoftBackend.Relayout` | crates/compositor/src/softdrm.rs:781-821 | Every lit output is mapped in order, the primary's first and then by name |
| `SoftBackend.LitInOrder` | crates/compositor/src/softdrm.rs:786-798 | Every lit output once, in that order |

## Left out

- Reconstitution.BelowThresholdRevealsNothing: speaks of the values of the shares alone, byte by byte; what the tag they carry adds is in `Reconstitution.BelowThresholdRevealsTheTag`.
- Constellation.Store.WriteRecord: does not model the verification of a record on receipt; what a store takes opens to its object.
- Grammar.BuildGrammar: makes rules as expressions, with the meaning GBNF gives them, not as text; of the text only the quoting of terminals is modelled (`Grammar.LitText`). Of two rules of one name the later holds, and an empty alternative derives the empty text, as in the library that reads the text.
- Glass.Build: leaves rows and views in the order they were made in rather than the order on display, and does not model the wrap-around of 32-bit counters. Only the time of an event decides the bucket; no claim is made about events after the window's end.
- Gpt.Build: requires sectors and bytes of a disk to fit 64 bits, and at most 128 partitions.
- The values of the gear table: the chunker's results hold for any table of 64-bit words.
- Random bytes, clocks, grant ids and secrets: parameters or arbitrary choices; ids are taken not to repeat.
- The integrity tag of a share set and the keyed hash of an object: a parameter, and an assumption that stores of one identity agree on shared ids.
- The byte and hex forms of shares and GUIDs, and how GUIDs are derived.
- Sealing of records, and I/O errors of a sync: a sync may stop after any write instead.
- The pointer a tree walk moves is its position, the directory it stands in and those above it; aliasing is not modelled.
- Sorted maps are sorted lists or maps with their keys in order; importing a directory from disk and parsing `modules.dep` are left out, as are u32 overflows of lengths and inodes in the round trip.
- The reader's recursion depth: the program's stack is finite.
- What tools do once they run, path resolution of arguments, and the rule planner: a tool's needs are a function of its arguments, its outcome arbitrary. Paths are text, compared by components as on Unix.
- Weave's policy requests and the reissue of handles; a store that fails to take a log entry; the times the log's entries carry, which a replay takes for those of the grants.
- The shell's clicks, launching, store polling, line editing and messages: they touch the protocol only by clearing the line, and the resolved action of Enter is a parameter. Planner epochs are unbounded.
- The float choice of an output's scale, cursor motion, rendering and input; outputs have their logical sizes, and coordinates are unbounded. Reports are taken to name each connector once.
