# winlibtools `create` member filter, in Dafny

`winlib create --from OLD NEW` copies a Windows static library (a COFF "ar"
archive) member by member into a new library. A member is left out when its
offset is listed with `--exclude <OFFSET>`, or, with `--exclude-idata`, when it
contributes to the import table. Such a member is either a COFF object with a
section whose name starts with `.idata$` or a short import record. With
`--save-excluded PATH` the members left out go into a second library.

The model covers the member loop of `create_lib` and the offset parser
`hex_value`:

- `base.dfy` (module `Base`): `Option`, `Result`, and the `u32`/`u64`/`byte`
  ranges. It also has `AsU32`, Rust's truncating `as u32` cast.
- `archive.dfy` (module `Archive`): what the loop receives about each member
  and the record it hands to the archive writer. `CreateOptions` and
  `WinlibError` are here. `NewMember` builds the output record and fills in
  the metadata defaults.
- `create_lib.dfy` (module `CreateLib`): the per-member exclusion decision
  (`ExcludeDecision`, with the section scan `ScanSections`). `Collect` gives
  the loop's result as a function. The method `CreateLib` is the loop itself,
  with its inner section loop, `break` and early error returns, and it is
  proved equal to `Collect`. `Records` is an independent reference: it
  filters the members by their decision. The lemmas tie `Collect` to it.
- `offset_parser.dfy` (module `OffsetParser`): `hex_value` and the standard
  library's `u32::from_str_radix` (`FromStrRadix`, run as its digit loop
  `Accumulate`). `Expected` is a reference meaning stated through positional
  value (`Value`). Lemmas prove the two agree and that printed numbers
  round-trip.

The archive reader, the COFF and import-record parsers, and the archive
writer belong to other crates. Their outcomes are inputs:

- each item of `archive.members()` is a `MemberRead`: a member, or the read
  error;
- `member.data(..)` gives a `MemberData`: the bytes, or an error;
- what the parsers make of the bytes is a `Payload`: `Coff(sections)` where
  each section name is resolved or fails (`SectionName`), `ImportOnly`, or
  `Unparseable`.

The member offset is the start of `member.file_range()`, as a `u64`. The
`date`, `uid`, `gid` and `mode` header values are modelled as optional `u64`s.
The `uid`, `gid` and mode values go through the source's `as u32` cast.

## Model

| member | source | states |
|---|---|---|
| `Base.AsU32` | src/main.rs:70 | `as u32` keeps a value below 2^32 unchanged; any other value becomes the one below 2^32 congruent to it modulo 2^32 |
| `Archive.NewMember` | src/main.rs:110-118 | the output record carries the member's bytes and name; a missing mtime, uid or gid becomes 0 and a missing mode 0o644; present values pass through, uid/gid/mode cut to their low 32 bits (unchanged when they fit) |
| `CreateLib.MemberOutcome` | src/main.rs:56-68 | a member that cannot be read fails with the "could not read archive member" error and the reader's cause; one whose data cannot be got fails with that error at its offset; only a readable member with data gets a decision |
| `CreateLib.ScanSections` | src/main.rs:73-90 | the section scan: an error from it is always the unreadable-name error at this member's offset, and a scan that finds nothing has resolved every name; its full meaning is `ScanSectionsMeaning` and `ScanStopsAtMatch` |
| `CreateLib.ExcludeDecision` | src/main.rs:69-107 | one member's decision: it fails only with `exclude_idata` on and the offset not listed, and then with the section-name or unrecognised-member error at this member's offset; a kept member is unlisted and either the import-table check is off or it is a COFF object; its full meaning is `IdataPolicy` and `PayloadNotInspected` |
| `CreateLib.Collect` | src/main.rs:53-126 | the loop as a function: on success the two lists together are no longer than the input, and nothing is extracted without `save_excluded`; its full meaning is `CollectPartition`, `FirstErrorAborts` and `ErrorHasFirstCause` |
| `CreateLib.CreateLib` | src/main.rs:53-126 | the loop, with its inner section loop and early returns, returns exactly `Collect`: the included and extracted lists, or the error that stopped it |
| `CreateLib.ErrorPersists` | src/main.rs:57-104 | after the loop has returned an error, later members make no difference |
| `CreateLib.CollectPartition` | src/main.rs:119-125 | the loop succeeds iff every member is read, has data and is decided; then `included` is the kept members' records in archive order, `extracted` is the excluded ones' in archive order when `save_excluded` is set, and empty otherwise |
| `CreateLib.FirstErrorAborts` | src/main.rs:57-104 | if every member before the k-th is decided and the k-th fails, the run returns the k-th member's error whatever follows it |
| `CreateLib.ErrorHasFirstCause` | src/main.rs:57-104 | every error the run returns is the error of some member that follows only decided members, so it is the first fault met |
| `CreateLib.PartitionSizes` | src/main.rs:119-125 | without `save_excluded` nothing is extracted; with it, `|included| + |extracted|` equals the number of members; `|included|` never exceeds it |
| `CreateLib.SavingChangesOnlyExtracted` | src/main.rs:119-123 | setting or clearing `save_excluded` changes neither whether the run fails, nor its error, nor the included list: dropped members are still inspected |
| `CreateLib.NoPolicyKeepsAll` | src/main.rs:69-72 | with no offset listed and `exclude_idata` off, every readable member is kept in order, whatever its payload, and nothing is extracted |
| `CreateLib.PayloadNotInspected` | src/main.rs:69-72 | when the offset (cut to 32 bits) is listed the member is excluded, and when it is not and `exclude_idata` is off it is kept; either way the decision is the same for every payload, unparseable ones included |
| `CreateLib.OffsetsAliasModulo32` | src/main.rs:70 | a listed offset also excludes a member 2^32 bytes further on, because offsets are compared after the `as u32` cast |
| `CreateLib.IdataPolicy` | src/main.rs:72-106 | with `exclude_idata` on and the offset not listed: excluded iff a short import record or a COFF object with an `.idata$` section before any unreadable name; kept iff a COFF object whose names all resolve and none has the prefix; an unparseable member fails with the COFF parse error at its offset |
| `CreateLib.ScanSectionsMeaning` | src/main.rs:73-90 | the section scan returns true iff some name with prefix `.idata$` follows only readable names without it; false iff every name resolves and none has the prefix; an error iff some unreadable name comes first, and then the error is that name's |
| `CreateLib.ScanStopsAtMatch` | src/main.rs:85-88 | once a matching section is found, later sections, unreadable names included, cannot change the result |
| `OffsetParser.FromStrRadix` | src/main.rs:197-199 | `u32::from_str_radix`: the `Empty` error comes exactly from empty text; its full meaning, against the positional-value reference `Expected`, is `FromStrRadixMeaning` |
| `OffsetParser.HexValue` | src/main.rs:195-202 | `hex_value`; it has no contract of its own, and its meaning is stated by `HexValueMeaning`, `HexValueEmpty` and `HexValueRoundTrip` |
| `OffsetParser.FromStrRadixMeaning` | src/main.rs:196-200 | `u32::from_str_radix` returns `Empty` for empty text; otherwise it drops one leading `+` unless that is all there is; it then returns `PosOverflow` when the leading digits exceed `u32::MAX`, `InvalidDigit` when a non-digit follows them, and their value otherwise |
| `OffsetParser.HexValueMeaning` | src/main.rs:195-202 | text after a leading lower-case `0x` is read in base 16, any other text in base 10 |
| `OffsetParser.HexValueEmpty` | src/main.rs:195-202 | the `Empty` error is returned exactly for `""` and `"0x"` |
| `OffsetParser.UpperCasePrefixIsDecimal` | src/main.rs:196 | the prefix is case-sensitive: `0X...` is read in base 10 and fails with `InvalidDigit` |
| `OffsetParser.HexValueRoundTrip` | src/main.rs:195-202 | any number written in hex after `0x`, or in decimal, parses back to itself when it fits in 32 bits and is `PosOverflow` otherwise |

## Left out

- Reading the input file and `ArchiveFile::parse` (src/main.rs:43-51): file I/O, plus a parser in another crate. The model starts from the sequence of member reads. A failure to parse the archive is not modelled.
- Writing the two libraries (src/main.rs:128-166): I/O and `ar_archive_writer::write_archive_to_stream`, whose code is in another crate. The model ends with the two member lists. The source writes the excluded library first, so a failure while writing the included one can leave the excluded library on disk. There is no "all or nothing" output, and the model does not claim one.
- The ar container format itself, `CoffFile::parse`, `ImportFile::parse` and `section.name`: they are in the `object` crate, which is not part of this model. Their outcomes are the inputs `MemberRead`, `MemberData`, `Payload` and `SectionName`. The payload bytes are passed through as an opaque `seq<byte>`.
- `String::from_utf8_lossy` on member names (src/main.rs:108): a library conversion. The member name is taken as already-converted text and passed through unchanged.
- The error message strings and file names that `create_lib` puts into each `WinlibError` (src/main.rs:45-101): `ErrorSite` records which message and which member offset, and `Cause` stands for the underlying `object::Error`.
- `list_lib` (src/main.rs:169-191): formatting and printing only.
- Command-line parsing with clap, `main`, and exit codes (src/main.rs:193-256), apart from `hex_value` itself. How repeated `--exclude` values become `exclude_offsets` is not modelled.
- The Rust standard library is not part of this model's source. `u32::from_str_radix` and `char::to_digit` are modelled on the standard library's implementation for bases 10 and 16. The empty string gives `Empty`. A lone `+` or `-` gives `InvalidDigit`. One leading `+` is accepted, and `-` is not a sign for an unsigned type. Each character's digit check comes before its overflow check.
- The object crate's `date`/`uid`/`gid`/`mode` accessors are not part of this model's source. They are taken to return optional 64-bit values. If they return 32-bit values, the `as u32` casts change nothing, and `NewMember`'s contract still holds.
