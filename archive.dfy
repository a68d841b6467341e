/** What `create_lib` learns about each member of the input library from the
    `object` crate, and the record it hands to `ar_archive_writer`.

    The archive reader, the COFF reader and the import-record reader belong to
    other crates; their outcomes are inputs here, not computed. */
module Archive {
  import opened Base

  /** An `object::Error`, kept opaque: the program only forwards it. */
  datatype Cause = Cause(description: string)

  /** The outcome of `section.name(strings)` for one entry of a COFF section
      table: the raw name bytes (an inline name, or a long name looked up in
      the string table), or the error when the name cannot be resolved. */
  datatype SectionName = Name(bytes: seq<byte>) | BadName(cause: Cause)

  /** What the parsers make of a member's data:
      - `Coff`: `CoffFile::parse` succeeds, with its section table in order;
      - `ImportOnly`: `CoffFile::parse` fails with `coffError`, and
        `ImportFile::parse` succeeds (a short import record);
      - `Unparseable`: both fail; `coffError` is the COFF parser's error. */
  datatype Payload =
    | Coff(sections: seq<SectionName>)
    | ImportOnly(coffError: Cause)
    | Unparseable(coffError: Cause)

  /** The outcome of `member.data(&data)`: the member's bytes together with
      what the parsers would make of them, or the error. */
  datatype MemberData = Data(bytes: seq<byte>, payload: Payload) | DataError(cause: Cause)

  /** One member as the archive reader yields it. `offset` is the start of
      `member.file_range()`; the metadata fields are absent when the header
      field does not parse. The name is taken as already converted to text. */
  datatype Member = Member(
    offset: u64,
    name: string,
    data: MemberData,
    date: Option<u64>,
    uid: Option<u64>,
    gid: Option<u64>,
    mode: Option<u64>)

  /** One item of `archive.members()`: a member, or the error reading it. */
  type MemberRead = Result<Member, Cause>

  /** `ar_archive_writer::NewArchiveMember`, without its object reader. */
  datatype NewArchiveMember = NewArchiveMember(
    buf: seq<byte>,
    memberName: string,
    mtime: u64,
    uid: u32,
    gid: u32,
    perms: u32)

  /** `CreateOptions`; only whether `save_excluded` is present matters to the
      member loop, the path itself is for the file write. */
  datatype CreateOptions = CreateOptions(
    excludeIdata: bool,
    excludeOffsets: seq<u32>,
    saveExcluded: Option<string>)

  /** Where a `WinlibError::ObjectError` was raised; each carries the member
      offset that its message prints, where it prints one. */
  datatype ErrorSite =
    | CannotReadMember
    | CannotGetData(offset: u64)
    | CannotGetSectionName(offset: u64)
    | UnrecognisedMember(offset: u64)

  datatype WinlibError = ObjectError(site: ErrorSite, cause: Cause)

  /** Permissions written for a member whose header has no readable mode (0o644). */
  const DEFAULT_PERMS: u32 := 420

  /** The output record built for a member whose data could be read. */
  function NewMember(m: Member): (r: NewArchiveMember)
    requires m.data.Data?
    ensures r.buf == m.data.bytes && r.memberName == m.name
    // absent values get the defaults
    ensures m.date.None? ==> r.mtime == 0
    ensures m.uid.None? ==> r.uid == 0
    ensures m.gid.None? ==> r.gid == 0
    ensures m.mode.None? ==> r.perms == DEFAULT_PERMS
    // present values pass through; uid, gid and mode keep their low 32 bits
    ensures m.date.Some? ==> r.mtime == m.date.value
    ensures m.uid.Some? ==> r.uid < U32_LIMIT && (m.uid.value - r.uid) % U32_LIMIT == 0
    ensures m.gid.Some? ==> r.gid < U32_LIMIT && (m.gid.value - r.gid) % U32_LIMIT == 0
    ensures m.mode.Some? ==> r.perms < U32_LIMIT && (m.mode.value - r.perms) % U32_LIMIT == 0
    ensures m.uid.Some? && m.uid.value < U32_LIMIT ==> r.uid == m.uid.value
    ensures m.gid.Some? && m.gid.value < U32_LIMIT ==> r.gid == m.gid.value
    ensures m.mode.Some? && m.mode.value < U32_LIMIT ==> r.perms == m.mode.value
  {
    NewArchiveMember(
      m.data.bytes,
      m.name,
      m.date.GetOr(0),
      AsU32(m.uid.GetOr(0)),
      AsU32(m.gid.GetOr(0)),
      AsU32(m.mode.GetOr(DEFAULT_PERMS)))
  }
}
