/** The member loop of `create_lib`: decide for each member of the input
    library whether it is excluded, build its output record, and split the
    records into the included library and the library of excluded members. */
module CreateLib {
  import opened Base
  import opened Archive

  /** The bytes of `.idata$`, the prefix shared by the import-table sections. */
  const IDATA_PREFIX: seq<byte> := [0x2E, 0x69, 0x64, 0x61, 0x74, 0x61, 0x24]

  predicate StartsWithIdata(name: seq<byte>) {
    IDATA_PREFIX <= name
  }

  /** The two member lists that `create_lib` writes out. */
  datatype Libraries = Libraries(included: seq<NewArchiveMember>, extracted: seq<NewArchiveMember>)

  // ---------------------------------------------------------------------------
  // Specification of one member's decision
  // ---------------------------------------------------------------------------

  /** The scan of a COFF section table for an import-table section: stops at
      the first name starting with `.idata$`, fails at the first name that
      cannot be resolved before that. */
  function ScanSections(sections: seq<SectionName>, offset: u64): (r: Result<bool, WinlibError>)
    ensures r.Err? ==> r.error.site == CannotGetSectionName(offset)
    ensures r.Ok? && !r.value ==> forall i | 0 <= i < |sections| :: sections[i].Name?
  {
    if sections == [] then Ok(false)
    else match sections[0]
      case BadName(cause) => Err(ObjectError(CannotGetSectionName(offset), cause))
      case Name(name) =>
        if StartsWithIdata(name) then Ok(true) else ScanSections(sections[1..], offset)
  }

  /** Whether the member at `offset` with this payload is excluded. */
  function ExcludeDecision(offset: u64, payload: Payload, options: CreateOptions): (r: Result<bool, WinlibError>)
    // only the import-table check can fail, and its errors name this member
    ensures r.Err? ==>
      options.excludeIdata && AsU32(offset) !in options.excludeOffsets &&
      (r.error.site == CannotGetSectionName(offset) || r.error.site == UnrecognisedMember(offset))
    // a member is kept only when the import-table check is off or finds a clean COFF object
    ensures r == Ok(false) ==> AsU32(offset) !in options.excludeOffsets && (!options.excludeIdata || payload.Coff?)
  {
    if AsU32(offset) in options.excludeOffsets then Ok(true)
    else if !options.excludeIdata then Ok(false)
    else match payload
      case Coff(sections) => ScanSections(sections, offset)
      case ImportOnly(_) => Ok(true)
      case Unparseable(cause) => Err(ObjectError(UnrecognisedMember(offset), cause))
  }

  /** One iteration of the loop: reading the member, getting its data, then
      deciding. An `Ok` carries the exclusion decision. */
  function MemberOutcome(item: MemberRead, options: CreateOptions): (r: Result<bool, WinlibError>)
    ensures r.Ok? ==> item.Ok? && item.value.data.Data?
    ensures item.Err? ==> r == Err(ObjectError(CannotReadMember, item.error))
    ensures item.Ok? && item.value.data.DataError? ==>
      r == Err(ObjectError(CannotGetData(item.value.offset), item.value.data.cause))
  {
    match item
    case Err(cause) => Err(ObjectError(CannotReadMember, cause))
    case Ok(m) =>
      match m.data
      case DataError(cause) => Err(ObjectError(CannotGetData(m.offset), cause))
      case Data(_, payload) => ExcludeDecision(m.offset, payload, options)
  }

  // ---------------------------------------------------------------------------
  // Specification of the whole loop
  // ---------------------------------------------------------------------------

  /** The state of the loop after the given members, or the error that ended it. */
  function Collect(members: seq<MemberRead>, options: CreateOptions): (r: Result<Libraries, WinlibError>)
    ensures r.Ok? ==> |r.value.included| + |r.value.extracted| <= |members|
    ensures r.Ok? && options.saveExcluded.None? ==> r.value.extracted == []
    decreases |members|
  {
    if members == [] then Ok(Libraries([], []))
    else
      var last := members[|members| - 1];
      match Collect(members[..|members| - 1], options)
      case Err(e) => Err(e)
      case Ok(libs) =>
        match MemberOutcome(last, options)
        case Err(e) => Err(e)
        case Ok(exclude) =>
          var record := NewMember(last.value);
          if !exclude then Ok(Libraries(libs.included + [record], libs.extracted))
          else if options.saveExcluded.Some? then Ok(Libraries(libs.included, libs.extracted + [record]))
          else Ok(libs)
  }

  /** Every member is read, has data and gets a decision. */
  ghost predicate AllDecided(members: seq<MemberRead>, options: CreateOptions) {
    forall i | 0 <= i < |members| :: MemberOutcome(members[i], options).Ok?
  }

  /** The records of the members whose decision is `excluded`, in archive order. */
  function Records(members: seq<MemberRead>, options: CreateOptions, excluded: bool): seq<NewArchiveMember>
    requires AllDecided(members, options)
  {
    if members == [] then []
    else
      var rest := Records(members[1..], options, excluded);
      if MemberOutcome(members[0], options).value == excluded then [NewMember(members[0].value)] + rest
      else rest
  }

  // ---------------------------------------------------------------------------
  // The loop itself
  // ---------------------------------------------------------------------------

  /** The member loop of `create_lib`: returns the included and extracted
      member lists it would write, or the first error. */
  method CreateLib(members: seq<MemberRead>, options: CreateOptions) returns (r: Result<Libraries, WinlibError>)
    ensures r == Collect(members, options)
  {
    var extractedMembers: seq<NewArchiveMember> := [];
    var includedMembers: seq<NewArchiveMember> := [];
    var n := 0;
    while n < |members|
      invariant n <= |members|
      invariant Collect(members[..n], options) == Ok(Libraries(includedMembers, extractedMembers))
    {
      assert members[..n + 1][..n] == members[..n];
      if members[n].Err? {
        r := Err(ObjectError(CannotReadMember, members[n].error));
        ErrorPersists(members, options, n + 1);
        return;
      }
      var member := members[n].value;
      if member.data.DataError? {
        r := Err(ObjectError(CannotGetData(member.offset), member.data.cause));
        ErrorPersists(members, options, n + 1);
        return;
      }
      var exclude := false;
      if AsU32(member.offset) in options.excludeOffsets {
        exclude := true;
      } else if options.excludeIdata {
        match member.data.payload
        case Coff(sections) =>
          var s := 0;
          while s < |sections|
            invariant s <= |sections| && !exclude
            invariant ScanSections(sections, member.offset) == ScanSections(sections[s..], member.offset)
          {
            if sections[s].BadName? {
              r := Err(ObjectError(CannotGetSectionName(member.offset), sections[s].cause));
              ErrorPersists(members, options, n + 1);
              return;
            }
            if StartsWithIdata(sections[s].bytes) {
              exclude := true;
              break;
            }
            assert sections[s..][1..] == sections[s + 1..];
            s := s + 1;
          }
        case ImportOnly(_) =>
          exclude := true;
        case Unparseable(cause) =>
          r := Err(ObjectError(UnrecognisedMember(member.offset), cause));
          ErrorPersists(members, options, n + 1);
          return;
      }
      assert MemberOutcome(members[n], options) == Ok(exclude);
      var newMember := NewMember(member);
      if exclude {
        if options.saveExcluded.Some? {
          extractedMembers := extractedMembers + [newMember];
        }
      } else {
        includedMembers := includedMembers + [newMember];
      }
      n := n + 1;
    }
    assert members[..n] == members;
    r := Ok(Libraries(includedMembers, extractedMembers));
  }

  // ---------------------------------------------------------------------------
  // Properties
  // ---------------------------------------------------------------------------

  /** Once the loop has failed, later members change nothing. */
  lemma {:induction false} ErrorPersists(members: seq<MemberRead>, options: CreateOptions, n: nat)
    requires n <= |members| && Collect(members[..n], options).Err?
    ensures Collect(members, options) == Collect(members[..n], options)
    decreases |members|
  {
    if n < |members| {
      var front := members[..|members| - 1];
      assert front[..n] == members[..n];
      ErrorPersists(front, options, n);
    } else {
      assert members[..n] == members;
    }
  }

  // Section scan

  /** The first `i` sections have names, and none of them starts with `.idata$`. */
  ghost predicate CleanPrefix(sections: seq<SectionName>, i: nat)
    requires i <= |sections|
  {
    forall j | 0 <= j < i :: sections[j].Name? && !StartsWithIdata(sections[j].bytes)
  }

  /** The scan finds an import-table section exactly when one comes before any
      unreadable name, reports the first unreadable name otherwise, and finds
      nothing only when every name is readable and none has the prefix. */
  lemma {:induction false} ScanSectionsMeaning(sections: seq<SectionName>, offset: u64)
    ensures ScanSections(sections, offset) == Ok(true) <==>
      exists i | 0 <= i < |sections| ::
        CleanPrefix(sections, i) && sections[i].Name? && StartsWithIdata(sections[i].bytes)
    ensures ScanSections(sections, offset) == Ok(false) <==> CleanPrefix(sections, |sections|)
    ensures ScanSections(sections, offset).Err? <==>
      exists i | 0 <= i < |sections| ::
        CleanPrefix(sections, i) && sections[i].BadName? &&
        ScanSections(sections, offset) == Err(ObjectError(CannotGetSectionName(offset), sections[i].cause))
    ensures forall i | 0 <= i < |sections| && CleanPrefix(sections, i) && sections[i].BadName? ::
      ScanSections(sections, offset) == Err(ObjectError(CannotGetSectionName(offset), sections[i].cause))
    decreases |sections|
  {
    if sections != [] && sections[0].Name? && !StartsWithIdata(sections[0].bytes) {
      var rest := sections[1..];
      ScanSectionsMeaning(rest, offset);
      forall i | 0 <= i < |rest|
        ensures CleanPrefix(sections, i + 1) <==> CleanPrefix(rest, i)
      {
        if CleanPrefix(rest, i) {
          forall j | 0 <= j < i + 1
            ensures sections[j].Name? && !StartsWithIdata(sections[j].bytes)
          {
            if j > 0 { assert sections[j] == rest[j - 1]; }
          }
        }
        if CleanPrefix(sections, i + 1) {
          forall j | 0 <= j < i ensures rest[j].Name? && !StartsWithIdata(rest[j].bytes) {
            assert rest[j] == sections[j + 1];
          }
        }
      }
      assert CleanPrefix(sections, |sections|) <==> CleanPrefix(rest, |rest|) by {
        if CleanPrefix(rest, |rest|) {
          forall j | 0 <= j < |sections|
            ensures sections[j].Name? && !StartsWithIdata(sections[j].bytes)
          {
            if j > 0 { assert sections[j] == rest[j - 1]; }
          }
        }
      }
      if ScanSections(sections, offset) == Ok(true) {
        var i :| 0 <= i < |rest| && CleanPrefix(rest, i) && rest[i].Name? && StartsWithIdata(rest[i].bytes);
        assert CleanPrefix(sections, i + 1) && sections[i + 1] == rest[i];
      }
      if ScanSections(sections, offset).Err? {
        var i :| 0 <= i < |rest| && CleanPrefix(rest, i) && rest[i].BadName? &&
          ScanSections(rest, offset) == Err(ObjectError(CannotGetSectionName(offset), rest[i].cause));
        assert CleanPrefix(sections, i + 1) && sections[i + 1] == rest[i];
      }
    } else if sections != [] {
      assert CleanPrefix(sections, 0);
    }
  }

  /** The scan stops at the first match: what follows a matching section,
      unreadable names included, does not change the outcome. */
  lemma {:induction false} ScanStopsAtMatch(sections: seq<SectionName>, later: seq<SectionName>, offset: u64)
    requires ScanSections(sections, offset) == Ok(true)
    ensures ScanSections(sections + later, offset) == Ok(true)
    decreases |sections|
  {
    assert (sections + later)[0] == sections[0];
    if sections[0].Name? && !StartsWithIdata(sections[0].bytes) {
      assert (sections + later)[1..] == sections[1..] + later;
      ScanStopsAtMatch(sections[1..], later, offset);
    }
  }

  // One member's decision

  /** A member whose offset, cut to 32 bits, is listed is excluded, and one
      that is not listed is kept when `exclude_idata` is off; in both cases
      the payload plays no part, so it can be anything, even unparseable. */
  lemma PayloadNotInspected(offset: u64, options: CreateOptions, payload: Payload, other: Payload)
    requires AsU32(offset) in options.excludeOffsets || !options.excludeIdata
    ensures ExcludeDecision(offset, payload, options) == ExcludeDecision(offset, other, options)
    ensures ExcludeDecision(offset, payload, options) == Ok(AsU32(offset) in options.excludeOffsets)
  {
  }

  /** With `exclude_idata` on and the offset not listed: a COFF member is
      excluded exactly when its scan finds an `.idata$` section, a short
      import record is always excluded, and the run fails exactly on an
      unparseable member or on an unreadable section name met before a match. */
  lemma IdataPolicy(offset: u64, options: CreateOptions, payload: Payload)
    requires options.excludeIdata && AsU32(offset) !in options.excludeOffsets
    ensures ExcludeDecision(offset, payload, options) == Ok(true) <==>
      payload.ImportOnly? ||
      (payload.Coff? && exists i | 0 <= i < |payload.sections| ::
        CleanPrefix(payload.sections, i) && payload.sections[i].Name? && StartsWithIdata(payload.sections[i].bytes))
    ensures ExcludeDecision(offset, payload, options) == Ok(false) <==>
      payload.Coff? && CleanPrefix(payload.sections, |payload.sections|)
    ensures payload.Unparseable? ==>
      ExcludeDecision(offset, payload, options) == Err(ObjectError(UnrecognisedMember(offset), payload.coffError))
  {
    if payload.Coff? {
      ScanSectionsMeaning(payload.sections, offset);
    }
  }

  // The whole loop

  /** Appending a decided member appends its record to the list it belongs to. */
  lemma {:induction false} RecordsSnoc(members: seq<MemberRead>, last: MemberRead, options: CreateOptions, excluded: bool)
    requires AllDecided(members, options) && MemberOutcome(last, options).Ok?
    ensures AllDecided(members + [last], options)
    ensures Records(members + [last], options, excluded) ==
      Records(members, options, excluded) +
      (if MemberOutcome(last, options).value == excluded then [NewMember(last.value)] else [])
    decreases |members|
  {
    var all := members + [last];
    assert forall i | 0 <= i < |all| :: all[i] == if i < |members| then members[i] else last;
    if members != [] {
      assert all[1..] == members[1..] + [last];
      RecordsSnoc(members[1..], last, options, excluded);
    }
  }

  /** The loop succeeds exactly when every member is read, has data and gets a
      decision; then the included library holds the kept members and the
      extracted library the excluded ones when they are saved, nothing
      otherwise, each in archive order. */
  lemma {:induction false} CollectPartition(members: seq<MemberRead>, options: CreateOptions)
    ensures Collect(members, options).Ok? <==> AllDecided(members, options)
    ensures Collect(members, options).Ok? ==>
      Collect(members, options).value.included == Records(members, options, false) &&
      Collect(members, options).value.extracted ==
        (if options.saveExcluded.Some? then Records(members, options, true) else [])
    decreases |members|
  {
    if members != [] {
      var front := members[..|members| - 1];
      var last := members[|members| - 1];
      assert members == front + [last];
      CollectPartition(front, options);
      if AllDecided(front, options) && MemberOutcome(last, options).Ok? {
        RecordsSnoc(front, last, options, false);
        RecordsSnoc(front, last, options, true);
      }
    }
  }

  /** A failure aborts the loop with the first error met: when every member
      before the k-th is decided and the k-th fails, the loop returns the k-th
      member's error, whatever follows it. */
  lemma FirstErrorAborts(members: seq<MemberRead>, options: CreateOptions, k: nat)
    requires k < |members| && AllDecided(members[..k], options)
    requires MemberOutcome(members[k], options).Err?
    ensures Collect(members, options) == Err(MemberOutcome(members[k], options).error)
  {
    CollectPartition(members[..k], options);
    assert members[..k + 1][..k] == members[..k];
    ErrorPersists(members, options, k + 1);
  }

  /** Conversely, every error of the loop is the error of some member that
      follows only decided members. */
  lemma {:induction false} ErrorHasFirstCause(members: seq<MemberRead>, options: CreateOptions)
    requires Collect(members, options).Err?
    ensures exists k | 0 <= k < |members| ::
      AllDecided(members[..k], options) &&
      MemberOutcome(members[k], options) == Err(Collect(members, options).error)
    decreases |members|
  {
    var front := members[..|members| - 1];
    if Collect(front, options).Err? {
      ErrorHasFirstCause(front, options);
      var k :| 0 <= k < |front| &&
        AllDecided(front[..k], options) && MemberOutcome(front[k], options) == Err(Collect(front, options).error);
      assert front[..k] == members[..k] && front[k] == members[k];
    } else {
      CollectPartition(front, options);
      assert members[..|members| - 1] == front;
    }
  }

  /** The records of the kept and of the excluded members together number the members. */
  lemma {:induction false} RecordsComplement(members: seq<MemberRead>, options: CreateOptions)
    requires AllDecided(members, options)
    ensures |Records(members, options, false)| + |Records(members, options, true)| == |members|
    decreases |members|
  {
    if members != [] {
      RecordsComplement(members[1..], options);
    }
  }

  /** Sizes of the two outputs: every member lands in exactly one list when
      excluded members are saved; otherwise the extracted list stays empty and
      the included one is no longer than the input. */
  lemma PartitionSizes(members: seq<MemberRead>, options: CreateOptions)
    requires Collect(members, options).Ok?
    ensures options.saveExcluded.None? ==> Collect(members, options).value.extracted == []
    ensures options.saveExcluded.Some? ==>
      |Collect(members, options).value.included| + |Collect(members, options).value.extracted| == |members|
    ensures |Collect(members, options).value.included| <= |members|
  {
    CollectPartition(members, options);
    RecordsComplement(members, options);
  }

  /** With no offset listed and `exclude_idata` off, every readable member is
      kept: the included library is a copy of the input, whatever the
      payloads are, and nothing is extracted. */
  lemma {:induction false} NoPolicyKeepsAll(members: seq<MemberRead>, options: CreateOptions)
    requires options.excludeOffsets == [] && !options.excludeIdata
    requires forall i | 0 <= i < |members| :: members[i].Ok? && members[i].value.data.Data?
    ensures Collect(members, options).Ok?
    ensures Collect(members, options).value.extracted == []
    ensures |Collect(members, options).value.included| == |members|
    ensures forall i | 0 <= i < |members| ::
      Collect(members, options).value.included[i] == NewMember(members[i].value)
    decreases |members|
  {
    if members != [] {
      var front := members[..|members| - 1];
      NoPolicyKeepsAll(front, options);
      assert MemberOutcome(members[|members| - 1], options) == Ok(false);
    }
  }

  /** Whether excluded members are saved changes only the extracted list:
      excluded members are still inspected, so the same members fail the
      run, and the included list is the same. */
  lemma {:induction false} SavingChangesOnlyExtracted(members: seq<MemberRead>, options: CreateOptions, path: Option<string>)
    ensures Collect(members, options).Ok? <==> Collect(members, options.(saveExcluded := path)).Ok?
    ensures Collect(members, options).Err? ==>
      Collect(members, options) == Collect(members, options.(saveExcluded := path))
    ensures Collect(members, options).Ok? ==>
      Collect(members, options).value.included == Collect(members, options.(saveExcluded := path)).value.included
    decreases |members|
  {
    if members != [] {
      var other := options.(saveExcluded := path);
      var last := members[|members| - 1];
      SavingChangesOnlyExtracted(members[..|members| - 1], options, path);
      assert MemberOutcome(last, options) == MemberOutcome(last, other);
    }
  }

  /** Offsets are compared after truncation to 32 bits, so a listed offset
      also excludes a member 4 GiB further into the file. */
  lemma OffsetsAliasModulo32(offset: u64, payload: Payload, options: CreateOptions)
    requires AsU32(offset) in options.excludeOffsets && offset + U32_LIMIT < 0x1_0000_0000_0000_0000
    ensures ExcludeDecision(offset + U32_LIMIT, payload, options) == Ok(true)
  {
    assert AsU32(offset + U32_LIMIT) == AsU32(offset);
  }
}
