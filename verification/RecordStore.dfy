/** The record store: a table in memory and, if persistent, its text on disk. */
module RecordStore {
  import opened Prelude
  import opened RecordRoundTrip
  import opened RecordRows

  const MAX_RECORD_STORE_BYTES: nat := 1048576

  /** The backing file: absent, or one text. */
  class Disk {
    var text: Option<string>

    constructor (text: Option<string>)
      ensures this.text == text
    {
      this.text := text;
    }
  }

  /** What the file system does to one write. */
  datatype Fault = NoFault | DirFault | WriteFault

  function Utf8Bytes(c: char): nat {
    var n := c as int;
    if n < 0x80 then 1 else if n < 0x800 then 2 else if n < 0x1_0000 then 3 else 4
  }

  /** UTF-8 takes one byte for 7 bits of code point, two for 11, three for 16 and four for all others. */
  lemma Utf8ByBits(c: char)
    ensures Utf8Bytes(c) <= 1 <==> c as int <= 0x7F
    ensures Utf8Bytes(c) <= 2 <==> c as int <= 0x7FF
    ensures Utf8Bytes(c) <= 3 <==> c as int <= 0xFFFF
    ensures 1 <= Utf8Bytes(c) <= 4
  {
  }

  function Utf8Length(s: string): nat { if s == [] then 0 else Utf8Bytes(s[0]) + Utf8Length(s[1..]) }

  /** Memory and file mean the same table; a missing file means the empty one. */
  predicate InSync(records: Records, text: Option<string>) {
    match text
    case None => records == map[]
    case Some(t) => ParsedRecords(t) == Ok(records)
  }

  // ----- one call, as a step on memory and disk

  datatype State = State(records: Records, text: Option<string>)

  datatype Call = LoadOrCreate(name: string, fault: Fault) | Save(name: string, record: PlayerRecord, fault: Fault)

  /** Writing the whole table, or failing and leaving the file alone. */
  function Flushed(s: State, fault: Fault): State {
    if fault == NoFault then s.(text := Some(Serialized(s.records))) else s
  }

  function FlushError(fault: Fault): RecordError
    requires fault != NoFault
  {
    if fault == DirFault then CreateParentDirFailed else WriteFailed
  }

  /** Whether the call writes the file: loading a player who is there does not. */
  predicate Writes(s: State, c: Call) { c.Save? || c.name !in s.records }

  function Step(s: State, c: Call): State {
    match c
    case LoadOrCreate(name, fault) =>
      if name in s.records then s else Flushed(s.(records := s.records[name := NEW_RECORD]), fault)
    case Save(name, record, fault) => Flushed(s.(records := s.records[name := record]), fault)
  }

  predicate Succeeds(s: State, c: Call) { !Writes(s, c) || c.fault == NoFault }

  function Run(s: State, calls: seq<Call>): State {
    if calls == [] then s else Step(Run(s, calls[..|calls| - 1]), calls[|calls| - 1])
  }

  // ----- the class

  class PlayerRecordStore {
    const disk: Disk?
    var records: Records

    constructor NewEphemeral()
      ensures disk == null && records == map[]
    {
      disk := null;
      records := map[];
    }

    constructor OnDisk(disk: Disk, records: Records)
      ensures this.disk == disk && this.records == records
    {
      this.disk := disk;
      this.records := records;
    }

    /** `new_persistent`: a missing file is an empty table, an oversized or malformed one is refused. */
    static method NewPersistent(disk: Disk, readFails: bool) returns (r: Result<PlayerRecordStore, RecordError>)
      ensures disk.text.Some? && !readFails && Utf8Length(disk.text.value) > MAX_RECORD_STORE_BYTES
        ==> r == Err(FileTooLarge(Utf8Length(disk.text.value)))
      ensures r.Ok? <==> disk.text == None
                         || (!readFails && Utf8Length(disk.text.value) <= MAX_RECORD_STORE_BYTES
                           && ParsedRecords(disk.text.value).Ok?)
      ensures r.Ok? ==> fresh(r.value) && r.value.disk == disk && InSync(r.value.records, disk.text)
    {
      var found: Records := map[];
      if disk.text.Some? {
        if readFails {
          return Err(ReadFailed);
        }
        if Utf8Length(disk.text.value) > MAX_RECORD_STORE_BYTES {
          return Err(FileTooLarge(Utf8Length(disk.text.value)));
        }
        var parsed := ParseRecords(disk.text.value);
        if parsed.Err? {
          return Err(parsed.error);
        }
        found := parsed.value;
      }
      var store := new PlayerRecordStore.OnDisk(disk, found);
      r := Ok(store);
    }

    /** What a flush may write to: nothing, when the store is ephemeral. */
    ghost function Backing(): set<object> { if disk == null then {} else {disk} }

    /** The text on disk, if there is a disk and it holds a file. */
    function Text(): Option<string>
      reads disk
    {
      if disk == null then None else disk.text
    }

    /** An ephemeral store never fails; a persistent one replaces the file or leaves it alone. */
    method Flush(fault: Fault) returns (error: Option<RecordError>)
      modifies Backing()
      ensures disk == null ==> error == None
      ensures disk != null ==> State(records, Text()) == Flushed(State(records, old(Text())), fault)
      ensures disk != null ==> error == if fault == NoFault then None else Some(FlushError(fault))
    {
      if disk == null {
        return None;
      }
      if fault == DirFault {
        return Some(CreateParentDirFailed);
      }
      if fault == WriteFault {
        return Some(WriteFailed);
      }
      var text := SerializeRecords(records);
      disk.text := Some(text);
      error := None;
    }

    method LoadOrCreate(name: string, fault: Fault) returns (r: Result<PlayerRecord, RecordError>)
      modifies this, Backing()
      ensures records == if name in old(records) then old(records) else old(records)[name := NEW_RECORD]
      ensures disk != null ==>
        State(records, Text()) == Step(State(old(records), old(Text())), Call.LoadOrCreate(name, fault))
      ensures r == if name in old(records) then Ok(old(records)[name])
                   else if disk == null || fault == NoFault then Ok(NEW_RECORD) else Err(FlushError(fault))
      ensures disk != null && r.Ok? && Clean(records) ==>
        (InSync(records, Text()) <==> name !in old(records) || old(InSync(records, Text())))
    {
      if name in records {
        return Ok(records[name]);
      }
      records := records[name := NEW_RECORD];
      var error := Flush(fault);
      if error.Some? {
        return Err(error.value);
      }
      RoundTripIffClean(records);
      r := Ok(NEW_RECORD);
    }

    method Save(name: string, record: PlayerRecord, fault: Fault) returns (error: Option<RecordError>)
      modifies this, Backing()
      ensures records == old(records)[name := record]
      ensures disk != null ==>
        State(records, Text()) == Step(State(old(records), old(Text())), Call.Save(name, record, fault))
      ensures error == if disk == null || fault == NoFault then None else Some(FlushError(fault))
      ensures disk != null && error == None ==> (InSync(records, Text()) <==> Clean(records))
    {
      records := records[name := record];
      error := Flush(fault);
      RoundTripIffClean(records);
    }
  }

  // ----- whole runs

  /** Every call stores clean names and records. */
  ghost predicate CleanCall(c: Call) {
    ValidName(c.name) && (c.Save? ==> CleanPicks(c.record.skillPickCounts))
  }

  lemma {:induction false} RunStaysClean(s: State, calls: seq<Call>)
    requires Clean(s.records) && forall i :: 0 <= i < |calls| ==> CleanCall(calls[i])
    ensures Clean(Run(s, calls).records)
  {
    hide ValidName, CleanId;
    if calls != [] {
      RunStaysClean(s, calls[..|calls| - 1]);
    }
  }

  /** After a call that succeeds, memory and file agree exactly when the call wrote, or they already agreed. */
  lemma SuccessfulCallSyncs(s: State, c: Call)
    requires Clean(s.records) && CleanCall(c) && Succeeds(s, c)
    ensures InSync(Step(s, c).records, Step(s, c).text) <==> Writes(s, c) || InSync(s.records, s.text)
  {
    hide ParsedRecords, Serialized;
    RunStaysClean(s, [c]);
    assert [c][..0] == [];
    assert Run(s, [c]) == Step(Run(s, []), c);
    RoundTripIffClean(Step(s, c).records);
  }

  /** How many calls a run has made up to and including its last successful write. */
  function LastWrite(s: State, calls: seq<Call>): (n: nat)
    ensures n <= |calls|
  {
    if calls == [] then 0 else
      var before, last := calls[..|calls| - 1], calls[|calls| - 1];
      if Writes(Run(s, before), last) && last.fault == NoFault then |calls| else LastWrite(s, before)
  }

  /** The file means the table as it was at the last successful write, or at the start of the run. */
  lemma {:induction false} FileHoldsLastWrite(s: State, calls: seq<Call>)
    requires Clean(s.records) && InSync(s.records, s.text)
    requires forall i :: 0 <= i < |calls| ==> CleanCall(calls[i])
    ensures InSync(Run(s, calls[..LastWrite(s, calls)]).records, Run(s, calls).text)
  {
    hide InSync, Writes, CleanCall;
    if calls == [] {
      assert calls[..0] == calls;
    } else {
      var before, last := calls[..|calls| - 1], calls[|calls| - 1];
      RunStaysClean(s, before);
      if LastWrite(s, calls) == |calls| {
        assert calls[..|calls|] == calls;
        WriteSyncs(s, calls);
      } else {
        FileHoldsLastWrite(s, before);
        assert before[..LastWrite(s, before)] == calls[..LastWrite(s, before)];
        UnwrittenTextStays(Run(s, before), last);
      }
    }
  }

  lemma WriteSyncs(s: State, calls: seq<Call>)
    requires Clean(s.records) && (forall i :: 0 <= i < |calls| ==> CleanCall(calls[i]))
    requires calls != [] && LastWrite(s, calls) == |calls|
    ensures InSync(Run(s, calls).records, Run(s, calls).text)
  {
    hide InSync, CleanCall;
    var before, last := calls[..|calls| - 1], calls[|calls| - 1];
    RunStaysClean(s, before);
    SuccessfulCallSyncs(Run(s, before), last);
  }

  lemma UnwrittenTextStays(s: State, c: Call)
    requires !(Writes(s, c) && c.fault == NoFault)
    ensures Step(s, c).text == s.text
  {
  }

  /** A text means one table. */
  lemma SyncIsUnique(a: Records, b: Records, text: Option<string>)
    requires InSync(a, text) && InSync(b, text)
    ensures a == b
  {
    hide ParsedRecords;
  }

  /**
   Over every run from a store in step with its file, memory and file agree exactly when the table is as it was
   at the last successful write, or at the start if there was none: nothing that later calls stored and failed
   to write is still there.
   */
  lemma SyncIffUnchangedSinceWrite(s: State, calls: seq<Call>)
    requires Clean(s.records) && InSync(s.records, s.text)
    requires forall i :: 0 <= i < |calls| ==> CleanCall(calls[i])
    ensures InSync(Run(s, calls).records, Run(s, calls).text)
       <==> Run(s, calls).records == Run(s, calls[..LastWrite(s, calls)]).records
  {
    hide InSync, Run, LastWrite, CleanCall;
    FileHoldsLastWrite(s, calls);
    if InSync(Run(s, calls).records, Run(s, calls).text) {
      SyncIsUnique(Run(s, calls).records, Run(s, calls[..LastWrite(s, calls)]).records, Run(s, calls).text);
    }
  }

  /** As long as no write fails, the table changes only by calls that write it. */
  lemma {:induction false} FaultlessRunsWriteChanges(s: State, calls: seq<Call>)
    requires forall i :: 0 <= i < |calls| ==> calls[i].fault == NoFault
    ensures Run(s, calls).records == Run(s, calls[..LastWrite(s, calls)]).records
  {
    if calls == [] || LastWrite(s, calls) == |calls| {
      assert calls[..|calls|] == calls;
    } else {
      var before := calls[..|calls| - 1];
      FaultlessRunsWriteChanges(s, before);
      assert before[..LastWrite(s, before)] == calls[..LastWrite(s, before)];
    }
  }

  /** As long as no write fails, memory and file agree after every call since the store was opened. */
  lemma FaultlessRunsStayInSync(s: State, calls: seq<Call>)
    requires Clean(s.records) && InSync(s.records, s.text)
    requires forall i :: 0 <= i < |calls| ==> CleanCall(calls[i]) && calls[i].fault == NoFault
    ensures InSync(Run(s, calls).records, Run(s, calls).text)
  {
    FaultlessRunsWriteChanges(s, calls);
    SyncIffUnchangedSinceWrite(s, calls);
  }

  /** A save that succeeds repairs whatever earlier failures left behind. */
  lemma SaveRepairs(s: State, calls: seq<Call>, name: string, record: PlayerRecord)
    requires Clean(s.records) && forall i :: 0 <= i < |calls| ==> CleanCall(calls[i])
    requires CleanCall(Call.Save(name, record, NoFault))
    ensures var t := Run(s, calls + [Call.Save(name, record, NoFault)]);
            InSync(t.records, t.text) && t.records == Run(s, calls).records[name := record]
  {
    var last := Call.Save(name, record, NoFault);
    RunStaysClean(s, calls);
    assert (calls + [last])[..|calls|] == calls;
    SuccessfulCallSyncs(Run(s, calls), last);
  }

  /** After a failed write, loading the same player succeeds although the file does not hold them. */
  lemma LoadAfterFailureIsOutOfSync(name: string)
    requires ValidName(name)
    ensures var s := State(map[], None);
            var first, second := Call.LoadOrCreate(name, WriteFault), Call.LoadOrCreate(name, NoFault);
            && InSync(s.records, s.text) && !Succeeds(s, first)
            && Succeeds(Run(s, [first]), second)
            && var t := Run(s, [first, second]); !InSync(t.records, t.text)
  {
    var s := State(map[], None);
    var first, second := Call.LoadOrCreate(name, WriteFault), Call.LoadOrCreate(name, NoFault);
    assert [first, second][..1] == [first] && [first][..0] == [];
    assert Run(s, [first]) == Step(s, first);
    assert Run(s, [first, second]) == Step(Run(s, [first]), second);
    assert name in Run(s, [first, second]).records;
  }

  /** Opening the file again gives the table that was in memory, up to the size limit. */
  method Reopen(store: PlayerRecordStore) returns (r: Result<PlayerRecordStore, RecordError>)
    requires store.disk != null && InSync(store.records, store.disk.text)
    requires store.disk.text.Some? ==> Utf8Length(store.disk.text.value) <= MAX_RECORD_STORE_BYTES
    ensures r.Ok? && r.value.records == store.records
  {
    r := PlayerRecordStore.NewPersistent(store.disk, false);
  }

  /**
   Opening the file a run leaves, up to the size limit, gives the table as it was at the last successful write;
   after a run without a failed write that is the table in memory.
   */
  method ReopenAfterRun(disk: Disk, ghost s: State, ghost calls: seq<Call>)
    returns (r: Result<PlayerRecordStore, RecordError>)
    requires Clean(s.records) && InSync(s.records, s.text)
    requires forall i :: 0 <= i < |calls| ==> CleanCall(calls[i])
    requires disk.text == Run(s, calls).text
    requires disk.text.Some? ==> Utf8Length(disk.text.value) <= MAX_RECORD_STORE_BYTES
    ensures r.Ok? && r.value.records == Run(s, calls[..LastWrite(s, calls)]).records
    ensures (forall i :: 0 <= i < |calls| ==> calls[i].fault == NoFault) ==> r.value.records == Run(s, calls).records
  {
    hide InSync, Run, LastWrite, CleanCall;
    FileHoldsLastWrite(s, calls);
    SyncedTextParses(Run(s, calls[..LastWrite(s, calls)]).records, disk.text);
    r := PlayerRecordStore.NewPersistent(disk, false);
    SyncIsUnique(r.value.records, Run(s, calls[..LastWrite(s, calls)]).records, disk.text);
    if forall i :: 0 <= i < |calls| ==> calls[i].fault == NoFault {
      FaultlessRunsWriteChanges(s, calls);
    }
  }

  lemma SyncedTextParses(records: Records, text: Option<string>)
    requires InSync(records, text)
    ensures text.Some? ==> ParsedRecords(text.value).Ok?
  {
    hide ParsedRecords;
  }
}
