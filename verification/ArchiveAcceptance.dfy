/** The reader accepts exactly the sealed archives of the grammar. */
module ArchiveAcceptance {
  import opened Wrappers
  import opened Bytes
  import opened ArchivePaths
  import opened ArchiveFormat
  import opened ArchiveReader
  import opened ArchiveGrammar

  ghost predicate AllSealed(s: Session, sealed: iset<Sealing>, index: nat, records: seq<Record>) {
    forall i {:trigger records[i]} :: 0 <= i < |records| ==> SealingOf(s, index + i, records[i]) in sealed
  }

  function RecordsSoFar(key: Option<Bytes>, es: seq<Entry>): seq<Record> {
    KeyRecords(key) + PrintEntries(es)
  }

  // -------------------------------------------------- accepted implies grammar

  /** One accepted record that does not end the archive extends the grammar's prefix by that record. */
  lemma AcceptedStepExtends(c: Crypto, mode: Mode, limits: Limits, key: Option<Bytes>, es: seq<Entry>, r: Record, atEnd: bool)
    returns (key': Option<Bytes>, es': seq<Entry>)
    requires Reachable(c, mode, limits, key, es) && |r.plain| <= MAX_RECORD_PLAINTEXT
    requires var step := Step(c, mode, limits, StateOf(key, es), r, atEnd); step.Ok? && step.value.Continue?
    ensures Reachable(c, mode, limits, key', es')
    ensures Step(c, mode, limits, StateOf(key, es), r, atEnd) == Ok(Continue(StateOf(key', es')))
    ensures RecordsSoFar(key', es') == RecordsSoFar(key, es) + [r]
  {
    hide SoFar, StateOf, PrintEntries, KeyCapsuleStep, EntryStep, DataStep, EndStep, MetaBytes, AddChunk, Target, Data,
         TotalSize, FilesOf, HasDatabase, DecodeEntry, KeyRecords;
    key', es' := key, es;
    if r.kind == RECORD_KEY_CAPSULE {
      KeyCapsuleRecordStep(c, mode, limits, key, es, r.plain);
      key' := Some(r.plain[8..]);
      CapsuleIsFirst(r);
    } else if r.kind == RECORD_ENTRY {
      EntryStepDecodes(c, mode, limits, StateOf(key, es).(index := StateOf(key, es).index + 1), r.plain);
      var meta := DecodeEntry(r.plain).value;
      assert StateOf(key, es).masterKey == key by {
        StateKey(key, es);
      }
      EntryRecordStep(c, mode, limits, key, es, meta, r.plain);
      AppendEntry(es, Entry(meta, []));
      MetaBytesOf(meta, r.plain);
      es' := es + [Entry(meta, [])];
      assert PrintEntry(Entry(meta, [])) == [r];
    } else if r.kind == RECORD_DATA {
      DataRecordStep(c, mode, limits, key, es, r.plain);
      AppendChunk(es, r.plain);
      es' := AddChunk(es, r.plain);
    } else {
      EndRecordStep(c, mode, limits, key, es, r.plain, atEnd);
    }
  }

  lemma CapsuleIsFirst(r: Record)
    requires |r.plain| >= 8 && [r] == KeyRecords(Some(r.plain[8..]))
    ensures RecordsSoFar(Some(r.plain[8..]), []) == RecordsSoFar(None, []) + [r]
  {
  }

  lemma StateKey(key: Option<Bytes>, es: seq<Entry>)
    ensures StateOf(key, es).masterKey == key && StateOf(key, es).index == |RecordsSoFar(key, es)|
  {
    hide PrintEntries, TotalSize, FilesOf, HasDatabase, Target;
  }

  lemma EntryStepDecodes(c: Crypto, mode: Mode, limits: Limits, st: State, plain: Bytes)
    requires EntryStep(c, mode, limits, st, plain).Ok?
    ensures DecodeEntry(plain).Ok? && (mode == Portable ==> st.masterKey.Some?)
  {
    hide DecodeEntry, OpenEntry;
  }

  lemma MetaBytesOf(meta: EntryMeta, plain: Bytes)
    requires DecodeEntry(plain) == Ok(meta)
    ensures MetaBytes(meta) == plain
  {
    hide DecodeEntry;
    EntryCodec(meta, plain);
  }

  /** A run accepted from a grammatical prefix consumed exactly the frames that complete it. */
  lemma {:induction false} AcceptedRun(
    c: Crypto, s: Session, sealed: iset<Sealing>, mode: Mode, limits: Limits, input: Bytes, key: Option<Bytes>, es: seq<Entry>)
    returns (key': Option<Bytes>, es': seq<Entry>, records: seq<Record>)
    requires Ideal(c, sealed)
    requires Reachable(c, mode, limits, key, es)
    requires ReadRecords(c, s, mode, limits, input, StateOf(key, es)).Ok?
    ensures RecordsSoFar(key, es) + records == PrintArchive(key', es')
    ensures WellFormed(c, mode, limits, key', es')
    ensures input == Frames(c, s, |RecordsSoFar(key, es)|, records)
    ensures AllSealed(s, sealed, |RecordsSoFar(key, es)|, records)
    ensures Outcome(ReadRecords(c, s, mode, limits, input, StateOf(key, es)).value) == Outcome(StateOf(key', es'))
    decreases |input|
  {
    hide Ideal, Step, Reachable, WellFormed, PrintArchive, PrintEntries, KeyRecords, Frame, ReadRecord, SealingOf, TotalSize,
         FilesOf, HasDatabase, ActiveOf;
    var st := StateOf(key, es);
    StateKey(key, es);
    var (r, rest) := ReadRecord(c, s, input, st.index).value;
    ReadRecordIsAFrame(c, s, sealed, st.index, input);
    var step := Step(c, mode, limits, st, r, rest == []);
    if step.value.Continue? {
      var key1, es1 := AcceptedStepExtends(c, mode, limits, key, es, r, rest == []);
      var later;
      key', es', later := AcceptedRun(c, s, sealed, mode, limits, rest, key1, es1);
      records := [r] + later;
      assert RecordsSoFar(key, es) + records == RecordsSoFar(key1, es1) + later;
      assert records[1..] == later;
    } else {
      FinishedStepCloses(c, mode, limits, key, es, r, rest == []);
      key', es', records := key, es, [r];
      assert rest == [] && Frames(c, s, st.index + 1, []) == [];
      assert Frame(c, s, st.index, r) + rest == Frames(c, s, st.index, [r]);
    }
  }

  /** Only the end record finishes a run, and only on a whole body within the record limit. */
  lemma FinishedStepCloses(c: Crypto, mode: Mode, limits: Limits, key: Option<Bytes>, es: seq<Entry>, r: Record, atEnd: bool)
    requires Reachable(c, mode, limits, key, es)
    requires StateOf(key, es).index < limits.records
    requires var step := Step(c, mode, limits, StateOf(key, es), r, atEnd); step.Ok? && step.value.Finished?
    ensures atEnd && RecordsSoFar(key, es) + [r] == PrintArchive(key, es)
    ensures WellFormed(c, mode, limits, key, es)
    ensures Outcome(Step(c, mode, limits, StateOf(key, es), r, atEnd).value.st) == Outcome(StateOf(key, es))
  {
    hide SoFar, StateOf, PrintEntries, KeyCapsuleStep, EntryStep, DataStep, EndStep, KeyRecords, EndRecord, TotalSize, Complete;
    StateKey(key, es);
    OnlyEndFinishes(c, mode, limits, StateOf(key, es), r, atEnd);
    EndRecordStep(c, mode, limits, key, es, r.plain, atEnd);
    HasDatabaseIsNotEmpty(es);
    assert forall i :: 0 <= i < |es| ==> Complete(c, es[i]) by {
      AllComplete(c, mode, limits, es);
    }
  }

  lemma AllComplete(c: Crypto, mode: Mode, limits: Limits, es: seq<Entry>)
    requires SoFar(c, mode, limits, es)
    requires es != [] ==> Complete(c, es[|es| - 1])
    ensures forall i :: 0 <= i < |es| ==> Complete(c, es[i])
  {
    hide AllAllowed, DistinctTargets, Complete, TotalSize;
  }

  // -------------------------------------------------- grammar implies accepted

  /** One framed record at the head of the input is consumed by one step. */
  lemma ConsumeRecord(c: Crypto, s: Session, sealed: iset<Sealing>, mode: Mode, limits: Limits, st: State, r: Record, rest: Bytes)
    requires Ideal(c, sealed) && SealingOf(s, st.index, r) in sealed
    requires st.index < limits.records && |r.plain| <= MAX_RECORD_PLAINTEXT
    ensures var step := Step(c, mode, limits, st, r, rest == []);
            var run := ReadRecords(c, s, mode, limits, Frame(c, s, st.index, r) + rest, st);
            && (step.Ok? && step.value.Continue? ==> run == ReadRecords(c, s, mode, limits, rest, step.value.st))
            && (step.Ok? && step.value.Finished? ==> run == Ok(step.value.st))
  {
    hide Ideal, Step, Frame, ReadRecord, SealingOf;
    FramedRecordIsRead(c, s, sealed, st.index, r, rest);
  }

  lemma {:induction false} FlattenPrefix(chunks: seq<Bytes>, m: nat)
    requires m <= |chunks|
    ensures |Flatten(chunks[..m])| <= |Flatten(chunks)|
  {
    if m < |chunks| {
      FlattenPrefix(chunks[..|chunks| - 1], m);
      assert chunks[..|chunks| - 1][..m] == chunks[..m];
    } else {
      assert chunks[..m] == chunks;
    }
  }

  function Partial(e: Entry, m: nat): Entry
    requires m <= |e.chunks|
  {
    Entry(e.meta, e.chunks[..m])
  }

  lemma PartialAllowed(mode: Mode, limits: Limits, e: Entry, m: nat)
    requires AllowedEntry(mode, limits, e) && m <= |e.chunks|
    ensures AllowedEntry(mode, limits, Partial(e, m))
  {
    hide ValidMeta, NamesAFile, StartsWith, Flatten;
    FlattenPrefix(e.chunks, m);
  }

  /** An entry whose data has only partly arrived is a grammatical prefix too. */
  lemma PartialReachable(c: Crypto, mode: Mode, limits: Limits, key: Option<Bytes>, es: seq<Entry>, e: Entry, m: nat)
    requires Reachable(c, mode, limits, key, es + [e]) && m <= |e.chunks|
    ensures Reachable(c, mode, limits, key, es) && Reachable(c, mode, limits, key, es + [Partial(e, m)])
  {
    hide AllowedEntry, AllAllowed, EarlierComplete, DistinctTargets, NoClash, TotalSize, Complete, Target;
    assert (es + [e])[..|es|] == es;
    SoFarShrinks(c, mode, limits, es + [e]);
    SoFarGrows(c, mode, limits, es, e);
    PartialAllowed(mode, limits, e, m);
    SoFarGrows(c, mode, limits, es, Partial(e, m));
  }

  lemma RecordsOfPartial(key: Option<Bytes>, es: seq<Entry>, e: Entry, m: nat)
    requires m <= |e.chunks|
    ensures |RecordsSoFar(key, es + [Partial(e, m)])| == |RecordsSoFar(key, es)| + 1 + m
    ensures |RecordsSoFar(key, es + [e])| == |RecordsSoFar(key, es)| + 1 + |e.chunks|
  {
    hide PrintEntries, KeyRecords, MetaBytes;
    AppendEntry(es, e);
    AppendEntry(es, Partial(e, m));
  }

  lemma NoFrames(c: Crypto, s: Session, index: nat, tail: Bytes)
    ensures Frames(c, s, index, []) + tail == tail
  {
  }

  lemma FramesCons(c: Crypto, s: Session, sealed: iset<Sealing>, index: nat, records: seq<Record>, tail: Bytes)
    requires records != []
    ensures Frames(c, s, index, records) + tail == Frame(c, s, index, records[0]) + (Frames(c, s, index + 1, records[1..]) + tail)
    ensures AllSealed(s, sealed, index, records) ==>
              SealingOf(s, index, records[0]) in sealed && AllSealed(s, sealed, index + 1, records[1..])
  {
    hide Frame, SealingOf;
    if AllSealed(s, sealed, index, records) {
      assert SealingOf(s, index + 0, records[0]) in sealed;
      forall i | 0 <= i < |records| - 1
        ensures SealingOf(s, index + 1 + i, records[1..][i]) in sealed
      {
        assert SealingOf(s, index + (i + 1), records[i + 1]) in sealed;
      }
    }
  }

  lemma ReadChunk(
    c: Crypto, s: Session, sealed: iset<Sealing>, mode: Mode, limits: Limits,
    key: Option<Bytes>, es: seq<Entry>, e: Entry, m: nat, rest: Bytes)
    requires Ideal(c, sealed) && Reachable(c, mode, limits, key, es + [e]) && m < |e.chunks|
    requires |RecordsSoFar(key, es + [e])| < limits.records
    requires SealingOf(s, |RecordsSoFar(key, es)| + 1 + m, Record(RECORD_DATA, e.chunks[m])) in sealed
    ensures ReadRecords(c, s, mode, limits, Frame(c, s, |RecordsSoFar(key, es)| + 1 + m, Record(RECORD_DATA, e.chunks[m])) + rest,
                        StateOf(key, es + [Partial(e, m)]))
            == ReadRecords(c, s, mode, limits, rest, StateOf(key, es + [Partial(e, m + 1)]))
  {
    hide Ideal, Reachable, RecordsSoFar, StateOf, DataStep, ReadRecords, Frame, SealingOf, SoFar, AllowedEntry;
    var d := e.chunks[m];
    var before := es + [Partial(e, m)];
    PartialReachable(c, mode, limits, key, es, e, m);
    RecordsOfPartial(key, es, e, m);
    StateKey(key, before);
    assert AddChunk(before, d) == es + [Partial(e, m + 1)] by {
      assert e.chunks[..m + 1] == e.chunks[..m] + [d];
      assert before[..|es|] == es;
    }
    ChunkBounds(c, mode, limits, key, es, e, m);
    DataRecordStep(c, mode, limits, key, before, d);
    ConsumeRecord(c, s, sealed, mode, limits, StateOf(key, before), Record(RECORD_DATA, d), rest);
  }

  lemma {:induction false} ReadChunks(
    c: Crypto, s: Session, sealed: iset<Sealing>, mode: Mode, limits: Limits,
    key: Option<Bytes>, es: seq<Entry>, e: Entry, m: nat, tail: Bytes)
    requires Ideal(c, sealed) && Reachable(c, mode, limits, key, es + [e]) && m <= |e.chunks|
    requires |RecordsSoFar(key, es + [e])| < limits.records
    requires AllSealed(s, sealed, |RecordsSoFar(key, es)| + 1 + m, DataRecords(e.chunks[m..]))
    ensures ReadRecords(c, s, mode, limits, Frames(c, s, |RecordsSoFar(key, es)| + 1 + m, DataRecords(e.chunks[m..])) + tail,
                        StateOf(key, es + [Partial(e, m)]))
            == ReadRecords(c, s, mode, limits, tail, StateOf(key, es + [e]))
    decreases |e.chunks| - m
  {
    hide Ideal, Reachable, RecordsSoFar, StateOf, ReadRecords, Frame, SealingOf, AllSealed;
    var at := |RecordsSoFar(key, es)| + 1 + m;
    var todo := DataRecords(e.chunks[m..]);
    if m == |e.chunks| {
      assert Partial(e, m) == e && Frames(c, s, at, todo) + tail == tail;
    } else {
      hide Frames;
      assert todo[0] == Record(RECORD_DATA, e.chunks[m]) && todo[1..] == DataRecords(e.chunks[m + 1..]);
      FramesCons(c, s, sealed, at, todo, tail);
      ReadChunk(c, s, sealed, mode, limits, key, es, e, m, Frames(c, s, at + 1, todo[1..]) + tail);
      ReadChunks(c, s, sealed, mode, limits, key, es, e, m + 1, tail);
    }
  }

  lemma ChunkBounds(c: Crypto, mode: Mode, limits: Limits, key: Option<Bytes>, es: seq<Entry>, e: Entry, m: nat)
    requires Reachable(c, mode, limits, key, es + [e]) && m < |e.chunks|
    ensures 0 < |e.chunks[m]| <= MAX_RECORD_PLAINTEXT
    ensures SoFar(c, mode, limits, es + [Partial(e, m + 1)])
  {
    hide EarlierComplete, DistinctTargets, TotalSize, ValidMeta, NamesAFile, StartsWith, Data;
    assert (es + [e])[|es|] == e;
    assert AllowedEntry(mode, limits, e);
    PartialReachable(c, mode, limits, key, es, e, m + 1);
  }

  lemma EntryRecordIsValid(mode: Mode, limits: Limits, e: Entry)
    requires AllowedEntry(mode, limits, e)
    ensures DecodeEntry(MetaBytes(e.meta)) == Ok(e.meta)
    ensures |MetaBytes(e.meta)| <= MAX_RECORD_PLAINTEXT
  {
    hide NamesAFile, StartsWith, Data, DecodeEntry, ValidUtf8, Components;
    assert 0 < |e.meta.path| <= MAX_PATH_LEN;
    EntryCodec(e.meta, MetaBytes(e.meta));
  }

  /** The metadata record opens its entry. */
  lemma ReadEntryRecord(
    c: Crypto, s: Session, sealed: iset<Sealing>, mode: Mode, limits: Limits,
    key: Option<Bytes>, es: seq<Entry>, e: Entry, rest: Bytes)
    requires Ideal(c, sealed) && Reachable(c, mode, limits, key, es + [e])
    requires |RecordsSoFar(key, es)| < limits.records
    requires SealingOf(s, |RecordsSoFar(key, es)|, Record(RECORD_ENTRY, MetaBytes(e.meta))) in sealed
    ensures ReadRecords(c, s, mode, limits, Frame(c, s, |RecordsSoFar(key, es)|, Record(RECORD_ENTRY, MetaBytes(e.meta))) + rest,
                        StateOf(key, es))
            == ReadRecords(c, s, mode, limits, rest, StateOf(key, es + [Partial(e, 0)]))
  {
    hide Ideal, RecordsSoFar, StateOf, EntryStep, ReadRecords, Frame, SealingOf, AllowedEntry, EarlierComplete, DistinctTargets,
         DecodeEntry, MetaBytes, TotalSize;
    PartialReachable(c, mode, limits, key, es, e, 0);
    assert AllowedEntry(mode, limits, (es + [e])[|es|]);
    EntryRecordIsValid(mode, limits, e);
    StateKey(key, es);
    EntryRecordStep(c, mode, limits, key, es, e.meta, MetaBytes(e.meta));
    assert Partial(e, 0) == Entry(e.meta, []);
    ConsumeRecord(c, s, sealed, mode, limits, StateOf(key, es), Record(RECORD_ENTRY, MetaBytes(e.meta)), rest);
  }

  lemma AllSealedSplits(s: Session, sealed: iset<Sealing>, index: nat, a: seq<Record>, b: seq<Record>)
    requires AllSealed(s, sealed, index, a + b)
    ensures AllSealed(s, sealed, index, a) && AllSealed(s, sealed, index + |a|, b)
  {
    hide SealingOf;
    forall i | 0 <= i < |a|
      ensures SealingOf(s, index + i, a[i]) in sealed
    {
      assert (a + b)[i] == a[i];
    }
    forall i | 0 <= i < |b|
      ensures SealingOf(s, index + |a| + i, b[i]) in sealed
    {
      assert (a + b)[|a| + i] == b[i];
    }
  }

  /** Reading the frames of a grammatical entry list reaches the state of that list. */
  lemma {:induction false} ReadEntries(
    c: Crypto, s: Session, sealed: iset<Sealing>, mode: Mode, limits: Limits, key: Option<Bytes>, es: seq<Entry>, tail: Bytes)
    requires Ideal(c, sealed) && Reachable(c, mode, limits, key, es)
    requires |RecordsSoFar(key, es)| < limits.records
    requires AllSealed(s, sealed, |KeyRecords(key)|, PrintEntries(es))
    ensures ReadRecords(c, s, mode, limits, Frames(c, s, |KeyRecords(key)|, PrintEntries(es)) + tail, StateOf(key, []))
            == ReadRecords(c, s, mode, limits, tail, StateOf(key, es))
    decreases |es|
  {
    hide Ideal, Reachable, StateOf, ReadRecords, Frame, Frames, SealingOf, AllSealed, KeyRecords, MetaBytes, PrintEntries,
         TotalSize, FilesOf, HasDatabase, Data;
    if es == [] {
      StateBeforeEntries(es);
      NoFrames(c, s, |KeyRecords(key)|, tail);
    } else {
      var front, e := es[..|es| - 1], es[|es| - 1];
      assert es == front + [e];
      AppendEntry(front, e);
      var k := |KeyRecords(key)|;
      var at := |RecordsSoFar(key, front)|;
      var records := PrintEntry(e);
      PartialReachable(c, mode, limits, key, front, e, 0);
      AllSealedSplits(s, sealed, k, PrintEntries(front), records);
      FramesAppend(c, s, k, PrintEntries(front), records);
      assert records[0] == Record(RECORD_ENTRY, MetaBytes(e.meta)) && records[1..] == DataRecords(e.chunks[0..]);
      FramesCons(c, s, sealed, at, records, tail);
      assert Frames(c, s, k, PrintEntries(es)) + tail == Frames(c, s, k, PrintEntries(front)) + (Frames(c, s, at, records) + tail);
      ReadEntries(c, s, sealed, mode, limits, key, front, Frames(c, s, at, records) + tail);
      ReadEntryRecord(c, s, sealed, mode, limits, key, front, e, Frames(c, s, at + 1, records[1..]) + tail);
      ReadChunks(c, s, sealed, mode, limits, key, front, e, 0, tail);
    }
  }

  // ------------------------------------------------------------- main results

  /** Every sealed archive of the grammar is accepted, with exactly its files, key and counts. */
  lemma GrammarIsAccepted(
    c: Crypto, s: Session, sealed: iset<Sealing>, mode: Mode, limits: Limits, key: Option<Bytes>, es: seq<Entry>)
    requires Ideal(c, sealed) && WellFormed(c, mode, limits, key, es)
    requires AllSealed(s, sealed, 0, PrintArchive(key, es))
    ensures var run := ReadRecords(c, s, mode, limits, Frames(c, s, 0, PrintArchive(key, es)), INITIAL);
            run.Ok? && Outcome(run.value) == Outcome(StateOf(key, es))
  {
    hide Ideal, StateOf, ReadRecords, Frame, Frames, SealingOf, AllSealed, KeyRecords, PrintEntries, SoFar, Complete, EndRecord;
    var k := |KeyRecords(key)|;
    var end := [EndRecord(es)];
    var entriesAndEnd := PrintEntries(es) + end;
    assert PrintArchive(key, es) == KeyRecords(key) + entriesAndEnd;
    AllSealedSplits(s, sealed, 0, KeyRecords(key), entriesAndEnd);
    AllSealedSplits(s, sealed, k, PrintEntries(es), end);
    FramesAppend(c, s, 0, KeyRecords(key), entriesAndEnd);
    FramesAppend(c, s, k, PrintEntries(es), end);
    var at := |RecordsSoFar(key, es)|;
    assert ReadRecords(c, s, mode, limits, Frames(c, s, 0, PrintArchive(key, es)), INITIAL)
           == ReadRecords(c, s, mode, limits, Frames(c, s, k, entriesAndEnd), StateOf(key, [])) by {
      ReadKey(c, s, sealed, mode, limits, key, Frames(c, s, k, entriesAndEnd));
    }
    ReadEntries(c, s, sealed, mode, limits, key, es, Frames(c, s, at, end));
    ReadEnd(c, s, sealed, mode, limits, key, es);
  }

  lemma ReadKey(
    c: Crypto, s: Session, sealed: iset<Sealing>, mode: Mode, limits: Limits, key: Option<Bytes>, rest: Bytes)
    requires Ideal(c, sealed) && (key.Some? <==> mode == Portable) && (key.Some? ==> |key.value| == KEY_LEN)
    requires limits.records > 0 && AllSealed(s, sealed, 0, KeyRecords(key))
    ensures ReadRecords(c, s, mode, limits, Frames(c, s, 0, KeyRecords(key)) + rest, INITIAL)
            == ReadRecords(c, s, mode, limits, rest, StateOf(key, []))
  {
    hide Ideal, ReadRecords, Frame, SealingOf, AllSealed;
    StateBeforeEntries([]);
    if key.None? {
      assert Frames(c, s, 0, []) + rest == rest;
      assert StateOf(None, []) == INITIAL;
    } else {
      var r := KeyRecords(key)[0];
      assert r.plain[8..] == key.value;
      KeyCapsuleRecordStep(c, mode, limits, None, [], r.plain);
      FramesCons(c, s, sealed, 0, [r], rest);
      assert Frames(c, s, 1, []) + rest == rest;
      ConsumeRecord(c, s, sealed, mode, limits, INITIAL, r, rest);
    }
  }

  lemma ReadEnd(
    c: Crypto, s: Session, sealed: iset<Sealing>, mode: Mode, limits: Limits, key: Option<Bytes>, es: seq<Entry>)
    requires Ideal(c, sealed) && WellFormed(c, mode, limits, key, es)
    requires AllSealed(s, sealed, |RecordsSoFar(key, es)|, [EndRecord(es)])
    ensures var run := ReadRecords(c, s, mode, limits, Frames(c, s, |RecordsSoFar(key, es)|, [EndRecord(es)]), StateOf(key, es));
            run.Ok? && Outcome(run.value) == Outcome(StateOf(key, es))
  {
    hide Ideal, ReadRecords, Frame, SealingOf, AllSealed, StateOf, PrintEntries, KeyRecords, SoFar, Complete, EndStep;
    var at := |RecordsSoFar(key, es)|;
    var end := EndRecord(es);
    StateKey(key, es);
    HasDatabaseIsNotEmpty(es);
    EndRecordStep(c, mode, limits, key, es, end.plain, true);
    FramesCons(c, s, sealed, at, [end], []);
    assert Frames(c, s, at + 1, []) + [] == [];
    assert Frames(c, s, at, [end]) + [] == Frames(c, s, at, [end]);
    ConsumeRecord(c, s, sealed, mode, limits, StateOf(key, es), end, []);
  }

  /** The archive with this salt, nonce prefix, key and body, in bytes. */
  function ArchiveBytes(c: Crypto, s: Session, key: Option<Bytes>, es: seq<Entry>): Bytes {
    s.header + Frames(c, s, 0, PrintArchive(key, es))
  }

  function SessionOf(c: Crypto, mode: Mode, passphrase: Bytes, salt: Bytes, noncePrefix: Bytes): Session {
    Session(HeaderBytes(Profile(VersionOf(mode), salt, noncePrefix)), noncePrefix,
            c.derive(passphrase, salt, ARGON_MEMORY_KIB, ARGON_ITERATIONS, ARGON_PARALLELISM))
  }

  ghost predicate IsSealedArchive(
    c: Crypto, sealed: iset<Sealing>, input: Bytes, mode: Mode, passphrase: Bytes, limits: Limits,
    salt: Bytes, noncePrefix: Bytes, key: Option<Bytes>, es: seq<Entry>) {
    var s := SessionOf(c, mode, passphrase, salt, noncePrefix);
    && |salt| == SALT_LEN && |noncePrefix| == NONCE_PREFIX_LEN
    && input == ArchiveBytes(c, s, key, es)
    && |input| <= limits.archiveBytes
    && WellFormed(c, mode, limits, key, es)
    && AllSealed(s, sealed, 0, PrintArchive(key, es))
  }

  lemma SessionOpens(c: Crypto, mode: Mode, passphrase: Bytes, salt: Bytes, noncePrefix: Bytes, body: Bytes, limits: Limits)
    requires |salt| == SALT_LEN && |noncePrefix| == NONCE_PREFIX_LEN
    ensures var s := SessionOf(c, mode, passphrase, salt, noncePrefix);
            && |s.header| == HEADER_LEN
            && (|s.header + body| <= limits.archiveBytes ==>
                  OpenSession(c, s.header + body, mode, passphrase, limits) == Ok((s, body)))
  {
    hide HeaderFields, HeaderBytes;
    var h := Profile(VersionOf(mode), salt, noncePrefix);
    HeaderFieldsOfBytes(h);
    assert (HeaderBytes(h) + body)[..HEADER_LEN] == HeaderBytes(h);
    assert (HeaderBytes(h) + body)[HEADER_LEN..] == body;
    HeaderCodec(h.version, salt, noncePrefix, HeaderBytes(h));
  }

  lemma OpenedSession(c: Crypto, input: Bytes, mode: Mode, passphrase: Bytes, limits: Limits) returns (salt: Bytes, noncePrefix: Bytes)
    requires OpenSession(c, input, mode, passphrase, limits).Ok?
    ensures |salt| == SALT_LEN && |noncePrefix| == NONCE_PREFIX_LEN && |input| <= limits.archiveBytes
    ensures var s := SessionOf(c, mode, passphrase, salt, noncePrefix);
            && OpenSession(c, input, mode, passphrase, limits).value.0 == s
            && input == s.header + OpenSession(c, input, mode, passphrase, limits).value.1
  {
    var header := input[..HEADER_LEN];
    var h := DecodeHeader(header).value;
    salt, noncePrefix := h.salt, h.noncePrefix;
    assert h == Profile(h.version, salt, noncePrefix);
    HeaderCodec(h.version, salt, noncePrefix, header);
    assert input == header + input[HEADER_LEN..];
  }

  /** The reader accepts an input exactly when it is a sealed archive of the grammar, and then
      restores that archive's files, key and counts. */
  lemma ReaderAcceptsExactlyTheGrammar(
    c: Crypto, sealed: iset<Sealing>, input: Bytes, mode: Mode, passphrase: Bytes, limits: Limits, restored: Restored)
    requires Ideal(c, sealed)
    ensures ReadArchive(c, input, mode, passphrase, limits) == Ok(restored)
            <==> exists salt, noncePrefix, key, es ::
                   && IsSealedArchive(c, sealed, input, mode, passphrase, limits, salt, noncePrefix, key, es)
                   && restored == Restored(|es|, TotalSize(es), key, FilesOf(es))
  {
    hide Ideal, OpenSession, ReadRecords, AllSealed, WellFormed, SessionOf, PrintArchive, TotalSize, FilesOf, Frames;
    if salt, noncePrefix, key, es :|
        && IsSealedArchive(c, sealed, input, mode, passphrase, limits, salt, noncePrefix, key, es)
        && restored == Restored(|es|, TotalSize(es), key, FilesOf(es)) {
      var s := SessionOf(c, mode, passphrase, salt, noncePrefix);
      SessionOpens(c, mode, passphrase, salt, noncePrefix, Frames(c, s, 0, PrintArchive(key, es)), limits);
      GrammarIsAccepted(c, s, sealed, mode, limits, key, es);
      assert Outcome(StateOf(key, es)) == restored;
    }
    if ReadArchive(c, input, mode, passphrase, limits) == Ok(restored) {
      var salt, noncePrefix := OpenedSession(c, input, mode, passphrase, limits);
      var (s, body) := OpenSession(c, input, mode, passphrase, limits).value;
      InitialIsReachable(c, mode, limits);
      var key, es, records := AcceptedRun(c, s, sealed, mode, limits, body, None, []);
      assert RecordsSoFar(None, []) == [];
      assert records == PrintArchive(key, es);
      assert IsSealedArchive(c, sealed, input, mode, passphrase, limits, salt, noncePrefix, key, es);
    }
  }

  lemma InitialIsReachable(c: Crypto, mode: Mode, limits: Limits)
    ensures Reachable(c, mode, limits, None, []) && StateOf(None, []) == INITIAL
  {
  }

  /** A whole archive has exactly one entry below `database/`, and it carries the name of the mode. */
  lemma ExactlyOneDatabase(c: Crypto, mode: Mode, limits: Limits, key: Option<Bytes>, es: seq<Entry>) returns (i: nat)
    requires WellFormed(c, mode, limits, key, es)
    ensures i < |es| && es[i].meta.path == DatabaseOf(mode)
    ensures DatabaseOf(mode) == match mode case Legacy => Ascii("database/ledger.db") case Portable => Ascii("database/kakeflow.db")
    ensures forall j :: 0 <= j < |es| && IsDatabase(es[j]) ==> j == i
  {
    hide Complete, PrintArchive, TotalSize, Target, NamesAFile, ValidMeta;
    HasDatabaseMeansSome(es);
    i :| 0 <= i < |es| && IsDatabase(es[i]);
    assert AllowedEntry(mode, limits, es[i]);
    forall j | 0 <= j < |es| && IsDatabase(es[j])
      ensures j == i
    {
      assert AllowedEntry(mode, limits, es[j]);
      assert Target(es[j].meta.path) == Target(es[i].meta.path);
    }
  }
}
