/** The archive writer and the limit check made before it runs. */
module ArchiveWriter {
  import opened Wrappers
  import opened Bytes
  import opened ArchivePaths
  import opened ArchiveFormat
  import opened ArchiveReader
  import opened ArchiveGrammar
  import opened ArchiveAcceptance

  /** A collected source: what was recorded when it was hashed, and the file's bytes when it is written. */
  datatype SourceEntry = SourceEntry(path: Bytes, size: nat, digest: Bytes, content: Bytes)

  datatype Summary = Summary(entryCount: nat, plaintextBytes: nat)

  function Min(a: nat, b: nat): nat {
    if a < b then a else b
  }

  /** The data cut into chunks of CHUNK_SIZE, the last one possibly shorter. */
  function ChunksOf(data: Bytes): (chunks: seq<Bytes>)
    decreases |data|
  {
    if data == [] then []
    else
      var start := (|data| - 1) / CHUNK_SIZE * CHUNK_SIZE;
      ChunksOf(data[..start]) + [data[start..]]
  }

  function CeilDiv(n: nat, d: nat): nat
    requires d > 0
  {
    n / d + (if n % d == 0 then 0 else 1)
  }

  function ArchivedEntry(e: SourceEntry): Entry {
    Entry(EntryMeta(e.path, e.size, e.digest), ChunksOf(e.content[..Min(e.size, |e.content|)]))
  }

  function Archived(entries: seq<SourceEntry>): (es: seq<Entry>)
    ensures |es| == |entries|
  {
    seq(|entries|, i requires 0 <= i < |entries| => ArchivedEntry(entries[i]))
  }

  // ------------------------------------------------------- validate_source_entries

  /** The records `write_archive` will emit: capsule, then per entry one metadata record and its chunks, then the end. */
  function EntryRecordCount(entries: seq<SourceEntry>): nat {
    if entries == [] then 0
    else EntryRecordCount(entries[..|entries| - 1]) + 1 + CeilDiv(entries[|entries| - 1].size, CHUNK_SIZE)
  }

  function SourceTotal(entries: seq<SourceEntry>): nat {
    if entries == [] then 0 else SourceTotal(entries[..|entries| - 1]) + entries[|entries| - 1].size
  }

  function CapsuleCount(version: nat): nat {
    if version == VERSION_2 then 1 else 0
  }

  predicate WithinLimits(entries: seq<SourceEntry>, version: nat, limits: Limits) {
    && |entries| <= limits.entries
    && (forall i :: 0 <= i < |entries| ==> entries[i].size <= limits.entryPlaintext)
    && SourceTotal(entries) <= limits.totalPlaintext
    && CapsuleCount(version) + EntryRecordCount(entries) + 1 <= limits.records
  }

  lemma {:induction false} TotalsGrow(entries: seq<SourceEntry>, n: nat)
    requires n <= |entries|
    ensures SourceTotal(entries[..n]) <= SourceTotal(entries)
    ensures EntryRecordCount(entries[..n]) <= EntryRecordCount(entries)
    decreases |entries|
  {
    if n == |entries| {
      assert entries[..n] == entries;
    } else {
      TotalsGrow(entries[..|entries| - 1], n);
      assert entries[..|entries| - 1][..n] == entries[..n];
    }
  }

  lemma CountsGrow(entries: seq<SourceEntry>, n: nat)
    requires n <= |entries|
    ensures SourceTotal(entries[..0]) == 0 && EntryRecordCount(entries[..0]) == 0
    ensures n < |entries| ==>
              && SourceTotal(entries[..n + 1]) == SourceTotal(entries[..n]) + entries[n].size
              && EntryRecordCount(entries[..n + 1]) == EntryRecordCount(entries[..n]) + 1 + CeilDiv(entries[n].size, CHUNK_SIZE)
  {
    hide CeilDiv;
    if n < |entries| {
      assert entries[..n + 1][..n] == entries[..n];
    }
  }

  /** The entry limits with the entry count taken out, as the writer checks them. */
  lemma OneEntryWithin(total: nat, size: nat, limits: Limits)
    ensures EnforceNewEntryLimits(0, total, size, limits.(entries := U64_LIMIT - 1)) ==
            if size <= limits.entryPlaintext && total + size <= limits.totalPlaintext then Ok((1, total + size)) else Err(LimitExceeded)
  {
  }

  method ValidateSourceEntries(entries: seq<SourceEntry>, version: nat, limits: Limits) returns (r: Result<(), BackupError>)
    ensures r.Ok? <==> WithinLimits(entries, version, limits)
    ensures r.Err? ==> r.error == LimitExceeded
  {
    hide SourceTotal, EntryRecordCount, CeilDiv, EnforceNewEntryLimits;
    if |entries| > limits.entries {
      return Err(LimitExceeded);
    }
    CountsGrow(entries, 0);
    var total := 0;
    var records := if version == VERSION_2 then 1 else 0;
    for i := 0 to |entries|
      invariant total == SourceTotal(entries[..i]) && total < U64_LIMIT
      invariant i > 0 ==> total <= limits.totalPlaintext
      invariant records == CapsuleCount(version) + EntryRecordCount(entries[..i]) && records < U64_LIMIT
      invariant forall j :: 0 <= j < i ==> entries[j].size <= limits.entryPlaintext
    {
      CountsGrow(entries, i);
      TotalsGrow(entries, i + 1);
      OneEntryWithin(total, entries[i].size, limits);
      var next := EnforceNewEntryLimits(0, total, entries[i].size, limits.(entries := U64_LIMIT - 1));
      if next.Err? {
        return Err(next.error);
      }
      total := next.value.1;
      var chunks := CeilDiv(entries[i].size, CHUNK_SIZE);
      records := records + 1 + chunks;
      if records >= U64_LIMIT {
        return Err(LimitExceeded);
      }
    }
    assert entries[..|entries|] == entries;
    records := records + 1;
    if records >= U64_LIMIT || records > limits.records {
      return Err(LimitExceeded);
    }
    return Ok(());
  }

  // ----------------------------------------------------------------- write_archive

  /** What the writer needs of its arguments and of the files it reads back. */
  predicate Writable(entries: seq<SourceEntry>, version: nat, masterKey: Option<Bytes>) {
    && ((version == VERSION_1 && masterKey.None?) || (version == VERSION_2 && masterKey.Some?))
    && (forall i :: 0 <= i < |entries| ==> |entries[i].path| < 0x1_0000 && entries[i].size <= |entries[i].content|)
  }

  /** Neither the index of a record nor the total size overflows 64 bits. */
  predicate CountsFit(entries: seq<SourceEntry>, version: nat) {
    CapsuleCount(version) + EntryRecordCount(entries) < U64_LIMIT && SourceTotal(entries) < U64_LIMIT
  }

  predicate AtBoundary(at: nat) {
    at % CHUNK_SIZE == 0
  }

  lemma NextBoundary(at: nat)
    requires AtBoundary(at)
    ensures AtBoundary(at + CHUNK_SIZE)
  {
  }

  lemma BoundaryAtZero()
    ensures AtBoundary(0)
  {
  }

  /** Reading on from a chunk boundary adds one chunk. */
  lemma ChunksOfPrefix(data: Bytes, at: nat)
    requires at < |data| && AtBoundary(at)
    ensures var n := Min(|data| - at, CHUNK_SIZE);
            ChunksOf(data[..at + n]) == ChunksOf(data[..at]) + [data[at..at + n]]
  {
    var n := Min(|data| - at, CHUNK_SIZE);
    var whole := data[..at + n];
    LastChunkStart(at, n);
    assert whole[..at] == data[..at] && whole[at..] == data[at..at + n];
  }

  lemma LastChunkStart(at: nat, n: nat)
    requires at % CHUNK_SIZE == 0 && 0 < n <= CHUNK_SIZE
    ensures (at + n - 1) / CHUNK_SIZE * CHUNK_SIZE == at
  {
  }

  lemma CeilDivSteps(n: nat)
    requires n > 0
    ensures var start := (n - 1) / CHUNK_SIZE * CHUNK_SIZE;
            && 0 <= start < n <= start + CHUNK_SIZE
            && CeilDiv(n, CHUNK_SIZE) == CeilDiv(start, CHUNK_SIZE) + 1
    ensures CeilDiv(0, CHUNK_SIZE) == 0
  {
  }

  lemma FlattenOfNone()
    ensures Flatten([]) == []
  {
  }

  /** Cutting into chunks loses nothing, leaves no chunk empty or oversized, and makes the counted number of them. */
  lemma {:induction false} ChunksOfShape(data: Bytes)
    ensures Flatten(ChunksOf(data)) == data
    ensures |ChunksOf(data)| == CeilDiv(|data|, CHUNK_SIZE)
    ensures forall d <- ChunksOf(data) :: 0 < |d| <= CHUNK_SIZE
    decreases |data|
  {
    hide CeilDiv, Flatten;
    if data == [] {
      assert Flatten([]) == [] by {
        FlattenOfNone();
      }
      CeilDivSteps(1);
    } else {
      CeilDivSteps(|data|);
      var start := (|data| - 1) / CHUNK_SIZE * CHUNK_SIZE;
      ChunksOfShape(data[..start]);
      FlattenAppend(ChunksOf(data[..start]), data[start..]);
      assert data == data[..start] + data[start..];
    }
  }

  lemma ArchivedAppend(entries: seq<SourceEntry>, n: nat)
    requires n < |entries|
    ensures Archived(entries[..n + 1]) == Archived(entries[..n]) + [ArchivedEntry(entries[n])]
    ensures SourceTotal(entries[..n + 1]) == SourceTotal(entries[..n]) + entries[n].size
    ensures EntryRecordCount(entries[..n + 1]) == EntryRecordCount(entries[..n]) + 1 + CeilDiv(entries[n].size, CHUNK_SIZE)
  {
    assert entries[..n + 1][..n] == entries[..n];
  }

  lemma CountsOfNone(entries: seq<SourceEntry>)
    ensures Archived(entries[..0]) == [] && SourceTotal(entries[..0]) == 0 && EntryRecordCount(entries[..0]) == 0
  {
  }

  lemma FramesSnoc(c: Crypto, s: Session, records: seq<Record>, r: Record)
    ensures Frames(c, s, 0, records + [r]) == Frames(c, s, 0, records) + Frame(c, s, |records|, r)
  {
    hide Frame;
    FramesAppend(c, s, 0, records, [r]);
    assert Frames(c, s, |records| + 1, []) == [];
    assert Frames(c, s, |records|, [r]) == Frame(c, s, |records|, r);
  }

  lemma DataRecordsSnoc(before: seq<Record>, chunks: seq<Bytes>, chunk: Bytes)
    ensures before + DataRecords(chunks + [chunk]) == (before + DataRecords(chunks)) + [Record(RECORD_DATA, chunk)]
    ensures before + DataRecords([]) == before
  {
  }

  /** The inner loop of `write_archive`: the entry's file, one data record a chunk. */
  method WriteData(c: Crypto, s: Session, e: SourceEntry, index0: nat, output0: Bytes, ghost before: seq<Record>)
    returns (r: Result<nat, BackupError>, output: Bytes)
    requires output0 == s.header + Frames(c, s, 0, before) && index0 == |before| < U64_LIMIT
    ensures r.Ok? <==> e.size <= |e.content| && |before| + CeilDiv(e.size, CHUNK_SIZE) < U64_LIMIT
    ensures r.Ok? ==>
              && e.size <= |e.content|
              && output == s.header + Frames(c, s, 0, before + DataRecords(ChunksOf(e.content[..e.size])))
              && r.value == |before| + CeilDiv(e.size, CHUNK_SIZE)
    ensures r.Err? ==> r.error == Io || r.error == InvalidInput
    ensures r == Err(Io) ==> e.size > |e.content|
    ensures r == Err(InvalidInput) ==> |before| + CeilDiv(e.size, CHUNK_SIZE) >= U64_LIMIT
  {
    hide Frames, Frame, ChunksOf, DataRecords, CeilDiv, AtBoundary;
    BoundaryAtZero();
    output := output0;
    var index := index0;
    var remaining := e.size;
    ghost var data := e.content[..Min(e.size, |e.content|)];
    ghost var written := [];
    assert ChunksOf(data[..0]) == [] by {
      ChunksOfShape(data[..0]);
    }
    DataRecordsSnoc(before, [], []);
    while remaining > 0
      invariant remaining <= e.size && e.size - remaining <= |data|
      invariant remaining > 0 ==> AtBoundary(e.size - remaining)
      invariant written == ChunksOf(data[..e.size - remaining])
      invariant index == |before| + |written| < U64_LIMIT
      invariant output == s.header + Frames(c, s, 0, before + DataRecords(written))
    {
      var at := e.size - remaining;
      var wanted := Min(remaining, CHUNK_SIZE);
      NextBoundary(at);
      if at + wanted > |e.content| {
        return Err(Io), output;
      }
      var chunk := e.content[at..at + wanted];
      var frame := WriteRecord(c, s, index, Record(RECORD_DATA, chunk));
      ghost var next := written + [chunk];
      DataRecordsSnoc(before, written, chunk);
      FramesSnoc(c, s, before + DataRecords(written), Record(RECORD_DATA, chunk));
      output := output + frame.value;
      if index + 1 >= U64_LIMIT {
        MoreChunks(data, at, e.size);
        return Err(InvalidInput), output;
      }
      index := index + 1;
      remaining := remaining - wanted;
      ChunksOfPrefix(data, at);
      assert data[at..at + wanted] == chunk;
      written := next;
    }
    ChunksOfShape(data);
    assert data[..e.size] == data;
    return Ok(index), output;
  }

  lemma MoreChunks(data: Bytes, at: nat, size: nat)
    requires at <= |data| && at < size && AtBoundary(at)
    ensures |ChunksOf(data[..at])| + 1 <= CeilDiv(size, CHUNK_SIZE)
  {
    hide ChunksOf;
    ChunksOfShape(data[..at]);
  }

  lemma {:induction false} CountedRecords(entries: seq<SourceEntry>)
    requires forall e <- entries :: e.size <= |e.content|
    ensures |PrintEntries(Archived(entries))| == EntryRecordCount(entries)
    ensures TotalSize(Archived(entries)) == SourceTotal(entries)
  {
    hide PrintEntries, TotalSize, EntryRecordCount, SourceTotal, FilesOf, HasDatabase, Archived, ArchivedEntry, PrintEntry, CeilDiv;
    if entries == [] {
      CountsOfNone(entries);
      StateBeforeEntries([]);
      assert entries[..0] == entries;
    } else {
      var n := |entries| - 1;
      assert entries[..n + 1] == entries;
      CountedRecords(entries[..n]);
      ArchivedAppend(entries, n);
      AppendEntry(Archived(entries[..n]), ArchivedEntry(entries[n]));
      CountedEntry(entries[n]);
    }
  }

  lemma CountedEntry(e: SourceEntry)
    requires e.size <= |e.content|
    ensures |PrintEntry(ArchivedEntry(e))| == 1 + CeilDiv(e.size, CHUNK_SIZE)
    ensures ArchivedEntry(e).meta.size == e.size
  {
    hide ChunksOf, CeilDiv, MetaBytes;
    ChunksOfShape(e.content[..e.size]);
  }

  function ModeOf(version: nat): Mode {
    if version == VERSION_2 then Portable else Legacy
  }

  lemma MetadataRecord(e: SourceEntry)
    requires |e.path| < 0x1_0000
    ensures EncodeEntry(EntryMeta(e.path, e.size, e.digest)) == Ok(MetaBytes(EntryMeta(e.path, e.size, e.digest)))
    ensures |MetaBytes(EntryMeta(e.path, e.size, e.digest))| == 2 + |e.path| + 8 + |e.digest|
  {
  }

  lemma RecordsWithEntry(key: Option<Bytes>, es: seq<Entry>, e: SourceEntry)
    requires e.size <= |e.content|
    ensures RecordsSoFar(key, es + [ArchivedEntry(e)])
            == RecordsSoFar(key, es) + [Record(RECORD_ENTRY, MetaBytes(EntryMeta(e.path, e.size, e.digest)))]
               + DataRecords(ChunksOf(e.content[..e.size]))
  {
    hide PrintEntries, KeyRecords, MetaBytes, ChunksOf, TotalSize, FilesOf, HasDatabase;
    AppendEntry(es, ArchivedEntry(e));
  }

  /** One turn of the outer loop: the metadata record and the entry's data. */
  method WriteEntry(c: Crypto, s: Session, e: SourceEntry, index0: nat, output0: Bytes, ghost key: Option<Bytes>, ghost es: seq<Entry>)
    returns (r: Result<nat, BackupError>, output: Bytes)
    requires output0 == s.header + Frames(c, s, 0, RecordsSoFar(key, es)) && index0 == |RecordsSoFar(key, es)|
    requires |e.digest| == DIGEST_LEN
    ensures r.Ok? <==> |e.path| < 0x1_0000 && e.size <= |e.content| && index0 + 1 + CeilDiv(e.size, CHUNK_SIZE) < U64_LIMIT
    ensures r.Ok? ==>
              && |e.path| < 0x1_0000 && e.size <= |e.content|
              && output == s.header + Frames(c, s, 0, RecordsSoFar(key, es + [ArchivedEntry(e)]))
              && r.value == index0 + 1 + CeilDiv(e.size, CHUNK_SIZE) == |RecordsSoFar(key, es + [ArchivedEntry(e)])|
    ensures r.Err? ==> r.error == Io || r.error == InvalidInput
    ensures r == Err(Io) ==> e.size > |e.content|
    ensures r == Err(InvalidInput) ==> |e.path| >= 0x1_0000 || index0 + 1 + CeilDiv(e.size, CHUNK_SIZE) >= U64_LIMIT
  {
    hide Frames, Frame, ChunksOf, MetaBytes, CeilDiv, KeyRecords, PrintEntries, EncodeEntry, TotalSize, FilesOf, HasDatabase,
         Flatten, Target;
    output := output0;
    var metadata := EncodeEntry(EntryMeta(e.path, e.size, e.digest));
    EncodeFailsOnLongPaths(e);
    if metadata.Err? {
      return Err(metadata.error), output;
    }
    MetadataRecord(e);
    var r0 := Record(RECORD_ENTRY, metadata.value);
    var frame := WriteRecord(c, s, index0, r0);
    ghost var before := RecordsSoFar(key, es);
    FramesSnoc(c, s, before, r0);
    output := output + frame.value;
    if index0 + 1 >= U64_LIMIT {
      return Err(InvalidInput), output;
    }
    r, output := WriteData(c, s, e, index0 + 1, output, before + [r0]);
    if r.Ok? {
      ChunksOfShape(e.content[..e.size]);
      AppendEntry(es, ArchivedEntry(e));
      RecordsWithEntry(key, es, e);
    }
  }

  method WriteKeyCapsule(c: Crypto, s: Session, masterKey: Option<Bytes>) returns (index: nat, output: Bytes)
    requires masterKey.Some? ==> |masterKey.value| == KEY_LEN
    ensures index == |KeyRecords(masterKey)|
    ensures output == s.header + Frames(c, s, 0, RecordsSoFar(masterKey, []))
  {
    hide Frame;
    output := s.header;
    index := 0;
    StateBeforeEntries([]);
    NoFrames(c, s, 0, []);
    assert RecordsSoFar(None, []) == [] && Frames(c, s, 0, []) == [];
    if masterKey.Some? {
      var capsule := Record(RECORD_KEY_CAPSULE, KEY_CAPSULE_MAGIC + masterKey.value);
      FramesSnoc(c, s, [], capsule);
      assert RecordsSoFar(masterKey, []) == [] + [capsule];
      var frame := WriteRecord(c, s, index, capsule);
      output := output + frame.value;
      index := index + 1;
    }
  }

  /** `write_archive`: emits exactly the archive of its entries, and succeeds exactly when version and key go together, the
      files still have their recorded size and nothing overflows, as when the limits were checked. */
  method WriteArchive(
    c: Crypto, entries: seq<SourceEntry>, passphrase: Bytes, version: nat, masterKey: Option<Bytes>, salt: Bytes, noncePrefix: Bytes)
    returns (r: Result<Summary, BackupError>, output: Bytes)
    requires |salt| == SALT_LEN && |noncePrefix| == NONCE_PREFIX_LEN
    requires masterKey.Some? ==> |masterKey.value| == KEY_LEN
    requires forall e <- entries :: |e.digest| == DIGEST_LEN
    ensures r.Ok? <==> Writable(entries, version, masterKey) && CountsFit(entries, version)
    ensures r.Ok? ==>
              && output == ArchiveBytes(c, SessionOf(c, ModeOf(version), passphrase, salt, noncePrefix), masterKey, Archived(entries))
              && r.value == Summary(|entries|, SourceTotal(entries))
    ensures WithinLimits(entries, version, DEFAULT_LIMITS) ==> CountsFit(entries, version)
    ensures r.Err? ==> r.error == Io || r.error == InvalidInput
    ensures r == Err(Io) ==> exists e <- entries :: e.size > |e.content|
    ensures r == Err(InvalidInput) ==>
              || (masterKey.Some? <==> version != 2) || (version != 1 && version != 2)
              || (exists e <- entries :: |e.path| >= 0x1_0000) || !CountsFit(entries, version)
  {
    hide Frames, Frame, ArchivedEntry, CeilDiv, HeaderBytes, KeyRecords, RecordsSoFar, LittleEndian, Archived,
         EntryRecordCount, SourceTotal;
    output := [];
    if !((version == VERSION_1 && masterKey.None?) || (version == VERSION_2 && masterKey.Some?)) {
      return Err(InvalidInput), output;
    }
    var header := EncodeHeader(version, salt, noncePrefix).value;
    var s := Session(header, noncePrefix, c.derive(passphrase, salt, ARGON_MEMORY_KIB, ARGON_ITERATIONS, ARGON_PARALLELISM));
    var index;
    index, output := WriteKeyCapsule(c, s, masterKey);
    RecordsBeforeEntries(masterKey);
    var totalBytes := 0;
    CountsOfNone(entries);
    for i := 0 to |entries|
      invariant index == |RecordsSoFar(masterKey, Archived(entries[..i]))| == CapsuleCount(version) + EntryRecordCount(entries[..i])
      invariant output == s.header + Frames(c, s, 0, RecordsSoFar(masterKey, Archived(entries[..i])))
      invariant totalBytes == SourceTotal(entries[..i]) < U64_LIMIT && index < U64_LIMIT
      invariant forall j :: 0 <= j < i ==> |entries[j].path| < 0x1_0000 && entries[j].size <= |entries[j].content|
    {
      var e := entries[i];
      assert e in entries;
      TotalsGrow(entries, i + 1);
      ArchivedAppend(entries, i);
      var next;
      next, output := WriteEntry(c, s, e, index, output, masterKey, Archived(entries[..i]));
      if next.Err? {
        return Err(next.error), output;
      }
      index := next.value;
      if totalBytes + e.size >= U64_LIMIT {
        return Err(InvalidInput), output;
      }
      totalBytes := totalBytes + e.size;
    }
    assert entries[..|entries|] == entries;
    var end := Record(RECORD_END, LittleEndian(|entries|, 8) + LittleEndian(totalBytes, 8));
    assert end == EndRecord(Archived(entries)) by {
      CountedRecords(entries);
    }
    var frame := WriteRecord(c, s, index, end);
    FramesSnoc(c, s, RecordsSoFar(masterKey, Archived(entries)), end);
    PrintArchiveIs(masterKey, Archived(entries));
    output := output + frame.value;
    return Ok(Summary(|entries|, totalBytes)), output;
  }

  lemma RecordsBeforeEntries(key: Option<Bytes>)
    ensures |RecordsSoFar(key, [])| == |KeyRecords(key)|
  {
  }

  lemma PrintArchiveIs(key: Option<Bytes>, es: seq<Entry>)
    ensures PrintArchive(key, es) == RecordsSoFar(key, es) + [EndRecord(es)]
  {
  }

  lemma EncodeFailsOnLongPaths(e: SourceEntry)
    ensures |e.path| >= 0x1_0000 ==> EncodeEntry(EntryMeta(e.path, e.size, e.digest)) == Err(InvalidInput)
    ensures |e.path| < 0x1_0000 ==> EncodeEntry(EntryMeta(e.path, e.size, e.digest)).Ok?
  {
  }
}
