/** The record sequences an archive may contain, stated without the reader, and the proof that the
    reader accepts exactly those. */
module ArchiveGrammar {
  import opened Wrappers
  import opened Bytes
  import opened ArchivePaths
  import opened ArchiveFormat
  import opened ArchiveReader

  /** One archived file: its metadata record and the data records that follow. */
  datatype Entry = Entry(meta: EntryMeta, chunks: seq<Bytes>)

  function Data(e: Entry): Bytes {
    Flatten(e.chunks)
  }

  function MetaBytes(meta: EntryMeta): Bytes {
    match EncodeEntry(meta) case Ok(bs) => bs case Err(_) => []
  }

  function DataRecords(chunks: seq<Bytes>): (rs: seq<Record>)
    ensures |rs| == |chunks|
  {
    seq(|chunks|, i requires 0 <= i < |chunks| => Record(RECORD_DATA, chunks[i]))
  }

  function PrintEntry(e: Entry): seq<Record> {
    [Record(RECORD_ENTRY, MetaBytes(e.meta))] + DataRecords(e.chunks)
  }

  function PrintEntries(es: seq<Entry>): seq<Record> {
    if es == [] then [] else PrintEntries(es[..|es| - 1]) + PrintEntry(es[|es| - 1])
  }

  function KeyRecords(key: Option<Bytes>): (rs: seq<Record>)
    ensures |rs| == if key.Some? then 1 else 0
  {
    match key case None => [] case Some(k) => [Record(RECORD_KEY_CAPSULE, KEY_CAPSULE_MAGIC + k)]
  }

  function EndRecord(es: seq<Entry>): Record {
    Record(RECORD_END, LittleEndian(|es|, 8) + LittleEndian(TotalSize(es), 8))
  }

  /** [capsule] (entry data*)* end */
  function PrintArchive(key: Option<Bytes>, es: seq<Entry>): seq<Record> {
    KeyRecords(key) + PrintEntries(es) + [EndRecord(es)]
  }

  function TotalSize(es: seq<Entry>): nat {
    if es == [] then 0 else TotalSize(es[..|es| - 1]) + es[|es| - 1].meta.size
  }

  function FilesOf(es: seq<Entry>): Tree {
    if es == [] then map[] else FilesOf(es[..|es| - 1])[Target(es[|es| - 1].meta.path) := Data(es[|es| - 1])]
  }

  predicate IsDatabase(e: Entry) {
    StartsWith(e.meta.path, DATABASE_PREFIX)
  }

  predicate HasDatabase(es: seq<Entry>) {
    es != [] && (HasDatabase(es[..|es| - 1]) || IsDatabase(es[|es| - 1]))
  }

  predicate Complete(c: Crypto, e: Entry) {
    |Data(e)| == e.meta.size && c.digest(Data(e)) == e.meta.digest
  }

  /** Conditions on one entry taken alone. */
  predicate AllowedEntry(mode: Mode, limits: Limits, e: Entry) {
    && ValidMeta(e.meta)
    && NamesAFile(e.meta.path)
    && (IsDatabase(e) ==> e.meta.path == DatabaseOf(mode))
    && e.meta.size <= limits.entryPlaintext
    && |Data(e)| <= e.meta.size
    && (forall d <- e.chunks :: 0 < |d| <= MAX_RECORD_PLAINTEXT)
  }

  predicate DistinctTargets(es: seq<Entry>) {
    forall i, j :: 0 <= i < j < |es| ==> !Clash(Target(es[i].meta.path), Target(es[j].meta.path))
  }

  predicate AllAllowed(mode: Mode, limits: Limits, es: seq<Entry>) {
    forall i :: 0 <= i < |es| ==> AllowedEntry(mode, limits, es[i])
  }

  predicate EarlierComplete(c: Crypto, es: seq<Entry>) {
    forall i :: 0 <= i < |es| - 1 ==> Complete(c, es[i])
  }

  /** Entries read so far; the last one may still be receiving data. */
  ghost predicate SoFar(c: Crypto, mode: Mode, limits: Limits, es: seq<Entry>) {
    && AllAllowed(mode, limits, es)
    && EarlierComplete(c, es)
    && DistinctTargets(es)
    && |es| <= limits.entries
    && TotalSize(es) <= limits.totalPlaintext
  }

  /** A whole archive body: every entry complete, the database present, the key present iff portable. */
  ghost predicate WellFormed(c: Crypto, mode: Mode, limits: Limits, key: Option<Bytes>, es: seq<Entry>) {
    && SoFar(c, mode, limits, es)
    && (forall i :: 0 <= i < |es| ==> Complete(c, es[i]))
    && HasDatabase(es)
    && (key.Some? <==> mode == Portable)
    && (key.Some? ==> |key.value| == KEY_LEN)
    && |PrintArchive(key, es)| <= limits.records
  }

  ghost predicate Reachable(c: Crypto, mode: Mode, limits: Limits, key: Option<Bytes>, es: seq<Entry>) {
    && SoFar(c, mode, limits, es)
    && (key.Some? ==> mode == Portable && |key.value| == KEY_LEN)
    && (es != [] && mode == Portable ==> key.Some?)
  }

  /** The reader's state after the records of `key` and `es`. */
  function StateOf(key: Option<Bytes>, es: seq<Entry>): State {
    State(|KeyRecords(key)| + |PrintEntries(es)|,
          if es == [] then None else Some(ActiveOf(es[|es| - 1])),
          |es|, TotalSize(es), key, HasDatabase(es), FilesOf(es))
  }

  function ActiveOf(e: Entry): Active {
    Active(Target(e.meta.path), e.meta.size, e.meta.digest, |Data(e)|, Data(e))
  }

  function AddChunk(es: seq<Entry>, d: Bytes): seq<Entry>
    requires es != []
  {
    es[..|es| - 1] + [es[|es| - 1].(chunks := es[|es| - 1].chunks + [d])]
  }

  // ------------------------------------------------------------ one step

  lemma AppendEntry(es: seq<Entry>, e: Entry)
    ensures PrintEntries(es + [e]) == PrintEntries(es) + PrintEntry(e)
    ensures TotalSize(es + [e]) == TotalSize(es) + e.meta.size
    ensures FilesOf(es + [e]) == FilesOf(es)[Target(e.meta.path) := Data(e)]
    ensures HasDatabase(es + [e]) <==> HasDatabase(es) || IsDatabase(e)
  {
    assert (es + [e])[..|es|] == es;
  }

  lemma {:induction false} FileOf(es: seq<Entry>, t: Path)
    ensures t in FilesOf(es) <==> exists i :: 0 <= i < |es| && Target(es[i].meta.path) == t
  {
    hide Target, Data;
    if es != [] {
      var front, last := es[..|es| - 1], es[|es| - 1];
      FileOf(front, t);
      assert FilesOf(es) == FilesOf(front)[Target(last.meta.path) := Data(last)];
      if t in FilesOf(front) {
        var i :| 0 <= i < |front| && Target(front[i].meta.path) == t;
        assert Target(es[i].meta.path) == t;
      }
      if i :| 0 <= i < |es| && Target(es[i].meta.path) == t {
        assert i < |front| ==> Target(front[i].meta.path) == t;
      }
    }
  }

  lemma FilesOfKeys(es: seq<Entry>)
    ensures forall t {:trigger t in FilesOf(es)} :: t in FilesOf(es) <==> exists i :: 0 <= i < |es| && Target(es[i].meta.path) == t
  {
    hide Target, FilesOf;
    forall t {:trigger t in FilesOf(es)}
      ensures t in FilesOf(es) <==> exists i :: 0 <= i < |es| && Target(es[i].meta.path) == t
    {
      FileOf(es, t);
    }
  }

  lemma FlattenAppend(chunks: seq<Bytes>, d: Bytes)
    ensures Flatten(chunks + [d]) == Flatten(chunks) + d
  {
    assert (chunks + [d])[..|chunks|] == chunks;
  }

  predicate Creatable(files: Tree, t: Path) {
    t !in files && !IsDirectory(files, t) && !IsBelowAFile(files, t)
  }

  /** A further path may be created exactly when it clashes with no path already there. */
  lemma CreatableIffNoClash(es: seq<Entry>, path: Bytes)
    ensures Creatable(FilesOf(es), Target(path)) <==> NoClash(es, Target(path))
  {
    FilesOfKeys(es);
    var t := Target(path);
    if i :| 0 <= i < |es| && Clash(Target(es[i].meta.path), t) {
      assert Target(es[i].meta.path) in FilesOf(es);
    }
  }

  predicate EntryConditions(mode: Mode, limits: Limits, st: State, meta: EntryMeta) {
    && NamesAFile(meta.path)
    && (StartsWith(meta.path, DATABASE_PREFIX) ==> !st.databaseSeen && meta.path == DatabaseOf(mode))
    && st.entryCount + 1 <= limits.entries
    && meta.size <= limits.entryPlaintext
    && st.totalBytes + meta.size <= limits.totalPlaintext
    && Creatable(st.files, Target(meta.path))
  }

  lemma OpenEntryCases(mode: Mode, limits: Limits, st: State, meta: EntryMeta)
    ensures OpenEntry(mode, limits, st, meta).Ok? <==> EntryConditions(mode, limits, st, meta)
    ensures EntryConditions(mode, limits, st, meta) ==>
              OpenEntry(mode, limits, st, meta) == Ok(Continue(st.(
                active := Some(Active(Target(meta.path), meta.size, meta.digest, 0, [])),
                entryCount := st.entryCount + 1,
                totalBytes := st.totalBytes + meta.size,
                databaseSeen := st.databaseSeen || StartsWith(meta.path, DATABASE_PREFIX),
                files := st.files[Target(meta.path) := []])))
  {
    hide Target, IsDirectory, IsBelowAFile, NamesAFile, StartsWith, DatabaseOf;
  }

  lemma EntryConditionsAreTheGrammar(c: Crypto, mode: Mode, limits: Limits, key: Option<Bytes>, es: seq<Entry>, meta: EntryMeta, index: nat)
    requires Reachable(c, mode, limits, key, es)
    requires ValidMeta(meta)
    ensures EntryConditions(mode, limits, StateOf(key, es).(index := index), meta) && (es != [] ==> Complete(c, es[|es| - 1]))
            <==> SoFar(c, mode, limits, es + [Entry(meta, [])])
  {
    hide Creatable, NoClash, ValidMeta, NamesAFile, SoFar, Target, TotalSize, FilesOf, HasDatabase, PrintEntries;
    var e := Entry(meta, []);
    SoFarGrows(c, mode, limits, es, e);
    CreatableIffNoClash(es, meta.path);
    if IsDatabase(e) && meta.path == DatabaseOf(mode) && StateOf(key, es).databaseSeen {
      DatabaseSeenMeansClash(c, mode, limits, es, e);
    }
  }

  lemma StateAfterEntry(key: Option<Bytes>, es: seq<Entry>, meta: EntryMeta)
    ensures StateOf(key, es + [Entry(meta, [])]) == StateOf(key, es).(
              index := StateOf(key, es).index + 1,
              active := Some(Active(Target(meta.path), meta.size, meta.digest, 0, [])),
              entryCount := |es| + 1,
              totalBytes := TotalSize(es) + meta.size,
              databaseSeen := StateOf(key, es).databaseSeen || StartsWith(meta.path, DATABASE_PREFIX),
              files := FilesOf(es)[Target(meta.path) := []])
  {
    hide Target, PrintEntries, PrintEntry, TotalSize, FilesOf, HasDatabase, Data, ActiveOf, StartsWith, KeyRecords;
    var e := Entry(meta, []);
    var next := es + [e];
    AppendEntry(es, e);
    EntryWithoutData(meta);
    assert next != [] && next[|next| - 1] == e;
  }

  lemma EntryWithoutData(meta: EntryMeta)
    ensures var e := Entry(meta, []);
            && Data(e) == [] && |PrintEntry(e)| == 1
            && ActiveOf(e) == Active(Target(meta.path), meta.size, meta.digest, 0, [])
  {
    hide Target, MetaBytes;
  }

  lemma EntryStepAfterDecoding(c: Crypto, mode: Mode, limits: Limits, st: State, meta: EntryMeta, plain: Bytes)
    requires DecodeEntry(plain) == Ok(meta)
    requires mode == Portable ==> st.masterKey.Some?
    ensures FinishEntry(c, st.active).Ok? ==> EntryStep(c, mode, limits, st, plain) == OpenEntry(mode, limits, st, meta)
    ensures FinishEntry(c, st.active).Err? ==> EntryStep(c, mode, limits, st, plain).Err?
  {
  }

  /** An entry record is accepted exactly when the previous entry is complete and the list it
      extends still satisfies the grammar. */
  lemma EntryRecordStep(c: Crypto, mode: Mode, limits: Limits, key: Option<Bytes>, es: seq<Entry>, meta: EntryMeta, plain: Bytes)
    requires Reachable(c, mode, limits, key, es)
    requires mode == Portable ==> key.Some?
    requires DecodeEntry(plain) == Ok(meta)
    ensures var next := es + [Entry(meta, [])];
            var step := EntryStep(c, mode, limits, StateOf(key, es).(index := StateOf(key, es).index + 1), plain);
            && (step.Ok? <==> SoFar(c, mode, limits, next))
            && (step.Ok? ==> step == Ok(Continue(StateOf(key, next))))
  {
    hide SoFar, Reachable, ValidMeta, DecodeEntry, EntryConditions, OpenEntry, EntryStep, Target, StartsWith,
         PrintEntries, TotalSize, FilesOf, HasDatabase;
    var st := StateOf(key, es).(index := StateOf(key, es).index + 1);
    assert ValidMeta(meta) by {
      EntryCodec(meta, plain);
    }
    EntryStepAfterDecoding(c, mode, limits, st, meta, plain);
    OpenEntryCases(mode, limits, st, meta);
    EntryConditionsAreTheGrammar(c, mode, limits, key, es, meta, st.index);
    StateAfterEntry(key, es, meta);
  }

  lemma {:induction false} HasDatabaseMeansSome(es: seq<Entry>)
    ensures HasDatabase(es) <==> exists i :: 0 <= i < |es| && IsDatabase(es[i])
  {
    if es != [] {
      var front := es[..|es| - 1];
      HasDatabaseMeansSome(front);
      assert forall i :: 0 <= i < |front| ==> front[i] == es[i];
    }
  }

  lemma DatabaseSeenMeansClash(c: Crypto, mode: Mode, limits: Limits, es: seq<Entry>, e: Entry)
    requires SoFar(c, mode, limits, es)
    requires IsDatabase(e) && e.meta.path == DatabaseOf(mode)
    requires HasDatabase(es)
    ensures !NoClash(es, Target(e.meta.path))
  {
    hide Target, HasDatabase, EarlierComplete, DistinctTargets, TotalSize, ValidMeta, NamesAFile, DatabaseOf;
    HasDatabaseMeansSome(es);
    var i :| 0 <= i < |es| && IsDatabase(es[i]);
    assert AllowedEntry(mode, limits, es[i]);
    assert Target(es[i].meta.path) == Target(e.meta.path);
  }

  lemma AllAllowedGrows(mode: Mode, limits: Limits, es: seq<Entry>, e: Entry)
    ensures AllAllowed(mode, limits, es + [e]) <==> AllAllowed(mode, limits, es) && AllowedEntry(mode, limits, e)
  {
    var next := es + [e];
    assert next[|es|] == e;
    if AllAllowed(mode, limits, next) {
      forall i | 0 <= i < |es|
        ensures AllowedEntry(mode, limits, es[i])
      {
        assert next[i] == es[i];
      }
    }
  }

  lemma EarlierCompleteGrows(c: Crypto, es: seq<Entry>, e: Entry)
    requires EarlierComplete(c, es)
    ensures EarlierComplete(c, es + [e]) <==> (es != [] ==> Complete(c, es[|es| - 1]))
  {
    var next := es + [e];
    assert es != [] ==> next[|es| - 1] == es[|es| - 1];
    assert forall i :: 0 <= i < |es| ==> next[i] == es[i];
  }

  predicate NoClash(es: seq<Entry>, t: Path) {
    forall i :: 0 <= i < |es| ==> !Clash(Target(es[i].meta.path), t)
  }

  lemma DistinctTargetsGrow(es: seq<Entry>, e: Entry)
    requires DistinctTargets(es)
    ensures DistinctTargets(es + [e]) <==> NoClash(es, Target(e.meta.path))
  {
    var next := es + [e];
    assert next[|es|] == e;
    assert forall i :: 0 <= i < |es| ==> next[i] == es[i];
    if DistinctTargets(next) {
      forall i | 0 <= i < |es|
        ensures !Clash(Target(es[i].meta.path), Target(e.meta.path))
      {
        assert !Clash(Target(next[i].meta.path), Target(next[|es|].meta.path));
      }
    }
  }

  lemma SoFarGrows(c: Crypto, mode: Mode, limits: Limits, es: seq<Entry>, e: Entry)
    requires SoFar(c, mode, limits, es)
    ensures SoFar(c, mode, limits, es + [e]) <==>
            && AllowedEntry(mode, limits, e)
            && (es != [] ==> Complete(c, es[|es| - 1]))
            && NoClash(es, Target(e.meta.path))
            && |es| + 1 <= limits.entries
            && TotalSize(es) + e.meta.size <= limits.totalPlaintext
  {
    AppendEntry(es, e);
    AllAllowedGrows(mode, limits, es, e);
    EarlierCompleteGrows(c, es, e);
    DistinctTargetsGrow(es, e);
  }

  lemma SoFarShrinks(c: Crypto, mode: Mode, limits: Limits, es: seq<Entry>)
    requires es != [] && SoFar(c, mode, limits, es)
    ensures SoFar(c, mode, limits, es[..|es| - 1])
  {
    hide AllowedEntry, Complete, Clash;
    var front := es[..|es| - 1];
    assert forall i :: 0 <= i < |front| ==> front[i] == es[i];
  }

  /** What a further data record changes. */
  lemma AppendChunk(es: seq<Entry>, d: Bytes)
    requires es != []
    ensures var last := es[|es| - 1]; var t := Target(last.meta.path); var next := AddChunk(es, d);
            && |next| == |es|
            && Data(next[|es| - 1]) == Data(last) + d
            && PrintEntries(next) == PrintEntries(es) + [Record(RECORD_DATA, d)]
            && TotalSize(next) == TotalSize(es)
            && HasDatabase(next) == HasDatabase(es)
            && t in FilesOf(es) && FilesOf(es)[t] == Data(last)
            && FilesOf(next) == FilesOf(es)[t := Data(last) + d]
  {
    hide Target, MetaBytes, StartsWith, PrintEntries, TotalSize, HasDatabase, FilesOf, Flatten;
    var front, last := es[..|es| - 1], es[|es| - 1];
    var last' := last.(chunks := last.chunks + [d]);
    FlattenAppend(last.chunks, d);
    AppendEntry(front, last);
    AppendEntry(front, last');
    assert es == front + [last] && AddChunk(es, d) == front + [last'];
    assert DataRecords(last'.chunks) == DataRecords(last.chunks) + [Record(RECORD_DATA, d)];
    assert PrintEntry(last') == PrintEntry(last) + [Record(RECORD_DATA, d)];
    assert PrintEntries(front) + PrintEntry(last') == (PrintEntries(front) + PrintEntry(last)) + [Record(RECORD_DATA, d)];
  }

  lemma ChunkAllowed(mode: Mode, limits: Limits, e: Entry, d: Bytes)
    requires AllowedEntry(mode, limits, e) && |d| <= MAX_RECORD_PLAINTEXT
    ensures AllowedEntry(mode, limits, e.(chunks := e.chunks + [d])) <==> d != [] && |Data(e)| + |d| <= e.meta.size
  {
    hide ValidMeta, NamesAFile, StartsWith;
    FlattenAppend(e.chunks, d);
    var next := e.chunks + [d];
    assert next[|e.chunks|] == d;
    assert forall x <- e.chunks :: x in next;
  }

  lemma ChunkKeepsSoFar(c: Crypto, mode: Mode, limits: Limits, es: seq<Entry>, d: Bytes)
    requires es != [] && SoFar(c, mode, limits, es) && |d| <= MAX_RECORD_PLAINTEXT
    ensures SoFar(c, mode, limits, AddChunk(es, d))
            <==> d != [] && |Data(es[|es| - 1])| + |d| <= es[|es| - 1].meta.size
  {
    hide AllowedEntry, Complete, Clash, NoClash, Data, Target, AllAllowed, EarlierComplete, DistinctTargets, TotalSize;
    var front, last := es[..|es| - 1], es[|es| - 1];
    assert es == front + [last];
    AllAllowedGrows(mode, limits, front, last);
    SoFarShrinks(c, mode, limits, es);
    SoFarGrows(c, mode, limits, front, last);
    SoFarGrows(c, mode, limits, front, last.(chunks := last.chunks + [d]));
    ChunkAllowed(mode, limits, last, d);
  }

  lemma StateAfterChunk(key: Option<Bytes>, es: seq<Entry>, d: Bytes)
    requires es != []
    ensures var st := StateOf(key, es); var a := ActiveOf(es[|es| - 1]);
            && st.active == Some(a) && a.target in st.files
            && StateOf(key, AddChunk(es, d)) == st.(
                 index := st.index + 1,
                 active := Some(a.(written := a.written + |d|, hashed := a.hashed + d)),
                 files := st.files[a.target := st.files[a.target] + d])
  {
    hide Target, Data, PrintEntries, TotalSize, HasDatabase, FilesOf;
    AppendChunk(es, d);
  }

  /** A data record is accepted exactly when it is not empty, an entry is open, and the data still fits. */
  lemma DataRecordStep(c: Crypto, mode: Mode, limits: Limits, key: Option<Bytes>, es: seq<Entry>, d: Bytes)
    requires Reachable(c, mode, limits, key, es) && |d| <= MAX_RECORD_PLAINTEXT
    ensures var step := DataStep(StateOf(key, es).(index := StateOf(key, es).index + 1), d);
            && (step.Ok? <==> es != [] && d != [] && SoFar(c, mode, limits, AddChunk(es, d)))
            && (step.Ok? ==> step == Ok(Continue(StateOf(key, AddChunk(es, d)))))
  {
    hide SoFar, AddChunk, Data, Target, KeyRecords, PrintEntries, TotalSize, HasDatabase, FilesOf;
    if es != [] {
      ChunkKeepsSoFar(c, mode, limits, es, d);
      StateAfterChunk(key, es, d);
    }
  }

  lemma PairCodec(a: nat, b: nat, width: nat, plain: Bytes)
    requires a < Pow256(width) && b < Pow256(width)
    ensures |plain| == 2 * width && FromLittleEndian(plain[..width]) == a && FromLittleEndian(plain[width..]) == b
            <==> plain == LittleEndian(a, width) + LittleEndian(b, width)
  {
    hide LittleEndian, FromLittleEndian, Pow256;
    LittleEndianDecodes(a, width);
    LittleEndianDecodes(b, width);
    if plain == LittleEndian(a, width) + LittleEndian(b, width) {
      assert plain[..width] == LittleEndian(a, width);
      assert plain[width..] == LittleEndian(b, width);
    }
    if |plain| == 2 * width {
      LittleEndianEncodes(plain[..width]);
      LittleEndianEncodes(plain[width..]);
      assert plain == plain[..width] + plain[width..];
    }
  }

  lemma EndBytes(es: seq<Entry>, plain: Bytes)
    requires |es| < U64_LIMIT && TotalSize(es) < U64_LIMIT
    ensures |plain| == 16 && FromLittleEndian(plain[..8]) == |es| && FromLittleEndian(plain[8..]) == TotalSize(es)
            <==> Record(RECORD_END, plain) == EndRecord(es)
  {
    hide LittleEndian, FromLittleEndian, TotalSize;
    assert Pow256(8) == U64_LIMIT by {
      Pow256Values();
    }
    PairCodec(|es|, TotalSize(es), 8, plain);
  }

  /** The end record is accepted exactly when it closes a complete body and nothing follows it. */
  lemma EndRecordStep(c: Crypto, mode: Mode, limits: Limits, key: Option<Bytes>, es: seq<Entry>, plain: Bytes, atEnd: bool)
    requires Reachable(c, mode, limits, key, es)
    ensures var st := StateOf(key, es).(index := StateOf(key, es).index + 1);
            var step := EndStep(c, mode, st, plain, atEnd);
            && (step.Ok? <==>
                  && Record(RECORD_END, plain) == EndRecord(es) && atEnd && HasDatabase(es)
                  && Complete(c, es[|es| - 1]))
            && (step.Ok? ==> step == Ok(Finished(st)))
  {
    hide EndRecord, HasDatabase, Target, Data, PrintEntries, TotalSize, FilesOf, AllAllowed, EarlierComplete, DistinctTargets,
         FromLittleEndian, KeyRecords;
    EndBytes(es, plain);
    HasDatabaseIsNotEmpty(es);
  }

  lemma HasDatabaseIsNotEmpty(es: seq<Entry>)
    ensures HasDatabase(es) ==> es != []
  {
  }

  /** The capsule is accepted only as the first record, and only in portable mode. */
  lemma KeyCapsuleRecordStep(c: Crypto, mode: Mode, limits: Limits, key: Option<Bytes>, es: seq<Entry>, plain: Bytes)
    requires Reachable(c, mode, limits, key, es)
    ensures var step := KeyCapsuleStep(mode, StateOf(key, es).(index := StateOf(key, es).index + 1), plain);
            && (step.Ok? <==>
                  && mode == Portable && key.None? && es == []
                  && |plain| == 8 + KEY_LEN && KeyRecords(Some(plain[8..])) == [Record(RECORD_KEY_CAPSULE, plain)])
            && (step.Ok? ==> step == Ok(Continue(StateOf(Some(plain[8..]), []))))
  {
    hide SoFar, ActiveOf, PrintEntries, TotalSize, FilesOf, HasDatabase;
    StateBeforeEntries(es);
    if |plain| == 8 + KEY_LEN {
      CapsuleLayout(plain);
    }
  }

  lemma CapsuleLayout(plain: Bytes)
    requires |plain| == 8 + KEY_LEN
    ensures plain[..8] == KEY_CAPSULE_MAGIC <==> plain == KEY_CAPSULE_MAGIC + plain[8..]
  {
    assert plain == plain[..8] + plain[8..];
  }

  lemma StateBeforeEntries(es: seq<Entry>)
    ensures es != [] ==> |PrintEntries(es)| > 0
    ensures PrintEntries([]) == [] && TotalSize([]) == 0 && FilesOf([]) == map[] && !HasDatabase([])
  {
    hide Target, Data;
  }
}
