/** Round trip, agreement of the two limit checks, and rejection of every altered archive. */
module ArchiveTheorems {
  import opened Wrappers
  import opened Bytes
  import opened ArchivePaths
  import opened ArchiveFormat
  import opened ArchiveReader
  import opened ArchiveGrammar
  import opened ArchiveAcceptance
  import opened ArchiveWriter

  /** A collected source whose file has not changed since it was hashed. */
  predicate GoodSource(c: Crypto, mode: Mode, e: SourceEntry) {
    && AcceptablePath(e.path)
    && NamesAFile(e.path)
    && (StartsWith(e.path, DATABASE_PREFIX) ==> e.path == DatabaseOf(mode))
    && e.size == |e.content|
    && e.digest == c.digest(e.content)
    && |e.digest| == DIGEST_LEN
  }

  /** What `collect_entries` gathers: the mode's database and files whose paths do not clash. */
  predicate GoodSources(c: Crypto, mode: Mode, entries: seq<SourceEntry>) {
    && (forall i :: 0 <= i < |entries| ==> GoodSource(c, mode, entries[i]))
    && (forall i, j :: 0 <= i < j < |entries| ==> !Clash(Target(entries[i].path), Target(entries[j].path)))
    && (exists i :: 0 <= i < |entries| && entries[i].path == DatabaseOf(mode))
  }

  predicate GoodKey(mode: Mode, key: Option<Bytes>) {
    (key.Some? <==> mode == Portable) && (key.Some? ==> |key.value| == KEY_LEN)
  }

  // ------------------------------------------- writer and reader limits agree

  lemma GoodSourceIsAllowed(c: Crypto, mode: Mode, limits: Limits, e: SourceEntry)
    requires GoodSource(c, mode, e) && e.size <= limits.entryPlaintext
    ensures AllowedEntry(mode, limits, ArchivedEntry(e)) && Complete(c, ArchivedEntry(e))
    ensures Data(ArchivedEntry(e)) == e.content
  {
    hide ChunksOf, AcceptablePath, NamesAFile, StartsWith, Flatten;
    ChunksOfShape(e.content);
    assert e.content[..e.size] == e.content;
  }

  lemma DatabaseSourceIsSeen(c: Crypto, mode: Mode, entries: seq<SourceEntry>)
    requires GoodSources(c, mode, entries)
    ensures HasDatabase(Archived(entries))
  {
    hide GoodSource, Clash, HasDatabase, ChunksOf, StartsWith, Ascii, Target;
    var i :| 0 <= i < |entries| && entries[i].path == DatabaseOf(mode);
    DatabaseNamesStart();
    HasDatabaseMeansSome(Archived(entries));
    assert IsDatabase(Archived(entries)[i]);
  }

  /** A source set within the writer's limits becomes an archive within the reader's: the record
      count is the one that was checked, and no entry, total or record limit is exceeded. */
  lemma LimitsAgree(c: Crypto, mode: Mode, limits: Limits, key: Option<Bytes>, entries: seq<SourceEntry>)
    requires GoodSources(c, mode, entries) && GoodKey(mode, key)
    requires WithinLimits(entries, VersionOf(mode), limits)
    ensures WellFormed(c, mode, limits, key, Archived(entries))
    ensures |PrintArchive(key, Archived(entries))| == CapsuleCount(VersionOf(mode)) + EntryRecordCount(entries) + 1
  {
    hide GoodSource, AllowedEntry, Complete, Clash, ChunksOf, PrintEntries, TotalSize, HasDatabase, EntryRecordCount, SourceTotal, Target;
    var es := Archived(entries);
    forall i | 0 <= i < |entries|
      ensures AllowedEntry(mode, limits, es[i]) && Complete(c, es[i])
    {
      GoodSourceIsAllowed(c, mode, limits, entries[i]);
    }
    assert forall e <- entries :: e.size <= |e.content| by {
      SizesMatch(c, mode, entries);
    }
    CountedRecords(entries);
    DatabaseSourceIsSeen(c, mode, entries);
    assert DistinctTargets(es);
  }

  lemma SizesMatch(c: Crypto, mode: Mode, entries: seq<SourceEntry>)
    requires GoodSources(c, mode, entries)
    ensures forall e <- entries :: e.size == |e.content| && |e.path| <= MAX_PATH_LEN && |e.digest| == DIGEST_LEN
  {
    hide Clash, Target, NamesAFile, StartsWith, ValidUtf8, Components;
  }

  function PlainTotal(records: seq<Record>): nat {
    if records == [] then 0 else PlainTotal(records[..|records| - 1]) + |records[|records| - 1].plain|
  }

  lemma PlainTotalSnoc(a: seq<Record>, r: Record)
    ensures PlainTotal(a + [r]) == PlainTotal(a) + |r.plain|
  {
    assert (a + [r])[..|a|] == a;
  }

  lemma PlainTotalOfNone()
    ensures PlainTotal([]) == 0
  {
  }

  lemma {:induction false} PlainTotalAppend(a: seq<Record>, b: seq<Record>)
    ensures PlainTotal(a + b) == PlainTotal(a) + PlainTotal(b)
  {
    hide PlainTotal;
    if b == [] {
      PlainTotalOfNone();
      assert a + b == a;
    } else {
      var front, last := b[..|b| - 1], b[|b| - 1];
      PlainTotalAppend(a, front);
      PlainTotalSnoc(a + front, last);
      PlainTotalSnoc(front, last);
      assert b == front + [last] && a + b == (a + front) + [last];
    }
  }

  lemma {:induction false} FramesLength(c: Crypto, s: Session, sealed: iset<Sealing>, records: seq<Record>)
    requires Ideal(c, sealed)
    ensures |Frames(c, s, 0, records)| == (RECORD_HEADER_LEN + TAG_LEN) * |records| + PlainTotal(records)
  {
    if records == [] {
    } else {
      hide Frames;
      var front, last := records[..|records| - 1], records[|records| - 1];
      FramesLength(c, s, sealed, front);
      assert records == front + [last];
      FramesSnoc(c, s, front, last);
      PlainTotalSnoc(front, last);
    }
  }

  lemma {:induction false} ChunksTotal(chunks: seq<Bytes>)
    ensures PlainTotal(DataRecords(chunks)) == |Flatten(chunks)|
  {
    if chunks != [] {
      var front, last := chunks[..|chunks| - 1], chunks[|chunks| - 1];
      ChunksTotal(front);
      assert DataRecords(chunks) == DataRecords(front) + [Record(RECORD_DATA, last)];
      PlainTotalSnoc(DataRecords(front), Record(RECORD_DATA, last));
    }
  }

  lemma {:induction false} EntriesTotal(c: Crypto, mode: Mode, limits: Limits, es: seq<Entry>)
    requires forall i :: 0 <= i < |es| ==> AllowedEntry(mode, limits, es[i])
    ensures PlainTotal(PrintEntries(es)) <= |es| * (2 + MAX_PATH_LEN + 8 + DIGEST_LEN) + TotalSize(es)
  {
    hide PrintEntries, PrintEntry, PlainTotal, TotalSize, FilesOf, HasDatabase, AllowedEntry, Target;
    if es == [] {
      StateBeforeEntries(es);
      assert PlainTotal([]) == 0 by {
        PlainTotalOfNone();
      }
    } else {
      var front, e := es[..|es| - 1], es[|es| - 1];
      assert es == front + [e];
      EntriesTotal(c, mode, limits, front);
      AppendEntry(front, e);
      EntryTotal(mode, limits, e);
      PlainTotalAppend(PrintEntries(front), PrintEntry(e));
    }
  }

  lemma EntryTotal(mode: Mode, limits: Limits, e: Entry)
    requires AllowedEntry(mode, limits, e)
    ensures PlainTotal(PrintEntry(e)) <= (2 + MAX_PATH_LEN + 8 + DIGEST_LEN) + e.meta.size
  {
    hide NamesAFile, StartsWith, Flatten, ValidUtf8, Components;
    assert 0 < |e.meta.path| <= MAX_PATH_LEN;
    var r0 := Record(RECORD_ENTRY, MetaBytes(e.meta));
    assert |r0.plain| <= 2 + MAX_PATH_LEN + 8 + DIGEST_LEN;
    ChunksTotal(e.chunks);
    assert PlainTotal([r0]) == |r0.plain| by {
      PlainTotalSnoc([], r0);
      assert [] + [r0] == [r0];
    }
    PlainTotalAppend([r0], DataRecords(e.chunks));
  }

  /** An archive within the default entry, record and total limits stays under the default archive size limit. */
  lemma ArchiveFits(c: Crypto, s: Session, sealed: iset<Sealing>, mode: Mode, key: Option<Bytes>, es: seq<Entry>)
    requires Ideal(c, sealed) && |s.header| == HEADER_LEN
    requires WellFormed(c, mode, DEFAULT_LIMITS, key, es)
    ensures |ArchiveBytes(c, s, key, es)| <= DEFAULT_LIMITS.archiveBytes
    ensures DEFAULT_LIMITS == Limits(10_737_418_240, 100_000, 1_000_000, 8_589_934_592, 4_294_967_296)
  {
    hide Ideal, Frames, PrintEntries, AllowedEntry, Complete, TotalSize, HasDatabase, DistinctTargets, EarlierComplete;
    var records := PrintArchive(key, es);
    FramesLength(c, s, sealed, records);
    EntriesTotal(c, mode, DEFAULT_LIMITS, es);
    PlainTotalSnoc(KeyRecords(key) + PrintEntries(es), EndRecord(es));
    PlainTotalAppend(KeyRecords(key), PrintEntries(es));
    KeyTotal(key);
    assert |EndRecord(es).plain| == 16;
    assert |records| <= 1_000_000 && |es| <= 100_000;
    assert |es| * (2 + MAX_PATH_LEN + 8 + DIGEST_LEN) <= 100_000 * 1066;
  }

  lemma KeyTotal(key: Option<Bytes>)
    requires key.Some? ==> |key.value| == KEY_LEN
    ensures PlainTotal(KeyRecords(key)) <= 40
  {
    if key.Some? {
      PlainTotalSnoc([], KeyRecords(key)[0]);
      assert [] + [KeyRecords(key)[0]] == KeyRecords(key);
    }
  }

  // ------------------------------------------------------------------ round trip

  /** The encryption calls made while writing an archive. */
  ghost function WriterSealings(s: Session, records: seq<Record>): iset<Sealing> {
    iset i | 0 <= i < |records| :: SealingOf(s, i, records[i])
  }

  lemma WriterSealsItsRecords(s: Session, records: seq<Record>, sealed: iset<Sealing>)
    requires WriterSealings(s, records) <= sealed
    ensures AllSealed(s, sealed, 0, records)
  {
    hide SealingOf;
    forall i | 0 <= i < |records|
      ensures SealingOf(s, 0 + i, records[i]) in sealed
    {
      assert SealingOf(s, i, records[i]) in WriterSealings(s, records);
    }
  }

  lemma {:induction false} FilesOfDistinct(es: seq<Entry>, i: nat)
    requires DistinctTargets(es) && i < |es|
    ensures Target(es[i].meta.path) in FilesOf(es) && FilesOf(es)[Target(es[i].meta.path)] == Data(es[i])
  {
    hide Target, Data;
    var front, last := es[..|es| - 1], es[|es| - 1];
    if i < |front| {
      assert forall j :: 0 <= j < |front| ==> front[j] == es[j];
      FilesOfDistinct(front, i);
      assert !Clash(Target(es[i].meta.path), Target(es[|es| - 1].meta.path));
    }
  }

  /** The restored tree is the source set as a map: these files and no others. */
  ghost predicate Mirrors(files: Tree, entries: seq<SourceEntry>) {
    && (forall i :: 0 <= i < |entries| ==> Target(entries[i].path) in files && files[Target(entries[i].path)] == entries[i].content)
    && (forall t :: t in files ==> exists i :: 0 <= i < |entries| && Target(entries[i].path) == t)
  }

  lemma FilesMirrorSources(c: Crypto, mode: Mode, limits: Limits, entries: seq<SourceEntry>)
    requires GoodSources(c, mode, entries) && WithinLimits(entries, VersionOf(mode), limits)
    ensures Mirrors(FilesOf(Archived(entries)), entries)
  {
    hide GoodSource, AllowedEntry, Complete, Clash, FilesOf, Target, Data, ChunksOf, SourceTotal, EntryRecordCount;
    var es := Archived(entries);
    assert DistinctTargets(es);
    forall i | 0 <= i < |entries|
      ensures Target(entries[i].path) in FilesOf(es) && FilesOf(es)[Target(entries[i].path)] == entries[i].content
    {
      FilesOfDistinct(es, i);
      GoodSourceIsAllowed(c, mode, limits, entries[i]);
    }
    FilesOfKeys(es);
  }

  /** Reading in the matching mode what `write_archive` wrote restores the same path-to-bytes map,
      the same summary and the same master key. */
  lemma BackupRoundTrip(
    c: Crypto, sealed: iset<Sealing>, mode: Mode, passphrase: Bytes, salt: Bytes, noncePrefix: Bytes,
    key: Option<Bytes>, entries: seq<SourceEntry>)
    requires |salt| == SALT_LEN && |noncePrefix| == NONCE_PREFIX_LEN
    requires GoodSources(c, mode, entries) && GoodKey(mode, key)
    requires WithinLimits(entries, VersionOf(mode), DEFAULT_LIMITS)
    requires Ideal(c, sealed)
    requires WriterSealings(SessionOf(c, mode, passphrase, salt, noncePrefix), PrintArchive(key, Archived(entries))) <= sealed
    ensures var archive := ArchiveBytes(c, SessionOf(c, mode, passphrase, salt, noncePrefix), key, Archived(entries));
            var restored := ReadArchive(c, archive, mode, passphrase, DEFAULT_LIMITS);
            && Writable(entries, VersionOf(mode), key)
            && restored.Ok?
            && restored.value.entryCount == |entries|
            && restored.value.plaintextBytes == SourceTotal(entries)
            && restored.value.masterKey == key
            && Mirrors(restored.value.files, entries)
  {
    hide Ideal, GoodSources, WellFormed, SessionOf, PrintArchive, Frames, ReadArchive, FilesOf, TotalSize, SourceTotal,
         EntryRecordCount, WithinLimits, Mirrors, WriterSealings, AllSealed, Archived;
    var s := SessionOf(c, mode, passphrase, salt, noncePrefix);
    var es := Archived(entries);
    LimitsAgree(c, mode, DEFAULT_LIMITS, key, entries);
    SessionOpens(c, mode, passphrase, salt, noncePrefix, [], DEFAULT_LIMITS);
    ArchiveFits(c, s, sealed, mode, key, es);
    WriterSealsItsRecords(s, PrintArchive(key, es), sealed);
    SizesMatch(c, mode, entries);
    CountedRecords(entries);
    FilesMirrorSources(c, mode, DEFAULT_LIMITS, entries);
    var archive := ArchiveBytes(c, s, key, es);
    assert IsSealedArchive(c, sealed, archive, mode, passphrase, DEFAULT_LIMITS, salt, noncePrefix, key, es);
    ReaderAcceptsExactlyTheGrammar(c, sealed, archive, mode, passphrase, DEFAULT_LIMITS,
                                   Restored(|es|, TotalSize(es), key, FilesOf(es)));
  }

  // --------------------------------------------------------------- alterations

  /** Equal sealings come from the same index, record and session: nonce and associated data bind all of it. */
  lemma SealingsAreInjective(s: Session, s': Session, i: nat, i': nat, r: Record, r': Record)
    requires SealingOf(s, i, r) == SealingOf(s', i', r')
    requires |s.header| == |s'.header| && |s.noncePrefix| == |s'.noncePrefix|
    requires i < U64_LIMIT && i' < U64_LIMIT
    ensures i == i' && r == r' && s == s'
  {
    hide LittleEndian, FromLittleEndian;
    var n, n' := RecordNonce(s.noncePrefix, i), RecordNonce(s'.noncePrefix, i');
    assert n[..|s.noncePrefix|] == s.noncePrefix && n'[..|s.noncePrefix|] == s'.noncePrefix;
    assert n[|s.noncePrefix|..] == LittleEndian(i, 8) && n'[|s.noncePrefix|..] == LittleEndian(i', 8);
    assert Pow256(8) == U64_LIMIT by {
      Pow256Values();
    }
    LittleEndianDecodes(i, 8);
    LittleEndianDecodes(i', 8);
    var h := EncodeRecordHeader(i, r.kind, |r.plain| + TAG_LEN);
    var h' := EncodeRecordHeader(i', r'.kind, |r'.plain| + TAG_LEN);
    assert (s.header + h)[..|s.header|] == s.header && (s'.header + h')[..|s.header|] == s'.header;
    assert (s.header + h)[|s.header|..] == h && (s'.header + h')[|s.header|..] == h';
    assert h[8] == r.kind && h'[8] == r'.kind;
  }

  /** The end record is the last record of an archive and no other. */
  lemma OnlyTheLastRecordIsTheEnd(key: Option<Bytes>, es: seq<Entry>)
    ensures var records := PrintArchive(key, es);
            forall i :: 0 <= i < |records| ==> (records[i].kind == RECORD_END <==> i == |records| - 1)
  {
    hide PrintEntries;
    NoEndAmongEntries(es);
  }

  lemma {:induction false} NoEndAmongEntries(es: seq<Entry>)
    ensures forall r <- PrintEntries(es) :: r.kind != RECORD_END
  {
    if es != [] {
      NoEndAmongEntries(es[..|es| - 1]);
    }
  }

  /** An archive as somebody wrote it. */
  datatype Written = Written(mode: Mode, passphrase: Bytes, salt: Bytes, noncePrefix: Bytes, key: Option<Bytes>, entries: seq<Entry>)

  function SessionFor(c: Crypto, w: Written): Session {
    SessionOf(c, w.mode, w.passphrase, w.salt, w.noncePrefix)
  }

  function RecordsOf(w: Written): seq<Record> {
    PrintArchive(w.key, w.entries)
  }

  function BytesOf(c: Crypto, w: Written): Bytes {
    ArchiveBytes(c, SessionFor(c, w), w.key, w.entries)
  }

  /** The encryption calls made while writing all of the archives. */
  ghost function AllSealings(c: Crypto, archives: seq<Written>): iset<Sealing> {
    iset k, i | 0 <= k < |archives| && 0 <= i < |RecordsOf(archives[k])| :: SealingOf(SessionFor(c, archives[k]), i, RecordsOf(archives[k])[i])
  }

  predicate Proper(w: Written) {
    |w.salt| == SALT_LEN && |w.noncePrefix| == NONCE_PREFIX_LEN && |RecordsOf(w)| < U64_LIMIT
  }

  /** No two archives share both header and key; distinct salts or nonce prefixes are enough. */
  predicate Separate(c: Crypto, archives: seq<Written>) {
    && (forall k :: 0 <= k < |archives| ==> Proper(archives[k]))
    && (forall k, l :: 0 <= k < l < |archives| ==> SessionFor(c, archives[k]) != SessionFor(c, archives[l]))
  }

  /** Where a sealed record of some session comes from. */
  lemma SealedRecordBelongs(c: Crypto, archives: seq<Written>, s: Session, i: nat, r: Record) returns (k: nat)
    requires Separate(c, archives) && |s.header| == HEADER_LEN && |s.noncePrefix| == NONCE_PREFIX_LEN && i < U64_LIMIT
    requires SealingOf(s, i, r) in AllSealings(c, archives)
    ensures k < |archives| && SessionFor(c, archives[k]) == s && i < |RecordsOf(archives[k])| && RecordsOf(archives[k])[i] == r
  {
    hide SealingOf, SessionOf, PrintArchive;
    var l, j :| 0 <= l < |archives| && 0 <= j < |RecordsOf(archives[l])|
                && SealingOf(s, i, r) == SealingOf(SessionFor(c, archives[l]), j, RecordsOf(archives[l])[j]);
    var w := archives[l];
    SessionShape(c, w.mode, w.passphrase, w.salt, w.noncePrefix);
    assert Proper(w);
    SealingsAreInjective(s, SessionFor(c, w), i, j, r, RecordsOf(w)[j]);
    k := l;
  }

  /** With any number of archives sealed under separate sessions, the reader accepts no byte string but one of them,
      in its own mode: nothing can be spliced together from their records. */
  lemma OnlyWrittenArchivesAreAccepted(
    c: Crypto, archives: seq<Written>, input: Bytes, mode: Mode, passphrase: Bytes, limits: Limits) returns (k: nat)
    requires Separate(c, archives)
    requires Ideal(c, AllSealings(c, archives))
    requires ReadArchive(c, input, mode, passphrase, limits).Ok?
    ensures k < |archives| && input == BytesOf(c, archives[k]) && mode == archives[k].mode
    ensures c.derive(passphrase, archives[k].salt, 19_456, 2, 1) == c.derive(archives[k].passphrase, archives[k].salt, 19_456, 2, 1)
  {
    hide Ideal, ReadArchive, SessionOf, PrintArchive, Frames, SealingOf, TotalSize, FilesOf, SoFar, HasDatabase, Complete, AllSealings,
         Proper;
    var sealed := AllSealings(c, archives);
    ReaderAcceptsExactlyTheGrammar(c, sealed, input, mode, passphrase, limits, ReadArchive(c, input, mode, passphrase, limits).value);
    var salt, prefix, key, es :| IsSealedArchive(c, sealed, input, mode, passphrase, limits, salt, prefix, key, es);
    var s := SessionOf(c, mode, passphrase, salt, prefix);
    var records := PrintArchive(key, es);
    SessionShape(c, mode, passphrase, salt, prefix);
    ArchiveIsNotEmpty(key, es);
    assert SealingOf(s, 0 + 0, records[0]) in sealed;
    k := SealedRecordBelongs(c, archives, s, 0, records[0]);
    var w := archives[k];
    forall i | 0 <= i < |records|
      ensures i < |RecordsOf(w)| && RecordsOf(w)[i] == records[i]
    {
      assert SealingOf(s, 0 + i, records[i]) in sealed;
      var l := SealedRecordBelongs(c, archives, s, i, records[i]);
      assert l == k;
    }
    var last := records[|records| - 1];
    assert |records| - 1 < |RecordsOf(w)|;
    assert records == RecordsOf(w)[..|records|];
    SameUpToTheEnd(key, es, w.key, w.entries);
    ProperShape(w);
    SessionTellsAll(c, mode, passphrase, salt, prefix, w.mode, w.passphrase, w.salt, w.noncePrefix);
  }

  lemma SameUpToTheEnd(key: Option<Bytes>, es: seq<Entry>, key': Option<Bytes>, es': seq<Entry>)
    requires PrintArchive(key, es) <= PrintArchive(key', es')
    ensures PrintArchive(key, es) == PrintArchive(key', es')
  {
    hide PrintArchive;
    ArchiveIsNotEmpty(key, es);
    OnlyTheLastRecordIsTheEnd(key, es);
    OnlyTheLastRecordIsTheEnd(key', es');
    var n := |PrintArchive(key, es)| - 1;
    assert PrintArchive(key, es)[n].kind == RECORD_END && PrintArchive(key', es')[n] == PrintArchive(key, es)[n];
  }

  lemma ProperShape(w: Written)
    requires Proper(w)
    ensures |w.salt| == SALT_LEN && |w.noncePrefix| == NONCE_PREFIX_LEN
  {
  }

  /** With one archive sealed, the reader accepts no byte string but that archive, in no mode but its
      own: truncated, extended, reordered, repeated and edited archives are all rejected. */
  lemma OnlyTheWrittenArchiveIsAccepted(
    c: Crypto, mode: Mode, passphrase: Bytes, salt: Bytes, noncePrefix: Bytes, key: Option<Bytes>, es: seq<Entry>,
    input: Bytes, mode': Mode, passphrase': Bytes, limits: Limits)
    requires |salt| == SALT_LEN && |noncePrefix| == NONCE_PREFIX_LEN
    requires |PrintArchive(key, es)| < U64_LIMIT
    requires Ideal(c, WriterSealings(SessionOf(c, mode, passphrase, salt, noncePrefix), PrintArchive(key, es)))
    requires ReadArchive(c, input, mode', passphrase', limits).Ok?
    ensures input == ArchiveBytes(c, SessionOf(c, mode, passphrase, salt, noncePrefix), key, es)
    ensures mode' == mode && c.derive(passphrase', salt, 19_456, 2, 1) == c.derive(passphrase, salt, 19_456, 2, 1)
  {
    hide Ideal, ReadArchive, SessionOf, PrintArchive, Frames, SealingOf;
    var w := Written(mode, passphrase, salt, noncePrefix, key, es);
    assert AllSealings(c, [w]) == WriterSealings(SessionFor(c, w), RecordsOf(w)) by {
      OneArchiveSealings(c, w);
    }
    var k := OnlyWrittenArchivesAreAccepted(c, [w], input, mode', passphrase', limits);
  }

  lemma OneArchiveSealings(c: Crypto, w: Written)
    ensures AllSealings(c, [w]) == WriterSealings(SessionFor(c, w), RecordsOf(w))
  {
    hide SealingOf, SessionOf, PrintArchive;
    forall x | x in WriterSealings(SessionFor(c, w), RecordsOf(w))
      ensures x in AllSealings(c, [w])
    {
      var i :| 0 <= i < |RecordsOf(w)| && x == SealingOf(SessionFor(c, w), i, RecordsOf(w)[i]);
      assert x == SealingOf(SessionFor(c, [w][0]), i, RecordsOf([w][0])[i]);
    }
  }

  /** Whatever is written, there is an ideal cipher that was used for exactly that. */
  lemma SuchACipherExists(archives: seq<Written>, derive: (Bytes, Bytes, nat, nat, nat) -> Bytes, digest: Bytes -> Bytes)
    returns (c: Crypto)
    requires forall m {:trigger digest(m)} :: |digest(m)| == DIGEST_LEN
    ensures Ideal(c, AllSealings(c, archives)) && c.derive == derive && c.digest == digest
  {
    hide Ideal, SealingOf, PrintArchive;
    var any := IdealCipherExists(iset{}, derive, digest);
    c := IdealCipherExists(AllSealings(any, archives), derive, digest);
    forall w
      ensures SessionFor(c, w) == SessionFor(any, w)
    {
    }
    assert AllSealings(c, archives) == AllSealings(any, archives);
  }

  lemma ArchiveIsNotEmpty(key: Option<Bytes>, es: seq<Entry>)
    ensures |PrintArchive(key, es)| > 0
  {
    hide PrintEntries;
  }

  lemma SessionShape(c: Crypto, mode: Mode, passphrase: Bytes, salt: Bytes, noncePrefix: Bytes)
    requires |salt| == SALT_LEN && |noncePrefix| == NONCE_PREFIX_LEN
    ensures var s := SessionOf(c, mode, passphrase, salt, noncePrefix);
            |s.header| == HEADER_LEN && s.noncePrefix == noncePrefix
  {
    hide HeaderBytes;
    HeaderFieldsOfBytes(Profile(VersionOf(mode), salt, noncePrefix));
  }

  /** A session determines its mode, its salt and the key derived from its passphrase. */
  lemma SessionTellsAll(
    c: Crypto, mode: Mode, passphrase: Bytes, salt: Bytes, noncePrefix: Bytes,
    mode': Mode, passphrase': Bytes, salt': Bytes, noncePrefix': Bytes)
    requires |salt| == SALT_LEN && |noncePrefix| == NONCE_PREFIX_LEN && |salt'| == SALT_LEN && |noncePrefix'| == NONCE_PREFIX_LEN
    requires SessionOf(c, mode, passphrase, salt, noncePrefix) == SessionOf(c, mode', passphrase', salt', noncePrefix')
    ensures mode == mode' && salt == salt'
    ensures c.derive(passphrase, salt, 19_456, 2, 1) == c.derive(passphrase', salt', 19_456, 2, 1)
  {
    hide HeaderBytes;
    HeaderFieldsOfBytes(Profile(VersionOf(mode), salt, noncePrefix));
    HeaderFieldsOfBytes(Profile(VersionOf(mode'), salt', noncePrefix'));
  }

  /** An archive that one passphrase opens answers every passphrase whose derived key was never used for sealing with
      a failed authentication. The salt is at bytes 10 to 25 of the header. */
  lemma WrongPassphraseIsRefused(
    c: Crypto, sealed: iset<Sealing>, input: Bytes, mode: Mode, passphrase: Bytes, passphrase': Bytes, limits: Limits)
    requires Ideal(c, sealed) && |input| >= 54
    requires ReadArchive(c, input, mode, passphrase, limits).Ok?
    requires forall x :: x in sealed ==> x.key != c.derive(passphrase', input[10..26], 19_456, 2, 1)
    ensures ReadArchive(c, input, mode, passphrase', limits) == Err(Authentication)
  {
    hide Ideal, ReadRecord, Step, Ascii, FromLittleEndian;
    var (s, body) := OpenSession(c, input, mode, passphrase, limits).value;
    var other := c.derive(passphrase', input[10..26], 19_456, 2, 1);
    assert input[..HEADER_LEN][10..26] == input[10..26];
    assert OpenSession(c, input, mode, passphrase', limits) == Ok((s.(key := other), body));
    OtherKeyFailsAuthentication(c, s, other, sealed, 0, body);
  }

  /** The records of a one-file portable archive: capsule, metadata, data and end, field by field. */
  lemma ArchiveLayout(key: Bytes, meta: EntryMeta, data: Bytes)
    requires |meta.path| < 0x1_0000
    ensures PrintArchive(Some(key), [Entry(meta, [data])]) ==
            [Record(4, [0x4B, 0x46, 0x4C, 0x57, 0x4B, 0x45, 0x59, 0x00] + key),
             Record(1, LittleEndian(|meta.path|, 2) + meta.path + LittleEndian(meta.size, 8) + meta.digest),
             Record(2, data),
             Record(3, LittleEndian(1, 8) + LittleEndian(meta.size, 8))]
  {
    hide LittleEndian;
    MagicBytes();
    var e := Entry(meta, [data]);
    assert [e][..0] == [];
    assert PrintEntries([]) == [] && TotalSize([]) == 0;
    assert PrintEntries([e]) == PrintEntry(e) && TotalSize([e]) == meta.size;
  }
}
