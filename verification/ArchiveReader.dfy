/** The archive reader: a state machine over decrypted records. */
module ArchiveReader {
  import opened Wrappers
  import opened Bytes
  import opened ArchivePaths
  import opened ArchiveFormat

  datatype Mode = Legacy | Portable

  function VersionOf(mode: Mode): nat {
    match mode case Legacy => VERSION_1 case Portable => VERSION_2
  }

  function DatabaseOf(mode: Mode): Bytes {
    match mode case Legacy => LEGACY_DATABASE case Portable => PORTABLE_DATABASE
  }

  datatype Limits = Limits(archiveBytes: u64, entries: u64, records: u64, totalPlaintext: u64, entryPlaintext: u64)

  const GIB := 1024 * 1024 * 1024
  const DEFAULT_LIMITS := Limits(10 * GIB, 100_000, 1_000_000, 8 * GIB, 4 * GIB)

  /** 64-bit checked additions, then the three limits. */
  function EnforceNewEntryLimits(entryCount: nat, totalBytes: nat, entrySize: nat, limits: Limits): Result<(nat, nat), BackupError> {
    if entryCount + 1 >= U64_LIMIT || totalBytes + entrySize >= U64_LIMIT then Err(LimitExceeded)
    else if entryCount + 1 > limits.entries || entrySize > limits.entryPlaintext
            || totalBytes + entrySize > limits.totalPlaintext then Err(LimitExceeded)
    else Ok((entryCount + 1, totalBytes + entrySize))
  }

  /** The regular files below the staging root; directories are the proper prefixes of their paths. */
  type Tree = map<Path, Bytes>

  predicate IsDirectory(files: Tree, t: Path) {
    exists f <- files.Keys :: Prefix(t, f) && t != f
  }

  predicate IsBelowAFile(files: Tree, t: Path) {
    exists f <- files.Keys :: Prefix(f, t) && t != f
  }

  datatype Active = Active(target: Path, expectedSize: nat, expectedDigest: Bytes, written: nat, hashed: Bytes)

  datatype State = State(
    index: nat, active: Option<Active>, entryCount: nat, totalBytes: nat,
    masterKey: Option<Bytes>, databaseSeen: bool, files: Tree)

  const INITIAL := State(0, None, 0, 0, None, false, map[])

  datatype Progress = Continue(st: State) | Finished(st: State)

  function FinishEntry(c: Crypto, active: Option<Active>): Result<(), BackupError> {
    match active
    case None => Ok(())
    case Some(a) =>
      if a.written != a.expectedSize then Err(Corrupt)
      else if c.digest(a.hashed) != a.expectedDigest then Err(Corrupt)
      else Ok(())
  }

  function KeyCapsuleStep(mode: Mode, st: State, plain: Bytes): Result<Progress, BackupError> {
    if mode != Portable || st.index != 1 || st.active.Some? || st.masterKey.Some?
       || |plain| != 8 + KEY_LEN || plain[..8] != KEY_CAPSULE_MAGIC
    then Err(Corrupt)
    else Ok(Continue(st.(masterKey := Some(plain[8..]))))
  }

  /** Creating the file of a decoded entry. */
  function OpenEntry(mode: Mode, limits: Limits, st: State, meta: EntryMeta): Result<Progress, BackupError> {
    var isDatabase := StartsWith(meta.path, DATABASE_PREFIX);
    if isDatabase && (st.databaseSeen || meta.path != DatabaseOf(mode)) then Err(Corrupt)
    else
      var t := Target(meta.path);
      var _ :- EnforceNewEntryLimits(st.entryCount, st.totalBytes, meta.size, limits);
      if (t in st.files && NamesAFile(meta.path)) || IsDirectory(st.files, t) then Err(Corrupt)
      else if IsBelowAFile(st.files, t) || !NamesAFile(meta.path) then Err(Io)
      else
        Ok(Continue(st.(
          active := Some(Active(t, meta.size, meta.digest, 0, [])),
          entryCount := st.entryCount + 1,
          totalBytes := st.totalBytes + meta.size,
          databaseSeen := st.databaseSeen || isDatabase,
          files := st.files[t := []])))
  }

  function EntryStep(c: Crypto, mode: Mode, limits: Limits, st: State, plain: Bytes): Result<Progress, BackupError> {
    if mode == Portable && st.masterKey.None? then Err(Corrupt)
    else
      var _ :- FinishEntry(c, st.active);
      var meta :- DecodeEntry(plain);
      OpenEntry(mode, limits, st, meta)
  }

  function DataStep(st: State, plain: Bytes): Result<Progress, BackupError> {
    if plain == [] then Err(Corrupt)
    else
      match st.active
      case None => Err(Corrupt)
      case Some(a) =>
        var written := a.written + |plain|;
        if written > a.expectedSize then Err(Corrupt)
        else
          var before := if a.target in st.files then st.files[a.target] else [];
          Ok(Continue(st.(
            active := Some(a.(written := written, hashed := a.hashed + plain)),
            files := st.files[a.target := before + plain])))
  }

  function EndStep(c: Crypto, mode: Mode, st: State, plain: Bytes, atEnd: bool): Result<Progress, BackupError> {
    var _ :- FinishEntry(c, st.active);
    if |plain| != 16 then Err(Corrupt)
    else if FromLittleEndian(plain[..8]) != st.entryCount || FromLittleEndian(plain[8..]) != st.totalBytes || !st.databaseSeen
    then Err(Corrupt)
    else if !atEnd then Err(Corrupt)
    else if mode == Portable && st.masterKey.None? then Err(Corrupt)
    else Ok(Finished(st))
  }

  /** One turn of the reader's loop; `atEnd` says that no byte follows the record. */
  function Step(c: Crypto, mode: Mode, limits: Limits, before: State, r: Record, atEnd: bool): Result<Progress, BackupError> {
    var st := before.(index := before.index + 1);
    if r.kind == RECORD_KEY_CAPSULE then KeyCapsuleStep(mode, st, r.plain)
    else if r.kind == RECORD_ENTRY then EntryStep(c, mode, limits, st, r.plain)
    else if r.kind == RECORD_DATA then DataStep(st, r.plain)
    else if r.kind == RECORD_END then EndStep(c, mode, st, r.plain, atEnd)
    else Err(Corrupt)
  }

  lemma OnlyEndFinishes(c: Crypto, mode: Mode, limits: Limits, st: State, r: Record, atEnd: bool)
    requires var step := Step(c, mode, limits, st, r, atEnd); step.Ok? && step.value.Finished?
    ensures r.kind == RECORD_END
  {
    hide Target, DecodeEntry, FinishEntry, IsDirectory, IsBelowAFile, NamesAFile, StartsWith;
  }

  lemma StepCounts(c: Crypto, mode: Mode, limits: Limits, st: State, r: Record, atEnd: bool)
    requires Step(c, mode, limits, st, r, atEnd).Ok?
    ensures Step(c, mode, limits, st, r, atEnd).value.st.index == st.index + 1
    ensures var step := Step(c, mode, limits, st, r, atEnd).value; step.Finished? ==> step.st == st.(index := st.index + 1)
  {
    hide Target, DecodeEntry, FinishEntry, IsDirectory, IsBelowAFile, NamesAFile, StartsWith;
  }

  function ReadRecords(c: Crypto, s: Session, mode: Mode, limits: Limits, input: Bytes, st: State): Result<State, BackupError>
    decreases |input|
  {
    if st.index >= limits.records then Err(LimitExceeded)
    else
      var (r, rest) :- ReadRecord(c, s, input, st.index);
      var progress :- Step(c, mode, limits, st, r, rest == []);
      match progress
      case Continue(st') => ReadRecords(c, s, mode, limits, rest, st')
      case Finished(st') => Ok(st')
  }

  datatype Restored = Restored(entryCount: nat, plaintextBytes: nat, masterKey: Option<Bytes>, files: Tree)

  function Outcome(st: State): Restored {
    Restored(st.entryCount, st.totalBytes, st.masterKey, st.files)
  }

  /** The checks made before the first record is read. */
  function OpenSession(c: Crypto, input: Bytes, mode: Mode, passphrase: Bytes, limits: Limits): Result<(Session, Bytes), BackupError> {
    if |input| > limits.archiveBytes then Err(LimitExceeded)
    else if |input| < HEADER_LEN then Err(Corrupt)
    else
      var h :- DecodeHeader(input[..HEADER_LEN]);
      if h.version != VersionOf(mode) then Err(Corrupt)
      else
        var key := c.derive(passphrase, h.salt, h.memoryKib, h.iterations, h.parallelism);
        Ok((Session(input[..HEADER_LEN], h.noncePrefix, key), input[HEADER_LEN..]))
  }

  function ReadArchive(c: Crypto, input: Bytes, mode: Mode, passphrase: Bytes, limits: Limits): Result<Restored, BackupError> {
    var (s, body) :- OpenSession(c, input, mode, passphrase, limits);
    var st :- ReadRecords(c, s, mode, limits, body, INITIAL);
    Ok(Outcome(st))
  }
}
