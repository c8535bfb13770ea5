/** Restoring an archive: staging, then publication by one rename. */
module RestorePublication {
  import opened Wrappers
  import opened Bytes
  import opened ArchivePaths
  import opened ArchiveFormat
  import opened ArchiveReader

  /** The directories below the destination's parent, each with its files. */
  type Siblings = map<Name, Tree>

  /** Something somebody else creates at the destination: its files (a plain file has the empty path) and the number
      of its subdirectories. */
  datatype Intruder = Intruder(files: Tree, subdirectories: nat)
  {
    predicate IsEmptyDirectory() {
      files == map[] && subdirectories == 0
    }
  }

  /** What the surroundings do during one restore. `intruder` appears while the archive is being read and `lateIntruder`
      between the second existence check and the rename; `readFailure` is the record at which the disk fails. Renaming
      onto something fails with `occupied`, except onto an empty directory on systems where `replacesEmpty`. */
  datatype Surroundings = Surroundings(
    parentFails: bool, stagingFails: bool, readFailure: Option<nat>, intruder: Option<Intruder>,
    lateIntruder: Option<Intruder>, replacesEmpty: bool, occupied: BackupError,
    syncTreeFails: bool, renameFailure: Option<BackupError>, syncParentFails: bool, cleanupFails: bool)

  datatype Receipt = Receipt(entryCount: nat, plaintextBytes: nat, masterKey: Option<Bytes>)

  predicate ValidPassphrase(passphrase: Bytes) {
    12 <= |passphrase| <= 1024
  }

  lemma {:induction false} PortableRunsEndWithAKey(c: Crypto, s: Session, limits: Limits, input: Bytes, st: State)
    requires ReadRecords(c, s, Portable, limits, input, st).Ok?
    ensures ReadRecords(c, s, Portable, limits, input, st).value.masterKey.Some?
    decreases |input|
  {
    hide ReadRecord, KeyCapsuleStep, EntryStep, DataStep, FinishEntry;
    var (r, rest) := ReadRecord(c, s, input, st.index).value;
    var step := Step(c, Portable, limits, st, r, rest == []).value;
    if step.Continue? {
      PortableRunsEndWithAKey(c, s, limits, rest, step.st);
    } else {
      OnlyEndFinishes(c, Portable, limits, st, r, rest == []);
    }
  }

  /** `later` continues `earlier` with states that differ from `start` at most in the directory `name`. */
  ghost predicate OnlyTouched(earlier: seq<Siblings>, later: seq<Siblings>, start: Siblings, name: Name) {
    && Prefix(earlier, later)
    && (forall i :: |earlier| <= i < |later| ==> later[i] - {name} == start - {name})
  }

  lemma NothingTouched(h: seq<Siblings>, start: Siblings, name: Name)
    ensures OnlyTouched(h, h, start, name)
  {
  }

  lemma OneMoreTouched(earlier: seq<Siblings>, later: seq<Siblings>, start: Siblings, name: Name, next: Siblings)
    requires OnlyTouched(earlier, later, start, name) && next - {name} == start - {name}
    ensures OnlyTouched(earlier, later + [next], start, name)
  {
  }

  lemma {:induction false} RunsCountRecords(c: Crypto, s: Session, mode: Mode, limits: Limits, input: Bytes, st: State)
    requires ReadRecords(c, s, mode, limits, input, st).Ok?
    ensures ReadRecords(c, s, mode, limits, input, st).value.index > st.index
    decreases |input|
  {
    hide ReadRecord, Step;
    var (r, rest) := ReadRecord(c, s, input, st.index).value;
    StepCounts(c, mode, limits, st, r, rest == []);
    var step := Step(c, mode, limits, st, r, rest == []).value;
    if step.Continue? {
      RunsCountRecords(c, s, mode, limits, rest, step.st);
    }
  }

  /** The number of records in an archive that is read to its end. */
  function RecordsRead(c: Crypto, input: Bytes, mode: Mode, passphrase: Bytes, limits: Limits): nat {
    match OpenSession(c, input, mode, passphrase, limits)
    case Err(_) => 0
    case Ok((s, body)) =>
      match ReadRecords(c, s, mode, limits, body, INITIAL)
      case Err(_) => 0
      case Ok(st) => st.index
  }

  /** The archive is good and the disk does not fail while it is being read. */
  predicate ReadSucceeds(c: Crypto, input: Bytes, mode: Mode, passphrase: Bytes, limits: Limits, readFailure: Option<nat>) {
    && ReadArchive(c, input, mode, passphrase, limits).Ok?
    && (readFailure.Some? ==> readFailure.value >= RecordsRead(c, input, mode, passphrase, limits))
  }

  /** The conditions under which the rename publishes, once the archive has been read. */
  predicate Renames(before: Siblings, destination: Name, around: Surroundings) {
    && destination !in before
    && !around.syncTreeFails
    && around.renameFailure.None?
    && (around.lateIntruder.Some? ==>
          around.lateIntruder.value.files == map[] && around.lateIntruder.value.subdirectories == 0 && around.replacesEmpty)
  }

  /** The conditions under which the complete tree appears at the destination. */
  predicate Published(
    c: Crypto, archive: Bytes, mode: Mode, passphrase: Bytes, destination: Name, start: Siblings, around: Surroundings) {
    && ValidPassphrase(passphrase)
    && !around.parentFails && !around.stagingFails
    && ReadSucceeds(c, archive, mode, passphrase, DEFAULT_LIMITS, around.readFailure)
    && around.intruder.None?
    && Renames(start, destination, around)
  }

  /** The error of a failed reading: the reader's own, or that of the disk. */
  predicate IsReadError(error: BackupError, full: Result<Restored, BackupError>, readFailure: Option<nat>) {
    (full.Err? && error == full.error) || (readFailure.Some? && error == Io)
  }

  /** The error of a failed publication, once the archive has been read. */
  predicate IsPublishError(error: BackupError, before: Siblings, destination: Name, around: Surroundings) {
    error == if destination in before then AlreadyExists
             else if around.syncTreeFails then Io
             else if around.renameFailure.Some? then around.renameFailure.value
             else if Renames(before, destination, around) then Io
             else around.occupied
  }

  lemma PublishedExactly(
    c: Crypto, archive: Bytes, mode: Mode, passphrase: Bytes, destination: Name, start: Siblings, around: Surroundings)
    ensures Published(c, archive, mode, passphrase, destination, start, around) <==>
              && 12 <= |passphrase| <= 1024 && !around.parentFails && !around.stagingFails
              && ReadArchive(c, archive, mode, passphrase, DEFAULT_LIMITS).Ok?
              && (around.readFailure.Some? ==>
                    around.readFailure.value >= RecordsRead(c, archive, mode, passphrase, DEFAULT_LIMITS))
              && around.intruder == None && destination !in start && !around.syncTreeFails && around.renameFailure == None
              && (around.lateIntruder.Some? ==> around.lateIntruder.value == Intruder(map[], 0) && around.replacesEmpty)
  {
    hide ReadArchive, RecordsRead;
  }

  ghost predicate Intruded(now: Siblings, start: Siblings, destination: Name, intruder: Option<Intruder>) {
    intruder.Some? && destination !in start && now == start[destination := intruder.value.files]
  }

  /** Nothing but the staging directory differs from the start, save what somebody else created. */
  ghost predicate Untouched(now: Siblings, start: Siblings, destination: Name, staging: Name, around: Surroundings) {
    || now - {staging} == start
    || Intruded(now - {staging}, start, destination, around.intruder)
    || Intruded(now - {staging}, start, destination, around.lateIntruder)
  }

  /** From state `from` on, whatever is at `name` stays there unchanged. */
  ghost predicate Kept(history: seq<Siblings>, from: nat, name: Name) {
    forall i, j :: from <= i <= j < |history| && name in history[i] ==> name in history[j] && history[j][name] == history[i][name]
  }

  /** The destination is untouched, or (only if `published`) holds the complete tree and staging is gone. */
  ghost predicate Snapshot(
    now: Siblings, start: Siblings, destination: Name, staging: Name, around: Surroundings, published: bool, tree: Tree) {
    || Untouched(now, start, destination, staging, around)
    || (published && now == start[destination := tree])
  }

  /** Every state passed through is such a snapshot. */
  ghost predicate AllOrNothing(
    earlier: seq<Siblings>, later: seq<Siblings>, start: Siblings, destination: Name, staging: Name,
    around: Surroundings, published: bool, tree: Tree) {
    && Prefix(earlier, later)
    && (forall i :: |earlier| <= i < |later| ==> Snapshot(later[i], start, destination, staging, around, published, tree))
  }

  lemma AllOrNothingJoins(h0: seq<Siblings>, h1: seq<Siblings>, h2: seq<Siblings>, start: Siblings, destination: Name,
                          staging: Name, around: Surroundings, published: bool, tree: Tree)
    requires AllOrNothing(h0, h1, start, destination, staging, around, published, tree)
    requires AllOrNothing(h1, h2, start, destination, staging, around, published, tree)
    ensures AllOrNothing(h0, h2, start, destination, staging, around, published, tree)
    ensures Prefix(h0, h1) && Prefix(h1, h2) && Prefix(h0, h2)
  {
    hide Snapshot;
    forall i | |h0| <= i < |h2|
      ensures Snapshot(h2[i], start, destination, staging, around, published, tree)
    {
      if i < |h1| {
        assert h2[i] == h1[i];
      }
    }
  }

  lemma StagingIsUntouched(h0: seq<Siblings>, h1: seq<Siblings>, start: Siblings, destination: Name, staging: Name,
                           around: Surroundings, published: bool, tree: Tree)
    requires staging !in start && OnlyTouched(h0, h1, start[staging := map[]], staging)
    ensures AllOrNothing(h0, h1, start, destination, staging, around, published, tree) && Prefix(h0, h1)
  {
    assert start[staging := map[]] - {staging} == start;
  }

  lemma OneMoreState(h: seq<Siblings>, next: Siblings, start: Siblings, destination: Name, staging: Name,
                     around: Surroundings, published: bool, tree: Tree)
    requires Snapshot(next, start, destination, staging, around, published, tree)
    ensures AllOrNothing(h, h + [next], start, destination, staging, around, published, tree)
  {
    hide Snapshot;
  }

  lemma NoMoreStates(h: seq<Siblings>, start: Siblings, destination: Name, staging: Name,
                     around: Surroundings, published: bool, tree: Tree)
    ensures AllOrNothing(h, h, start, destination, staging, around, published, tree)
  {
  }

  /** The states of the renaming step, seen from the start of the restore. */
  lemma RenameStates(h: seq<Siblings>, h': seq<Siblings>, before: Siblings, start: Siblings, destination: Name, staging: Name,
                     around: Surroundings, renamed: bool, tree: Tree)
    requires Prefix(h, h') && staging !in start && staging != destination && destination !in start
    requires Untouched(before, start, destination, staging, around) && (renamed ==> before - {staging} == start)
    requires forall i :: |h| <= i < |h'| ==>
               h'[i] == before || Intruded(h'[i], before, destination, around.lateIntruder)
               || (renamed && h'[i] == (before - {staging})[destination := tree])
    ensures AllOrNothing(h, h', start, destination, staging, around, renamed, tree)
  {
    hide Untouched, Intruded;
    IntruderIsUntouched(before, start, destination, staging, around);
  }

  function TreeOf(read: Result<Restored, BackupError>): Tree {
    match read case Ok(full) => full.files case Err(_) => map[]
  }

  function ReceiptOf(read: Result<Restored, BackupError>): Receipt {
    match read case Ok(full) => Receipt(full.entryCount, full.plaintextBytes, full.masterKey) case Err(_) => Receipt(0, 0, None)
  }

  lemma PortableArchivesCarryAKey(c: Crypto, input: Bytes, passphrase: Bytes, limits: Limits)
    requires ReadArchive(c, input, Portable, passphrase, limits).Ok?
    ensures ReceiptOf(ReadArchive(c, input, Portable, passphrase, limits)).masterKey.Some?
  {
    hide OpenSession, ReadRecords;
    var (s, body) := OpenSession(c, input, Portable, passphrase, limits).value;
    PortableRunsEndWithAKey(c, s, limits, body, INITIAL);
  }

  lemma KeptOneMore(history: seq<Siblings>, from: nat, name: Name, next: Siblings)
    requires history != [] && Kept(history, from, name)
    requires var last := history[|history| - 1]; name in last ==> name in next && next[name] == last[name]
    ensures Kept(history + [next], from, name)
  {
  }

  lemma KeptNoMore(h: seq<Siblings>, from: nat, name: Name, i: nat)
    requires from <= i < |h| - 1 && name in h[i] && name in h[i + 1] && h[i + 1][name] != h[i][name]
    ensures !Kept(h, from, name)
  {
  }

  lemma KeptAlone(history: seq<Siblings>, name: Name)
    requires history != []
    ensures Kept(history, |history| - 1, name)
  {
  }

  lemma KeptJoins(earlier: seq<Siblings>, later: seq<Siblings>, from: nat, name: Name)
    requires Prefix(earlier, later) && from < |earlier|
    ensures Kept(later, from, name) <==> Kept(earlier, from, name) && Kept(later, |earlier| - 1, name)
  {
    var k := |earlier| - 1;
    assert forall i :: 0 <= i < |earlier| ==> later[i] == earlier[i];
    if Kept(earlier, from, name) && Kept(later, k, name) {
      forall i, j | from <= i <= j < |later| && name in later[i]
        ensures name in later[j] && later[j][name] == later[i][name]
      {
        if i <= k < j {
          assert name in later[k] && later[k][name] == later[i][name];
        }
      }
    }
  }

  lemma KeptElsewhere(earlier: seq<Siblings>, later: seq<Siblings>, start: Siblings, staging: Name, name: Name)
    requires OnlyTouched(earlier, later, start, staging) && staging != name
    requires earlier != [] && earlier[|earlier| - 1] == start
    ensures Kept(later, |earlier| - 1, name)
  {
    forall i | |earlier| - 1 <= i < |later|
      ensures later[i] - {staging} == start - {staging}
    {
    }
    forall i | |earlier| - 1 <= i < |later|
      ensures name in later[i] <==> name in start
      ensures name in start ==> later[i][name] == start[name]
    {
      assert name in later[i] <==> name in later[i] - {staging};
      assert name in start <==> name in start - {staging};
      assert name in start ==> (later[i] - {staging})[name] == (start - {staging})[name];
    }
  }

  ghost predicate Inhabited(files: Tree) {
    exists t :: t in files
  }

  lemma {:induction false} AcceptedRunsHaveFiles(c: Crypto, s: Session, mode: Mode, limits: Limits, input: Bytes, st: State)
    requires st.databaseSeen ==> Inhabited(st.files)
    requires ReadRecords(c, s, mode, limits, input, st).Ok?
    ensures Inhabited(ReadRecords(c, s, mode, limits, input, st).value.files)
    decreases |input|
  {
    hide ReadRecord, Step, Inhabited;
    var (r, rest) := ReadRecord(c, s, input, st.index).value;
    StepsKeepFiles(c, mode, limits, st, r, rest == []);
    var step := Step(c, mode, limits, st, r, rest == []).value;
    if step.Continue? {
      AcceptedRunsHaveFiles(c, s, mode, limits, rest, step.st);
    }
  }

  lemma StepsKeepFiles(c: Crypto, mode: Mode, limits: Limits, st: State, r: Record, atEnd: bool)
    requires st.databaseSeen ==> Inhabited(st.files)
    requires Step(c, mode, limits, st, r, atEnd).Ok?
    ensures var step := Step(c, mode, limits, st, r, atEnd).value;
            (step.st.databaseSeen || step.Finished?) ==> Inhabited(step.st.files)
  {
    hide Target, DecodeEntry, FinishEntry, IsDirectory, IsBelowAFile, NamesAFile, StartsWith;
    var next := Step(c, mode, limits, st, r, atEnd).value.st;
    if r.kind == RECORD_ENTRY || r.kind == RECORD_DATA {
      assert next.active.value.target in next.files;
    } else {
      assert next.files == st.files;
    }
  }

  /** An accepted archive holds the database, so its tree is never empty. */
  lemma RestoredTreesAreNotEmpty(c: Crypto, input: Bytes, mode: Mode, passphrase: Bytes, limits: Limits)
    requires ReadArchive(c, input, mode, passphrase, limits).Ok?
    ensures Inhabited(TreeOf(ReadArchive(c, input, mode, passphrase, limits)))
  {
    hide OpenSession, ReadRecords, Inhabited;
    var (s, body) := OpenSession(c, input, mode, passphrase, limits).value;
    AcceptedRunsHaveFiles(c, s, mode, limits, body, INITIAL);
    var st := ReadRecords(c, s, mode, limits, body, INITIAL).value;
    assert ReadArchive(c, input, mode, passphrase, limits) == Ok(Outcome(st));
    assert TreeOf(Ok(Outcome(st))) == st.files;
  }

  class Disk {
    var siblings: Siblings

    /** Every state the siblings have been in, the present one last. */
    ghost var history: seq<Siblings>

    ghost predicate Valid()
      reads this
    {
      history != [] && history[|history| - 1] == siblings
    }

    constructor (initial: Siblings)
      ensures Valid() && siblings == initial && history == [initial]
    {
      siblings := initial;
      history := [initial];
    }

    method Put(name: Name, tree: Tree)
      requires Valid()
      modifies this
      ensures Valid() && siblings == old(siblings)[name := tree] && history == old(history) + [siblings]
    {
      siblings := siblings[name := tree];
      history := history + [siblings];
    }

    method Remove(name: Name)
      requires Valid()
      modifies this
      ensures Valid() && siblings == old(siblings) - {name} && history == old(history) + [siblings]
    {
      siblings := siblings - {name};
      history := history + [siblings];
    }

    /** `fs::rename` of a directory: refused onto anything but an empty directory that the system replaces. */
    method Rename(from: Name, to: Name, overEmpty: bool) returns (ok: bool)
      requires Valid() && from in siblings && from != to
      modifies this
      ensures Valid() && (ok <==> to !in old(siblings) || overEmpty)
      ensures ok ==> siblings == (old(siblings) - {from})[to := old(siblings)[from]] && history == old(history) + [siblings]
      ensures !ok ==> siblings == old(siblings) && history == old(history)
    {
      if to in siblings && !overEmpty {
        return false;
      }
      siblings := (siblings - {from})[to := siblings[from]];
      history := history + [siblings];
      return true;
    }

    /** Somebody else creates the destination. */
    method Intrude(destination: Name, intruder: Option<Intruder>)
      requires Valid()
      modifies this
      ensures Valid() && Prefix(old(history), history) && |history| <= |old(history)| + 1
      ensures siblings == if intruder.Some? then old(siblings)[destination := intruder.value.files] else old(siblings)
      ensures intruder.None? ==> history == old(history)
      ensures intruder.Some? ==> history == old(history) + [siblings]
    {
      if intruder.Some? {
        Put(destination, intruder.value.files);
      }
    }

    /** `read_archive_with_limits`: the loop over records, writing below the staging root as it goes. */
    method ReadArchiveInto(
      c: Crypto, input: Bytes, mode: Mode, passphrase: Bytes, limits: Limits, staging: Name, readFailure: Option<nat>)
      returns (r: Result<Receipt, BackupError>)
      requires Valid() && staging in siblings && siblings[staging] == map[]
      modifies this
      ensures Valid() && staging in siblings && siblings == old(siblings)[staging := siblings[staging]]
      ensures OnlyTouched(old(history), history, old(siblings), staging)
      ensures var full := ReadArchive(c, input, mode, passphrase, limits);
              && (r.Ok? <==> ReadSucceeds(c, input, mode, passphrase, limits, readFailure))
              && (r.Ok? ==> full.Ok? && siblings[staging] == TreeOf(full) && r.value == ReceiptOf(full))
              && (r.Err? ==> IsReadError(r.error, full, readFailure))
    {
      hide OpenSession, Step, ReadRecord, OnlyTouched;
      NothingTouched(history, siblings, staging);
      var start := OpenSession(c, input, mode, passphrase, limits);
      if start.Err? {
        return Err(start.error);
      }
      var (s, body) := start.value;
      var rest := body;
      var st := INITIAL;
      while true
        invariant Valid() && staging in siblings && siblings[staging] == st.files
        invariant siblings == old(siblings)[staging := siblings[staging]]
        invariant OnlyTouched(old(history), history, old(siblings), staging)
        invariant readFailure.Some? ==> readFailure.value >= st.index
        invariant ReadRecords(c, s, mode, limits, body, INITIAL) == ReadRecords(c, s, mode, limits, rest, st)
        decreases |rest|
      {
        if st.index >= limits.records {
          return Err(LimitExceeded);
        }
        if readFailure == Some(st.index) {
          if ReadRecords(c, s, mode, limits, rest, st).Ok? {
            RunsCountRecords(c, s, mode, limits, rest, st);
          }
          return Err(Io);
        }
        var record := ReadRecord(c, s, rest, st.index);
        if record.Err? {
          return Err(record.error);
        }
        var (plain, after) := record.value;
        var step := Step(c, mode, limits, st, plain, after == []);
        if step.Err? {
          return Err(step.error);
        }
        StepCounts(c, mode, limits, st, plain, after == []);
        if step.value.Finished? {
          return Ok(Receipt(step.value.st.entryCount, step.value.st.totalBytes, step.value.st.masterKey));
        }
        st := step.value.st;
        rest := after;
        ghost var h, before := history, siblings;
        Put(staging, st.files);
        assert siblings - {staging} == before - {staging};
        OneMoreTouched(old(history), h, old(siblings), staging, siblings);
      }
    }

    /** From the second existence check to the rename and the sync of the parent. */
    method Publish(destination: Name, staging: Name, around: Surroundings) returns (r: Result<(), BackupError>)
      requires Valid() && staging in siblings && staging != destination
      modifies this
      ensures Valid() && Prefix(old(history), history)
      ensures var before, tree := old(siblings), old(siblings)[staging];
              var renamed := Renames(before, destination, around);
              var end := (before - {staging})[destination := tree];
              && (renamed ==> siblings == end)
              && (!renamed ==> staging in siblings)
              && (!renamed ==> siblings == before || Intruded(siblings, before, destination, around.lateIntruder))
              && (r.Ok? <==> renamed && !around.syncParentFails)
              && (r.Err? ==> IsPublishError(r.error, before, destination, around))
              && (forall i :: |old(history)| <= i < |history| ==>
                    history[i] == before || Intruded(history[i], before, destination, around.lateIntruder) || (renamed && history[i] == end))
              && (Inhabited(tree) ==>
                    (Kept(history, |old(history)| - 1, destination) <==> !(renamed && around.lateIntruder.Some?)))
    {
      hide Kept;
      if destination in siblings {
        KeptAlone(history, destination);
        return Err(AlreadyExists);
      }
      ghost var h0, before := history, siblings;
      Intrude(destination, around.lateIntruder);
      ghost var h1, intruded := history, siblings;
      KeptAlone(h0, destination);
      if around.lateIntruder.Some? {
        KeptOneMore(h0, |h0| - 1, destination, siblings);
      }
      if around.syncTreeFails {
        return Err(Io);
      }
      if around.renameFailure.Some? {
        return Err(around.renameFailure.value);
      }
      var renamed := Rename(staging, destination,
                            around.replacesEmpty && around.lateIntruder.Some? && around.lateIntruder.value.IsEmptyDirectory());
      if !renamed {
        return Err(around.occupied);
      }
      assert siblings == (before - {staging})[destination := before[staging]];
      if around.lateIntruder.Some? {
        assert history[|h1| - 1] == intruded && history[|h1|] == siblings;
        assert intruded[destination] == map[] && siblings[destination] == before[staging];
        assert Inhabited(before[staging]) ==> intruded[destination] != siblings[destination];
        if Inhabited(before[staging]) {
          KeptNoMore(history, |h0| - 1, destination, |h1| - 1);
        }
      } else {
        KeptOneMore(h1, |h0| - 1, destination, siblings);
      }
      return if around.syncParentFails then Err(Io) else Ok(());
    }

    /** Reading into the new staging directory while somebody else may create the destination. */
    method ReadMeanwhile(
      c: Crypto, archive: Bytes, mode: Mode, passphrase: Bytes, destination: Name, staging: Name, around: Surroundings,
      ghost start: Siblings, ghost published: bool, ghost tree: Tree)
      returns (r: Result<Receipt, BackupError>)
      requires Valid() && staging !in start && staging != destination && destination !in start
      requires siblings == start[staging := map[]]
      modifies this
      ensures Valid() && Prefix(old(history), history) && staging in siblings
      ensures siblings - {staging} == (if around.intruder.Some? then start[destination := around.intruder.value.files] else start)
      ensures Untouched(siblings, start, destination, staging, around)
      ensures var full := ReadArchive(c, archive, mode, passphrase, DEFAULT_LIMITS);
              && (r.Ok? <==> ReadSucceeds(c, archive, mode, passphrase, DEFAULT_LIMITS, around.readFailure))
              && (r.Ok? ==> full.Ok? && siblings[staging] == TreeOf(full) && r.value == ReceiptOf(full))
              && (r.Err? ==> IsReadError(r.error, full, around.readFailure))
      ensures AllOrNothing(old(history), history, start, destination, staging, around, published, tree)
      ensures Kept(history, |old(history)| - 1, destination)
    {
      hide ReadArchive, ReadSucceeds, TreeOf, ReceiptOf, Kept, AllOrNothing, OnlyTouched;
      ghost var h0 := history;
      r := ReadArchiveInto(c, archive, mode, passphrase, DEFAULT_LIMITS, staging, around.readFailure);
      assert siblings - {staging} == start;
      ghost var h1 := history;
      KeptElsewhere(h0, h1, start[staging := map[]], staging, destination);
      StagingIsUntouched(h0, h1, start, destination, staging, around, published, tree);
      Intrude(destination, around.intruder);
      if around.intruder.Some? {
        assert siblings - {staging} == start[destination := around.intruder.value.files];
        KeptOneMore(h1, |h0| - 1, destination, siblings);
        OneMoreState(h1, siblings, start, destination, staging, around, published, tree);
        AllOrNothingJoins(h0, h1, history, start, destination, staging, around, published, tree);
      }
    }

    /** The steps after the staging directory has been created, up to and including the publishing rename. */
    method ReadAndPublish(
      c: Crypto, archive: Bytes, mode: Mode, passphrase: Bytes, destination: Name, staging: Name, around: Surroundings,
      ghost start: Siblings)
      returns (r: Result<Receipt, BackupError>)
      requires Valid() && ValidPassphrase(passphrase) && !around.parentFails && !around.stagingFails
      requires staging !in start && staging != destination && destination !in start && siblings == start[staging := map[]]
      modifies this
      ensures Valid() && Prefix(old(history), history)
      ensures var published := Published(c, archive, mode, passphrase, destination, start, around);
              var full := ReadArchive(c, archive, mode, passphrase, DEFAULT_LIMITS);
              && (published ==> siblings == start[destination := TreeOf(full)])
              && (!published ==> Untouched(siblings, start, destination, staging, around) && staging in siblings)
              && (r.Ok? <==> published && !around.syncParentFails)
              && (r.Ok? ==> r.value == ReceiptOf(full))
              && (r.Err? ==> if !ReadSucceeds(c, archive, mode, passphrase, DEFAULT_LIMITS, around.readFailure)
                             then IsReadError(r.error, full, around.readFailure)
                             else if around.intruder.Some? then r.error == AlreadyExists
                             else IsPublishError(r.error, start, destination, around))
              && AllOrNothing(old(history), history, start, destination, staging, around, published, TreeOf(full))
              && (Kept(history, |old(history)| - 1, destination) <==> !(published && around.lateIntruder.Some?))
    {
      hide ReadArchive, ReadSucceeds, TreeOf, ReceiptOf, Kept, AllOrNothing, Intruded;
      ghost var h0 := history;
      ghost var full := ReadArchive(c, archive, mode, passphrase, DEFAULT_LIMITS);
      ghost var published, tree := Published(c, archive, mode, passphrase, destination, start, around), TreeOf(full);
      var read := ReadMeanwhile(c, archive, mode, passphrase, destination, staging, around, start, published, tree);
      ghost var h1, before := history, siblings;
      if read.Err? {
        return Err(read.error);
      }
      if mode == Portable && read.value.masterKey.None? {
        PortableArchivesCarryAKey(c, archive, passphrase, DEFAULT_LIMITS);
        return Err(Corrupt);
      }
      RestoredTreesAreNotEmpty(c, archive, mode, passphrase, DEFAULT_LIMITS);
      assert published <==> Renames(before, destination, around) by {
        assert destination in before <==> destination in before - {staging};
      }
      var moved := Publish(destination, staging, around);
      KeptJoins(h1, history, |h0| - 1, destination);
      RenameStates(h1, history, before, start, destination, staging, around, published, tree);
      AllOrNothingJoins(h0, h1, history, start, destination, staging, around, published, tree);
      IntruderIsUntouched(before, start, destination, staging, around);
      return if moved.Err? then Err(moved.error) else Ok(read.value);
    }

    /** `restore_backup` and `restore_portable_backup`: every state passed through is untouched or complete, and
        something at the destination is ever changed exactly when a late empty directory was replaced by the rename. */
    method Restore(
      c: Crypto, archive: Bytes, mode: Mode, passphrase: Bytes, destination: Name, staging: Name, around: Surroundings)
      returns (r: Result<Receipt, BackupError>)
      requires Valid() && staging !in siblings && staging != destination
      modifies this
      ensures Valid()
      ensures var published := Published(c, archive, mode, passphrase, destination, old(siblings), around);
              var full := ReadArchive(c, archive, mode, passphrase, DEFAULT_LIMITS);
              && (published <==>
                    && 12 <= |passphrase| <= 1024 && !around.parentFails && !around.stagingFails
                    && full.Ok? && (around.readFailure.Some? ==>
                                      around.readFailure.value >= RecordsRead(c, archive, mode, passphrase, DEFAULT_LIMITS))
                    && around.intruder == None && destination !in old(siblings) && !around.syncTreeFails
                    && around.renameFailure == None
                    && (around.lateIntruder.Some? ==> around.lateIntruder.value == Intruder(map[], 0) && around.replacesEmpty))
              && (published ==> siblings == old(siblings)[destination := TreeOf(full)])
              && (!published ==> Untouched(siblings, old(siblings), destination, staging, around)
                                 && (staging in siblings ==> around.cleanupFails))
              && (r.Ok? <==> published && !around.syncParentFails)
              && (r.Ok? ==> r.value == ReceiptOf(full))
              && (r.Err? ==> if !(12 <= |passphrase| <= 1024) then r.error == InvalidInput
                             else if destination in old(siblings) then r.error == AlreadyExists
                             else if around.parentFails || around.stagingFails then r.error == Io
                             else if !ReadSucceeds(c, archive, mode, passphrase, DEFAULT_LIMITS, around.readFailure)
                             then IsReadError(r.error, full, around.readFailure)
                             else if around.intruder.Some? then r.error == AlreadyExists
                             else if around.syncTreeFails then r.error == Io
                             else if around.renameFailure.Some? then r.error == around.renameFailure.value
                             else if published then r.error == Io
                             else r.error == around.occupied)
              && AllOrNothing(old(history), history, old(siblings), destination, staging, around, published, TreeOf(full))
              && (Kept(history, |old(history)| - 1, destination) <==> !(published && around.lateIntruder.Some?))
    {
      hide ReadArchive, ReadSucceeds, RecordsRead, TreeOf, ReceiptOf, AllOrNothing, Kept;
      ghost var h0, start := history, siblings;
      ghost var full := ReadArchive(c, archive, mode, passphrase, DEFAULT_LIMITS);
      ghost var published, tree := Published(c, archive, mode, passphrase, destination, start, around), TreeOf(full);
      PublishedExactly(c, archive, mode, passphrase, destination, start, around);
      assert siblings - {staging} == siblings;
      NoMoreStates(h0, start, destination, staging, around, published, tree);
      KeptAlone(h0, destination);
      if !ValidPassphrase(passphrase) {
        return Err(InvalidInput);
      }
      if destination in siblings {
        return Err(AlreadyExists);
      }
      if around.parentFails || around.stagingFails {
        return Err(Io);
      }
      Put(staging, map[]);
      assert siblings - {staging} == start;
      ghost var h1 := history;
      KeptOneMore(h0, |h0| - 1, destination, siblings);
      OneMoreState(h0, siblings, start, destination, staging, around, published, tree);
      r := ReadAndPublish(c, archive, mode, passphrase, destination, staging, around, start);
      KeptJoins(h1, history, |h0| - 1, destination);
      AllOrNothingJoins(h0, h1, history, start, destination, staging, around, published, tree);
      if r.Err? && staging in siblings && !around.cleanupFails {
        ghost var h2, before := history, siblings;
        Remove(staging);
        assert siblings - {staging} == before - {staging};
        KeptOneMore(h2, |h0| - 1, destination, siblings);
        OneMoreState(h2, siblings, start, destination, staging, around, published, tree);
        AllOrNothingJoins(h0, h2, history, start, destination, staging, around, published, tree);
      }
    }
  }

  /** What the rename step leaves behind or passes through, seen from the start of the restore. */
  lemma IntruderIsUntouched(before: Siblings, start: Siblings, destination: Name, staging: Name, around: Surroundings)
    requires staging !in start && staging != destination
    requires Untouched(before, start, destination, staging, around)
    ensures forall now :: Intruded(now, before, destination, around.lateIntruder) ==> Untouched(now, start, destination, staging, around)
  {
    forall now | Intruded(now, before, destination, around.lateIntruder)
      ensures Untouched(now, start, destination, staging, around)
    {
      assert now - {staging} == (before - {staging})[destination := around.lateIntruder.value.files];
    }
  }
}
