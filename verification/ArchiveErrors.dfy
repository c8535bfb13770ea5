/** Which error the archive reader answers, and for what. */
module ArchiveErrors {
  import opened Wrappers
  import opened Bytes
  import opened ArchivePaths
  import opened ArchiveFormat
  import opened ArchiveReader
  import opened ArchiveGrammar

  // ------------------------------------------------------------------- header

  lemma FieldOfTwo(bs: Bytes, n: nat)
    requires |bs| == 2 && n < 0x1_0000
    ensures FromLittleEndian(bs) == n <==> bs == [n % 0x100, n / 0x100]
  {
    hide LittleEndian, FromLittleEndian;
    LittleEndianOfTwo(n);
    DecodesIn(n, 2);
    LittleEndianEncodes(bs);
  }

  lemma FieldOfFour(bs: Bytes, n: nat)
    requires |bs| == 4 && n < 0x1_0000
    ensures FromLittleEndian(bs) == n <==> bs == [n % 0x100, n / 0x100, 0, 0]
  {
    hide LittleEndian, FromLittleEndian;
    LittleEndianOfFour(n);
    DecodesIn(n, 4);
    LittleEndianEncodes(bs);
  }

  /** Magic, version and key-derivation profile are the only bytes of the header that are checked. */
  predicate GoodHeader(input: Bytes, mode: Mode) {
    && |input| >= 54
    && input[..8] == [0x4B, 0x46, 0x4C, 0x57, 0x42, 0x4B, 0x50, 0x00]
    && input[8..10] == [if mode == Legacy then 1 else 2, 0]
    && input[42..46] == [0x00, 0x4C, 0, 0] && input[46..50] == [2, 0, 0, 0] && input[50..54] == [1, 0, 0, 0]
  }

  lemma HeaderDecodes(input: Bytes, mode: Mode)
    requires |input| >= 54
    ensures var h := DecodeHeader(input[..54]);
            && (h.Ok? && h.value.version == VersionOf(mode) <==> GoodHeader(input, mode))
            && (h.Ok? ==> h.value.salt == input[10..26] && h.value.noncePrefix == input[26..42])
            && (h.Ok? ==> h.value.memoryKib == 19_456 && h.value.iterations == 2 && h.value.parallelism == 1)
            && (h.Err? ==> h.error == Corrupt)
  {
    hide FromLittleEndian, Ascii;
    var bs := input[..54];
    assert bs[..8] == input[..8] && bs[8..10] == input[8..10] && bs[10..26] == input[10..26] && bs[26..42] == input[26..42];
    assert bs[42..46] == input[42..46] && bs[46..50] == input[46..50] && bs[50..54] == input[50..54];
    MagicBytes();
    FieldOfTwo(bs[8..10], if mode == Legacy then 1 else 2);
    FieldOfFour(bs[42..46], 19_456);
    FieldOfFour(bs[46..50], 2);
    FieldOfFour(bs[50..54], 1);
  }

  /** An archive is opened exactly when it is not too long and its header is good; then the key comes from the passphrase
      and the salt, and otherwise only the length is reported as a limit. */
  lemma OpensExactlyWhen(c: Crypto, input: Bytes, mode: Mode, passphrase: Bytes, limits: Limits)
    ensures var opening := OpenSession(c, input, mode, passphrase, limits);
            && (opening.Ok? <==> |input| <= limits.archiveBytes && GoodHeader(input, mode))
            && (opening.Ok? ==>
                  opening.value == (Session(input[..54], input[26..42], c.derive(passphrase, input[10..26], 19_456, 2, 1)), input[54..]))
            && (opening.Err? ==> opening.error == if |input| > limits.archiveBytes then LimitExceeded else Corrupt)
  {
    hide DecodeHeader;
    if |input| >= 54 {
      HeaderDecodes(input, mode);
    }
  }

  // ------------------------------------------------------------------ records

  /** A record header with the expected index and a length in range, followed by that many bytes. */
  predicate IsFramed(input: Bytes, index: nat) {
    && |input| >= 13 && FromLittleEndian(input[..8]) == index
    && 16 <= FromLittleEndian(input[9..13]) <= 1_048_576 + 1_024 + 64 + 16
    && |input| >= 13 + FromLittleEndian(input[9..13])
  }

  /** Reading a record fails as unauthentic exactly when it is framed but does not open, and as corrupt exactly when it is
      not framed. */
  lemma RecordErrors(c: Crypto, s: Session, input: Bytes, index: nat)
    ensures var r := ReadRecord(c, s, input, index);
            && (r == Err(Corrupt) <==> !IsFramed(input, index))
            && (r == Err(Authentication) <==>
                  IsFramed(input, index)
                  && c.open(s.key, s.noncePrefix + LittleEndian(index, 8), s.header + input[..13],
                            input[13..13 + FromLittleEndian(input[9..13])]).None?)
            && (r.Err? ==> r.error == Corrupt || r.error == Authentication)
  {
    hide LittleEndian, FromLittleEndian;
    if |input| >= 13 {
      assert input[..13][..8] == input[..8] && input[..13][9..] == input[9..13];
    }
  }

  /** A written record: index, type and length in the clear, then the contents sealed under the key with prefix and index as
      the nonce, bound to both headers; it is refused exactly when the length does not fit 32 bits. */
  lemma WrittenRecord(c: Crypto, s: Session, index: nat, r: Record)
    ensures var written, head := WriteRecord(c, s, index, r), LittleEndian(index, 8) + [r.kind] + LittleEndian(|r.plain| + 16, 4);
            && (|r.plain| + 16 <= 0xFFFF_FFFF ==>
                  written == Ok(head + c.seal(s.key, s.noncePrefix + LittleEndian(index, 8), s.header + head, r.plain)))
            && (|r.plain| + 16 > 0xFFFF_FFFF ==> written == Err(InvalidInput))
  {
    hide LittleEndian;
  }

  // -------------------------------------------------------------------- steps

  /** The entry would exceed one of the three limits. */
  predicate ExceedsLimits(limits: Limits, st: State, meta: EntryMeta) {
    st.entryCount >= limits.entries || meta.size > limits.entryPlaintext || st.totalBytes + meta.size > limits.totalPlaintext
  }

  /** What stands before the limits are looked at. */
  predicate ReachesLimits(c: Crypto, mode: Mode, st: State, plain: Bytes) {
    && !(mode == Portable && st.masterKey == None)
    && (st.active.Some? ==> st.active.value.written == st.active.value.expectedSize
                            && c.digest(st.active.value.hashed) == st.active.value.expectedDigest)
    && DecodeEntry(plain).Ok?
    && (StartsWith(DecodeEntry(plain).value.path, DATABASE_PREFIX) ==>
          !st.databaseSeen && DecodeEntry(plain).value.path == DatabaseOf(mode))
  }

  /** The file system cannot create the file: a file is in the way above it, or the path names none; what is already there
      has been refused before. */
  predicate CannotBeCreated(files: Tree, path: Bytes) {
    && !IsDirectory(files, Target(path)) && !(Target(path) in files && NamesAFile(path))
    && (IsBelowAFile(files, Target(path)) || !NamesAFile(path))
  }

  predicate FailsToCreate(c: Crypto, mode: Mode, limits: Limits, st: State, plain: Bytes) {
    && ReachesLimits(c, mode, st, plain)
    && !ExceedsLimits(limits, st, DecodeEntry(plain).value) && CannotBeCreated(st.files, DecodeEntry(plain).value.path)
  }

  lemma EntryErrors(c: Crypto, mode: Mode, limits: Limits, st: State, plain: Bytes)
    ensures var step := EntryStep(c, mode, limits, st, plain);
            && (step == Err(LimitExceeded) <==> ReachesLimits(c, mode, st, plain) && ExceedsLimits(limits, st, DecodeEntry(plain).value))
            && (step == Err(Io) <==> FailsToCreate(c, mode, limits, st, plain))
            && (step.Err? ==> step.error in {Corrupt, LimitExceeded, Io})
  {
    hide Target, IsDirectory, IsBelowAFile, NamesAFile, StartsWith, DatabaseOf, EntryFields, AcceptablePath;
  }

  /** A record is refused for a limit exactly when it is an entry that reaches the limits and exceeds one, and by the file
      system exactly when it is an entry whose file cannot be created; all other records that are refused are corrupt. */
  lemma StepErrors(c: Crypto, mode: Mode, limits: Limits, st: State, r: Record, atEnd: bool)
    ensures var step := Step(c, mode, limits, st, r, atEnd);
            && (step == Err(LimitExceeded) <==>
                  r.kind == 1 && ReachesLimits(c, mode, st, r.plain) && ExceedsLimits(limits, st, DecodeEntry(r.plain).value))
            && (step == Err(Io) <==> r.kind == 1 && FailsToCreate(c, mode, limits, st, r.plain))
            && (step.Err? ==> step.error in {Corrupt, LimitExceeded, Io})
  {
    hide EntryStep, DecodeEntry, StartsWith, DatabaseOf, FromLittleEndian;
    var st' := st.(index := st.index + 1);
    EntryErrors(c, mode, limits, st', r.plain);
    assert ReachesLimits(c, mode, st', r.plain) <==> ReachesLimits(c, mode, st, r.plain);
    assert FailsToCreate(c, mode, limits, st', r.plain) <==> FailsToCreate(c, mode, limits, st, r.plain);
  }

  // --------------------------------------------------------------------- runs

  /** Where a run that fails stops: at the record limit, or at one record, with the error of that record. */
  lemma {:induction false} RunFailsSomewhere(c: Crypto, s: Session, mode: Mode, limits: Limits, input: Bytes, st: State)
    returns (at: State, rest: Bytes)
    requires ReadRecords(c, s, mode, limits, input, st).Err?
    ensures ReadRecords(c, s, mode, limits, input, st) == ReadRecords(c, s, mode, limits, rest, at)
    ensures at.index >= st.index && |rest| <= |input| && rest == input[|input| - |rest|..]
    ensures var error, record := ReadRecords(c, s, mode, limits, input, st).error, ReadRecord(c, s, rest, at.index);
            if at.index >= limits.records then error == LimitExceeded
            else if record.Err? then error == record.error
            else Step(c, mode, limits, at, record.value.0, record.value.1 == []) == Err(error)
    decreases |input|
  {
    hide Step;
    at, rest := st, input;
    var record := ReadRecord(c, s, input, st.index);
    if st.index < limits.records && record.Ok? {
      var step := Step(c, mode, limits, st, record.value.0, record.value.1 == []);
      if step.Ok? && step.value.Continue? {
        StepCounts(c, mode, limits, st, record.value.0, record.value.1 == []);
        at, rest := RunFailsSomewhere(c, s, mode, limits, record.value.1, step.value.st);
      }
    }
  }
}
