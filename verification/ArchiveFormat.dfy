/** The byte formats of a backup archive: header, record framing and entry metadata. */
module ArchiveFormat {
  import opened Wrappers
  import opened Bytes
  import opened ArchivePaths

  datatype BackupError = InvalidInput | Io | AlreadyExists | Authentication | Corrupt | LimitExceeded

  const MAGIC: Bytes := Ascii("KFLWBKP") + [0]
  const KEY_CAPSULE_MAGIC: Bytes := Ascii("KFLWKEY") + [0]
  const VERSION_1 := 1
  const VERSION_2 := 2
  const SALT_LEN := 16
  const NONCE_PREFIX_LEN := 16
  const TAG_LEN := 16
  const KEY_LEN := 32
  const DIGEST_LEN := 32
  const HEADER_LEN := 54
  const RECORD_HEADER_LEN := 13
  const CHUNK_SIZE := 1024 * 1024
  const MAX_RECORD_PLAINTEXT := CHUNK_SIZE + MAX_PATH_LEN + 64
  const ARGON_MEMORY_KIB := 19 * 1024
  const ARGON_ITERATIONS := 2
  const ARGON_PARALLELISM := 1
  const RECORD_ENTRY: byte := 1
  const RECORD_DATA: byte := 2
  const RECORD_END: byte := 3
  const RECORD_KEY_CAPSULE: byte := 4

  // ---------------------------------------------------------------- header

  datatype Header = Header(version: nat, salt: Bytes, noncePrefix: Bytes, memoryKib: nat, iterations: nat, parallelism: nat)

  function HeaderBytes(h: Header): Bytes {
    MAGIC + LittleEndian(h.version, 2) + h.salt + h.noncePrefix
    + LittleEndian(h.memoryKib, 4) + LittleEndian(h.iterations, 4) + LittleEndian(h.parallelism, 4)
  }

  function HeaderFields(bs: Bytes): Header
    requires |bs| == HEADER_LEN
  {
    Header(FromLittleEndian(bs[8..10]), bs[10..26], bs[26..42],
           FromLittleEndian(bs[42..46]), FromLittleEndian(bs[46..50]), FromLittleEndian(bs[50..54]))
  }

  /** The header of an archive with the one supported key-derivation profile. */
  function Profile(version: nat, salt: Bytes, noncePrefix: Bytes): Header {
    Header(version, salt, noncePrefix, ARGON_MEMORY_KIB, ARGON_ITERATIONS, ARGON_PARALLELISM)
  }

  function EncodeHeader(version: nat, salt: Bytes, noncePrefix: Bytes): Result<Bytes, BackupError> {
    if version != VERSION_1 && version != VERSION_2 then Err(InvalidInput)
    else Ok(HeaderBytes(Profile(version, salt, noncePrefix)))
  }

  function DecodeHeader(bs: Bytes): Result<Header, BackupError>
    requires |bs| == HEADER_LEN
  {
    if bs[..8] != MAGIC then Err(Corrupt)
    else
      var h := HeaderFields(bs);
      if h.version != VERSION_1 && h.version != VERSION_2 then Err(Corrupt)
      else if h.memoryKib != ARGON_MEMORY_KIB || h.iterations != ARGON_ITERATIONS || h.parallelism != ARGON_PARALLELISM then
        Err(Corrupt)
      else Ok(h)
  }

  lemma DecodesIn(n: nat, width: nat)
    requires (width == 2 && n < 0x1_0000) || (width == 4 && n < 0x1_0000_0000) || (width == 8 && n < U64_LIMIT)
    ensures FromLittleEndian(LittleEndian(n, width)) == n
  {
    hide LittleEndian, FromLittleEndian;
    assert n < Pow256(width) by {
      Pow256Values();
    }
    LittleEndianDecodes(n, width);
  }

  lemma HeaderFieldsOfBytes(h: Header)
    requires |h.salt| == SALT_LEN && |h.noncePrefix| == NONCE_PREFIX_LEN && h.version < 0x1_0000
    requires h.memoryKib < 0x1_0000_0000 && h.iterations < 0x1_0000_0000 && h.parallelism < 0x1_0000_0000
    ensures |HeaderBytes(h)| == HEADER_LEN && HeaderBytes(h)[..8] == MAGIC && HeaderFields(HeaderBytes(h)) == h
  {
    hide LittleEndian, FromLittleEndian, Ascii, Pow256;
    DecodesIn(h.version, 2);
    DecodesIn(h.memoryKib, 4);
    DecodesIn(h.iterations, 4);
    DecodesIn(h.parallelism, 4);
    var bs := HeaderBytes(h);
    assert bs[..8] == MAGIC;
    assert bs[8..10] == LittleEndian(h.version, 2);
    assert bs[10..26] == h.salt;
    assert bs[26..42] == h.noncePrefix;
    assert bs[42..46] == LittleEndian(h.memoryKib, 4);
    assert bs[46..50] == LittleEndian(h.iterations, 4);
    assert bs[50..54] == LittleEndian(h.parallelism, 4);
  }

  lemma HeaderBytesOfFields(bs: Bytes)
    requires |bs| == HEADER_LEN && bs[..8] == MAGIC
    ensures HeaderBytes(HeaderFields(bs)) == bs
  {
    hide LittleEndian, FromLittleEndian, Ascii, Pow256;
    LittleEndianEncodes(bs[8..10]);
    LittleEndianEncodes(bs[42..46]);
    LittleEndianEncodes(bs[46..50]);
    LittleEndianEncodes(bs[50..54]);
    assert bs == bs[..8] + bs[8..10] + bs[10..26] + bs[26..42] + bs[42..46] + bs[46..50] + bs[50..54];
  }

  /** Decoding undoes encoding, and the decoder accepts nothing but an encoder's output. */
  lemma HeaderCodec(version: nat, salt: Bytes, noncePrefix: Bytes, header: Bytes)
    requires |salt| == SALT_LEN && |noncePrefix| == NONCE_PREFIX_LEN && |header| == HEADER_LEN
    ensures EncodeHeader(version, salt, noncePrefix) == Ok(header)
            <==> DecodeHeader(header) == Ok(Profile(version, salt, noncePrefix))
  {
    var h := Profile(version, salt, noncePrefix);
    if version == VERSION_1 || version == VERSION_2 {
      HeaderFieldsOfBytes(h);
    }
    if header[..8] == MAGIC {
      HeaderBytesOfFields(header);
    }
  }

  lemma MagicBytes()
    ensures MAGIC == [0x4B, 0x46, 0x4C, 0x57, 0x42, 0x4B, 0x50, 0x00]
    ensures KEY_CAPSULE_MAGIC == [0x4B, 0x46, 0x4C, 0x57, 0x4B, 0x45, 0x59, 0x00]
  {
    var a, b := "KFLWBKP", "KFLWKEY";
    assert |a| == 7 && |b| == 7;
    assert Ascii(a) == [0x4B, 0x46, 0x4C, 0x57, 0x42, 0x4B, 0x50];
    assert Ascii(b) == [0x4B, 0x46, 0x4C, 0x57, 0x4B, 0x45, 0x59];
  }

  lemma LittleEndianOfTwo(n: nat)
    requires n < 0x1_0000
    ensures LittleEndian(n, 2) == [n % 0x100, n / 0x100]
  {
    assert LittleEndian(n / 0x100, 1) == [n / 0x100] + LittleEndian(0, 0);
  }

  lemma LittleEndianOfFour(n: nat)
    requires n < 0x1_0000
    ensures LittleEndian(n, 4) == [n % 0x100, n / 0x100, 0, 0]
  {
    assert LittleEndian(0, 1) == [0];
    assert LittleEndian(0, 2) == [0] + LittleEndian(0, 1);
    assert LittleEndian(n / 0x100, 3) == [n / 0x100] + LittleEndian(0, 2);
  }

  /** The header on the wire, byte by byte, for the two versions there are. */
  lemma HeaderLayout(version: nat, salt: Bytes, noncePrefix: Bytes)
    ensures version != 1 && version != 2 ==> EncodeHeader(version, salt, noncePrefix) == Err(InvalidInput)
    ensures version == 1 || version == 2 ==>
              EncodeHeader(version, salt, noncePrefix) ==
              Ok([0x4B, 0x46, 0x4C, 0x57, 0x42, 0x4B, 0x50, 0x00] + [version, 0] + salt + noncePrefix
                 + [0x00, 0x4C, 0, 0] + [2, 0, 0, 0] + [1, 0, 0, 0])
  {
    hide LittleEndian, Ascii;
    MagicBytes();
    if version == 1 || version == 2 {
      LittleEndianOfTwo(version);
    }
    LittleEndianOfFour(ARGON_MEMORY_KIB);
    LittleEndianOfFour(ARGON_ITERATIONS);
    LittleEndianOfFour(ARGON_PARALLELISM);
  }

  // ----------------------------------------------------------------- entry

  datatype EntryMeta = EntryMeta(path: Bytes, size: nat, digest: Bytes)

  function EncodeEntry(meta: EntryMeta): Result<Bytes, BackupError> {
    if |meta.path| >= 0x1_0000 then Err(InvalidInput)
    else Ok(LittleEndian(|meta.path|, 2) + meta.path + LittleEndian(meta.size, 8) + meta.digest)
  }

  /** The fields of an encoded entry, before its path is examined. */
  function EntryFields(encoded: Bytes): Option<EntryMeta> {
    if |encoded| < 2 + 8 + DIGEST_LEN then None
    else
      var pathLen := FromLittleEndian(encoded[..2]);
      if pathLen == 0 || pathLen > MAX_PATH_LEN || |encoded| != 2 + pathLen + 8 + DIGEST_LEN then None
      else
        Some(EntryMeta(encoded[2..2 + pathLen],
                       FromLittleEndian(encoded[2 + pathLen..2 + pathLen + 8]),
                       encoded[2 + pathLen + 8..]))
  }

  predicate AcceptablePath(path: Bytes) {
    ValidUtf8(path) && ValidArchivePath(path)
  }

  function DecodeEntry(encoded: Bytes): Result<EntryMeta, BackupError> {
    match EntryFields(encoded)
    case None => Err(Corrupt)
    case Some(meta) => if AcceptablePath(meta.path) then Ok(meta) else Err(Corrupt)
  }

  lemma EncodedEntryFields(meta: EntryMeta, encoded: Bytes)
    requires 0 < |meta.path| <= MAX_PATH_LEN && meta.size < U64_LIMIT && |meta.digest| == DIGEST_LEN
    requires EncodeEntry(meta) == Ok(encoded)
    ensures EntryFields(encoded) == Some(meta)
  {
    hide LittleEndian, FromLittleEndian, Pow256;
    var n := |meta.path|;
    DecodesIn(n, 2);
    DecodesIn(meta.size, 8);
    assert encoded[..2] == LittleEndian(n, 2);
    assert encoded[2..2 + n] == meta.path;
    assert encoded[2 + n..2 + n + 8] == LittleEndian(meta.size, 8);
    assert encoded[2 + n + 8..] == meta.digest;
  }

  lemma EntryFieldsEncoded(meta: EntryMeta, encoded: Bytes)
    requires EntryFields(encoded) == Some(meta)
    ensures 0 < |meta.path| <= MAX_PATH_LEN && meta.size < U64_LIMIT && |meta.digest| == DIGEST_LEN
    ensures EncodeEntry(meta) == Ok(encoded)
  {
    hide LittleEndian, FromLittleEndian, Pow256;
    var n := |meta.path|;
    LittleEndianEncodes(encoded[..2]);
    LittleEndianEncodes(encoded[2 + n..2 + n + 8]);
    assert |encoded[2 + n..2 + n + 8]| == 8;
    assert meta.size < Pow256(8) == U64_LIMIT by {
      Pow256Values();
    }
    assert encoded == encoded[..2] + encoded[2..2 + n] + encoded[2 + n..2 + n + 8] + encoded[2 + n + 8..];
  }

  lemma EntryFieldsCodec(meta: EntryMeta, encoded: Bytes)
    ensures 0 < |meta.path| <= MAX_PATH_LEN && meta.size < U64_LIMIT && |meta.digest| == DIGEST_LEN
            && EncodeEntry(meta) == Ok(encoded)
            <==> EntryFields(encoded) == Some(meta)
  {
    hide EncodeEntry, EntryFields;
    if 0 < |meta.path| <= MAX_PATH_LEN && meta.size < U64_LIMIT && |meta.digest| == DIGEST_LEN && EncodeEntry(meta) == Ok(encoded) {
      EncodedEntryFields(meta, encoded);
    }
    if EntryFields(encoded) == Some(meta) {
      EntryFieldsEncoded(meta, encoded);
    }
  }

  predicate ValidMeta(meta: EntryMeta) {
    AcceptablePath(meta.path) && meta.size < U64_LIMIT && |meta.digest| == DIGEST_LEN
  }

  /** The entry codec is a bijection between valid metadata and the byte strings the decoder accepts. */
  lemma EntryCodec(meta: EntryMeta, encoded: Bytes)
    ensures ValidMeta(meta) && EncodeEntry(meta) == Ok(encoded) <==> DecodeEntry(encoded) == Ok(meta)
    ensures ValidMeta(meta) <==>
              ValidUtf8(meta.path) && ValidArchivePath(meta.path) && meta.size < 0x1_0000_0000_0000_0000 && |meta.digest| == 32
    ensures DecodeEntry(encoded).Err? ==> DecodeEntry(encoded).error == Corrupt
  {
    EntryFieldsCodec(meta, encoded);
    if AcceptablePath(meta.path) {
      assert 0 < |meta.path| <= MAX_PATH_LEN;
    }
  }

  // ------------------------------------------------------- authenticated cipher

  /** The primitives the archive is built on; `open` answers None when authentication fails. */
  datatype Crypto = Crypto(
    derive: (Bytes, Bytes, nat, nat, nat) -> Bytes,
    seal: (Bytes, Bytes, Bytes, Bytes) -> Bytes,
    open: (Bytes, Bytes, Bytes, Bytes) -> Option<Bytes>,
    digest: Bytes -> Bytes)

  /** One call of the encryption interface. */
  datatype Sealing = Sealing(key: Bytes, nonce: Bytes, aad: Bytes, plain: Bytes)

  /** An ideal AEAD (section 2 of RFC 5116): only what was sealed opens, and it opens to what was sealed. */
  ghost predicate Ideal(c: Crypto, sealed: iset<Sealing>) {
    && (forall k, n, a, p {:trigger c.seal(k, n, a, p)} :: |c.seal(k, n, a, p)| == |p| + TAG_LEN)
    && (forall m {:trigger c.digest(m)} :: |c.digest(m)| == DIGEST_LEN)
    && (forall k, n, a, ct {:trigger c.open(k, n, a, ct)} ::
          c.open(k, n, a, ct).Some? ==>
            && Sealing(k, n, a, c.open(k, n, a, ct).value) in sealed
            && ct == c.seal(k, n, a, c.open(k, n, a, ct).value))
    && (forall s {:trigger s in sealed} :: s in sealed ==>
          c.open(s.key, s.nonce, s.aad, c.seal(s.key, s.nonce, s.aad, s.plain)) == Some(s.plain))
  }

  /** For any set of sealings, key derivation and 32-byte digest there is such a cipher, so results assuming one are
      not vacuous. */
  lemma IdealCipherExists(sealed: iset<Sealing>, derive: (Bytes, Bytes, nat, nat, nat) -> Bytes, digest: Bytes -> Bytes)
    returns (c: Crypto)
    requires forall m {:trigger digest(m)} :: |digest(m)| == DIGEST_LEN
    ensures Ideal(c, sealed) && c.derive == derive && c.digest == digest
  {
    c := Crypto(
      derive,
      (k, n, a, p) => p + Zeros(TAG_LEN),
      (k, n, a, ct) =>
        if |ct| >= TAG_LEN && ct[|ct| - TAG_LEN..] == Zeros(TAG_LEN) && Sealing(k, n, a, ct[..|ct| - TAG_LEN]) in sealed
        then Some(ct[..|ct| - TAG_LEN]) else None,
      digest);
    forall k, n, a, ct | c.open(k, n, a, ct).Some?
      ensures ct == c.seal(k, n, a, c.open(k, n, a, ct).value)
    {
      assert ct == ct[..|ct| - TAG_LEN] + ct[|ct| - TAG_LEN..];
    }
    forall s | s in sealed
      ensures c.open(s.key, s.nonce, s.aad, c.seal(s.key, s.nonce, s.aad, s.plain)) == Some(s.plain)
    {
      var ct := s.plain + Zeros(TAG_LEN);
      assert ct[|ct| - TAG_LEN..] == Zeros(TAG_LEN) && ct[..|ct| - TAG_LEN] == s.plain;
    }
  }

  // ---------------------------------------------------------------- records

  datatype Record = Record(kind: byte, plain: Bytes)

  /** What stays fixed while one archive is written or read. */
  datatype Session = Session(header: Bytes, noncePrefix: Bytes, key: Bytes)

  function EncodeRecordHeader(index: nat, kind: byte, ciphertextLen: nat): (h: Bytes)
    ensures |h| == RECORD_HEADER_LEN
  {
    LittleEndian(index, 8) + [kind] + LittleEndian(ciphertextLen, 4)
  }

  function RecordNonce(noncePrefix: Bytes, index: nat): Bytes {
    noncePrefix + LittleEndian(index, 8)
  }

  /** The encryption call made for a record at `index`. */
  function SealingOf(s: Session, index: nat, r: Record): Sealing {
    Sealing(s.key, RecordNonce(s.noncePrefix, index),
            s.header + EncodeRecordHeader(index, r.kind, |r.plain| + TAG_LEN), r.plain)
  }

  function Frame(c: Crypto, s: Session, index: nat, r: Record): Bytes {
    var call := SealingOf(s, index, r);
    EncodeRecordHeader(index, r.kind, |r.plain| + TAG_LEN) + c.seal(call.key, call.nonce, call.aad, call.plain)
  }

  function Frames(c: Crypto, s: Session, index: nat, records: seq<Record>): Bytes
    decreases |records|
  {
    if records == [] then []
    else Frame(c, s, index, records[0]) + Frames(c, s, index + 1, records[1..])
  }

  lemma {:induction false} FramesAppend(c: Crypto, s: Session, index: nat, a: seq<Record>, b: seq<Record>)
    ensures Frames(c, s, index, a + b) == Frames(c, s, index, a) + Frames(c, s, index + |a|, b)
    decreases |a|
  {
    hide Frame;
    if a == [] {
      assert a + b == b;
    } else {
      FramesAppend(c, s, index + 1, a[1..], b);
      assert (a + b)[1..] == a[1..] + b;
    }
  }

  /** `write_record`: the length must fit the 32-bit field. */
  function WriteRecord(c: Crypto, s: Session, index: nat, r: Record): Result<Bytes, BackupError> {
    if |r.plain| + TAG_LEN >= 0x1_0000_0000 then Err(InvalidInput)
    else Ok(Frame(c, s, index, r))
  }

  /** `read_record`: the record at the head of the input and the bytes after it. */
  function ReadRecord(c: Crypto, s: Session, input: Bytes, expectedIndex: nat): (res: Result<(Record, Bytes), BackupError>)
    ensures res.Ok? ==> |res.value.1| < |input|
  {
    if |input| < RECORD_HEADER_LEN then Err(Corrupt)
    else
      var encodedHeader := input[..RECORD_HEADER_LEN];
      var index := FromLittleEndian(encodedHeader[..8]);
      if index != expectedIndex then Err(Corrupt)
      else
        var kind := encodedHeader[8];
        var ciphertextLen := FromLittleEndian(encodedHeader[9..]);
        if ciphertextLen < TAG_LEN || ciphertextLen > MAX_RECORD_PLAINTEXT + TAG_LEN then Err(Corrupt)
        else if |input| < RECORD_HEADER_LEN + ciphertextLen then Err(Corrupt)
        else
          var ciphertext := input[RECORD_HEADER_LEN..RECORD_HEADER_LEN + ciphertextLen];
          match c.open(s.key, RecordNonce(s.noncePrefix, index), s.header + encodedHeader, ciphertext)
          case None => Err(Authentication)
          case Some(plain) => Ok((Record(kind, plain), input[RECORD_HEADER_LEN + ciphertextLen..]))
  }

  lemma RecordHeaderFields(index: nat, kind: byte, n: nat)
    requires index < U64_LIMIT && n < 0x1_0000_0000
    ensures var h := EncodeRecordHeader(index, kind, n);
            FromLittleEndian(h[..8]) == index && h[8] == kind && FromLittleEndian(h[9..]) == n
  {
    hide LittleEndian, FromLittleEndian;
    DecodesIn(index, 8);
    DecodesIn(n, 4);
    var h := EncodeRecordHeader(index, kind, n);
    assert h[..8] == LittleEndian(index, 8);
    assert h[9..] == LittleEndian(n, 4);
  }

  /** What the writer frames, the reader reads back, leaving exactly the bytes that followed. */
  lemma FramedRecordIsRead(c: Crypto, s: Session, sealed: iset<Sealing>, index: nat, r: Record, rest: Bytes)
    requires Ideal(c, sealed) && SealingOf(s, index, r) in sealed
    requires index < U64_LIMIT && |r.plain| <= MAX_RECORD_PLAINTEXT
    ensures ReadRecord(c, s, Frame(c, s, index, r) + rest, index) == Ok((r, rest))
  {
    var n := |r.plain| + TAG_LEN;
    var h := EncodeRecordHeader(index, r.kind, n);
    RecordHeaderFields(index, r.kind, n);
    var call := SealingOf(s, index, r);
    var ct := c.seal(call.key, call.nonce, call.aad, call.plain);
    var input := Frame(c, s, index, r) + rest;
    assert input[..RECORD_HEADER_LEN] == h;
    assert input[RECORD_HEADER_LEN..RECORD_HEADER_LEN + n] == ct;
    assert input[RECORD_HEADER_LEN + n..] == rest;
  }

  /** A record the reader accepts was sealed by someone for this session, index, type and length. */
  lemma ReadRecordIsAFrame(c: Crypto, s: Session, sealed: iset<Sealing>, index: nat, input: Bytes)
    requires Ideal(c, sealed)
    requires ReadRecord(c, s, input, index).Ok?
    ensures var (r, rest) := ReadRecord(c, s, input, index).value;
            && |r.plain| <= MAX_RECORD_PLAINTEXT
            && SealingOf(s, index, r) in sealed
            && input == Frame(c, s, index, r) + rest
  {
    hide LittleEndian, FromLittleEndian;
    var (r, rest) := ReadRecord(c, s, input, index).value;
    var h := input[..RECORD_HEADER_LEN];
    var n := FromLittleEndian(h[9..]);
    var ct := input[RECORD_HEADER_LEN..RECORD_HEADER_LEN + n];
    LittleEndianEncodes(h[..8]);
    LittleEndianEncodes(h[9..]);
    assert |ct| == n == |r.plain| + TAG_LEN;
    assert h == h[..8] + [h[8]] + h[9..];
    assert h == EncodeRecordHeader(index, r.kind, n);
    assert input == h + ct + input[RECORD_HEADER_LEN + n..];
  }

  /** Under another key, for which nothing was sealed, the same bytes fail authentication. */
  lemma OtherKeyFailsAuthentication(c: Crypto, s: Session, other: Bytes, sealed: iset<Sealing>, index: nat, input: Bytes)
    requires Ideal(c, sealed) && ReadRecord(c, s, input, index).Ok?
    requires forall x :: x in sealed ==> x.key != other
    ensures ReadRecord(c, s.(key := other), input, index) == Err(Authentication)
  {
    hide LittleEndian, FromLittleEndian;
  }
}
