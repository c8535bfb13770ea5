/** Archive paths: UTF-8, the standard library's component splitting, and path resolution. */
module ArchivePaths {
  import opened Wrappers
  import opened Bytes

  const MAX_PATH_LEN := 1024

  const SLASH: byte := 47
  const DOT: Bytes := [46]
  const DOT_DOT: Bytes := [46, 46]

  type Name = Bytes
  type Path = seq<Name>

  datatype Component = RootDir | CurDir | ParentDir | Normal(name: Name)

  /** Well-formed UTF-8, section 4 of RFC 3629. */
  predicate ValidUtf8(bs: Bytes) {
    bs == [] || (ScalarLength(bs) > 0 && ValidUtf8(bs[ScalarLength(bs)..]))
  }

  /** The length of the character a byte string begins with; 0 when it begins with none. */
  function ScalarLength(bs: Bytes): (n: nat)
    ensures n <= |bs|
  {
    if bs == [] then 0
    else
      var lead := bs[0];
      if lead < 0x80 then 1
      else if 0xC2 <= lead <= 0xDF then
        if |bs| >= 2 && Tail(bs[1]) then 2 else 0
      else if 0xE0 <= lead <= 0xEF then
        if && |bs| >= 3
           && (if lead == 0xE0 then 0xA0 <= bs[1] <= 0xBF else if lead == 0xED then 0x80 <= bs[1] <= 0x9F else Tail(bs[1]))
           && Tail(bs[2])
        then 3 else 0
      else if 0xF0 <= lead <= 0xF4 then
        if && |bs| >= 4
           && (if lead == 0xF0 then 0x90 <= bs[1] <= 0xBF else if lead == 0xF4 then 0x80 <= bs[1] <= 0x8F else Tail(bs[1]))
           && Tail(bs[2])
           && Tail(bs[3])
        then 4 else 0
      else 0
  }

  predicate Tail(b: byte) {
    0x80 <= b <= 0xBF
  }

  lemma LeadIsOne(c: char, rest: Bytes)
    ensures ScalarLength(Utf8(c) + rest) == |Utf8(c)|
  {
  }

  lemma SixBits(high: int, low: int)
    requires 0 <= low < 64
    ensures (64 * high + low) / 64 == high && (64 * high + low) % 64 == low
  {
  }

  /** The last bytes of an encoding are the last six bits of the code point and of what is left of it. */
  lemma EncodedBits(c: char, high: int, x: int, y: int, z: int)
    requires 0 <= x < 64 && 0 <= y < 64 && 0 <= z < 64 && c as int == 64 * (64 * (64 * high + x) + y) + z
    ensures var n := c as int; var m := n / 0x40; var q := m / 0x40;
            n % 0x40 == z && m % 0x40 == y && q % 0x40 == x && q / 0x40 == high && q == 64 * high + x && m == 64 * q + y
  {
    SixBits(64 * (64 * high + x) + y, z);
    SixBits(64 * high + x, y);
    SixBits(high, x);
  }

  lemma OfOneByte(bs: Bytes) returns (c: char)
    requires ScalarLength(bs) == 1
    ensures Utf8(c) == bs[..1]
  {
    c := bs[0] as int as char;
  }

  lemma OfTwoBytes(bs: Bytes) returns (c: char)
    requires ScalarLength(bs) == 2
    ensures Utf8(c) == bs[..2]
  {
    var d0: int, d1: int := bs[0] as int - 0xC0, bs[1] as int - 0x80;
    c := (64 * d0 + d1) as char;
    SixBits(d0, d1);
  }

  lemma OfThreeBytes(bs: Bytes) returns (c: char)
    requires ScalarLength(bs) == 3
    ensures Utf8(c) == bs[..3]
  {
    var d0: int, d1: int, d2: int := bs[0] as int - 0xE0, bs[1] as int - 0x80, bs[2] as int - 0x80;
    c := (64 * (64 * d0 + d1) + d2) as char;
    SixBits(64 * d0 + d1, d2);
    SixBits(d0, d1);
  }

  lemma OfFourBytes(bs: Bytes) returns (c: char)
    requires ScalarLength(bs) == 4
    ensures Utf8(c) == bs[..4]
  {
    var d0: int, d1: int, d2: int, d3: int := bs[0] as int - 0xF0, bs[1] as int - 0x80, bs[2] as int - 0x80, bs[3] as int - 0x80;
    c := (64 * (64 * (64 * d0 + d1) + d2) + d3) as char;
    EncodedBits(c, d0, d1, d2, d3);
    assert c as int > 0xFFFF;
  }

  /** A byte string that begins with a character begins with the encoding of one. */
  lemma BeginsWithAChar(bs: Bytes) returns (c: char)
    requires ScalarLength(bs) > 0
    ensures Utf8(c) == bs[..ScalarLength(bs)]
  {
    hide Utf8;
    match ScalarLength(bs)
    case 1 => c := OfOneByte(bs);
    case 2 => c := OfTwoBytes(bs);
    case 3 => c := OfThreeBytes(bs);
    case 4 => c := OfFourBytes(bs);
  }

  lemma {:induction false} TextIsValid(text: string)
    ensures ValidUtf8(Utf8Text(text))
  {
    hide ScalarLength, Utf8;
    if text != "" {
      var bs, rest := Utf8Text(text), Utf8Text(text[1..]);
      assert bs == Utf8(text[0]) + rest;
      LeadIsOne(text[0], rest);
      TextIsValid(text[1..]);
      assert bs[ScalarLength(bs)..] == rest;
    }
  }

  lemma {:induction false} ValidIsText(bs: Bytes) returns (text: string)
    requires ValidUtf8(bs)
    ensures Utf8Text(text) == bs
    decreases |bs|
  {
    hide ScalarLength, Utf8;
    if bs == [] {
      text := "";
    } else {
      var n := ScalarLength(bs);
      var c := BeginsWithAChar(bs);
      var rest := ValidIsText(bs[n..]);
      text := [c] + rest;
      assert text[1..] == rest;
      assert bs == bs[..n] + bs[n..];
    }
  }

  /** A byte string is well-formed exactly when it is the encoding of some text. */
  lemma Utf8Exactly(bs: Bytes)
    ensures ValidUtf8(bs) <==> exists text: string :: Utf8Text(text) == bs
  {
    if ValidUtf8(bs) {
      var text := ValidIsText(bs);
    }
    if text: string :| Utf8Text(text) == bs {
      TextIsValid(text);
    }
  }

  /** The segments between slashes; always at least one. */
  function Split(path: Bytes): (segments: seq<Bytes>)
    ensures |segments| >= 1
  {
    if path == [] then [[]]
    else
      var rest := Split(path[1..]);
      if path[0] == SLASH then [[]] + rest
      else [[path[0]] + rest[0]] + rest[1..]
  }

  /** Empty and `.` segments disappear, `..` is a parent step. */
  function Steps(segments: seq<Bytes>): seq<Component> {
    if segments == [] then []
    else if segments[0] == [] || segments[0] == DOT then Steps(segments[1..])
    else (if segments[0] == DOT_DOT then [ParentDir] else [Normal(segments[0])]) + Steps(segments[1..])
  }

  predicate IsAbsolute(path: Bytes) {
    path != [] && path[0] == SLASH
  }

  /** `Path::components`: only a leading `/` or `.` is reported as such. */
  function Components(path: Bytes): seq<Component> {
    (if IsAbsolute(path) then [RootDir] else if Split(path)[0] == DOT then [CurDir] else [])
    + Steps(Split(path))
  }

  const LEGACY_DATABASE := Ascii("database/ledger.db")
  const PORTABLE_DATABASE := Ascii("database/kakeflow.db")
  const DATABASE_PREFIX := Ascii("database/")
  const VAULT_PREFIX := Ascii("vault/objects/")

  lemma AsciiStarts(whole: string, prefix: string)
    requires prefix <= whole
    ensures StartsWith(Ascii(whole), Ascii(prefix))
  {
  }

  /** Both database names are below the database directory. */
  lemma DatabaseNamesStart()
    ensures StartsWith(LEGACY_DATABASE, DATABASE_PREFIX) && StartsWith(PORTABLE_DATABASE, DATABASE_PREFIX)
  {
    hide Ascii, StartsWith;
    AsciiStarts("database/ledger.db", "database/");
    AsciiStarts("database/kakeflow.db", "database/");
  }

  predicate ValidArchivePath(path: Bytes) {
    && path != []
    && |path| <= MAX_PATH_LEN
    && 92 !in path
    && 0 !in path
    && !IsAbsolute(path)
    && (forall c <- Components(path) :: c.Normal?)
    && (path == LEGACY_DATABASE || path == PORTABLE_DATABASE
        || (StartsWith(path, VAULT_PREFIX) && |path| > |VAULT_PREFIX|))
  }

  /** The names of a path's ordinary components: where the entry is stored below the staging root. */
  function NamesOf(components: seq<Component>): Path {
    if components == [] then []
    else (if components[0].Normal? then [components[0].name] else []) + NamesOf(components[1..])
  }

  function Target(path: Bytes): Path {
    NamesOf(Components(path))
  }

  /** A file can be created under this spelling: it does not end in `/` or `/.`. */
  predicate NamesAFile(path: Bytes) {
    var segments := Split(path);
    segments[|segments| - 1] != [] && segments[|segments| - 1] != DOT
  }

  /** The last segment: no slash in it, and one before it unless it is the whole path. */
  predicate EndsWith(path: Bytes, last: Bytes) {
    && |last| <= |path| && path[|path| - |last|..] == last && SLASH !in last
    && (|last| < |path| ==> path[|path| - |last| - 1] == SLASH)
  }

  lemma EndsWithGrows(b: byte, path: Bytes, last: Bytes)
    requires EndsWith(path, last)
    ensures |last| < |path| || b == SLASH ==> EndsWith([b] + path, last)
    ensures last == path && b != SLASH ==> EndsWith([b] + path, [b] + path)
  {
    if |last| < |path| || b == SLASH {
      var whole := [b] + path;
      assert whole[|whole| - |last|..] == last;
    }
  }

  lemma {:induction false} LastSegment(path: Bytes)
    ensures EndsWith(path, Split(path)[|Split(path)| - 1])
    ensures |Split(path)| == 1 ==> Split(path) == [path]
    ensures |Split(path)| > 1 ==> |Split(path)[|Split(path)| - 1]| < |path|
  {
    if path != [] {
      hide EndsWith;
      var rest := path[1..];
      assert path == [path[0]] + rest;
      LastSegment(rest);
      EndsWithGrows(path[0], rest, Split(rest)[|Split(rest)| - 1]);
    }
  }

  /** A path names a file exactly when it ends neither in a slash nor in a `.` of its own. */
  lemma NamesAFileExactly(path: Bytes)
    ensures NamesAFile(path) <==>
              path != [] && path[|path| - 1] != 47
              && !(path[|path| - 1] == 46 && (|path| == 1 || path[|path| - 2] == 47))
  {
    LastSegment(path);
  }

  /** How the operating system walks the segments of a path, `..` going up. */
  function Walk(at: Path, segments: seq<Bytes>): Path
    decreases |segments|
  {
    if segments == [] then at
    else if segments[0] == [] || segments[0] == DOT then Walk(at, segments[1..])
    else if segments[0] == DOT_DOT then Walk(if at == [] then [] else at[..|at| - 1], segments[1..])
    else Walk(at + [segments[0]], segments[1..])
  }

  /** `root.join(path)` followed by resolution; an absolute path replaces the root. */
  function Resolve(root: Path, path: Bytes): Path {
    Walk(if IsAbsolute(path) then [] else root, Split(path))
  }

  predicate Prefix<T(==)>(a: seq<T>, b: seq<T>) {
    |a| <= |b| && b[..|a|] == a
  }

  /** One path is the other, or lies below it. */
  predicate Clash(a: Path, b: Path) {
    Prefix(a, b) || Prefix(b, a)
  }

  /** With no `..` among the steps, a segment that is not skipped contributes exactly its own name. */
  lemma NormalStep(segments: seq<Bytes>)
    requires segments != [] && segments[0] != [] && segments[0] != DOT
    requires forall c <- Steps(segments) :: c.Normal?
    ensures segments[0] != DOT_DOT
    ensures Steps(segments) == [Normal(segments[0])] + Steps(segments[1..])
    ensures forall c <- Steps(segments[1..]) :: c.Normal?
    ensures NamesOf(Steps(segments)) == [segments[0]] + NamesOf(Steps(segments[1..]))
  {
    assert Steps(segments)[0] in Steps(segments);
    assert Steps(segments) == [Normal(segments[0])] + Steps(segments[1..]);
    assert Steps(segments)[1..] == Steps(segments[1..]);
  }

  lemma SkippedStep(segments: seq<Bytes>)
    ensures Steps([]) == [] && NamesOf([]) == []
    ensures segments != [] && (segments[0] == [] || segments[0] == DOT) ==> Steps(segments) == Steps(segments[1..])
  {
  }

  lemma {:induction false} WalkOfNormalSteps(at: Path, segments: seq<Bytes>)
    requires forall c <- Steps(segments) :: c.Normal?
    ensures Walk(at, segments) == at + NamesOf(Steps(segments))
    decreases |segments|
  {
    hide Steps, NamesOf;
    SkippedStep(segments);
    if segments == [] {
      assert at + [] == at;
    } else if segments[0] == [] || segments[0] == DOT {
      WalkOfNormalSteps(at, segments[1..]);
    } else {
      NormalStep(segments);
      var rest := NamesOf(Steps(segments[1..]));
      WalkOfNormalSteps(at + [segments[0]], segments[1..]);
      assert at + [segments[0]] + rest == at + ([segments[0]] + rest);
    }
  }

  lemma NormalComponentsAreTheSteps(path: Bytes)
    requires !IsAbsolute(path)
    requires forall c <- Components(path) :: c.Normal?
    ensures Components(path) == Steps(Split(path))
  {
    var lead: seq<Component> := if Split(path)[0] == DOT then [CurDir] else [];
    assert Components(path) == lead + Steps(Split(path));
    assert forall c <- lead :: c in Components(path);
    assert CurDir !in lead;
  }

  predicate AllNormal(components: seq<Component>) {
    forall c <- components :: c.Normal?
  }

  predicate NoParents(segments: seq<Bytes>) {
    forall segment <- segments :: segment != [46, 46]
  }

  lemma AllNormalGrows(first: Component, rest: seq<Component>)
    ensures AllNormal([first] + rest) <==> first.Normal? && AllNormal(rest)
  {
    assert first in [first] + rest;
    assert forall c <- rest :: c in [first] + rest;
  }

  lemma NoParentsGrows(segments: seq<Bytes>)
    requires segments != []
    ensures NoParents(segments) <==> segments[0] != [46, 46] && NoParents(segments[1..])
  {
    assert segments[0] in segments && forall segment <- segments[1..] :: segment in segments;
    assert forall segment <- segments :: segment == segments[0] || segment in segments[1..];
  }

  lemma {:induction false} NormalStepsExactly(segments: seq<Bytes>)
    ensures AllNormal(Steps(segments)) <==> NoParents(segments)
  {
    hide AllNormal, NoParents;
    if segments == [] {
      assert AllNormal([]) && NoParents([]) by { NothingIsNormal(); }
    } else {
      NormalStepsExactly(segments[1..]);
      NoParentsGrows(segments);
      if segments[0] != [] && segments[0] != DOT {
        var first := if segments[0] == DOT_DOT then ParentDir else Normal(segments[0]);
        assert Steps(segments) == [first] + Steps(segments[1..]);
        AllNormalGrows(first, Steps(segments[1..]));
      }
    }
  }

  lemma NothingIsNormal()
    ensures AllNormal([]) && NoParents([])
  {
  }

  /** A path is accepted exactly when it has no backslash, no NUL, no leading slash or `.` and no `..`, and is one of the
      two database names or lies below the vault. */
  lemma PathIsAcceptedExactly(path: Bytes)
    ensures ValidArchivePath(path) <==>
              && 0 < |path| <= 1024 && 92 !in path && 0 !in path && path[0] != 47
              && Split(path)[0] != [46] && NoParents(Split(path))
              && (path == Ascii("database/ledger.db") || path == Ascii("database/kakeflow.db")
                  || (|path| > 14 && path[..14] == Ascii("vault/objects/")))
  {
    hide Ascii, Steps, Split;
    NormalStepsExactly(Split(path));
    assert |VAULT_PREFIX| == 14 by { VaultPrefixLength(); }
    if path != [] && path[0] != SLASH {
      var lead: seq<Component> := if Split(path)[0] == DOT then [CurDir] else [];
      assert Components(path) == lead + Steps(Split(path));
      assert lead != [] ==> CurDir in Components(path);
      assert forall c <- Steps(Split(path)) :: c in Components(path);
    }
  }

  lemma VaultPrefixLength()
    ensures |VAULT_PREFIX| == 14
  {
    assert |"vault/objects/"| == 14;
  }

  /** Every accepted path is stored strictly below the root it is joined to, and nowhere else. */
  lemma AcceptedPathsStayBelowTheRoot(root: Path, path: Bytes)
    requires ValidArchivePath(path)
    ensures Resolve(root, path) == root + Target(path)
    ensures Prefix(root, Resolve(root, path)) && Target(path) != []
    ensures forall name <- Target(path) :: name != DOT_DOT && name != DOT && name != [] && SLASH !in name
  {
    NormalComponentsAreTheSteps(path);
    WalkOfNormalSteps(root, Split(path));
    SplitHasNoSlash(path);
    NamesAreOrdinary(Split(path));
  }

  lemma {:induction false} SplitHasNoSlash(path: Bytes)
    ensures forall segment <- Split(path) :: SLASH !in segment
  {
    if path != [] {
      SplitHasNoSlash(path[1..]);
    }
  }

  lemma {:induction false} NamesAreOrdinary(segments: seq<Bytes>)
    requires forall segment <- segments :: SLASH !in segment
    ensures forall name <- NamesOf(Steps(segments)) :: name != DOT_DOT && name != DOT && name != [] && SLASH !in name
  {
    if segments != [] {
      NamesAreOrdinary(segments[1..]);
      if segments[0] != [] && segments[0] != DOT {
        assert Steps(segments)[1..] == Steps(segments[1..]);
      }
    }
  }
}
