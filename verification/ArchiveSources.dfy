/** Collecting the sources of a backup from the database file and the vault's directory tree. */
module ArchiveSources {
  import opened Wrappers
  import opened Bytes
  import opened ArchivePaths
  import opened ArchiveFormat
  import opened ArchiveReader
  import opened ArchiveGrammar
  import opened ArchiveAcceptance
  import opened ArchiveWriter
  import opened ArchiveTheorems

  /** A regular file below the vault's `objects` directory: its relative path components and bytes. */
  datatype VaultFile = VaultFile(parts: Path, content: Bytes)

  const VAULT: Name := Ascii("vault")
  const OBJECTS: Name := Ascii("objects")

  /** A directory entry's name. */
  predicate OrdinaryName(name: Name) {
    name != [] && name != DOT && name != DOT_DOT && SLASH !in name
  }

  /** `portable_relative_path` */
  function Join(parts: Path): Bytes {
    if parts == [] then []
    else if |parts| == 1 then parts[0]
    else parts[0] + [SLASH] + Join(parts[1..])
  }

  function Source(c: Crypto, path: Bytes, content: Bytes): SourceEntry {
    SourceEntry(path, |content|, c.digest(content), content)
  }

  function VaultPath(parts: Path): Bytes {
    VAULT_PREFIX + Join(parts)
  }

  /** `collect_entries`, before the entries are sorted by path. */
  function Collect(c: Crypto, mode: Mode, database: Bytes, vault: seq<VaultFile>): (entries: seq<SourceEntry>)
    ensures |entries| == 1 + |vault|
  {
    [Source(c, DatabaseOf(mode), database)]
    + seq(|vault|, i requires 0 <= i < |vault| => Source(c, VaultPath(vault[i].parts), vault[i].content))
  }

  lemma {:induction false} SplitOfSegment(name: Bytes, rest: Bytes)
    requires SLASH !in name
    ensures Split(name + [SLASH] + rest) == [name] + Split(rest)
    ensures Split(name) == [name]
  {
    if name == [] {
      assert name + [SLASH] + rest == [SLASH] + rest;
      assert ([SLASH] + rest)[1..] == rest;
    } else {
      var tail := name[1..];
      SplitOfSegment(tail, rest);
      assert (name + [SLASH] + rest)[1..] == tail + [SLASH] + rest;
      assert [name[0]] + tail == name;
      assert ([tail] + Split(rest))[1..] == Split(rest);
    }
  }

  /** Splitting undoes joining. */
  lemma {:induction false} SplitOfJoin(parts: Path)
    requires parts != [] && forall name <- parts :: OrdinaryName(name)
    ensures Split(Join(parts)) == parts
  {
    hide Split;
    assert OrdinaryName(parts[0]);
    if |parts| == 1 {
      SplitOfSegment(parts[0], []);
    } else {
      SplitOfJoin(parts[1..]);
      SplitOfSegment(parts[0], Join(parts[1..]));
      assert parts == [parts[0]] + parts[1..];
    }
  }

  lemma {:induction false} StepsOfOrdinary(parts: Path)
    requires forall name <- parts :: OrdinaryName(name)
    ensures NamesOf(Steps(parts)) == parts
  {
    if parts != [] {
      assert OrdinaryName(parts[0]);
      StepsOfOrdinary(parts[1..]);
      assert Steps(parts) == [Normal(parts[0])] + Steps(parts[1..]);
      assert Steps(parts)[1..] == Steps(parts[1..]);
      assert parts == [parts[0]] + parts[1..];
    }
  }

  /** A joined path is stored under exactly the components it was joined from. */
  lemma TargetOfJoin(parts: Path)
    requires parts != [] && forall name <- parts :: OrdinaryName(name)
    ensures Target(Join(parts)) == parts && NamesAFile(Join(parts)) && !IsAbsolute(Join(parts))
  {
    hide Split;
    SplitOfJoin(parts);
    StepsOfOrdinary(parts);
    assert OrdinaryName(parts[0]) && OrdinaryName(parts[|parts| - 1]);
    assert Join(parts)[0] == parts[0][0];
    assert parts[0][0] in parts[0];
    assert Components(Join(parts)) == Steps(parts);
  }

  lemma JoinOfMore(name: Name, rest: Path)
    requires rest != []
    ensures Join([name] + rest) == name + [SLASH] + Join(rest)
  {
    assert ([name] + rest)[1..] == rest;
  }

  lemma VaultPrefixNames()
    ensures VAULT_PREFIX == VAULT + [SLASH] + OBJECTS + [SLASH]
    ensures OrdinaryName(VAULT) && OrdinaryName(OBJECTS) && VAULT[0] != DATABASE_PREFIX[0]
  {
  }

  lemma VaultPathParts(parts: Path)
    requires parts != [] && forall name <- parts :: OrdinaryName(name)
    ensures Target(VaultPath(parts)) == [VAULT, OBJECTS] + parts && NamesAFile(VaultPath(parts))
    ensures VaultPath(parts)[0] != DATABASE_PREFIX[0]
  {
    hide Target, NamesAFile, Join, Ascii, OrdinaryName;
    VaultPrefixNames();
    JoinOfMore(OBJECTS, parts);
    JoinOfMore(VAULT, [OBJECTS] + parts);
    var all := [VAULT, OBJECTS] + parts;
    assert all == [VAULT] + ([OBJECTS] + parts);
    assert VAULT + [SLASH] + (OBJECTS + [SLASH] + Join(parts)) == VAULT_PREFIX + Join(parts);
    TargetOfJoin(all);
  }

  const DATABASE: Name := Ascii("database")

  function DatabaseFile(mode: Mode): Name {
    match mode case Legacy => Ascii("ledger.db") case Portable => Ascii("kakeflow.db")
  }

  lemma JoinOfTwo(a: Name, b: Name)
    ensures Join([a, b]) == a + [SLASH] + b
  {
    assert [a, b][1..] == [b];
  }

  lemma AsciiAppend(a: string, b: string)
    ensures Ascii(a + b) == Ascii(a) + Ascii(b)
  {
  }

  lemma AsciiOfSlash()
    ensures Ascii("/") == [SLASH]
  {
  }

  /** The two spellings of an ASCII path of two names. */
  lemma AsciiPath(a: string, b: string)
    ensures Ascii(a + "/" + b) == Join([Ascii(a), Ascii(b)])
  {
    hide Ascii, Join;
    AsciiAppend(a + "/", b);
    AsciiAppend(a, "/");
    AsciiOfSlash();
    JoinOfTwo(Ascii(a), Ascii(b));
  }

  lemma OrdinaryAscii(text: string)
    requires |text| > 2 && forall c <- text :: c != '/' && c as int < 128
    ensures OrdinaryName(Ascii(text))
  {
    assert forall i :: 0 <= i < |text| ==> text[i] in text;
  }

  lemma DatabaseParts(mode: Mode)
    ensures DatabaseOf(mode) == Join([DATABASE, DatabaseFile(mode)])
    ensures OrdinaryName(DATABASE) && OrdinaryName(DatabaseFile(mode))
  {
    hide Ascii, Join, OrdinaryName;
    OrdinaryAscii("database");
    match mode
    case Legacy =>
      OrdinaryAscii("ledger.db");
      AsciiPath("database", "ledger.db");
      assert "database" + "/" + "ledger.db" == "database/ledger.db";
    case Portable =>
      OrdinaryAscii("kakeflow.db");
      AsciiPath("database", "kakeflow.db");
      assert "database" + "/" + "kakeflow.db" == "database/kakeflow.db";
  }

  lemma DatabaseTarget(mode: Mode)
    ensures Target(DatabaseOf(mode)) == [DATABASE, DatabaseFile(mode)] && NamesAFile(DatabaseOf(mode))
  {
    hide Target, NamesAFile, Join, OrdinaryName, Ascii;
    DatabaseParts(mode);
    TargetOfJoin([DATABASE, DatabaseFile(mode)]);
  }

  predicate Printable(b: byte) {
    32 <= b < 127 && b != 92
  }

  lemma PrintableAscii(text: string)
    requires forall c <- text :: 32 <= c as int < 127 && c != '\\'
    ensures forall b <- Ascii(text) :: Printable(b)
  {
    assert forall i :: 0 <= i < |text| ==> text[i] in text;
  }

  lemma PrintableDatabase(mode: Mode)
    ensures |DatabaseOf(mode)| < 32 && forall b <- DatabaseOf(mode) :: Printable(b)
  {
    hide Ascii, Printable;
    PrintableAscii("database/ledger.db");
    PrintableAscii("database/kakeflow.db");
  }

  lemma {:induction false} PrintableIsUtf8(bs: Bytes)
    requires forall b <- bs :: Printable(b)
    ensures ValidUtf8(bs)
  {
    if bs != [] {
      assert Printable(bs[0]);
      assert forall b <- bs[1..] :: b in bs;
      PrintableIsUtf8(bs[1..]);
    }
  }

  lemma DatabasePathIsAcceptable(mode: Mode)
    ensures AcceptablePath(DatabaseOf(mode))
  {
    hide ValidUtf8, Split, Steps, Join, Ascii, OrdinaryName;
    var path := DatabaseOf(mode);
    PrintableDatabase(mode);
    PrintableIsUtf8(path);
    DatabaseParts(mode);
    var parts := [DATABASE, DatabaseFile(mode)];
    SplitOfJoin(parts);
    TargetOfJoin(parts);
    OrdinarySteps(parts);
    assert 92 !in path && 0 !in path by {
      assert !Printable(92) && !Printable(0);
    }
  }

  lemma {:induction false} OrdinarySteps(parts: Path)
    requires forall name <- parts :: OrdinaryName(name)
    ensures forall c <- Steps(parts) :: c.Normal?
    ensures parts != [] ==> parts[0] != DOT
  {
    if parts != [] {
      assert OrdinaryName(parts[0]);
      OrdinarySteps(parts[1..]);
    }
  }

  lemma HeadOfPrefix(a: Path, b: Path)
    requires |a| > 0 && Prefix(a, b)
    ensures a[0] == b[0]
  {
    assert b[..|a|][0] == b[0];
  }

  lemma DifferentHeadsDoNotClash(a: Path, b: Path)
    requires |a| > 0 && |b| > 0 && a[0] != b[0]
    ensures !Clash(a, b)
  {
    hide Prefix;
    if Prefix(a, b) {
      HeadOfPrefix(a, b);
    } else if Prefix(b, a) {
      HeadOfPrefix(b, a);
    }
  }

  lemma SamePrefixClash(a: Path, b: Path, root: Path)
    requires Clash(root + a, root + b)
    ensures Clash(a, b)
  {
    if Prefix(root + a, root + b) {
      assert (root + b)[..|root + a|] == root + b[..|a|];
      assert (root + b[..|a|])[|root|..] == b[..|a|] && (root + a)[|root|..] == a;
    } else {
      assert (root + a)[..|root + b|] == root + a[..|b|];
      assert (root + a[..|b|])[|root|..] == a[..|b|] && (root + b)[|root|..] == b;
    }
  }

  /** The vault as a directory walk finds it: regular files at distinct places, with paths `source_entry` accepts. */
  predicate VaultTree(vault: seq<VaultFile>) {
    && (forall f <- vault :: f.parts != [] && (forall name <- f.parts :: OrdinaryName(name)) && AcceptablePath(VaultPath(f.parts)))
    && (forall i, j :: 0 <= i < j < |vault| ==> !Clash(vault[i].parts, vault[j].parts))
  }

  /** What a restore has to produce: the database and every vault file in its place, and nothing else. */
  ghost predicate IsCopy(files: Tree, mode: Mode, database: Bytes, vault: seq<VaultFile>) {
    && [DATABASE, DatabaseFile(mode)] in files && files[[DATABASE, DatabaseFile(mode)]] == database
    && (forall f <- vault :: [VAULT, OBJECTS] + f.parts in files && files[[VAULT, OBJECTS] + f.parts] == f.content)
    && (forall t :: t in files ==> t == [DATABASE, DatabaseFile(mode)] || exists f <- vault :: t == [VAULT, OBJECTS] + f.parts)
  }

  /** Whatever the vault holds: files at distinct places of a directory tree, with paths that
      `source_entry` accepts, always make a source set that can be restored. */
  lemma CollectedSourcesAreGood(c: Crypto, mode: Mode, database: Bytes, vault: seq<VaultFile>)
    requires forall m {:trigger c.digest(m)} :: |c.digest(m)| == DIGEST_LEN
    requires VaultTree(vault)
    ensures GoodSources(c, mode, Collect(c, mode, database, vault))
  {
    hide Target, Clash, AcceptablePath, NamesAFile, Join, OrdinaryName, Ascii;
    var entries := Collect(c, mode, database, vault);
    DatabaseTarget(mode);
    DatabasePathIsAcceptable(mode);
    forall i | 0 < i < |entries|
      ensures GoodSource(c, mode, entries[i]) && Target(entries[i].path) == [VAULT, OBJECTS] + vault[i - 1].parts
    {
      assert vault[i - 1] in vault;
      VaultPathParts(vault[i - 1].parts);
    }
    assert GoodSource(c, mode, entries[0]);
    forall i, j | 0 <= i < j < |entries|
      ensures !Clash(Target(entries[i].path), Target(entries[j].path))
    {
      if i == 0 {
        NamesDiffer();
        DifferentHeadsDoNotClash(Target(entries[0].path), Target(entries[j].path));
      } else if Clash(Target(entries[i].path), Target(entries[j].path)) {
        SamePrefixClash(vault[i - 1].parts, vault[j - 1].parts, [VAULT, OBJECTS]);
      }
    }
    assert entries[0].path == DatabaseOf(mode);
  }

  lemma NamesDiffer()
    ensures DATABASE != VAULT
  {
    assert |DATABASE| == 8 && |VAULT| == 5;
  }

  lemma CollectedAt(c: Crypto, mode: Mode, database: Bytes, vault: seq<VaultFile>, i: nat)
    requires VaultTree(vault) && i < 1 + |vault|
    ensures var e := Collect(c, mode, database, vault)[i];
            if i == 0 then Target(e.path) == [DATABASE, DatabaseFile(mode)] && e.content == database
            else Target(e.path) == [VAULT, OBJECTS] + vault[i - 1].parts && e.content == vault[i - 1].content
  {
    hide Target, Clash, AcceptablePath, NamesAFile, Join, OrdinaryName, Ascii, VaultPath;
    if i == 0 {
      DatabaseTarget(mode);
    } else {
      assert vault[i - 1] in vault;
      VaultPathParts(vault[i - 1].parts);
    }
  }

  lemma MirrorIsCopy(c: Crypto, mode: Mode, database: Bytes, vault: seq<VaultFile>, files: Tree)
    requires VaultTree(vault) && Mirrors(files, Collect(c, mode, database, vault))
    ensures IsCopy(files, mode, database, vault)
  {
    hide Target, Collect, VaultTree, Ascii;
    var entries := Collect(c, mode, database, vault);
    CollectedAt(c, mode, database, vault, 0);
    forall f | f in vault
      ensures [VAULT, OBJECTS] + f.parts in files && files[[VAULT, OBJECTS] + f.parts] == f.content
    {
      var i :| 0 <= i < |vault| && vault[i] == f;
      CollectedAt(c, mode, database, vault, i + 1);
    }
    forall t | t in files
      ensures t == [DATABASE, DatabaseFile(mode)] || exists f <- vault :: t == [VAULT, OBJECTS] + f.parts
    {
      var i :| 0 <= i < |entries| && Target(entries[i].path) == t;
      CollectedAt(c, mode, database, vault, i);
      if i > 0 {
        assert vault[i - 1] in vault;
      }
    }
  }

  /** Where the vault files are stored. */
  function PlacesOf(vault: seq<VaultFile>): set<Path> {
    set f | f in vault :: [VAULT, OBJECTS] + f.parts
  }

  lemma CopyHolds(files: Tree, mode: Mode, database: Bytes, vault: seq<VaultFile>)
    requires IsCopy(files, mode, database, vault)
    ensures files.Keys == {[DATABASE, DatabaseFile(mode)]} + PlacesOf(vault)
    ensures files[[DATABASE, DatabaseFile(mode)]] == database
    ensures forall f <- vault :: [VAULT, OBJECTS] + f.parts in PlacesOf(vault) && files[[VAULT, OBJECTS] + f.parts] == f.content
  {
    forall t
      ensures t in files.Keys <==> t in {[DATABASE, DatabaseFile(mode)]} + PlacesOf(vault)
    {
    }
  }

  /** End to end: for every database and every vault tree within the limits, restoring the backup in its own mode
      yields exactly the database, the vault files and, in portable mode, the master key. */
  lemma BackupOfAnyLedgerRestores(
    c: Crypto, sealed: iset<Sealing>, mode: Mode, passphrase: Bytes, salt: Bytes, noncePrefix: Bytes,
    key: Option<Bytes>, database: Bytes, vault: seq<VaultFile>)
    requires |salt| == SALT_LEN && |noncePrefix| == NONCE_PREFIX_LEN && GoodKey(mode, key)
    requires VaultTree(vault) && WithinLimits(Collect(c, mode, database, vault), VersionOf(mode), DEFAULT_LIMITS)
    requires Ideal(c, sealed)
    requires WriterSealings(SessionOf(c, mode, passphrase, salt, noncePrefix),
                            PrintArchive(key, Archived(Collect(c, mode, database, vault)))) <= sealed
    ensures var archive := ArchiveBytes(c, SessionOf(c, mode, passphrase, salt, noncePrefix), key,
                                        Archived(Collect(c, mode, database, vault)));
            var restored := ReadArchive(c, archive, mode, passphrase, DEFAULT_LIMITS);
            && restored.Ok?
            && restored.value.entryCount == 1 + |vault|
            && restored.value.masterKey == key
            && restored.value.files.Keys == {[DATABASE, DatabaseFile(mode)]} + PlacesOf(vault)
            && restored.value.files[[DATABASE, DatabaseFile(mode)]] == database
            && forall f <- vault :: [VAULT, OBJECTS] + f.parts in PlacesOf(vault)
                                    && restored.value.files[[VAULT, OBJECTS] + f.parts] == f.content
  {
    hide GoodSources, VaultTree, WithinLimits, Mirrors, IsCopy, PlacesOf, WriterSealings, SessionOf, PrintArchive, ArchiveBytes, ReadArchive,
         Archived, SourceTotal;
    CollectedSourcesAreGood(c, mode, database, vault) by {
      DigestsFit(c, sealed);
    }
    hide Ideal;
    BackupRoundTrip(c, sealed, mode, passphrase, salt, noncePrefix, key, Collect(c, mode, database, vault));
    var archive := ArchiveBytes(c, SessionOf(c, mode, passphrase, salt, noncePrefix), key, Archived(Collect(c, mode, database, vault)));
    MirrorIsCopy(c, mode, database, vault, ReadArchive(c, archive, mode, passphrase, DEFAULT_LIMITS).value.files);
    CopyHolds(ReadArchive(c, archive, mode, passphrase, DEFAULT_LIMITS).value.files, mode, database, vault);
  }

  lemma DigestsFit(c: Crypto, sealed: iset<Sealing>)
    requires Ideal(c, sealed)
    ensures forall m {:trigger c.digest(m)} :: |c.digest(m)| == DIGEST_LEN
  {
  }
}
