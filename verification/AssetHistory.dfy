/** Batch import of aggregate asset snapshots: reuse, create or conflict, against a store keyed by
    date and by provenance. Identifiers are numbers standing for their position in the ORDER BY. */
module AssetHistory {
  import opened Wrappers

  type Id = nat
  type Household = string
  type Document = string
  type Date = string

  datatype Component = Component(header: string, valueJpy: int)
  datatype InputComponent = InputComponent(assetClass: string, header: string, valueJpy: int)

  /** A stored snapshot; its components, one per asset class, are its sorted component list. */
  datatype Row = Row(household: Household, document: Document, sourceRow: nat, asOf: Date, totalJpy: int,
                     components: map<string, Component>)

  datatype Input = Input(id: Id, household: Household, document: Document, sourceRow: nat, asOf: Date, totalJpy: int,
                         components: seq<InputComponent>)

  type Store = map<Id, Row>

  datatype ImportError = InvalidInput | NotFound | Conflict

  const MAX_JPY := 9_000_000_000_000_000
  const MAX_IMPORT_ROWS := 1_200

  // ------------------------------------------------------------- validation

  function OfficialHeader(assetClass: string): Option<string> {
    if assetClass == "DEPOSITS_CASH_CRYPTO" then Some("預金・現金・暗号資産(円)")
    else if assetClass == "LISTED_STOCKS" then Some("株式(現物)(円)")
    else if assetClass == "INVESTMENT_TRUSTS" then Some("投資信託(円)")
    else if assetClass == "BONDS" then Some("債券(円)")
    else if assetClass == "FX" then Some("FX(円)")
    else if assetClass == "INSURANCE" then Some("保険(円)")
    else if assetClass == "REAL_ESTATE" then Some("不動産(円)")
    else if assetClass == "PENSIONS" then Some("年金(円)")
    else if assetClass == "POINTS" then Some("ポイント(円)")
    else if assetClass == "OTHER_ASSETS" then Some("その他の資産(円)")
    else None
  }

  predicate ValidJpy(value: int) {
    0 <= value <= MAX_JPY
  }

  predicate ValidImport(s: Input) {
    && s.sourceRow > 0
    && ValidJpy(s.totalJpy)
    && |s.components| <= 10
    && (forall i, j :: 0 <= i < j < |s.components| ==> s.components[i].assetClass != s.components[j].assetClass)
    && (forall c <- s.components :: OfficialHeader(c.assetClass) == Some(c.header) && ValidJpy(c.valueJpy))
  }

  predicate DistinctDates(batch: seq<Input>) {
    forall i, j :: 0 <= i < j < |batch| ==> batch[i].asOf != batch[j].asOf
  }

  predicate SameSource(a: Input, b: Input) {
    a.document == b.document && a.sourceRow == b.sourceRow
  }

  predicate DistinctProvenance(batch: seq<Input>) {
    forall i, j :: 0 <= i < j < |batch| ==> !SameSource(batch[i], batch[j])
  }

  predicate ValidBatch(household: Household, batch: seq<Input>) {
    && 0 < |batch| <= 1_200
    && (forall s <- batch :: ValidImport(s) && s.household == household)
    && DistinctDates(batch)
    && DistinctProvenance(batch)
  }

  /** A batch is valid exactly when it has 1 to 1,200 valid imports for the household, no two for the same date and no two
      from the same row of the same document. */
  lemma ValidBatchExactly(household: Household, batch: seq<Input>)
    ensures ValidBatch(household, batch) <==>
              && 1 <= |batch| <= 1_200 && (forall i :: 0 <= i < |batch| ==> ValidImport(batch[i]) && batch[i].household == household)
              && forall i, j :: 0 <= i < |batch| && 0 <= j < |batch| && i != j ==>
                   batch[i].asOf != batch[j].asOf && (batch[i].document, batch[i].sourceRow) != (batch[j].document, batch[j].sourceRow)
  {
    hide ValidImport;
    if ValidBatch(household, batch) {
      forall i, j | 0 <= i < |batch| && 0 <= j < |batch| && i != j
        ensures batch[i].asOf != batch[j].asOf && !SameSource(batch[i], batch[j])
      {
        assert if i < j then !SameSource(batch[i], batch[j]) else !SameSource(batch[j], batch[i]);
      }
    }
  }

  // ---------------------------------------------------------------- one snapshot

  function ComponentMap(components: seq<InputComponent>): map<string, Component> {
    if components == [] then map[]
    else
      var c := components[|components| - 1];
      ComponentMap(components[..|components| - 1])[c.assetClass := Component(c.header, c.valueJpy)]
  }

  function RowOf(s: Input): Row {
    Row(s.household, s.document, s.sourceRow, s.asOf, s.totalJpy, ComponentMap(s.components))
  }

  predicate SameDateOrSource(row: Row, s: Input) {
    row.household == s.household && (row.asOf == s.asOf || (row.document == s.document && row.sourceRow == s.sourceRow))
  }

  function Candidates(store: Store, s: Input): set<Id> {
    set id | id in store && SameDateOrSource(store[id], s)
  }

  function Rank(row: Row, s: Input): nat {
    if row.asOf == s.asOf && row.sourceRow == s.sourceRow then 0 else 1
  }

  /** ORDER BY CASE ... END, id */
  predicate NoLater(store: Store, s: Input, a: Id, b: Id)
    requires a in store && b in store
  {
    Rank(store[a], s) < Rank(store[b], s) || (Rank(store[a], s) == Rank(store[b], s) && a <= b)
  }

  ghost predicate IsPick(store: Store, s: Input, id: Id) {
    && id in Candidates(store, s)
    && (forall c :: c in Candidates(store, s) ==> NoLater(store, s, id, c))
  }

  lemma NoLaterIsAnOrder(store: Store, s: Input, a: Id, b: Id, c: Id)
    requires a in store && b in store && c in store
    ensures NoLater(store, s, a, b) || NoLater(store, s, b, a)
    ensures NoLater(store, s, a, b) && NoLater(store, s, b, c) ==> NoLater(store, s, a, c)
  {
  }

  lemma {:induction false} First(store: Store, s: Input, among: set<Id>) returns (first: Id)
    requires among != {} && among <= store.Keys
    ensures first in among
    ensures forall c :: c in among ==> NoLater(store, s, first, c)
    decreases |among|
  {
    hide NoLater;
    first :| first in among;
    var rest := among - {first};
    if rest != {} {
      var y := First(store, s, rest);
      var x := first;
      NoLaterIsAnOrder(store, s, x, x, y);
      NoLaterIsAnOrder(store, s, x, y, y);
      first := if NoLater(store, s, x, y) then x else y;
      forall c | c in among
        ensures NoLater(store, s, first, c)
      {
        NoLaterIsAnOrder(store, s, x, y, c);
      }
    } else {
      NoLaterIsAnOrder(store, s, first, first, first);
      assert among == {first};
    }
  }

  lemma PickExists(store: Store, s: Input)
    requires Candidates(store, s) != {}
    ensures exists id :: IsPick(store, s, id)
  {
    var id := First(store, s, Candidates(store, s));
    assert IsPick(store, s, id);
  }

  ghost function Pick(store: Store, s: Input): (id: Id)
    requires Candidates(store, s) != {}
    ensures IsPick(store, s, id)
  {
    PickExists(store, s);
    var id :| IsPick(store, s, id);
    id
  }

  lemma PickIsUnique(store: Store, s: Input, id: Id)
    requires IsPick(store, s, id)
    ensures Candidates(store, s) != {} && Pick(store, s) == id
  {
  }

  predicate MatchesImport(row: Row, s: Input) {
    row.asOf == s.asOf && row.totalJpy == s.totalJpy && row.components == ComponentMap(s.components)
  }

  datatype Decision = Create | Reuse | Clash

  ghost function Decide(store: Store, s: Input): Decision {
    if Candidates(store, s) == {} then Create
    else if MatchesImport(store[Pick(store, s)], s) then Reuse
    else Clash
  }

  /** `import_one`: the store afterwards and whether a row was reused. */
  ghost function ImportOne(store: Store, s: Input): Result<(Store, bool), ImportError> {
    match Decide(store, s)
    case Reuse => Ok((store, true))
    case Clash => Err(Conflict)
    case Create => if s.id in store then Err(Conflict) else Ok((store[s.id := RowOf(s)], false))
  }

  /** Where an imported input is stored: its own identifier, or the row that was reused. */
  ghost function StoredAs(store: Store, s: Input): Id {
    if Candidates(store, s) == {} then s.id else Pick(store, s)
  }

  /** The snapshot that `import_one` returns. */
  ghost function SnapshotOf(store: Store, s: Input): (Id, Row)
    requires ImportOne(store, s).Ok?
  {
    (StoredAs(store, s), ImportOne(store, s).value.0[StoredAs(store, s)])
  }

  datatype Totals = Totals(created: nat, reused: nat)
  datatype Imported = Imported(reused: bool, snapshot: (Id, Row))
  datatype Summary = Summary(totals: Totals, snapshots: seq<(Id, Row)>)

  ghost function ImportAll(store: Store, batch: seq<Input>): Result<(Store, Totals), ImportError> {
    if batch == [] then Ok((store, Totals(0, 0)))
    else
      var (mid, totals) :- ImportAll(store, batch[..|batch| - 1]);
      var (after, reused) :- ImportOne(mid, batch[|batch| - 1]);
      Ok((after, if reused then totals.(reused := totals.reused + 1) else totals.(created := totals.created + 1)))
  }

  /** The snapshots that `import_history` returns, one for each input. */
  ghost function Snapshots(store: Store, batch: seq<Input>): (r: seq<(Id, Row)>)
    requires ImportAll(store, batch).Ok?
    ensures |r| == |batch|
  {
    if batch == [] then []
    else
      var front, last := batch[..|batch| - 1], batch[|batch| - 1];
      Snapshots(store, front) + [SnapshotOf(ImportAll(store, front).value.0, last)]
  }

  // ------------------------------------------------------------------- the store

  ghost predicate UniqueKeys(store: Store) {
    forall a, b :: a in store && b in store && a != b && store[a].household == store[b].household ==>
      && store[a].asOf != store[b].asOf
      && !(store[a].document == store[b].document && store[a].sourceRow == store[b].sourceRow)
  }

  /** Rows are only ever added. */
  ghost predicate Extends(before: Store, after: Store) {
    forall id :: id in before ==> id in after && after[id] == before[id]
  }

  class SnapshotStore {
    /** Every (document, household, row) with a source record. */
    const sources: set<(Document, Household, nat)>
    var rows: Store

    constructor (sources: set<(Document, Household, nat)>)
      ensures rows == map[] && this.sources == sources && UniqueKeys(rows)
    {
      this.sources := sources;
      rows := map[];
    }

    /** The SELECT of `import_one`, scanning the candidates in any order. */
    method FindExisting(s: Input) returns (found: Option<Id>)
      ensures found.None? <==> Candidates(rows, s) == {}
      ensures found.Some? ==> found.value == Pick(rows, s)
    {
      var todo := Candidates(rows, s);
      found := None;
      while todo != {}
        invariant todo <= Candidates(rows, s)
        invariant found.None? ==> todo == Candidates(rows, s)
        invariant found.Some? ==>
                    && found.value in Candidates(rows, s)
                    && forall c :: c in Candidates(rows, s) - todo ==> NoLater(rows, s, found.value, c)
        decreases todo
      {
        var id :| id in todo;
        ghost var before, seen := found, Candidates(rows, s) - todo;
        if found.None? || NoLater(rows, s, id, found.value) {
          found := Some(id);
        }
        assert forall c :: c in seen ==> before.Some? && NoLater(rows, s, before.value, c);
        assert NoLater(rows, s, found.value, id) && (before.Some? ==> NoLater(rows, s, found.value, before.value));
        todo := todo - {id};
        assert forall c :: c in Candidates(rows, s) - todo ==> c == id || c in seen;
      }
      if found.Some? {
        PickIsUnique(rows, s, found.value);
      }
    }

    method ImportSnapshot(s: Input) returns (r: Result<Imported, ImportError>)
      modifies this
      ensures match ImportOne(old(rows), s)
              case Ok((after, reused)) => r == Ok(Imported(reused, SnapshotOf(old(rows), s))) && rows == after
              case Err(error) => r == Err(error) && rows == old(rows)
    {
      hide IsPick, Candidates, NoLater;
      var existing := FindExisting(s);
      if existing.Some? {
        PickIsStored(rows, s);
        if MatchesImport(rows[existing.value], s) {
          return Ok(Imported(true, (existing.value, rows[existing.value])));
        }
        return Err(Conflict);
      }
      if s.id in rows {
        return Err(Conflict);
      }
      rows := rows[s.id := RowOf(s)];
      return Ok(Imported(false, (s.id, rows[s.id])));
    }

    /** `import_history`: a valid batch with known sources is imported as a whole or not at all. */
    method ImportHistory(household: Household, batch: seq<Input>) returns (r: Result<Summary, ImportError>)
      requires UniqueKeys(rows)
      modifies this
      ensures UniqueKeys(rows) && Extends(old(rows), rows)
      ensures !ValidBatch(household, batch) ==> r == Err(InvalidInput)
      ensures ValidBatch(household, batch) && !SourcesKnown(household, batch) ==> r == Err(NotFound)
      ensures ValidBatch(household, batch) && SourcesKnown(household, batch) ==>
                match ImportAll(old(rows), batch)
                case Ok((after, totals)) => r == Ok(Summary(totals, Snapshots(old(rows), batch))) && rows == after
                case Err(error) => r == Err(error)
      ensures r.Err? ==> rows == old(rows)
    {
      hide UniqueKeys, ImportOne, ValidImport;
      ghost var start := rows;
      if batch == [] || |batch| > MAX_IMPORT_ROWS {
        return Err(InvalidInput);
      }
      var dates: set<Date> := {};
      var provenance: set<(Document, nat)> := {};
      for i := 0 to |batch|
        invariant forall s <- batch[..i] :: ValidImport(s) && s.household == household
        invariant dates == set s | s in batch[..i] :: s.asOf
        invariant provenance == set s | s in batch[..i] :: (s.document, s.sourceRow)
        invariant DistinctDates(batch[..i]) && DistinctProvenance(batch[..i])
      {
        var s := batch[i];
        assert batch[..i + 1] == batch[..i] + [s];
        if !ValidImport(s) || s.household != household {
          assert s in batch;
          return Err(InvalidInput);
        }
        if s.asOf in dates {
          var d :| d in batch[..i] && d.asOf == s.asOf;
          return Err(InvalidInput);
        }
        dates := dates + {s.asOf};
        if (s.document, s.sourceRow) in provenance {
          var d :| d in batch[..i] && d.document == s.document && d.sourceRow == s.sourceRow;
          assert SameSource(d, s);
          return Err(InvalidInput);
        }
        provenance := provenance + {(s.document, s.sourceRow)};
      }
      assert batch[..|batch|] == batch;
      for i := 0 to |batch|
        invariant forall s <- batch[..i] :: (s.document, household, s.sourceRow) in sources
      {
        if (batch[i].document, household, batch[i].sourceRow) !in sources {
          assert batch[i] in batch;
          return Err(NotFound);
        }
      }
      r := ImportValidated(batch);
    }

    predicate SourcesKnown(household: Household, batch: seq<Input>) {
      forall s <- batch :: (s.document, household, s.sourceRow) in sources
    }

    /** The transaction: the snapshots one after the other, rolled back on the first conflict. */
    method ImportValidated(batch: seq<Input>) returns (r: Result<Summary, ImportError>)
      requires UniqueKeys(rows)
      modifies this
      ensures UniqueKeys(rows) && Extends(old(rows), rows)
      ensures match ImportAll(old(rows), batch)
              case Ok((after, totals)) => r == Ok(Summary(totals, Snapshots(old(rows), batch))) && rows == after
              case Err(error) => r == Err(error) && rows == old(rows)
    {
      hide UniqueKeys, ImportOne, Extends, SnapshotOf;
      var saved := rows;
      var totals := Totals(0, 0);
      var snapshots: seq<(Id, Row)> := [];
      ExtendsReflexive(rows);
      for i := 0 to |batch|
        invariant ImportAll(saved, batch[..i]) == Ok((rows, totals))
        invariant snapshots == Snapshots(saved, batch[..i])
        invariant UniqueKeys(rows) && Extends(saved, rows)
      {
        assert batch[..i + 1][..i] == batch[..i];
        ghost var before := rows;
        var imported := ImportSnapshot(batch[i]);
        if imported.Err? {
          ImportAllFails(saved, batch, i + 1);
          rows := saved;
          return Err(imported.error);
        }
        ImportOneKeepsKeys(before, batch[i]);
        ExtendsTransitive(saved, before, rows);
        totals := if imported.value.reused then totals.(reused := totals.reused + 1) else totals.(created := totals.created + 1);
        snapshots := snapshots + [imported.value.snapshot];
      }
      assert batch[..|batch|] == batch;
      return Ok(Summary(totals, snapshots));
    }
  }

  lemma PickIsStored(store: Store, s: Input)
    requires Candidates(store, s) != {}
    ensures Pick(store, s) in store
  {
  }

  lemma ExtendsReflexive(store: Store)
    ensures Extends(store, store)
  {
  }

  lemma ExtendsTransitive(a: Store, b: Store, c: Store)
    requires Extends(a, b) && Extends(b, c)
    ensures Extends(a, c)
  {
  }

  lemma {:induction false} ImportAllFails(store: Store, batch: seq<Input>, n: nat)
    requires n <= |batch| && ImportAll(store, batch[..n]).Err?
    ensures ImportAll(store, batch) == ImportAll(store, batch[..n])
  {
    hide ImportOne;
    if n == |batch| {
      assert batch[..n] == batch;
    } else {
      assert batch[..|batch| - 1][..n] == batch[..n];
      ImportAllFails(store, batch[..|batch| - 1], n);
    }
  }

  /** A household keeps at most one snapshot per date and per source row, and old rows stay. */
  lemma ImportOneKeepsKeys(store: Store, s: Input)
    requires UniqueKeys(store) && ImportOne(store, s).Ok?
    ensures UniqueKeys(ImportOne(store, s).value.0) && Extends(store, ImportOne(store, s).value.0)
  {
    hide ComponentMap, IsPick;
    if Decide(store, s) == Create {
      forall id | id in store && store[id].household == s.household
        ensures store[id].asOf != s.asOf && !(store[id].document == s.document && store[id].sourceRow == s.sourceRow)
      {
        assert id !in Candidates(store, s);
      }
    }
  }

  // --------------------------------------------- a batch decided against the first store

  /** Inputs that share no date and no source row cannot see each other's rows. */
  predicate Independent(batch: seq<Input>) {
    && DistinctDates(batch)
    && DistinctProvenance(batch)
    && (forall i, j :: 0 <= i < j < |batch| ==> batch[i].household == batch[j].household)
  }

  ghost function Created(store: Store, batch: seq<Input>): set<Input> {
    set s | s in batch && Decide(store, s) == Create
  }

  /** Every input decided against the store as it was at the start. */
  ghost predicate Importable(store: Store, batch: seq<Input>) {
    && (forall s :: s in batch ==> Decide(store, s) != Clash)
    && (forall s :: s in Created(store, batch) ==> s.id !in store)
    && (forall a, b :: a in Created(store, batch) && b in Created(store, batch) && a != b ==> a.id != b.id)
  }

  ghost function Ids(inputs: set<Input>): set<Id> {
    set s | s in inputs :: s.id
  }

  ghost predicate IsImported(store: Store, created: set<Input>, after: Store) {
    && after.Keys == store.Keys + Ids(created)
    && Extends(store, after)
    && (forall s :: s in created ==> after[s.id] == RowOf(s))
  }

  lemma ImportedStoreIsDetermined(store: Store, created: set<Input>, a: Store, b: Store)
    requires IsImported(store, created, a) && IsImported(store, created, b)
    ensures a == b
  {
    hide RowOf;
    assert a.Keys == b.Keys;
    forall id | id in a
      ensures a[id] == b[id]
    {
      if id !in store {
        assert exists s :: s in created && s.id == id;
      }
    }
  }

  /** Every row of the store afterwards was there before or is the row of a created input. */
  lemma ImportedRow(store: Store, created: set<Input>, after: Store, id: Id)
    requires IsImported(store, created, after) && id in after
    ensures (id in store && after[id] == store[id]) || exists x :: x in created && after[id] == RowOf(x)
  {
    hide RowOf;
    if id !in store {
      var x :| x in created && x.id == id;
    }
  }

  /** A row inserted for one input is no candidate for another, so the decision is unchanged. */
  lemma DecisionUnchanged(store: Store, created: set<Input>, after: Store, s: Input)
    requires IsImported(store, created, after)
    requires forall x :: x in created ==> !SameDateOrSource(RowOf(x), s)
    ensures Candidates(after, s) == Candidates(store, s)
    ensures Decide(after, s) == Decide(store, s)
    ensures Candidates(store, s) != {} ==>
              && Pick(after, s) == Pick(store, s)
              && Pick(store, s) in store && Pick(store, s) in after && after[Pick(store, s)] == store[Pick(store, s)]
  {
    hide RowOf, MatchesImport, SameDateOrSource;
    forall id | id in after && SameDateOrSource(after[id], s)
      ensures id in store && after[id] == store[id]
    {
      ImportedRow(store, created, after, id);
    }
    assert Candidates(after, s) == Candidates(store, s);
    if Candidates(store, s) != {} {
      var id := Pick(store, s);
      assert IsPick(after, s, id) by {
        forall c | c in Candidates(after, s)
          ensures NoLater(after, s, id, c)
        {
          assert NoLater(store, s, id, c);
        }
      }
      PickIsUnique(after, s, id);
    }
  }

  lemma CreatedGrows(store: Store, front: seq<Input>, s: Input)
    ensures Created(store, front + [s]) == Created(store, front) + (if Decide(store, s) == Create then {s} else {})
  {
    hide Decide;
    assert forall x :: x in front + [s] <==> x in front || x == s;
  }

  /** One more input on top of an imported prefix succeeds exactly when the longer batch is importable. */
  lemma NextSucceeds(store: Store, front: seq<Input>, mid: Store, s: Input)
    requires Importable(store, front) && IsImported(store, Created(store, front), mid) && s !in front
    requires Decide(mid, s) == Decide(store, s)
    ensures ImportOne(mid, s).Ok? <==> Importable(store, front + [s])
    ensures ImportOne(mid, s).Err? ==> ImportOne(mid, s).error == Conflict
  {
    hide Decide, RowOf, Extends;
    var batch := front + [s];
    CreatedGrows(store, front, s);
    assert forall x :: x in batch <==> x in front || x == s;
    assert s in batch;
    assert forall x :: x in Created(store, front) ==> x != s;
    if Decide(store, s) == Create && s.id in mid && s.id !in store {
      var x :| x in Created(store, front) && x.id == s.id;
      assert !Importable(store, batch);
    }
  }

  lemma NextImported(store: Store, front: seq<Input>, mid: Store, s: Input)
    requires IsImported(store, Created(store, front), mid) && Decide(mid, s) == Decide(store, s)
    requires ImportOne(mid, s).Ok?
    ensures IsImported(store, Created(store, front + [s]), ImportOne(mid, s).value.0)
    ensures ImportOne(mid, s).value.1 <==> Decide(store, s) != Create
  {
    hide Decide, RowOf, Created;
    CreatedGrows(store, front, s);
    if Decide(store, s) == Create {
      assert Ids(Created(store, front) + {s}) == Ids(Created(store, front)) + {s.id};
    } else {
      assert Created(store, front) + {} == Created(store, front);
    }
  }

  lemma ImportableShrinks(store: Store, front: seq<Input>, s: Input)
    requires Importable(store, front + [s])
    ensures Importable(store, front)
  {
    hide Decide;
    assert forall x :: x in front ==> x in front + [s];
  }

  lemma FrontIsUnrelated(batch: seq<Input>)
    requires batch != [] && Independent(batch)
    ensures Independent(batch[..|batch| - 1])
    ensures forall x :: x in batch[..|batch| - 1] ==> !SameDateOrSource(RowOf(x), batch[|batch| - 1])
    ensures batch[|batch| - 1] !in batch[..|batch| - 1]
  {
    hide ComponentMap;
    var front, s := batch[..|batch| - 1], batch[|batch| - 1];
    forall i | 0 <= i < |front|
      ensures !SameDateOrSource(RowOf(front[i]), s) && front[i] != s
    {
      assert front[i] == batch[i] && batch[i].asOf != batch[|batch| - 1].asOf && !SameSource(batch[i], batch[|batch| - 1]);
    }
  }

  /** The loop agrees with deciding every input against the first store: same success, same rows, same counts. */
  lemma {:induction false} BatchDecidesUpFront(store: Store, batch: seq<Input>)
    requires Independent(batch)
    ensures ImportAll(store, batch).Ok? <==> Importable(store, batch)
    ensures ImportAll(store, batch).Err? ==> ImportAll(store, batch).error == Conflict
    ensures ImportAll(store, batch).Ok? ==>
              var (after, totals) := ImportAll(store, batch).value;
              && IsImported(store, Created(store, batch), after)
              && totals.created == |Created(store, batch)|
              && totals.created + totals.reused == |batch|
  {
    hide Decide, Candidates, SameDateOrSource, RowOf, IsImported, ImportOne, Importable, Independent, Created;
    if batch == [] {
      NothingToImport(store);
    } else {
      var front, s := batch[..|batch| - 1], batch[|batch| - 1];
      assert front + [s] == batch;
      FrontIsUnrelated(batch);
      BatchDecidesUpFront(store, front);
      if ImportAll(store, front).Ok? {
        var (mid, totals) := ImportAll(store, front).value;
        CreatedAreInputs(store, front);
        DecisionUnchanged(store, Created(store, front), mid, s);
        NextSucceeds(store, front, mid, s);
        CreatedGrows(store, front, s);
        if ImportOne(mid, s).Ok? {
          NextImported(store, front, mid, s);
        }
      } else if Importable(store, batch) {
        ImportableShrinks(store, front, s);
      }
    }
  }

  lemma NothingToImport(store: Store)
    ensures Importable(store, []) && Created(store, []) == {} && IsImported(store, {}, store)
  {
    assert Ids({}) == {};
  }

  lemma CreatedAreInputs(store: Store, batch: seq<Input>)
    ensures forall s :: s in Created(store, batch) ==> s in batch
  {
    hide Decide;
  }

  /** What an input is stored as, told from the first store. */
  ghost function SnapshotUpFront(store: Store, s: Input): (Id, Row) {
    if Candidates(store, s) == {} then (s.id, RowOf(s)) else (Pick(store, s), store[Pick(store, s)])
  }

  /** The returned snapshots are told from the first store too. */
  lemma {:induction false} SnapshotsUpFront(store: Store, batch: seq<Input>)
    requires Independent(batch) && ImportAll(store, batch).Ok?
    ensures forall i :: 0 <= i < |batch| ==> Snapshots(store, batch)[i] == SnapshotUpFront(store, batch[i])
  {
    hide Decide, SameDateOrSource, RowOf, IsImported, ImportOne, Importable, Independent, Created, SnapshotOf, SnapshotUpFront, Candidates;
    if batch != [] {
      var front, s := batch[..|batch| - 1], batch[|batch| - 1];
      FrontIsUnrelated(batch);
      SnapshotsUpFront(store, front);
      BatchDecidesUpFront(store, front);
      CreatedAreInputs(store, front);
      var mid := ImportAll(store, front).value.0;
      DecisionUnchanged(store, Created(store, front), mid, s);
      SnapshotUnchanged(store, mid, s);
    }
  }

  lemma SnapshotUnchanged(store: Store, mid: Store, s: Input)
    requires ImportOne(mid, s).Ok? && Candidates(mid, s) == Candidates(store, s)
    requires Candidates(store, s) != {} ==>
               Pick(mid, s) == Pick(store, s) && Pick(store, s) in store && Pick(store, s) in mid && mid[Pick(store, s)] == store[Pick(store, s)]
    ensures SnapshotOf(mid, s) == SnapshotUpFront(store, s)
  {
    hide RowOf, Candidates, MatchesImport;
  }

  predicate DistinctClasses(components: seq<InputComponent>) {
    forall i, j :: 0 <= i < j < |components| ==> components[i].assetClass != components[j].assetClass
  }

  /** Stored components say, class by class, exactly what the input's components say. */
  predicate SameComponents(stored: map<string, Component>, components: seq<InputComponent>) {
    && (forall k :: k in stored ==> exists c <- components :: c.assetClass == k)
    && (forall c <- components :: c.assetClass in stored && stored[c.assetClass].header == c.header
                                  && stored[c.assetClass].valueJpy == c.valueJpy)
  }

  lemma {:induction false} ComponentMapSays(components: seq<InputComponent>)
    requires DistinctClasses(components)
    ensures SameComponents(ComponentMap(components), components)
  {
    if components != [] {
      var front, last := components[..|components| - 1], components[|components| - 1];
      ComponentMapSays(front);
      assert components == front + [last];
      assert forall c <- front :: c.assetClass != last.assetClass;
    }
  }

  lemma SaysOnlyThat(stored: map<string, Component>, components: seq<InputComponent>)
    requires DistinctClasses(components)
    ensures stored == ComponentMap(components) <==> SameComponents(stored, components)
  {
    hide ComponentMap;
    ComponentMapSays(components);
    if SameComponents(stored, components) {
      assert forall k :: k in stored <==> k in ComponentMap(components);
      forall k | k in stored
        ensures stored[k] == ComponentMap(components)[k]
      {
        var c :| c in components && c.assetClass == k;
      }
    }
  }

  /** A stored row agrees with an input exactly when date, total, and every component's header and value are equal. */
  lemma MatchesExactly(row: Row, s: Input)
    requires DistinctClasses(s.components)
    ensures MatchesImport(row, s) <==> row.asOf == s.asOf && row.totalJpy == s.totalJpy && SameComponents(row.components, s.components)
  {
    SaysOnlyThat(row.components, s.components);
  }

  /** Every returned snapshot is stored afterwards, in the household, with the date, the total and the components of its
      input, and under the input's own identifier and source if it was created. */
  lemma SnapshotsAreStored(store: Store, batch: seq<Input>, i: nat)
    requires Independent(batch) && ImportAll(store, batch).Ok? && i < |batch|
    ensures var (id, row) := Snapshots(store, batch)[i];
            var s, after := batch[i], ImportAll(store, batch).value.0;
            && id in after && after[id] == row
            && row.household == s.household && row.asOf == s.asOf && row.totalJpy == s.totalJpy
            && (DistinctClasses(s.components) ==> SameComponents(row.components, s.components))
            && (id !in store ==> id == s.id && row.document == s.document && row.sourceRow == s.sourceRow)
            && (id in store ==> row == store[id])
  {
    hide Independent, SameDateOrSource, ImportAll, Candidates, RowOf, MatchesImport, IsPick, Snapshots, Extends;
    BatchDecidesUpFront(store, batch);
    SnapshotsUpFront(store, batch);
    var s := batch[i];
    assert s in batch;
    var (id, row) := Snapshots(store, batch)[i];
    if Candidates(store, s) == {} {
      assert s in Created(store, batch) && s.id in Ids(Created(store, batch));
      OwnRowSays(s);
      assert id == s.id && s.id !in store;
    } else {
      PickIsStored(store, s);
      PickInHousehold(store, s);
      assert MatchesImport(row, s);
      OldRowStays(store, Created(store, batch), ImportAll(store, batch).value.0, id);
    }
    if DistinctClasses(s.components) {
      MatchesExactly(row, s);
    }
    MatchesDateAndTotal(row, s);
  }

  lemma OldRowStays(store: Store, created: set<Input>, after: Store, id: Id)
    requires IsImported(store, created, after) && id in store
    ensures id in after && after[id] == store[id]
  {
  }

  lemma PickInHousehold(store: Store, s: Input)
    requires Candidates(store, s) != {}
    ensures Pick(store, s) in store && store[Pick(store, s)].household == s.household
  {
  }

  lemma MatchesDateAndTotal(row: Row, s: Input)
    requires MatchesImport(row, s)
    ensures row.asOf == s.asOf && row.totalJpy == s.totalJpy
  {
  }

  lemma OwnRowSays(s: Input)
    ensures MatchesImport(RowOf(s), s)
    ensures RowOf(s).household == s.household && RowOf(s).document == s.document && RowOf(s).sourceRow == s.sourceRow
  {
  }

  // -------------------------------------------------------------- order of the batch

  lemma {:induction false} IndependentMeansOnce(batch: seq<Input>, s: Input)
    requires Independent(batch)
    ensures multiset(batch)[s] <= 1
  {
    if batch != [] {
      var front, last := batch[..|batch| - 1], batch[|batch| - 1];
      assert front + [last] == batch;
      FrontIsUnrelated(batch);
      IndependentMeansOnce(front, s);
    }
  }

  lemma IndexOfTwo(batch: seq<Input>, i: nat, j: nat)
    requires i < j < |batch| && batch[i] == batch[j]
    ensures multiset(batch)[batch[i]] >= 2
  {
    assert batch == batch[..j] + [batch[j]] + batch[j + 1..];
    assert batch[i] in batch[..j];
  }

  lemma PermutedInputsAreUnrelated(a: seq<Input>, b: seq<Input>, i: nat, j: nat)
    requires Independent(a) && multiset(a) == multiset(b) && i < j < |b|
    ensures b[i].asOf != b[j].asOf && !SameSource(b[i], b[j]) && b[i].household == b[j].household
  {
    if b[i] == b[j] {
      IndexOfTwo(b, i, j);
      IndependentMeansOnce(a, b[i]);
    } else {
      assert b[i] in multiset(b) && b[j] in multiset(b);
      var k, l :| 0 <= k < |a| && 0 <= l < |a| && a[k] == b[i] && a[l] == b[j];
      if k < l {
        assert a[k].asOf != a[l].asOf && !SameSource(a[k], a[l]);
      } else {
        assert a[l].asOf != a[k].asOf && !SameSource(a[l], a[k]);
      }
    }
  }

  lemma IndependencePermutes(a: seq<Input>, b: seq<Input>)
    requires Independent(a) && multiset(a) == multiset(b)
    ensures Independent(b)
  {
    hide Independent;
    forall i: nat, j: nat | i < j < |b|
      ensures b[i].asOf != b[j].asOf && !SameSource(b[i], b[j]) && b[i].household == b[j].household
    {
      PermutedInputsAreUnrelated(a, b, i, j);
    }
    ByPairs(b);
  }

  lemma ByPairs(b: seq<Input>)
    requires forall i: nat, j: nat | i < j < |b| :: b[i].asOf != b[j].asOf && !SameSource(b[i], b[j]) && b[i].household == b[j].household
    ensures Independent(b)
  {
    hide SameSource;
  }

  lemma ValidBatchIsIndependent(household: Household, batch: seq<Input>)
    requires ValidBatch(household, batch)
    ensures Independent(batch)
  {
  }

  lemma SameMembers(a: seq<Input>, b: seq<Input>)
    requires multiset(a) == multiset(b)
    ensures |a| == |b| && forall s :: s in a <==> s in b
  {
    assert |a| == |multiset(a)| && |b| == |multiset(b)|;
    assert forall s :: s in a <==> s in multiset(a);
    assert forall s :: s in b <==> s in multiset(b);
  }

  lemma ValidBatchPermutes(household: Household, a: seq<Input>, b: seq<Input>)
    requires ValidBatch(household, a) && multiset(a) == multiset(b)
    ensures ValidBatch(household, b) && Independent(a) && Independent(b)
  {
    hide ValidImport;
    SameMembers(a, b);
    ValidBatchIsIndependent(household, a);
    IndependencePermutes(a, b);
  }

  lemma OutcomePermutes(store: Store, a: seq<Input>, b: seq<Input>)
    requires Independent(a) && Independent(b) && |a| == |b| && forall s :: s in a <==> s in b
    ensures ImportAll(store, a) == ImportAll(store, b)
  {
    hide Decide, ImportAll, IsImported, Independent;
    BatchDecidesUpFront(store, a);
    BatchDecidesUpFront(store, b);
    assert Created(store, a) == Created(store, b);
    if ImportAll(store, a).Ok? && ImportAll(store, b).Ok? {
      ImportedStoreIsDetermined(store, Created(store, a), ImportAll(store, a).value.0, ImportAll(store, b).value.0);
    }
  }

  /** Permuting a valid batch changes neither the outcome nor the resulting rows nor the counts, and each input gets
      the same snapshot. */
  lemma OrderDoesNotMatter(household: Household, store: Store, a: seq<Input>, b: seq<Input>)
    requires ValidBatch(household, a) && multiset(a) == multiset(b)
    ensures ValidBatch(household, b)
    ensures ImportAll(store, a) == ImportAll(store, b)
    ensures ImportAll(store, a).Ok? ==>
              forall i, j :: 0 <= i < |a| && 0 <= j < |b| && a[i] == b[j] ==> Snapshots(store, a)[i] == Snapshots(store, b)[j]
  {
    hide ImportAll, ValidBatch, Independent, Snapshots, SnapshotUpFront;
    SameMembers(a, b);
    ValidBatchPermutes(household, a, b);
    OutcomePermutes(store, a, b);
    if ImportAll(store, a).Ok? {
      SnapshotsUpFront(store, a);
      SnapshotsUpFront(store, b);
    }
  }

  // ------------------------------------------------------------------- importing again

  lemma {:induction false} ImportAllKeepsKeys(store: Store, batch: seq<Input>)
    requires UniqueKeys(store) && ImportAll(store, batch).Ok?
    ensures UniqueKeys(ImportAll(store, batch).value.0)
  {
    hide UniqueKeys, ImportOne;
    if batch != [] {
      ImportAllKeepsKeys(store, batch[..|batch| - 1]);
      ImportOneKeepsKeys(ImportAll(store, batch[..|batch| - 1]).value.0, batch[|batch| - 1]);
    }
  }

  /** Under the unique keys a stored input is its own only candidate. */
  lemma OwnRowIsReused(store: Store, s: Input)
    requires UniqueKeys(store) && s.id in store && store[s.id] == RowOf(s)
    ensures Decide(store, s) == Reuse && SnapshotUpFront(store, s) == (s.id, RowOf(s))
  {
    hide ComponentMap;
    forall c | c in Candidates(store, s)
      ensures c == s.id
    {
    }
    assert s.id in Candidates(store, s);
    PickIsStored(store, s);
    assert Pick(store, s) == s.id;
  }

  lemma OthersAreUnrelated(batch: seq<Input>, x: Input, s: Input)
    requires Independent(batch) && x in batch && s in batch && x != s
    ensures !SameDateOrSource(RowOf(x), s)
  {
    hide ComponentMap;
    var i, j :| 0 <= i < |batch| && 0 <= j < |batch| && batch[i] == x && batch[j] == s;
    if i < j {
      assert batch[i].asOf != batch[j].asOf && !SameSource(batch[i], batch[j]);
    } else {
      assert batch[j].asOf != batch[i].asOf && !SameSource(batch[j], batch[i]);
    }
  }

  lemma ReusedNextTime(store: Store, batch: seq<Input>, after: Store, s: Input)
    requires UniqueKeys(after) && Independent(batch) && s in batch
    requires Importable(store, batch) && IsImported(store, Created(store, batch), after)
    ensures Decide(after, s) == Reuse && SnapshotUpFront(after, s) == SnapshotUpFront(store, s)
  {
    hide UniqueKeys, Independent, RowOf, SameDateOrSource, MatchesImport, Candidates, IsPick;
    if s in Created(store, batch) {
      assert s.id in after by {
        assert s.id in Ids(Created(store, batch));
      }
      OwnRowIsReused(after, s);
    } else {
      forall x | x in Created(store, batch)
        ensures !SameDateOrSource(RowOf(x), s)
      {
        OthersAreUnrelated(batch, x, s);
      }
      DecisionUnchanged(store, Created(store, batch), after, s);
    }
  }

  /** Importing a batch that succeeded reuses every row, changes nothing and returns the same snapshots. */
  lemma ReimportReusesEverything(household: Household, store: Store, batch: seq<Input>)
    requires UniqueKeys(store) && ValidBatch(household, batch) && ImportAll(store, batch).Ok?
    ensures var after := ImportAll(store, batch).value.0;
            && ImportAll(after, batch) == Ok((after, Totals(0, |batch|)))
            && Snapshots(after, batch) == Snapshots(store, batch)
  {
    hide UniqueKeys, Decide, Independent, ImportAll, IsImported, ValidBatch, Snapshots, SnapshotUpFront;
    ValidBatchIsIndependent(household, batch);
    BatchDecidesUpFront(store, batch);
    SnapshotsUpFront(store, batch);
    ImportAllKeepsKeys(store, batch);
    var after := ImportAll(store, batch).value.0;
    forall s | s in batch
      ensures Decide(after, s) == Reuse && SnapshotUpFront(after, s) == SnapshotUpFront(store, s)
    {
      ReusedNextTime(store, batch, after, s);
    }
    assert Created(after, batch) == {};
    BatchDecidesUpFront(after, batch);
    NothingToImport(after);
    ImportedStoreIsDetermined(after, {}, after, ImportAll(after, batch).value.0);
    SnapshotsUpFront(after, batch);
    assert forall i :: 0 <= i < |batch| ==> batch[i] in batch;
    assert Snapshots(after, batch) == Snapshots(store, batch);
  }

  /** The household's row of the input's date, whatever its provenance, with the same total and components, and preferred
      by the ordering to the row stored for the input's own source. */
  ghost predicate Reusable(store: Store, s: Input, d: Id) {
    && d in store && store[d].household == s.household && store[d].asOf == s.asOf && store[d].totalJpy == s.totalJpy
    && SameComponents(store[d].components, s.components)
    && (forall c :: c in store && c != d && store[c].household == s.household
                    && store[c].document == s.document && store[c].sourceRow == s.sourceRow
                    ==> store[d].sourceRow == s.sourceRow || d < c)
  }

  /** What is reused is exactly such a row. */
  lemma ReusedExactlyWhen(store: Store, s: Input)
    requires UniqueKeys(store) && DistinctClasses(s.components)
    ensures Decide(store, s) == Reuse <==> exists d :: Reusable(store, s, d)
  {
    hide Reusable;
    if Decide(store, s) == Reuse {
      ReusedIsReusable(store, s);
    }
    if d :| Reusable(store, s, d) {
      ReusableIsReused(store, s, d);
    }
  }

  lemma ReusedIsReusable(store: Store, s: Input)
    requires UniqueKeys(store) && DistinctClasses(s.components) && Decide(store, s) == Reuse
    ensures Reusable(store, s, Pick(store, s))
  {
    hide ComponentMap, SameComponents, MatchesImport;
    var d := Pick(store, s);
    MatchesExactly(store[d], s);
    MatchesDateAndTotal(store[d], s);
    forall c | c in store && c != d && store[c].household == s.household
               && store[c].document == s.document && store[c].sourceRow == s.sourceRow
      ensures store[d].sourceRow == s.sourceRow || d < c
    {
      assert c in Candidates(store, s);
      assert NoLater(store, s, d, c);
    }
  }

  lemma ReusableIsReused(store: Store, s: Input, d: Id)
    requires UniqueKeys(store) && DistinctClasses(s.components) && Reusable(store, s, d)
    ensures Decide(store, s) == Reuse
  {
    hide ComponentMap, SameComponents, MatchesImport;
    assert IsPick(store, s, d) by {
      forall c | c in Candidates(store, s)
        ensures NoLater(store, s, d, c)
      {
        if c != d {
          assert store[c].asOf != store[d].asOf;
        }
      }
    }
    PickIsUnique(store, s, d);
    MatchesExactly(store[d], s);
  }

  /** A row of the household with the input's date or source, none of which has its date, total and components, is a conflict. */
  lemma DifferentContentsConflict(store: Store, s: Input, d: Id)
    requires DistinctClasses(s.components) && d in store && store[d].household == s.household
    requires store[d].asOf == s.asOf || (store[d].document == s.document && store[d].sourceRow == s.sourceRow)
    requires forall c :: c in store && store[c].household == s.household && store[c].asOf == s.asOf ==>
               store[c].totalJpy != s.totalJpy || !SameComponents(store[c].components, s.components)
    ensures ImportOne(store, s) == Err(Conflict)
  {
    hide ComponentMap, SameComponents, MatchesImport;
    assert d in Candidates(store, s);
    PickInHousehold(store, s);
    MatchesExactly(store[Pick(store, s)], s);
  }

  // ------------------------------------------------------------------ the schema

  /** The headers that the table accepts for each asset class. */
  predicate OfficialPair(assetClass: string, header: string) {
    || (assetClass == "DEPOSITS_CASH_CRYPTO" && header == "預金・現金・暗号資産(円)")
    || (assetClass == "LISTED_STOCKS" && header == "株式(現物)(円)")
    || (assetClass == "INVESTMENT_TRUSTS" && header == "投資信託(円)")
    || (assetClass == "BONDS" && header == "債券(円)")
    || (assetClass == "FX" && header == "FX(円)")
    || (assetClass == "INSURANCE" && header == "保険(円)")
    || (assetClass == "REAL_ESTATE" && header == "不動産(円)")
    || (assetClass == "PENSIONS" && header == "年金(円)")
    || (assetClass == "POINTS" && header == "ポイント(円)")
    || (assetClass == "OTHER_ASSETS" && header == "その他の資産(円)")
  }

  /** The CHECK constraints of the two tables. */
  predicate SatisfiesSchema(row: Row) {
    && row.sourceRow > 0
    && 0 <= row.totalJpy <= 9_000_000_000_000_000
    && (forall k :: k in row.components ==>
          OfficialPair(k, row.components[k].header) && 0 <= row.components[k].valueJpy <= 9_000_000_000_000_000)
  }

  lemma HeadersAreOfficial(assetClass: string, header: string)
    ensures OfficialHeader(assetClass) == Some(header) <==> OfficialPair(assetClass, header)
  {
  }

  const CLASSES := ["DEPOSITS_CASH_CRYPTO", "LISTED_STOCKS", "INVESTMENT_TRUSTS", "BONDS", "FX", "INSURANCE", "REAL_ESTATE",
                    "PENSIONS", "POINTS", "OTHER_ASSETS"]

  lemma {:induction false} NoMoreElements(list: seq<string>)
    ensures |set x | x in list| <= |list|
  {
    if list == [] {
      assert (set x | x in list) == {};
    } else {
      var front, last := list[..|list| - 1], list[|list| - 1];
      NoMoreElements(front);
      assert list == front + [last];
      assert (set x | x in list) == (set x | x in front) + {last};
    }
  }

  lemma OfficialIsListed(assetClass: string, header: string)
    requires OfficialPair(assetClass, header)
    ensures assetClass in CLASSES
  {
    assert CLASSES[0] in CLASSES && CLASSES[1] in CLASSES && CLASSES[2] in CLASSES && CLASSES[3] in CLASSES && CLASSES[4] in CLASSES;
    assert CLASSES[5] in CLASSES && CLASSES[6] in CLASSES && CLASSES[7] in CLASSES && CLASSES[8] in CLASSES && CLASSES[9] in CLASSES;
  }

  function ClassesOf(components: seq<InputComponent>): set<string> {
    set c | c in components :: c.assetClass
  }

  lemma ClassesGrow(front: seq<InputComponent>, last: InputComponent)
    requires DistinctClasses(front + [last])
    ensures DistinctClasses(front) && last.assetClass !in ClassesOf(front)
    ensures ClassesOf(front + [last]) == ClassesOf(front) + {last.assetClass}
  {
    var longer := front + [last];
    assert longer[|front|] == last && forall k :: 0 <= k < |front| ==> longer[k] == front[k];
  }

  lemma {:induction false} ClassCount(components: seq<InputComponent>)
    requires DistinctClasses(components)
    ensures |ClassesOf(components)| == |components|
  {
    hide DistinctClasses;
    if components != [] {
      var front, last := components[..|components| - 1], components[|components| - 1];
      assert components == front + [last];
      ClassesGrow(front, last);
      ClassCount(front);
    }
  }

  lemma SmallerSet(a: set<string>, b: set<string>)
    requires a <= b
    ensures |a| <= |b|
  {
    assert b == a + (b - a);
  }

  /** Distinct official classes are at most ten. */
  lemma AtMostTen(components: seq<InputComponent>)
    requires DistinctClasses(components) && forall c <- components :: OfficialPair(c.assetClass, c.header)
    ensures |components| <= 10
  {
    hide OfficialPair;
    ClassCount(components);
    var listed := set x | x in CLASSES;
    forall k | k in ClassesOf(components)
      ensures k in listed
    {
      var c :| c in components && c.assetClass == k;
      OfficialIsListed(c.assetClass, c.header);
    }
    SmallerSet(ClassesOf(components), listed);
    NoMoreElements(CLASSES);
  }

  /** Validation accepts exactly what the tables can store: no class twice, and every CHECK constraint satisfied. The
      bound of ten components adds nothing. */
  lemma ValidImportExactly(s: Input)
    ensures ValidImport(s) <==> DistinctClasses(s.components) && SatisfiesSchema(RowOf(s))
  {
    hide OfficialPair, OfficialHeader, ComponentMap;
    forall c | c in s.components
      ensures OfficialHeader(c.assetClass) == Some(c.header) <==> OfficialPair(c.assetClass, c.header)
    {
      HeadersAreOfficial(c.assetClass, c.header);
    }
    if DistinctClasses(s.components) {
      ComponentMapSays(s.components);
      if SatisfiesSchema(RowOf(s)) {
        AtMostTen(s.components);
      }
    }
  }

  /** Whatever is imported satisfies the constraints of the tables, so no insertion is refused for them. */
  lemma {:induction false} ImportsSatisfyTheSchema(store: Store, batch: seq<Input>)
    requires (forall id :: id in store ==> SatisfiesSchema(store[id])) && (forall s <- batch :: ValidImport(s))
    requires ImportAll(store, batch).Ok?
    ensures forall id :: id in ImportAll(store, batch).value.0 ==> SatisfiesSchema(ImportAll(store, batch).value.0[id])
  {
    hide SatisfiesSchema, ValidImport, Decide, RowOf;
    if batch != [] {
      var front, last := batch[..|batch| - 1], batch[|batch| - 1];
      ImportsSatisfyTheSchema(store, front);
      ValidImportExactly(last);
    }
  }
}
