/** Edits of a double-entry journal: splitting a category, recategorising a posted transaction and applying a
    classification rule. Amount texts are digits or something else with a number of its own. */
module Journal {
  import opened Wrappers

  datatype Side = Debit | Credit
  datatype Kind = Income | Expense | OtherKind
  type AccountId = string

  /** The text of an amount field: digits only, or any other text with the number it is read as, 0 if none. */
  datatype Amount = Digits(n: nat) | Other(text: string, number: real)
  {
    function Number(): real {
      match this
      case Digits(n) => n as real
      case Other(_, number) => number
    }
  }

  datatype Entry = Entry(id: string, accountId: AccountId, side: Side, amount: Amount)

  type Accounts = map<AccountId, Kind>

  datatype TransactionType =
    | ExpenseType | IncomeType | TransferType | CardPurchase | CardPayment | Refund | FeeType | Interest | Adjustment

  datatype Shape = Shape(side: Side, kind: Kind)

  /** Which side and kind of account the category of a transaction is on, if it has one. */
  function ShapeOf(t: TransactionType): Option<Shape> {
    match t
    case IncomeType | Interest => Some(Shape(Credit, Income))
    case Refund => Some(Shape(Credit, Expense))
    case ExpenseType | CardPurchase | FeeType => Some(Shape(Debit, Expense))
    case _ => None
  }

  predicate HasKind(accounts: Accounts, id: AccountId, kind: Kind) {
    id in accounts && accounts[id] == kind
  }

  predicate InShape(accounts: Accounts, shape: Shape, e: Entry) {
    e.side == shape.side && HasKind(accounts, e.accountId, shape.kind)
  }

  function Total(entries: seq<Entry>, side: Side): real {
    if entries == [] then 0.0
    else
      var last := entries[|entries| - 1];
      Total(entries[..|entries| - 1], side) + if last.side == side then last.amount.Number() else 0.0
  }

  /** `filter` */
  function Keep(entries: seq<Entry>, p: Entry -> bool): seq<Entry> {
    if entries == [] then []
    else
      var front, last := Keep(entries[..|entries| - 1], p), entries[|entries| - 1];
      if p(last) then front + [last] else front
  }

  // ------------------------------------------------------------------ the split editor

  type Rows = seq<Entry>

  datatype EditorAction =
    | ChooseCategory(id: string, accountId: AccountId)
    | TypeAmount(id: string, amount: Amount)
    | RemoveRow(id: string)
    | AddRow(freshId: string)

  const BLANK: Amount := Other("", 0.0)

  function OpenEditor(splitEntries: seq<Entry>, side: Side, freshId: string): Rows {
    if |splitEntries| == 1 then splitEntries + [Entry(freshId, "", side, BLANK)] else splitEntries
  }

  function MapRows(rows: Rows, f: Entry -> Entry): (r: Rows)
    ensures |r| == |rows| && forall i :: 0 <= i < |rows| ==> r[i] == f(rows[i])
  {
    seq(|rows|, i requires 0 <= i < |rows| => f(rows[i]))
  }

  function WithoutRow(rows: Rows, id: string): Rows {
    Keep(rows, (r: Entry) => r.id != id)
  }

  /** Selecting offers only the category accounts and the blank one, an amount field only digits or nothing, and
      removing a row is disabled at two. */
  function EditRows(rows: Rows, side: Side, categories: set<AccountId>, a: EditorAction): Option<Rows> {
    match a
    case ChooseCategory(id, accountId) =>
      if accountId == "" || accountId in categories
      then Some(MapRows(rows, (r: Entry) => if r.id == id then r.(accountId := accountId) else r)) else None
    case TypeAmount(id, amount) =>
      if amount.Digits? || amount == BLANK
      then Some(MapRows(rows, (r: Entry) => if r.id == id then r.(amount := amount) else r)) else None
    case RemoveRow(id) => if |rows| <= 2 then None else Some(WithoutRow(rows, id))
    case AddRow(freshId) => Some(rows + [Entry(freshId, "", side, BLANK)])
  }

  function Allocated(rows: Rows): nat {
    if rows == [] then 0
    else Allocated(rows[..|rows| - 1]) + if rows[|rows| - 1].amount.Digits? then rows[|rows| - 1].amount.n else 0
  }

  predicate ValidRow(r: Entry) {
    r.accountId != "" && r.amount.Digits? && r.amount.n > 0
  }

  predicate ValidSplit(rows: Rows, total: real) {
    |rows| >= 2 && total - Allocated(rows) as real == 0.0 && forall r <- rows :: ValidRow(r)
  }

  function SplitEntries(accounts: Accounts, shape: Shape, entries: seq<Entry>): seq<Entry> {
    Keep(entries, (e: Entry) => InShape(accounts, shape, e))
  }

  function Unsplit(accounts: Accounts, shape: Shape, entries: seq<Entry>): seq<Entry> {
    Keep(entries, (e: Entry) => !InShape(accounts, shape, e))
  }

  function SplitTotal(accounts: Accounts, shape: Shape, entries: seq<Entry>): real {
    Total(SplitEntries(accounts, shape, entries), shape.side)
  }

  /** `applySplit` */
  function ApplySplit(accounts: Accounts, shape: Shape, entries: seq<Entry>, rows: Rows): seq<Entry> {
    Unsplit(accounts, shape, entries) + rows
  }

  // ------------------------------------------------------------ recategorising and rules

  datatype EditError = CategoryNotSupported | CategoryEntryNotFound | RuleNotApplicable | SplitNotApplicable

  /** The entries of `updateInputFromDetail` when a category account is given. */
  function Recategorise(accounts: Accounts, t: TransactionType, entries: seq<Entry>, category: AccountId)
    : Result<seq<Entry>, EditError>
    requires category in accounts
  {
    match ShapeOf(t)
    case None => Err(CategoryNotSupported)
    case Some(shape) =>
      if accounts[category] != shape.kind then Err(CategoryNotSupported)
      else
        var changed := MapRows(entries, (e: Entry) => if InShape(accounts, shape, e) then e.(accountId := category) else e);
        if exists i :: 0 <= i < |entries| && changed[i].accountId == category && entries[i].accountId != category
        then Ok(changed)
        else Err(CategoryEntryNotFound)
  }

  function ExpenseEntries(accounts: Accounts, entries: seq<Entry>): seq<Entry> {
    Keep(entries, (e: Entry) => HasKind(accounts, e.accountId, Expense))
  }

  predicate EligibleForRule(accounts: Accounts, t: TransactionType, entries: seq<Entry>) {
    && (t.ExpenseType? || t.CardPurchase? || t.Refund?)
    && |ExpenseEntries(accounts, entries)| == 1
    && ExpenseEntries(accounts, entries)[0].side == (if t.Refund? then Credit else Debit)
  }

  /** `applyClassificationRuleToDecision` */
  function ApplyRule(accounts: Accounts, t: TransactionType, entries: seq<Entry>, category: AccountId)
    : Result<seq<Entry>, EditError>
  {
    if !EligibleForRule(accounts, t, entries) || !HasKind(accounts, category, Expense) then Err(RuleNotApplicable)
    else
      var id := ExpenseEntries(accounts, entries)[0].id;
      Ok(MapRows(entries, (e: Entry) => if e.id == id then e.(accountId := category) else e))
  }

  datatype Edit = Split(rows: Rows) | ChangeCategory(category: AccountId) | UseRule(category: AccountId)

  function Apply(accounts: Accounts, t: TransactionType, entries: seq<Entry>, edit: Edit): Result<seq<Entry>, EditError> {
    match edit
    case Split(rows) =>
      if ShapeOf(t).None? then Err(SplitNotApplicable)
      else
        var shape := ShapeOf(t).value;
        if ValidSplit(rows, SplitTotal(accounts, shape, entries)) && EditorRows(rows, accounts, shape)
        then Ok(ApplySplit(accounts, shape, entries, rows)) else Err(SplitNotApplicable)
    case ChangeCategory(category) =>
      if category in accounts then Recategorise(accounts, t, entries, category) else Err(CategoryNotSupported)
    case UseRule(category) => ApplyRule(accounts, t, entries, category)
  }

  /** Edits one after the other; one that is refused leaves the journal as it is. */
  function ApplyAll(accounts: Accounts, t: TransactionType, entries: seq<Entry>, edits: seq<Edit>): seq<Entry> {
    if edits == [] then entries
    else
      var before := ApplyAll(accounts, t, entries, edits[..|edits| - 1]);
      match Apply(accounts, t, before, edits[|edits| - 1])
      case Ok(after) => after
      case Err(_) => before
  }

  /** What the editor's rows always are: on the side of the split, in a category account or in none yet. */
  predicate EditorRows(rows: Rows, accounts: Accounts, shape: Shape) {
    forall r <- rows :: r.side == shape.side && (r.accountId == "" || HasKind(accounts, r.accountId, shape.kind))
  }

  predicate Balanced(entries: seq<Entry>) {
    Total(entries, Debit) == Total(entries, Credit)
  }

  /** The guard of saving. */
  predicate Savable(entries: seq<Entry>) {
    && |entries| >= 2 && Total(entries, Debit) > 0.0 && Balanced(entries)
    && forall e <- entries :: e.accountId != "" && e.amount.Digits? && e.amount.n > 0
  }

  // ------------------------------------------------------------------------ editor runs

  lemma {:induction false} KeepSelects(entries: seq<Entry>, p: Entry -> bool, e: Entry)
    ensures e in Keep(entries, p) <==> e in entries && p(e)
  {
    if entries != [] {
      var front, last := entries[..|entries| - 1], entries[|entries| - 1];
      assert entries == front + [last];
      KeepSelects(front, p, e);
    }
  }

  lemma EditKeepsRows(rows: Rows, accounts: Accounts, shape: Shape, a: EditorAction)
    requires EditorRows(rows, accounts, shape)
    requires EditRows(rows, shape.side, CategoryIds(accounts, shape), a).Some?
    ensures EditorRows(EditRows(rows, shape.side, CategoryIds(accounts, shape), a).value, accounts, shape)
  {
    var after := EditRows(rows, shape.side, CategoryIds(accounts, shape), a).value;
    if a.RemoveRow? {
      forall r | r in after
        ensures r in rows
      {
        KeepSelects(rows, (r: Entry) => r.id != a.id, r);
      }
    }
  }

  function CategoryIds(accounts: Accounts, shape: Shape): set<AccountId> {
    set id | id in accounts && accounts[id] == shape.kind
  }

  function Edits(rows: Rows, accounts: Accounts, shape: Shape, actions: seq<EditorAction>): Option<Rows> {
    if actions == [] then Some(rows)
    else
      match Edits(rows, accounts, shape, actions[..|actions| - 1])
      case None => None
      case Some(before) => EditRows(before, shape.side, CategoryIds(accounts, shape), actions[|actions| - 1])
  }

  /** However the editor was used, its rows are rows of the split: applying needs no further check of sides. */
  lemma {:induction false} EditorRunsStayInShape(accounts: Accounts, shape: Shape, entries: seq<Entry>, freshId: string,
                                                 actions: seq<EditorAction>)
    requires Edits(OpenEditor(SplitEntries(accounts, shape, entries), shape.side, freshId), accounts, shape, actions).Some?
    ensures EditorRows(Edits(OpenEditor(SplitEntries(accounts, shape, entries), shape.side, freshId), accounts, shape, actions).value,
                       accounts, shape)
  {
    hide EditorRows, EditRows;
    var opening := OpenEditor(SplitEntries(accounts, shape, entries), shape.side, freshId);
    if actions == [] {
      OpeningRows(accounts, shape, entries, freshId);
    } else {
      var front := actions[..|actions| - 1];
      EditorRunsStayInShape(accounts, shape, entries, freshId, front);
      EditKeepsRows(Edits(opening, accounts, shape, front).value, accounts, shape, actions[|actions| - 1]);
    }
  }

  lemma OpeningRows(accounts: Accounts, shape: Shape, entries: seq<Entry>, freshId: string)
    ensures EditorRows(OpenEditor(SplitEntries(accounts, shape, entries), shape.side, freshId), accounts, shape)
  {
    forall r | r in SplitEntries(accounts, shape, entries)
      ensures InShape(accounts, shape, r)
    {
      SplitEntriesSelect(accounts, shape, entries, r);
    }
  }

  lemma {:induction false} SplitEntriesSelect(accounts: Accounts, shape: Shape, entries: seq<Entry>, e: Entry)
    ensures e in SplitEntries(accounts, shape, entries) <==> e in entries && InShape(accounts, shape, e)
    ensures e in Unsplit(accounts, shape, entries) <==> e in entries && !InShape(accounts, shape, e)
  {
    hide InShape;
    if entries != [] {
      var front, last := entries[..|entries| - 1], entries[|entries| - 1];
      assert entries == front + [last];
      SplitEntriesSelect(accounts, shape, front, e);
    }
  }

  predicate DistinctRows(rows: Rows) {
    forall i, j :: 0 <= i < j < |rows| ==> rows[i].id != rows[j].id
  }

  /** Every new row has an identifier of its own. */
  predicate FreshAction(rows: Rows, a: EditorAction) {
    a.AddRow? ==> forall r <- rows :: r.id != a.freshId
  }

  /** What the editor shows after each action, row by row. */
  lemma EditExactly(rows: Rows, side: Side, categories: set<AccountId>, a: EditorAction)
    requires DistinctRows(rows) && FreshAction(rows, a)
    ensures var after := EditRows(rows, side, categories, a);
            match a
            case ChooseCategory(id, accountId) =>
              && (after.Some? <==> accountId == "" || accountId in categories)
              && (after.Some? ==>
                    |after.value| == |rows| && forall i :: 0 <= i < |rows| ==>
                      after.value[i] == if rows[i].id == id then rows[i].(accountId := accountId) else rows[i])
            case TypeAmount(id, amount) =>
              && (after.Some? <==> amount.Digits? || amount == Other("", 0.0))
              && (after.Some? ==>
                    |after.value| == |rows| && forall i :: 0 <= i < |rows| ==>
                      after.value[i] == if rows[i].id == id then rows[i].(amount := amount) else rows[i])
            case RemoveRow(id) =>
              && (after.Some? <==> |rows| >= 3)
              && (after.Some? && (forall r <- rows :: r.id != id) ==> after.value == rows)
              && (after.Some? ==> forall k :: 0 <= k < |rows| && rows[k].id == id ==> after.value == rows[..k] + rows[k + 1..])
            case AddRow(freshId) => after == Some(rows + [Entry(freshId, "", side, Other("", 0.0))])
  {
    if a.RemoveRow? && |rows| >= 3 {
      if k :| 0 <= k < |rows| && rows[k].id == a.id {
        RemovedRow(rows, k);
      } else {
        NothingRemoved(rows, a.id);
      }
    }
  }

  lemma {:induction false} NothingRemoved(rows: Rows, id: string)
    requires forall r <- rows :: r.id != id
    ensures WithoutRow(rows, id) == rows
  {
    if rows != [] {
      NothingRemoved(rows[..|rows| - 1], id);
      assert rows == rows[..|rows| - 1] + [rows[|rows| - 1]];
    }
  }

  lemma {:induction false} RemovedRow(rows: Rows, k: nat)
    requires DistinctRows(rows) && k < |rows|
    ensures WithoutRow(rows, rows[k].id) == rows[..k] + rows[k + 1..]
  {
    var n, id := |rows| - 1, rows[k].id;
    var front := rows[..n];
    if k < n {
      RemovedRow(front, k);
      assert rows[..k] + rows[k + 1..] == (front[..k] + front[k + 1..]) + [rows[n]];
    } else {
      NothingRemoved(front, id);
      assert rows[..k] + rows[k + 1..] == front;
    }
  }

  /** An editor with at least two rows of distinct identifiers keeps at least two, whatever is done. */
  lemma EditorKeepsTwoRows(rows: Rows, side: Side, categories: set<AccountId>, a: EditorAction)
    requires |rows| >= 2 && DistinctRows(rows) && FreshAction(rows, a) && EditRows(rows, side, categories, a).Some?
    ensures var after := EditRows(rows, side, categories, a).value; |after| >= 2 && DistinctRows(after)
  {
    EditExactly(rows, side, categories, a);
  }

  /** The editor opens on the entries of the category, and never on a single row. */
  lemma EditorOpensOnTheCategory(accounts: Accounts, shape: Shape, entries: seq<Entry>, freshId: string)
    ensures var category, rows := SplitEntries(accounts, shape, entries), OpenEditor(SplitEntries(accounts, shape, entries), shape.side, freshId);
            && |rows| != 1 && category <= rows && Total(rows, shape.side) == SplitTotal(accounts, shape, entries)
            && (|category| != 1 ==> rows == category)
            && (|category| == 1 ==> rows == [category[0], Entry(freshId, "", shape.side, Other("", 0.0))])
  {
    var category := SplitEntries(accounts, shape, entries);
    if |category| == 1 {
      assert (category + [Entry(freshId, "", shape.side, BLANK)])[..1] == category;
    }
  }

  // ----------------------------------------------------------------------------- totals

  lemma {:induction false} TotalOfConcatenation(a: seq<Entry>, b: seq<Entry>, side: Side)
    ensures Total(a + b, side) == Total(a, side) + Total(b, side)
  {
    if b == [] {
      assert a + b == a;
    } else {
      assert (a + b)[..|a + b| - 1] == a + b[..|b| - 1];
      TotalOfConcatenation(a, b[..|b| - 1], side);
    }
  }

  /** Taking the category apart from the rest loses nothing on either side. */
  lemma {:induction false} TotalSplits(accounts: Accounts, shape: Shape, entries: seq<Entry>, side: Side)
    ensures Total(entries, side) ==
            Total(Unsplit(accounts, shape, entries), side) + Total(SplitEntries(accounts, shape, entries), side)
    ensures side != shape.side ==> Total(SplitEntries(accounts, shape, entries), side) == 0.0
  {
    if entries != [] {
      TotalSplits(accounts, shape, entries[..|entries| - 1], side);
    }
  }

  lemma {:induction false} RowsTotal(rows: Rows, split: Side, side: Side)
    requires forall r <- rows :: r.side == split && r.amount.Digits?
    ensures Total(rows, side) == if side == split then Allocated(rows) as real else 0.0
  {
    if rows != [] {
      RowsTotal(rows[..|rows| - 1], split, side);
      assert rows[|rows| - 1] in rows;
    }
  }

  /** Every valid split keeps the total of both sides. */
  lemma SplitKeepsTotals(accounts: Accounts, shape: Shape, entries: seq<Entry>, rows: Rows, side: Side)
    requires ValidSplit(rows, SplitTotal(accounts, shape, entries)) && EditorRows(rows, accounts, shape)
    ensures Total(ApplySplit(accounts, shape, entries, rows), side) == Total(entries, side)
  {
    hide SplitEntries, Unsplit;
    TotalOfConcatenation(Unsplit(accounts, shape, entries), rows, side);
    TotalSplits(accounts, shape, entries, side);
    RowsTotal(rows, shape.side, side);
  }

  /** A split applies exactly to two rows or more that are on the side and in accounts of the category, each with a
      positive whole amount, and that together have the category's total. */
  lemma SplitAppliesExactly(accounts: Accounts, t: TransactionType, entries: seq<Entry>, rows: Rows)
    requires ShapeOf(t).Some?
    ensures var shape := ShapeOf(t).value;
            Apply(accounts, t, entries, Split(rows)).Ok? <==>
              && |rows| >= 2 && Total(rows, shape.side) == Total(SplitEntries(accounts, shape, entries), shape.side)
              && forall r <- rows :: r.side == shape.side && r.accountId in accounts && accounts[r.accountId] == shape.kind
                                     && r.accountId != "" && r.amount.Digits? && r.amount.n >= 1
  {
    hide SplitEntries, Allocated, Total, ApplySplit;
    var shape := ShapeOf(t).value;
    if forall r <- rows :: r.side == shape.side && r.amount.Digits? {
      RowsTotal(rows, shape.side, shape.side);
    }
  }

  /** After a split the category consists of exactly the rows, and everything else is as it was, in order. */
  lemma SplitReplacesTheCategory(accounts: Accounts, shape: Shape, entries: seq<Entry>, rows: Rows)
    requires ValidSplit(rows, SplitTotal(accounts, shape, entries)) && EditorRows(rows, accounts, shape)
    ensures var after := ApplySplit(accounts, shape, entries, rows);
            && SplitEntries(accounts, shape, after) == rows && Unsplit(accounts, shape, after) == Unsplit(accounts, shape, entries)
            && |after| == |Unsplit(accounts, shape, entries)| + |rows| && after[|after| - |rows|..] == rows
  {
    hide InShape;
    forall r | r in rows
      ensures InShape(accounts, shape, r)
    {
      assert ValidRow(r);
      InShapeOfRow(accounts, shape, r);
    }
    forall e | e in Unsplit(accounts, shape, entries)
      ensures !InShape(accounts, shape, e)
    {
      SplitEntriesSelect(accounts, shape, entries, e);
    }
    SplitOfParts(accounts, shape, Unsplit(accounts, shape, entries), rows);
  }

  lemma InShapeOfRow(accounts: Accounts, shape: Shape, r: Entry)
    requires r.side == shape.side && HasKind(accounts, r.accountId, shape.kind)
    ensures InShape(accounts, shape, r)
  {
  }

  lemma PartsGrow(accounts: Accounts, shape: Shape, entries: seq<Entry>, e: Entry)
    ensures SplitEntries(accounts, shape, entries + [e]) ==
            SplitEntries(accounts, shape, entries) + (if InShape(accounts, shape, e) then [e] else [])
    ensures Unsplit(accounts, shape, entries + [e]) ==
            Unsplit(accounts, shape, entries) + (if InShape(accounts, shape, e) then [] else [e])
  {
    hide InShape;
    assert (entries + [e])[..|entries|] == entries;
  }

  lemma NoParts(accounts: Accounts, shape: Shape)
    ensures SplitEntries(accounts, shape, []) == [] && Unsplit(accounts, shape, []) == []
  {
  }

  lemma {:induction false} SplitOfParts(accounts: Accounts, shape: Shape, rest: seq<Entry>, rows: Rows)
    requires forall e <- rest :: !InShape(accounts, shape, e)
    requires forall r <- rows :: InShape(accounts, shape, r)
    ensures SplitEntries(accounts, shape, rest + rows) == rows && Unsplit(accounts, shape, rest + rows) == rest
    decreases |rest| + |rows|
  {
    hide InShape, SplitEntries, Unsplit;
    if rows != [] {
      var front, last := rows[..|rows| - 1], rows[|rows| - 1];
      assert rows == front + [last] && rest + rows == (rest + front) + [last];
      SplitOfParts(accounts, shape, rest, front);
      PartsGrow(accounts, shape, rest + front, last);
    } else if rest != [] {
      var front, last := rest[..|rest| - 1], rest[|rest| - 1];
      assert rest == front + [last] && rest + rows == rest && front + [] == front;
      SplitOfParts(accounts, shape, front, []);
      PartsGrow(accounts, shape, front, last);
    } else {
      assert rest + rows == [];
      NoParts(accounts, shape);
    }
  }

  /** Entries that differ in their account only. */
  predicate SameButAccounts(a: seq<Entry>, b: seq<Entry>) {
    |a| == |b| && forall i :: 0 <= i < |a| ==> b[i] == a[i].(accountId := b[i].accountId)
  }

  lemma {:induction false} SameTotals(a: seq<Entry>, b: seq<Entry>, side: Side)
    requires SameButAccounts(a, b)
    ensures Total(a, side) == Total(b, side)
  {
    if a != [] {
      SameTotals(a[..|a| - 1], b[..|b| - 1], side);
    }
  }

  /** A recategorisation moves the category's entries and nothing else, and fails exactly when the transaction has no
      such category or every entry of it is already in the account. */
  lemma RecategoriseExactly(accounts: Accounts, t: TransactionType, entries: seq<Entry>, category: AccountId)
    requires category in accounts
    ensures var r := Recategorise(accounts, t, entries, category);
            && (r == Err(CategoryNotSupported) <==> ShapeOf(t).None? || accounts[category] != ShapeOf(t).value.kind)
            && (r.Err? ==> r.error == CategoryNotSupported || r.error == CategoryEntryNotFound)
            && (r.Ok? <==> ShapeOf(t).Some? && accounts[category] == ShapeOf(t).value.kind
                           && exists e <- entries :: InShape(accounts, ShapeOf(t).value, e) && e.accountId != category)
            && (r.Ok? ==>
                  && SameButAccounts(entries, r.value)
                  && forall i :: 0 <= i < |entries| ==>
                       r.value[i].accountId == if InShape(accounts, ShapeOf(t).value, entries[i]) then category else entries[i].accountId)
  {
    hide InShape;
    if ShapeOf(t).Some? && accounts[category] == ShapeOf(t).value.kind {
      if e :| e in entries && InShape(accounts, ShapeOf(t).value, e) && e.accountId != category {
        var i :| 0 <= i < |entries| && entries[i] == e;
        assert Recategorise(accounts, t, entries, category).Ok?;
      }
    }
  }

  /** Whether an entry belongs to the category of a transaction of type `t` and to which kind of account it may move,
      type by type; transfers, card payments and adjustments have no category. */
  predicate MayMove(accounts: Accounts, t: TransactionType, e: Entry, kind: Kind) {
    && e.accountId in accounts && accounts[e.accountId] == kind
    && match t
       case IncomeType | Interest => kind == Income && e.side == Credit
       case Refund => kind == Expense && e.side == Credit
       case ExpenseType | CardPurchase | FeeType => kind == Expense && e.side == Debit
       case TransferType | CardPayment | Adjustment => false
  }

  /** Recategorising moves exactly the entries that type by type may move to an account of the new kind, and succeeds
      exactly when one of them is elsewhere. */
  lemma RecategoriseByType(accounts: Accounts, t: TransactionType, entries: seq<Entry>, category: AccountId)
    requires category in accounts
    ensures var r, kind := Recategorise(accounts, t, entries, category), accounts[category];
            && (r.Ok? <==> exists e <- entries :: MayMove(accounts, t, e, kind) && e.accountId != category)
            && (r.Ok? ==>
                  |r.value| == |entries| && forall i :: 0 <= i < |entries| ==>
                    r.value[i] == if MayMove(accounts, t, entries[i], kind) then entries[i].(accountId := category) else entries[i])
  {
    RecategoriseExactly(accounts, t, entries, category);
    var r, kind := Recategorise(accounts, t, entries, category), accounts[category];
    forall e: Entry
      ensures MayMove(accounts, t, e, kind) <==>
                ShapeOf(t).Some? && ShapeOf(t).value.kind == kind && InShape(accounts, ShapeOf(t).value, e)
    {
    }
  }

  /** The entries of the category stay the entries of the category. */
  lemma RecategoriseKeepsShape(accounts: Accounts, t: TransactionType, entries: seq<Entry>, category: AccountId)
    requires category in accounts && Recategorise(accounts, t, entries, category).Ok?
    ensures ShapeOf(t).Some?
    ensures var moved := Recategorise(accounts, t, entries, category).value;
            && |moved| == |entries|
            && (forall i :: 0 <= i < |entries| ==>
                  (InShape(accounts, ShapeOf(t).value, moved[i]) <==> InShape(accounts, ShapeOf(t).value, entries[i])))
            && exists e <- moved :: InShape(accounts, ShapeOf(t).value, e) && e.accountId == category
  {
    hide Recategorise;
    RecategoriseExactly(accounts, t, entries, category);
    var moved := Recategorise(accounts, t, entries, category).value;
    var e :| e in entries && InShape(accounts, ShapeOf(t).value, e) && e.accountId != category;
    var k :| 0 <= k < |entries| && entries[k] == e;
    assert moved[k] in moved;
  }

  /** Recategorising and back again restores the journal exactly when the category was one account. */
  lemma RecategoriseAndBack(accounts: Accounts, t: TransactionType, entries: seq<Entry>, there: AccountId, back: AccountId)
    requires there in accounts && back in accounts && there != back
    requires accounts[back] == accounts[there] && Recategorise(accounts, t, entries, there).Ok?
    ensures ShapeOf(t).Some?
    ensures Recategorise(accounts, t, Recategorise(accounts, t, entries, there).value, back) == Ok(entries) <==>
              forall e <- entries :: InShape(accounts, ShapeOf(t).value, e) ==> e.accountId == back
  {
    hide Recategorise, InShape;
    RecategoriseExactly(accounts, t, entries, there);
    RecategoriseKeepsShape(accounts, t, entries, there);
    var shape, moved := ShapeOf(t).value, Recategorise(accounts, t, entries, there).value;
    RecategoriseExactly(accounts, t, moved, back);
    var restored := Recategorise(accounts, t, moved, back).value;
    forall i | 0 <= i < |entries|
      ensures restored[i] == if InShape(accounts, shape, entries[i]) then entries[i].(accountId := back) else entries[i]
    {
    }
    if restored == entries {
      forall e | e in entries && InShape(accounts, shape, e)
        ensures e.accountId == back
      {
        var i :| 0 <= i < |entries| && entries[i] == e;
      }
    } else {
      var i :| 0 <= i < |entries| && restored[i] != entries[i];
      assert entries[i] in entries && InShape(accounts, shape, entries[i]);
    }
  }

  predicate OnlyExpense(accounts: Accounts, entries: seq<Entry>, i: int) {
    && 0 <= i < |entries| && HasKind(accounts, entries[i].accountId, Expense)
    && forall j :: 0 <= j < |entries| && HasKind(accounts, entries[j].accountId, Expense) ==> j == i
  }

  lemma {:induction false} TheOnlyExpense(accounts: Accounts, entries: seq<Entry>, i: nat)
    requires OnlyExpense(accounts, entries, i)
    ensures ExpenseEntries(accounts, entries) == [entries[i]]
  {
    hide HasKind;
    var front := entries[..|entries| - 1];
    if i < |front| {
      TheOnlyExpense(accounts, front, i);
    } else {
      NoExpenses(accounts, front);
    }
  }

  lemma {:induction false} NoExpenses(accounts: Accounts, entries: seq<Entry>)
    requires forall e <- entries :: !HasKind(accounts, e.accountId, Expense)
    ensures ExpenseEntries(accounts, entries) == []
  {
    hide HasKind;
    if entries != [] {
      NoExpenses(accounts, entries[..|entries| - 1]);
    }
  }

  lemma {:induction false} ExpensesFound(accounts: Accounts, entries: seq<Entry>, i: nat, j: nat)
    requires i < j < |entries|
    requires HasKind(accounts, entries[i].accountId, Expense) && HasKind(accounts, entries[j].accountId, Expense)
    ensures |ExpenseEntries(accounts, entries)| >= 2
  {
    hide HasKind;
    var front := entries[..|entries| - 1];
    if j < |front| {
      ExpensesFound(accounts, front, i, j);
    } else {
      assert front[i] in front;
      ExpenseEntriesSelect(accounts, front, front[i]);
    }
  }

  lemma SoleExpense(accounts: Accounts, entries: seq<Entry>) returns (i: nat)
    requires |ExpenseEntries(accounts, entries)| == 1
    ensures i < |entries| && OnlyExpense(accounts, entries, i)
  {
    hide ExpenseEntries, HasKind;
    var found := ExpenseEntries(accounts, entries)[0];
    ExpenseEntriesSelect(accounts, entries, found);
    i :| i < |entries| && entries[i] == found;
    forall j | 0 <= j < |entries| && HasKind(accounts, entries[j].accountId, Expense)
      ensures j == i
    {
      if j < i {
        ExpensesFound(accounts, entries, j, i);
      } else if i < j {
        ExpensesFound(accounts, entries, i, j);
      }
    }
  }

  /** A rule applies exactly to an expense, a card purchase or a refund with one entry in an expense account, on the
      side of its type, and only with an expense account to move it to. */
  lemma RuleAppliesExactly(accounts: Accounts, t: TransactionType, entries: seq<Entry>, category: AccountId)
    ensures ApplyRule(accounts, t, entries, category).Ok? <==>
              && category in accounts && accounts[category] == Expense && t in {ExpenseType, CardPurchase, Refund}
              && exists i :: 0 <= i < |entries| && OnlyExpense(accounts, entries, i) && (entries[i].side == Credit <==> t == Refund)
  {
    hide ExpenseEntries, OnlyExpense;
    if |ExpenseEntries(accounts, entries)| == 1 {
      var i := SoleExpense(accounts, entries);
      TheOnlyExpense(accounts, entries, i);
    }
    if i: nat :| i < |entries| && OnlyExpense(accounts, entries, i) && (entries[i].side == Credit <==> t == Refund) {
      TheOnlyExpense(accounts, entries, i);
      assert ExpenseEntries(accounts, entries)[0].side == entries[i].side;
    }
  }

  lemma RuleMovesAccountsOnly(accounts: Accounts, t: TransactionType, entries: seq<Entry>, category: AccountId)
    requires ApplyRule(accounts, t, entries, category).Ok?
    ensures SameButAccounts(entries, ApplyRule(accounts, t, entries, category).value)
    ensures forall i :: 0 <= i < |entries| ==>
              ApplyRule(accounts, t, entries, category).value[i].accountId in {category, entries[i].accountId}
  {
  }

  /** A rule moves the one expense entry, and leaves all others alone exactly when none of them shares its identifier. */
  lemma RuleMovesTheExpenseEntry(accounts: Accounts, t: TransactionType, entries: seq<Entry>, category: AccountId)
    requires ApplyRule(accounts, t, entries, category).Ok?
    ensures |ExpenseEntries(accounts, entries)| == 1
    ensures var after, id := ApplyRule(accounts, t, entries, category).value, ExpenseEntries(accounts, entries)[0].id;
            && (forall i :: 0 <= i < |entries| && HasKind(accounts, entries[i].accountId, Expense) ==>
                  after[i] == entries[i].(accountId := category))
            && ((forall i :: 0 <= i < |entries| && !HasKind(accounts, entries[i].accountId, Expense) ==> after[i] == entries[i])
                <==> forall e <- entries :: !HasKind(accounts, e.accountId, Expense) ==> e.id != id)
  {
    var found, after := ExpenseEntries(accounts, entries), ApplyRule(accounts, t, entries, category).value;
    forall i | 0 <= i < |entries| && HasKind(accounts, entries[i].accountId, Expense)
      ensures entries[i] == found[0]
    {
      ExpenseEntriesSelect(accounts, entries, entries[i]);
    }
    if e :| e in entries && !HasKind(accounts, e.accountId, Expense) && e.id == found[0].id {
      var i :| 0 <= i < |entries| && entries[i] == e;
      assert after[i].accountId == category != e.accountId;
    }
  }

  lemma {:induction false} ExpenseEntriesSelect(accounts: Accounts, entries: seq<Entry>, e: Entry)
    ensures e in ExpenseEntries(accounts, entries) <==> e in entries && HasKind(accounts, e.accountId, Expense)
  {
    hide HasKind;
    if entries != [] {
      var front, last := entries[..|entries| - 1], entries[|entries| - 1];
      assert entries == front + [last];
      ExpenseEntriesSelect(accounts, front, e);
    }
  }

  // ------------------------------------------------------------------------ main results

  lemma EditKeepsTotals(accounts: Accounts, t: TransactionType, entries: seq<Entry>, edit: Edit, side: Side)
    requires Apply(accounts, t, entries, edit).Ok?
    ensures Total(Apply(accounts, t, entries, edit).value, side) == Total(entries, side)
  {
    hide ApplySplit, Recategorise, ApplyRule, SplitTotal, ValidSplit, EditorRows, Total, SameButAccounts;
    match edit
    case Split(rows) => SplitKeepsTotals(accounts, ShapeOf(t).value, entries, rows, side);
    case ChangeCategory(category) =>
      RecategoriseExactly(accounts, t, entries, category);
      SameTotals(entries, Recategorise(accounts, t, entries, category).value, side);
    case UseRule(category) =>
      RuleMovesAccountsOnly(accounts, t, entries, category);
      SameTotals(entries, ApplyRule(accounts, t, entries, category).value, side);
  }

  /** Any sequence of splits, recategorisations and rules keeps both totals, so a balanced journal stays balanced. */
  lemma {:induction false} EditsKeepTotals(accounts: Accounts, t: TransactionType, entries: seq<Entry>, edits: seq<Edit>, side: Side)
    ensures Total(ApplyAll(accounts, t, entries, edits), side) == Total(entries, side)
  {
    hide Apply, Total;
    if edits != [] {
      var before := ApplyAll(accounts, t, entries, edits[..|edits| - 1]);
      EditsKeepTotals(accounts, t, entries, edits[..|edits| - 1], side);
      if Apply(accounts, t, before, edits[|edits| - 1]).Ok? {
        EditKeepsTotals(accounts, t, before, edits[|edits| - 1], side);
      }
    }
  }

  lemma EditKeepsSavable(accounts: Accounts, t: TransactionType, entries: seq<Entry>, edit: Edit)
    requires "" !in accounts && Savable(entries) && Apply(accounts, t, entries, edit).Ok?
    ensures Savable(Apply(accounts, t, entries, edit).value)
  {
    hide Total, SplitTotal, Keep, Recategorise, ApplyRule;
    EditKeepsTotals(accounts, t, entries, edit, Debit);
    EditKeepsTotals(accounts, t, entries, edit, Credit);
    match edit
    case Split(rows) =>
      var shape := ShapeOf(t).value;
      forall e | e in ApplySplit(accounts, shape, entries, rows)
        ensures e in entries || ValidRow(e)
      {
        SplitEntriesSelect(accounts, shape, entries, e);
      }
    case ChangeCategory(category) =>
      RecategoriseExactly(accounts, t, entries, category);
    case UseRule(category) =>
      RuleMovesAccountsOnly(accounts, t, entries, category);
      assert HasKind(accounts, category, Expense) by { RuleNeedsExpense(accounts, t, entries, category); }
  }

  lemma RuleNeedsExpense(accounts: Accounts, t: TransactionType, entries: seq<Entry>, category: AccountId)
    requires ApplyRule(accounts, t, entries, category).Ok?
    ensures HasKind(accounts, category, Expense)
  {
  }

  lemma {:induction false} SavableRuns(accounts: Accounts, t: TransactionType, entries: seq<Entry>, edits: seq<Edit>)
    requires "" !in accounts && Savable(entries)
    ensures Savable(ApplyAll(accounts, t, entries, edits))
  {
    hide Apply, Savable;
    if edits != [] {
      var before := ApplyAll(accounts, t, entries, edits[..|edits| - 1]);
      SavableRuns(accounts, t, entries, edits[..|edits| - 1]);
      if Apply(accounts, t, before, edits[|edits| - 1]).Ok? {
        EditKeepsSavable(accounts, t, before, edits[|edits| - 1]);
      }
    }
  }

  predicate Complete(e: Entry) {
    e.accountId != "" && e.amount.Digits? && e.amount.n >= 1
  }

  /** A journal that can be saved can still be saved after any sequence of these edits: it has two complete entries or
      more, and debits and credits have the same positive total. */
  lemma SavableStaysSavable(accounts: Accounts, t: TransactionType, entries: seq<Entry>, edits: seq<Edit>)
    requires "" !in accounts
    requires |entries| >= 2 && Total(entries, Debit) == Total(entries, Credit) > 0.0 && forall e <- entries :: Complete(e)
    ensures var after := ApplyAll(accounts, t, entries, edits);
            && Savable(after)
            && |after| >= 2 && Total(after, Debit) == Total(after, Credit) > 0.0 && forall e <- after :: Complete(e)
  {
    hide ApplyAll, Total;
    assert forall e <- entries :: Complete(e);
    SavableRuns(accounts, t, entries, edits);
  }

  // ------------------------------------------------- what a run leaves as it was

  /** No entry outside the category shares the identifier of the one expense entry a rule would move. */
  predicate RuleSafe(accounts: Accounts, t: TransactionType, entries: seq<Entry>) {
    EligibleForRule(accounts, t, entries) ==>
      forall e <- entries :: !HasKind(accounts, e.accountId, Expense) ==> e.id != ExpenseEntries(accounts, entries)[0].id
  }

  /** Entries that agree outside the category, and inside it on everything but the account. */
  predicate SameOutside(accounts: Accounts, shape: Shape, a: seq<Entry>, b: seq<Entry>) {
    && SameButAccounts(a, b)
    && forall i :: 0 <= i < |a| ==>
         if InShape(accounts, shape, a[i]) then InShape(accounts, shape, b[i]) else b[i] == a[i]
  }

  lemma {:induction false} SameOutsideSameRest(accounts: Accounts, shape: Shape, a: seq<Entry>, b: seq<Entry>)
    requires SameOutside(accounts, shape, a, b)
    ensures Unsplit(accounts, shape, a) == Unsplit(accounts, shape, b)
  {
    hide InShape;
    if a != [] {
      var n := |a| - 1;
      SameOutsideSameRest(accounts, shape, a[..n], b[..n]);
      assert if InShape(accounts, shape, a[n]) then InShape(accounts, shape, b[n]) else b[n] == a[n];
    }
  }

  /** The same entries are expenses, with the same identifiers and sides. */
  lemma {:induction false} SameExpenseEntries(accounts: Accounts, a: seq<Entry>, b: seq<Entry>)
    requires SameButAccounts(a, b)
    requires forall i :: 0 <= i < |a| ==> (HasKind(accounts, a[i].accountId, Expense) <==> HasKind(accounts, b[i].accountId, Expense))
    ensures |ExpenseEntries(accounts, a)| == |ExpenseEntries(accounts, b)|
    ensures forall k :: 0 <= k < |ExpenseEntries(accounts, a)| ==>
              ExpenseEntries(accounts, a)[k].id == ExpenseEntries(accounts, b)[k].id
              && ExpenseEntries(accounts, a)[k].side == ExpenseEntries(accounts, b)[k].side
  {
    hide HasKind;
    if a != [] {
      var n := |a| - 1;
      SameExpenseEntries(accounts, a[..n], b[..n]);
      assert b[n] == a[n].(accountId := b[n].accountId);
    }
  }

  lemma RuleSafeMoves(accounts: Accounts, t: TransactionType, a: seq<Entry>, b: seq<Entry>)
    requires RuleSafe(accounts, t, a) && SameButAccounts(a, b)
    requires forall i :: 0 <= i < |a| ==> (HasKind(accounts, a[i].accountId, Expense) <==> HasKind(accounts, b[i].accountId, Expense))
    ensures RuleSafe(accounts, t, b)
  {
    hide HasKind, ExpenseEntries;
    SameExpenseEntries(accounts, a, b);
    if EligibleForRule(accounts, t, b) {
      forall e | e in b && !HasKind(accounts, e.accountId, Expense)
        ensures e.id != ExpenseEntries(accounts, b)[0].id
      {
        var i :| 0 <= i < |b| && b[i] == e;
        assert a[i] in a && a[i].id == e.id;
      }
    }
  }

  lemma RecategoriseLeavesTheRest(accounts: Accounts, t: TransactionType, entries: seq<Entry>, category: AccountId)
    requires category in accounts && ShapeOf(t).Some? && RuleSafe(accounts, t, entries)
    requires Recategorise(accounts, t, entries, category).Ok?
    ensures var after := Recategorise(accounts, t, entries, category).value;
            RuleSafe(accounts, t, after) && SameOutside(accounts, ShapeOf(t).value, entries, after)
  {
    hide Recategorise, RuleSafe;
    RecategoriseExactly(accounts, t, entries, category);
    var after := Recategorise(accounts, t, entries, category).value;
    forall i | 0 <= i < |entries|
      ensures HasKind(accounts, entries[i].accountId, Expense) <==> HasKind(accounts, after[i].accountId, Expense)
      ensures if InShape(accounts, ShapeOf(t).value, entries[i]) then InShape(accounts, ShapeOf(t).value, after[i]) else after[i] == entries[i]
    {
      assert after[i] == entries[i].(accountId := after[i].accountId);
    }
    RuleSafeMoves(accounts, t, entries, after);
  }

  /** The expense entry of an eligible transaction is its whole category. */
  lemma EligibleMeansInShape(accounts: Accounts, t: TransactionType, entries: seq<Entry>, e: Entry)
    requires EligibleForRule(accounts, t, entries) && e in entries
    ensures ShapeOf(t).Some? && ShapeOf(t).value.kind == Expense
    ensures HasKind(accounts, e.accountId, Expense) ==> e == ExpenseEntries(accounts, entries)[0]
    ensures HasKind(accounts, e.accountId, Expense) <==> InShape(accounts, ShapeOf(t).value, e)
  {
    hide ExpenseEntries;
    ExpenseEntriesSelect(accounts, entries, e);
  }

  lemma RuleLeavesTheRest(accounts: Accounts, t: TransactionType, entries: seq<Entry>, category: AccountId)
    requires ShapeOf(t).Some? && RuleSafe(accounts, t, entries) && ApplyRule(accounts, t, entries, category).Ok?
    ensures var after := ApplyRule(accounts, t, entries, category).value;
            RuleSafe(accounts, t, after) && SameOutside(accounts, ShapeOf(t).value, entries, after)
  {
    hide ExpenseEntries;
    RuleMovesAccountsOnly(accounts, t, entries, category);
    RuleMovesTheExpenseEntry(accounts, t, entries, category);
    var after := ApplyRule(accounts, t, entries, category).value;
    forall i | 0 <= i < |entries|
      ensures HasKind(accounts, entries[i].accountId, Expense) <==> HasKind(accounts, after[i].accountId, Expense)
      ensures if InShape(accounts, ShapeOf(t).value, entries[i]) then InShape(accounts, ShapeOf(t).value, after[i]) else after[i] == entries[i]
    {
      EligibleMeansInShape(accounts, t, entries, entries[i]);
    }
    RuleSafeMoves(accounts, t, entries, after);
  }

  lemma {:induction false} ExpenseEntriesOfParts(accounts: Accounts, rest: seq<Entry>, rows: Rows)
    requires forall r <- rows :: HasKind(accounts, r.accountId, Expense)
    ensures |ExpenseEntries(accounts, rest + rows)| >= |rows|
  {
    hide HasKind;
    if rows != [] {
      var front := rows[..|rows| - 1];
      assert (rest + rows)[..|rest + rows| - 1] == rest + front;
      ExpenseEntriesOfParts(accounts, rest, front);
      assert rows[|rows| - 1] in rows;
    }
  }

  /** After a split no rule applies any more. */
  lemma SplitLeavesTheRest(accounts: Accounts, t: TransactionType, entries: seq<Entry>, rows: Rows)
    requires Apply(accounts, t, entries, Split(rows)).Ok?
    ensures ShapeOf(t).Some?
    ensures var after := Apply(accounts, t, entries, Split(rows)).value;
            && RuleSafe(accounts, t, after)
            && Unsplit(accounts, ShapeOf(t).value, after) == Unsplit(accounts, ShapeOf(t).value, entries)
  {
    hide SplitTotal, Unsplit, ExpenseEntries, SplitEntries;
    var shape := ShapeOf(t).value;
    SplitReplacesTheCategory(accounts, shape, entries, rows);
    if shape.kind == Expense {
      forall r | r in rows
        ensures HasKind(accounts, r.accountId, Expense)
      {
        assert ValidRow(r);
      }
      ExpenseEntriesOfParts(accounts, Unsplit(accounts, shape, entries), rows);
    }
  }

  lemma EditLeavesTheRest(accounts: Accounts, t: TransactionType, entries: seq<Entry>, edit: Edit)
    requires ShapeOf(t).Some? && RuleSafe(accounts, t, entries) && Apply(accounts, t, entries, edit).Ok?
    ensures var after := Apply(accounts, t, entries, edit).value;
            && RuleSafe(accounts, t, after)
            && Unsplit(accounts, ShapeOf(t).value, after) == Unsplit(accounts, ShapeOf(t).value, entries)
            && (!edit.Split? ==> SameOutside(accounts, ShapeOf(t).value, entries, after))
  {
    hide RuleSafe, Unsplit, SameOutside, Recategorise, ApplyRule, ValidSplit, EditorRows, ApplySplit, SplitTotal;
    match edit
    case Split(rows) => SplitLeavesTheRest(accounts, t, entries, rows);
    case ChangeCategory(category) =>
      RecategoriseLeavesTheRest(accounts, t, entries, category);
      SameOutsideSameRest(accounts, ShapeOf(t).value, entries, Recategorise(accounts, t, entries, category).value);
    case UseRule(category) =>
      RuleLeavesTheRest(accounts, t, entries, category);
      SameOutsideSameRest(accounts, ShapeOf(t).value, entries, ApplyRule(accounts, t, entries, category).value);
  }

  lemma {:induction false} SafeRunsLeaveTheRest(accounts: Accounts, t: TransactionType, entries: seq<Entry>, edits: seq<Edit>)
    requires ShapeOf(t).Some? && RuleSafe(accounts, t, entries)
    ensures var after := ApplyAll(accounts, t, entries, edits);
            && RuleSafe(accounts, t, after)
            && Unsplit(accounts, ShapeOf(t).value, after) == Unsplit(accounts, ShapeOf(t).value, entries)
  {
    hide RuleSafe, Unsplit, Apply;
    if edits != [] {
      var before := ApplyAll(accounts, t, entries, edits[..|edits| - 1]);
      SafeRunsLeaveTheRest(accounts, t, entries, edits[..|edits| - 1]);
      if Apply(accounts, t, before, edits[|edits| - 1]).Ok? {
        EditLeavesTheRest(accounts, t, before, edits[|edits| - 1]);
      }
    }
  }

  lemma {:induction false} RestIsThinner(accounts: Accounts, shape: Shape, a: seq<Entry>, b: seq<Entry>)
    requires SameButAccounts(a, b)
    requires forall i :: 0 <= i < |a| && InShape(accounts, shape, a[i]) ==> InShape(accounts, shape, b[i])
    ensures |Unsplit(accounts, shape, b)| <= |Unsplit(accounts, shape, a)|
    ensures (exists i :: 0 <= i < |a| && !InShape(accounts, shape, a[i]) && InShape(accounts, shape, b[i])) ==>
              |Unsplit(accounts, shape, b)| < |Unsplit(accounts, shape, a)|
  {
    hide InShape;
    if a != [] {
      var n := |a| - 1;
      RestIsThinner(accounts, shape, a[..n], b[..n]);
      if i :| 0 <= i < |a| && !InShape(accounts, shape, a[i]) && InShape(accounts, shape, b[i]) && i < n {
        assert a[..n][i] == a[i] && b[..n][i] == b[i];
      }
    }
  }

  lemma {:induction false} SameRestSameOutside(accounts: Accounts, shape: Shape, a: seq<Entry>, b: seq<Entry>)
    requires SameButAccounts(a, b)
    requires forall i :: 0 <= i < |a| && InShape(accounts, shape, a[i]) ==> InShape(accounts, shape, b[i])
    requires Unsplit(accounts, shape, a) == Unsplit(accounts, shape, b)
    ensures forall i :: 0 <= i < |a| && !InShape(accounts, shape, a[i]) ==> b[i] == a[i]
  {
    hide InShape;
    if a != [] {
      var n := |a| - 1;
      RestIsThinner(accounts, shape, a, b);
      RestIsThinner(accounts, shape, a[..n], b[..n]);
      if !InShape(accounts, shape, a[n]) {
        var restA, restB := Unsplit(accounts, shape, a[..n]), Unsplit(accounts, shape, b[..n]);
        assert Unsplit(accounts, shape, a) == restA + [a[n]];
        assert Unsplit(accounts, shape, b) == restB + [b[n]];
        assert restA == (restA + [a[n]])[..|restA|] == (restB + [b[n]])[..|restB|] == restB;
        assert a[n] == (restA + [a[n]])[|restA|] == b[n];
      }
      SameRestSameOutside(accounts, shape, a[..n], b[..n]);
      forall i | 0 <= i < |a| && !InShape(accounts, shape, a[i])
        ensures b[i] == a[i]
      {
        if i < n {
          assert a[..n][i] == a[i] && b[..n][i] == b[i];
        }
      }
    }
  }

  /** Where an identifier is shared, using the rule with the entry's own account already moves another entry. */
  lemma SharedIdentifierMoves(accounts: Accounts, t: TransactionType, entries: seq<Entry>)
    requires !RuleSafe(accounts, t, entries)
    ensures EligibleForRule(accounts, t, entries) && ShapeOf(t).Some?
    ensures var edits := [UseRule(ExpenseEntries(accounts, entries)[0].accountId)];
            Unsplit(accounts, ShapeOf(t).value, ApplyAll(accounts, t, entries, edits)) != Unsplit(accounts, ShapeOf(t).value, entries)
  {
    hide ExpenseEntries, Unsplit;
    var found := ExpenseEntries(accounts, entries)[0];
    var category, shape := found.accountId, ShapeOf(t).value;
    ExpenseEntriesSelect(accounts, entries, found);
    assert ApplyRule(accounts, t, entries, category).Ok?;
    var after := ApplyRule(accounts, t, entries, category).value;
    OneEdit(accounts, t, entries, UseRule(category));
    RuleMovesAccountsOnly(accounts, t, entries, category);
    var e :| e in entries && !HasKind(accounts, e.accountId, Expense) && e.id == found.id;
    var k :| 0 <= k < |entries| && entries[k] == e;
    assert after[k].accountId == category != entries[k].accountId;
    EligibleMeansInShape(accounts, t, entries, e);
    if Unsplit(accounts, shape, entries) == Unsplit(accounts, shape, after) {
      SameRestSameOutside(accounts, shape, entries, after);
    }
  }

  lemma OneEdit(accounts: Accounts, t: TransactionType, entries: seq<Entry>, edit: Edit)
    requires Apply(accounts, t, entries, edit).Ok?
    ensures ApplyAll(accounts, t, entries, [edit]) == Apply(accounts, t, entries, edit).value
  {
    hide Apply;
    assert ApplyAll(accounts, t, entries, [edit][..0]) == entries;
  }

  /** Every sequence of splits, recategorisations and rules leaves all entries outside the category as they were, with
      their sides, amounts and accounts, exactly when none of them shares the identifier of the entry a rule would move. */
  lemma EditsLeaveTheRestIff(accounts: Accounts, t: TransactionType, entries: seq<Entry>)
    requires ShapeOf(t).Some?
    ensures (forall edits :: Unsplit(accounts, ShapeOf(t).value, ApplyAll(accounts, t, entries, edits))
                             == Unsplit(accounts, ShapeOf(t).value, entries))
            <==> RuleSafe(accounts, t, entries)
  {
    hide RuleSafe, Unsplit, ApplyAll, ExpenseEntries;
    if RuleSafe(accounts, t, entries) {
      forall edits
        ensures Unsplit(accounts, ShapeOf(t).value, ApplyAll(accounts, t, entries, edits)) == Unsplit(accounts, ShapeOf(t).value, entries)
      {
        SafeRunsLeaveTheRest(accounts, t, entries, edits);
      }
    } else {
      SharedIdentifierMoves(accounts, t, entries);
      var edits := [UseRule(ExpenseEntries(accounts, entries)[0].accountId)];
      assert Unsplit(accounts, ShapeOf(t).value, ApplyAll(accounts, t, entries, edits)) != Unsplit(accounts, ShapeOf(t).value, entries);
    }
  }

  /** In particular when every entry has its own identifier. */
  lemma DistinctIdentifiersAreSafe(accounts: Accounts, t: TransactionType, entries: seq<Entry>)
    requires forall i, j :: 0 <= i < j < |entries| ==> entries[i].id != entries[j].id
    ensures RuleSafe(accounts, t, entries)
  {
    hide ExpenseEntries;
    if EligibleForRule(accounts, t, entries) {
      var found := ExpenseEntries(accounts, entries)[0];
      ExpenseEntriesSelect(accounts, entries, found);
      var i :| 0 <= i < |entries| && entries[i] == found;
    }
  }

  /** Without a category no edit applies at all. */
  lemma {:induction false} NothingToEdit(accounts: Accounts, t: TransactionType, entries: seq<Entry>, edits: seq<Edit>)
    requires ShapeOf(t).None?
    ensures ApplyAll(accounts, t, entries, edits) == entries
  {
    hide ExpenseEntries, SplitTotal;
    if edits != [] {
      NothingToEdit(accounts, t, entries, edits[..|edits| - 1]);
    }
  }

  /** Runs without a split keep every entry's identifier, side and amount, in order. */
  lemma {:induction false} RunsWithoutSplitMoveAccountsOnly(accounts: Accounts, t: TransactionType, entries: seq<Entry>, edits: seq<Edit>)
    requires forall edit <- edits :: !edit.Split?
    ensures SameButAccounts(entries, ApplyAll(accounts, t, entries, edits))
  {
    hide Recategorise, ApplyRule;
    if edits != [] {
      var front, last := edits[..|edits| - 1], edits[|edits| - 1];
      RunsWithoutSplitMoveAccountsOnly(accounts, t, entries, front);
      assert last in edits;
      var before := ApplyAll(accounts, t, entries, front);
      if Apply(accounts, t, before, last).Ok? {
        match last
        case ChangeCategory(category) => RecategoriseExactly(accounts, t, before, category);
        case UseRule(category) => RuleMovesAccountsOnly(accounts, t, before, category);
      }
    }
  }

  lemma TwoEntries(a: Entry, b: Entry, side: Side)
    ensures Total([a, b], side) == (if a.side == side then a.amount.Number() else 0.0) + (if b.side == side then b.amount.Number() else 0.0)
  {
    assert Total([], side) == 0.0;
    assert [a][..0] == [];
    assert Total([a], side) == if a.side == side then a.amount.Number() else 0.0;
    assert [a, b][..1] == [a];
  }

  lemma OneExpense(accounts: Accounts, a: Entry, b: Entry)
    requires HasKind(accounts, a.accountId, Expense) && !HasKind(accounts, b.accountId, Expense)
    ensures ExpenseEntries(accounts, [a, b]) == [a]
  {
    assert ExpenseEntries(accounts, []) == [];
    assert [a][..0] == [];
    assert ExpenseEntries(accounts, [a]) == [a];
    assert [a, b][..1] == [a];
  }

  /** A balanced, savable journal whose cash entry shares the expense entry's identifier: a rule turns it into an expense. */
  lemma SharedIdentifierExample() returns (accounts: Accounts, entries: seq<Entry>, edit: Edit)
    ensures Savable(entries) && !RuleSafe(accounts, ExpenseType, entries)
    ensures |entries| == 2 && HasKind(accounts, entries[1].accountId, OtherKind) && HasKind(accounts, "dining", Expense)
    ensures Apply(accounts, ExpenseType, entries, edit) ==
            Ok([entries[0].(accountId := "dining"), entries[1].(accountId := "dining")])
  {
    assert |"dining"| == 6 && |"books"| == 5 && |"cash"| == 4;
    accounts := map["dining" := Expense, "books" := Expense, "cash" := OtherKind];
    var expense, cash := Entry("1", "books", Debit, Digits(100)), Entry("1", "cash", Credit, Digits(100));
    entries := [expense, cash];
    edit := UseRule("dining");
    TwoEntries(expense, cash, Debit);
    TwoEntries(expense, cash, Credit);
    OneExpense(accounts, expense, cash);
    assert cash in entries;
    var moved := ApplyRule(accounts, ExpenseType, entries, "dining").value;
    assert moved == [moved[0], moved[1]];
  }
}
