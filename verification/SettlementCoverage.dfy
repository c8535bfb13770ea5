/** Card settlement coverage: one pass over interleaved statements keeps a running saturating balance per
    bank. Dates are day numbers: fixed-width digit dates order as strings the way they order in time. */
module SettlementCoverage {
  import opened Wrappers

  const I64_MIN := -0x8000_0000_0000_0000
  const I64_MAX := 0x7FFF_FFFF_FFFF_FFFF
  type i64 = x: int | I64_MIN <= x <= I64_MAX
  type Date = int

  const DEFAULT_HORIZON_DAYS := 45
  const MAX_HORIZON_DAYS := 365
  const MAX_COVERAGE_STATEMENTS := 10_000

  datatype StatementRow = StatementRow(
    statementId: string, cardAccountId: string, cardAccountName: string, paymentDueOn: Date,
    statementAmountJpy: i64, paidAmountJpy: i64, outstandingAmountJpy: i64,
    bankAccountId: Option<string>, bankAccountName: Option<string>)

  datatype CoverageStatus = Overdue | Covered | Shortfall

  datatype CoverageStatement = CoverageStatement(
    row: StatementRow, projectedBankBalanceJpy: i64, shortfallJpy: i64, status: CoverageStatus)

  datatype BankCoverage = BankCoverage(
    bankAccountId: string, bankAccountName: string, balanceAsOfJpy: i64,
    projectedEndingBalanceJpy: i64, maxShortfallJpy: i64, statements: seq<CoverageStatement>)

  datatype UnmappedSettlement = UnmappedSettlement(row: StatementRow, overdue: bool)

  datatype Coverage<M> = Coverage(
    asOf: Date, historyFrom: Date, horizonThrough: Date, horizonDays: nat,
    banks: map<string, BankCoverage>, unmapped: seq<UnmappedSettlement>, missingDue: seq<M>)

  datatype CoverageError = InvalidInput | Unavailable

  // ------------------------------------------------------------- 64-bit arithmetic

  function SaturatingSub(a: i64, b: i64): i64 {
    if a - b < I64_MIN then I64_MIN else if a - b > I64_MAX then I64_MAX else a - b
  }

  function SaturatingNeg(a: i64): i64 {
    if a == I64_MIN then I64_MAX else -a
  }

  function Max(a: i64, b: i64): i64 {
    if a < b then b else a
  }

  // --------------------------------------------------------- the definition per bank

  function RowsOfBank(rows: seq<StatementRow>, bank: Option<string>): seq<StatementRow> {
    if rows == [] then []
    else
      var front, last := RowsOfBank(rows[..|rows| - 1], bank), rows[|rows| - 1];
      if last.bankAccountId == bank then front + [last] else front
  }

  function Charge(asOf: Date, bank: BankCoverage, row: StatementRow): BankCoverage {
    var projected := SaturatingSub(bank.projectedEndingBalanceJpy, row.outstandingAmountJpy);
    var shortfall := Max(SaturatingNeg(projected), 0);
    var status := if row.paymentDueOn < asOf then Overdue else if shortfall > 0 then Shortfall else Covered;
    bank.(projectedEndingBalanceJpy := projected,
          maxShortfallJpy := Max(bank.maxShortfallJpy, shortfall),
          statements := bank.statements + [CoverageStatement(row, projected, shortfall, status)])
  }

  function ChargeAll(asOf: Date, bank: BankCoverage, rows: seq<StatementRow>): BankCoverage {
    if rows == [] then bank
    else Charge(asOf, ChargeAll(asOf, bank, rows[..|rows| - 1]), rows[|rows| - 1])
  }

  /** A bank as it is before its first statement, named by that statement. */
  function Opening(id: string, rows: seq<StatementRow>, balance: i64): BankCoverage {
    var name := if rows != [] && rows[0].bankAccountName.Some? then rows[0].bankAccountName.value else "";
    BankCoverage(id, name, balance, balance, 0, [])
  }

  /** Filter the rows to one bank, then fold from its balance. */
  function BankAlone(asOf: Date, rows: seq<StatementRow>, id: string, balance: i64): BankCoverage {
    var own := RowsOfBank(rows, Some(id));
    ChargeAll(asOf, Opening(id, own, balance), own)
  }

  function MappedBanks(rows: seq<StatementRow>): set<string> {
    set r | r in rows && r.bankAccountId.Some? :: r.bankAccountId.value
  }

  function Unmapped(asOf: Date, rows: seq<StatementRow>): seq<UnmappedSettlement> {
    var own := RowsOfBank(rows, None);
    seq(|own|, i requires 0 <= i < |own| => UnmappedSettlement(own[i], own[i].paymentDueOn < asOf))
  }

  predicate Named(row: StatementRow) {
    row.bankAccountId.Some? ==> row.bankAccountName.Some?
  }

  lemma RowsOfBankGrow(rows: seq<StatementRow>, i: nat, bank: Option<string>)
    requires i < |rows|
    ensures RowsOfBank(rows[..i + 1], bank) ==
            RowsOfBank(rows[..i], bank) + (if rows[i].bankAccountId == bank then [rows[i]] else [])
  {
    assert rows[..i + 1][..i] == rows[..i];
  }

  lemma {:induction false} RowsOfBankBelong(rows: seq<StatementRow>, bank: Option<string>)
    ensures forall r <- RowsOfBank(rows, bank) :: r in rows && r.bankAccountId == bank
    ensures RowsOfBank(rows, bank) == [] <==> forall r <- rows :: r.bankAccountId != bank
  {
    if rows != [] {
      RowsOfBankBelong(rows[..|rows| - 1], bank);
      assert rows == rows[..|rows| - 1] + [rows[|rows| - 1]];
    }
  }

  /** The pass step for one mapped row: its own bank is charged and every other bank stays as it is. */
  lemma BankAloneGrows(asOf: Date, rows: seq<StatementRow>, i: nat, id: string, balance: i64)
    requires i < |rows| && Named(rows[i])
    ensures rows[i].bankAccountId != Some(id) ==> BankAlone(asOf, rows[..i + 1], id, balance) == BankAlone(asOf, rows[..i], id, balance)
    ensures rows[i].bankAccountId == Some(id) && id in MappedBanks(rows[..i]) ==>
              BankAlone(asOf, rows[..i + 1], id, balance) == Charge(asOf, BankAlone(asOf, rows[..i], id, balance), rows[i])
    ensures rows[i].bankAccountId == Some(id) && id !in MappedBanks(rows[..i]) ==>
              BankAlone(asOf, rows[..i + 1], id, balance) == Charge(asOf, Opening(id, [rows[i]], balance), rows[i])
  {
    hide Charge;
    RowsOfBankGrow(rows, i, Some(id));
    RowsOfBankBelong(rows[..i], Some(id));
    var own := RowsOfBank(rows[..i], Some(id));
    if rows[i].bankAccountId == Some(id) {
      var longer := own + [rows[i]];
      assert longer[..|longer| - 1] == own;
      if id in MappedBanks(rows[..i]) {
        var r :| r in rows[..i] && r.bankAccountId == Some(id);
      } else {
        assert forall r <- rows[..i] :: r.bankAccountId != Some(id);
        assert own == [] && longer == [rows[i]];
        assert ChargeAll(asOf, Opening(id, longer, balance), []) == Opening(id, longer, balance);
      }
    } else {
      assert own + [] == own;
    }
  }

  /** The map of the pass holds exactly the banks met so far, each as it would be on its own. */
  ghost predicate Agrees(asOf: Date, rows: seq<StatementRow>, balance: string -> i64, banks: map<string, BankCoverage>) {
    && banks.Keys == MappedBanks(rows)
    && (forall id :: id in banks ==> banks[id] == BankAlone(asOf, rows, id, balance(id)))
  }

  lemma NothingAgrees(asOf: Date, balance: string -> i64)
    ensures Agrees(asOf, [], balance, map[]) && Unmapped(asOf, []) == []
  {
  }

  lemma AgreesAfterUnmapped(asOf: Date, rows: seq<StatementRow>, i: nat, balance: string -> i64, banks: map<string, BankCoverage>)
    requires i < |rows| && rows[i].bankAccountId.None?
    requires Agrees(asOf, rows[..i], balance, banks)
    ensures Agrees(asOf, rows[..i + 1], balance, banks)
  {
    hide BankAlone;
    assert rows[..i + 1] == rows[..i] + [rows[i]];
    forall id | id in banks
      ensures banks[id] == BankAlone(asOf, rows[..i + 1], id, balance(id))
    {
      BankAloneGrows(asOf, rows, i, id, balance(id));
    }
  }

  lemma AgreesAfterCharge(asOf: Date, rows: seq<StatementRow>, i: nat, balance: string -> i64,
                          banks: map<string, BankCoverage>, id: string)
    requires i < |rows| && rows[i].bankAccountId == Some(id) && Named(rows[i])
    requires Agrees(asOf, rows[..i], balance, banks)
    ensures var bank := if id in banks then banks[id] else Opening(id, [rows[i]], balance(id));
            Agrees(asOf, rows[..i + 1], balance, banks[id := Charge(asOf, bank, rows[i])])
  {
    hide BankAlone, Charge, Opening;
    assert rows[..i + 1] == rows[..i] + [rows[i]];
    assert MappedBanks(rows[..i + 1]) == MappedBanks(rows[..i]) + {id};
    BankAloneGrows(asOf, rows, i, id, balance(id));
    forall other | other in banks && other != id
      ensures banks[other] == BankAlone(asOf, rows[..i + 1], other, balance(other))
    {
      BankAloneGrows(asOf, rows, i, other, balance(other));
    }
  }

  /** The rows without a bank, each told to be overdue exactly when it was due before the day of the coverage. */
  lemma UnmappedExactly(asOf: Date, rows: seq<StatementRow>)
    ensures forall r :: r in rows && r.bankAccountId.None? <==> exists u <- Unmapped(asOf, rows) :: u.row == r
    ensures forall u <- Unmapped(asOf, rows) :: u.overdue <==> u.row.paymentDueOn < asOf
  {
    var own, unmapped := RowsOfBank(rows, None), Unmapped(asOf, rows);
    RowsOfBankBelong(rows, None);
    forall r
      ensures r in rows && r.bankAccountId.None? <==> exists u <- unmapped :: u.row == r
    {
      if r in rows && r.bankAccountId.None? {
        RowIsKept(rows, r, None);
        var k :| 0 <= k < |own| && own[k] == r;
        assert unmapped[k].row == r;
      }
      if u :| u in unmapped && u.row == r {
        var k :| 0 <= k < |unmapped| && unmapped[k] == u;
        assert own[k] == r;
      }
    }
  }

  lemma {:induction false} RowIsKept(rows: seq<StatementRow>, r: StatementRow, bank: Option<string>)
    requires r in rows && r.bankAccountId == bank
    ensures r in RowsOfBank(rows, bank)
  {
    var front, last := rows[..|rows| - 1], rows[|rows| - 1];
    assert rows == front + [last];
    if r in front {
      RowIsKept(front, r, bank);
    }
  }

  /** `balance_coverage`, given the rows its queries return. */
  method BalanceCoverage<M>(asOf: Date, horizon: Option<nat>, statements: seq<StatementRow>, missing: seq<M>,
                            balance: string -> i64)
    returns (r: Result<Coverage<M>, CoverageError>)
    ensures r == Err(InvalidInput) <==>
              || (horizon.Some? && horizon.value > 365) || |statements| > 10_000 || |missing| > 10_000
    ensures r == Err(Unavailable) ==> exists s :: s in statements && !Named(s)
    ensures r.Ok? ==>
              && (forall s <- statements :: Named(s))
              && Agrees(asOf, statements, balance, r.value.banks)
              && r.value.unmapped == Unmapped(asOf, statements)
              && (forall s :: s in statements && s.bankAccountId.None? <==> exists u <- r.value.unmapped :: u.row == s)
              && (forall u <- r.value.unmapped :: u.overdue <==> u.row.paymentDueOn < asOf)
              && r.value.missingDue == missing
              && r.value.asOf == asOf && r.value.horizonDays == (if horizon.Some? then horizon.value else 45)
              && r.value.horizonThrough == asOf + r.value.horizonDays
              && r.value.historyFrom == if statements == [] then asOf else statements[0].paymentDueOn
  {
    hide Agrees, RowsOfBank, SaturatingSub, SaturatingNeg, Max;
    var horizonDays := if horizon.Some? then horizon.value else DEFAULT_HORIZON_DAYS;
    if horizonDays > MAX_HORIZON_DAYS || |statements| > MAX_COVERAGE_STATEMENTS {
      return Err(InvalidInput);
    }
    var historyFrom := if statements == [] then asOf else statements[0].paymentDueOn;
    if |missing| > MAX_COVERAGE_STATEMENTS {
      return Err(InvalidInput);
    }
    var banks: map<string, BankCoverage> := map[];
    var unmapped := [];
    NothingAgrees(asOf, balance);
    for i := 0 to |statements|
      invariant forall s <- statements[..i] :: Named(s)
      invariant Agrees(asOf, statements[..i], balance, banks)
      invariant unmapped == Unmapped(asOf, statements[..i])
    {
      var row := statements[i];
      assert statements[..i + 1] == statements[..i] + [row];
      RowsOfBankGrow(statements, i, None);
      if row.bankAccountId.None? {
        unmapped := unmapped + [UnmappedSettlement(row, row.paymentDueOn < asOf)];
        AgreesAfterUnmapped(asOf, statements, i, balance, banks);
        continue;
      }
      var id := row.bankAccountId.value;
      if row.bankAccountName.None? {
        assert row in statements && !Named(row);
        return Err(Unavailable);
      }
      AgreesAfterCharge(asOf, statements, i, balance, banks, id);
      ghost var before := banks;
      if id !in banks {
        banks := banks[id := BankCoverage(id, row.bankAccountName.value, balance(id), balance(id), 0, [])];
      }
      var bank := banks[id];
      bank := bank.(projectedEndingBalanceJpy := SaturatingSub(bank.projectedEndingBalanceJpy, row.outstandingAmountJpy));
      var shortfall := Max(SaturatingNeg(bank.projectedEndingBalanceJpy), 0);
      bank := bank.(maxShortfallJpy := Max(bank.maxShortfallJpy, shortfall));
      var status := if row.paymentDueOn < asOf then Overdue else if shortfall > 0 then Shortfall else Covered;
      bank := bank.(statements := bank.statements
                      + [CoverageStatement(row, bank.projectedEndingBalanceJpy, shortfall, status)]);
      banks := banks[id := bank];
      assert banks == before[id := bank];
    }
    assert statements[..|statements|] == statements;
    UnmappedExactly(asOf, statements);
    return Ok(Coverage(asOf, historyFrom, asOf + horizonDays, horizonDays, banks, unmapped, missing));
  }

  // ------------------------------------------------------- what the definition means

  function Outstanding(rows: seq<StatementRow>): int {
    if rows == [] then 0 else Outstanding(rows[..|rows| - 1]) + rows[|rows| - 1].outstandingAmountJpy
  }

  /** What the query promises: ordered by due date, and only statements with something left to pay. */
  predicate FromQuery(rows: seq<StatementRow>) {
    && (forall i, j :: 0 <= i < j < |rows| ==> rows[i].paymentDueOn <= rows[j].paymentDueOn)
    && (forall i :: 0 <= i < |rows| ==> rows[i].outstandingAmountJpy > 0)
  }

  /** The nearest 64-bit value. */
  function Clamp(x: int): i64 {
    if x < I64_MIN then I64_MIN else if x > I64_MAX then I64_MAX else x
  }

  function ClampedShortfall(debt: int): i64 {
    if debt <= 0 then 0 else Clamp(debt)
  }

  /** A prefix of the rows gives a prefix of the list. */
  lemma {:induction false} StatementsKeepTheirPlace(asOf: Date, opening: BankCoverage, rows: seq<StatementRow>, k: nat)
    requires opening.statements == [] && k <= |rows|
    ensures |ChargeAll(asOf, opening, rows).statements| == |rows|
    ensures ChargeAll(asOf, opening, rows).statements[..k] == ChargeAll(asOf, opening, rows[..k]).statements
  {
    if rows != [] {
      var front := rows[..|rows| - 1];
      StatementsKeepTheirPlace(asOf, opening, front, if k < |rows| then k else |front|);
      if k < |rows| {
        assert front[..k] == rows[..k];
      } else {
        assert rows[..k] == rows;
      }
    }
  }

  /** A bank that has not been charged yet. */
  predicate IsOpening(bank: BankCoverage) {
    bank.statements == [] && bank.projectedEndingBalanceJpy == bank.balanceAsOfJpy && bank.maxShortfallJpy == 0
  }

  predicate Positive(rows: seq<StatementRow>) {
    forall i :: 0 <= i < |rows| ==> rows[i].outstandingAmountJpy > 0
  }

  /** Saturating step by step is one clamp of the exact balance, and the largest shortfall is the last one:
      one clamp of the exact debt. */
  lemma {:induction false} EndingBalanceClampsOnce(asOf: Date, opening: BankCoverage, rows: seq<StatementRow>)
    requires IsOpening(opening) && Positive(rows)
    ensures var bank := ChargeAll(asOf, opening, rows);
            && bank.bankAccountId == opening.bankAccountId && bank.bankAccountName == opening.bankAccountName
            && bank.projectedEndingBalanceJpy == Clamp(opening.balanceAsOfJpy - Outstanding(rows))
            && bank.balanceAsOfJpy == opening.balanceAsOfJpy
            && Outstanding(rows) >= 0
            && bank.maxShortfallJpy == (if rows == [] then 0 else ClampedShortfall(Outstanding(rows) - opening.balanceAsOfJpy))
  {
    if rows != [] {
      EndingBalanceClampsOnce(asOf, opening, rows[..|rows| - 1]);
      assert rows[|rows| - 1].outstandingAmountJpy > 0;
    }
  }

  function StatusFor(overdue: bool, debt: int): CoverageStatus {
    if overdue then Overdue else if debt > 0 then Shortfall else Covered
  }

  /** Every statement of a bank, from the exact sum of the outstanding amounts up to it. */
  lemma StatementIs(asOf: Date, opening: BankCoverage, rows: seq<StatementRow>, i: nat)
    requires IsOpening(opening) && Positive(rows) && i < |rows|
    ensures |ChargeAll(asOf, opening, rows).statements| == |rows|
    ensures var debt := Outstanding(rows[..i + 1]) - opening.balanceAsOfJpy;
            ChargeAll(asOf, opening, rows).statements[i] ==
            CoverageStatement(rows[i], Clamp(-debt), ClampedShortfall(debt), StatusFor(rows[i].paymentDueOn < asOf, debt))
  {
    hide ChargeAll, Outstanding;
    var upTo := rows[..i + 1];
    StatementsKeepTheirPlace(asOf, opening, rows, i + 1);
    EndingBalanceClampsOnce(asOf, opening, upTo);
    LastStatement(asOf, opening, upTo);
  }

  lemma LastStatement(asOf: Date, opening: BankCoverage, rows: seq<StatementRow>)
    requires opening.statements == [] && rows != []
    ensures var bank, last := ChargeAll(asOf, opening, rows), rows[|rows| - 1];
            var shortfall := Max(SaturatingNeg(bank.projectedEndingBalanceJpy), 0);
            && |bank.statements| == |rows|
            && bank.statements[|rows| - 1] ==
               CoverageStatement(last, bank.projectedEndingBalanceJpy, shortfall,
                                 if last.paymentDueOn < asOf then Overdue else if shortfall > 0 then Shortfall else Covered)
  {
    hide Max, SaturatingNeg, SaturatingSub;
    StatementsKeepTheirPlace(asOf, opening, rows, |rows|);
    StatementsKeepTheirPlace(asOf, opening, rows[..|rows| - 1], 0);
  }

  /** One statement after another: the balance before it less its outstanding amount, kept within 64 bits; what is missing;
      and overdue when it was due before the day of the coverage, else a shortfall when something is missing. */
  predicate FollowsFrom(asOf: Date, before: int, row: StatementRow, s: CoverageStatement) {
    var after := before - row.outstandingAmountJpy;
    && s.row == row
    && s.projectedBankBalanceJpy == (if after < -9_223_372_036_854_775_808 then -9_223_372_036_854_775_808
                                     else if after > 9_223_372_036_854_775_807 then 9_223_372_036_854_775_807 else after)
    && s.shortfallJpy == (if s.projectedBankBalanceJpy >= 0 then 0
                          else if s.projectedBankBalanceJpy == -9_223_372_036_854_775_808 then 9_223_372_036_854_775_807
                          else -s.projectedBankBalanceJpy)
    && (s.status == Overdue <==> row.paymentDueOn < asOf)
    && (s.status == Shortfall <==> row.paymentDueOn >= asOf && s.shortfallJpy > 0)
  }

  function BalanceBefore(opening: int, statements: seq<CoverageStatement>, i: nat): int
    requires i <= |statements|
  {
    if i == 0 then opening else statements[i - 1].projectedBankBalanceJpy
  }

  predicate IsChain(asOf: Date, opening: int, rows: seq<StatementRow>, statements: seq<CoverageStatement>) {
    && |statements| == |rows|
    && forall i :: 0 <= i < |rows| ==> FollowsFrom(asOf, BalanceBefore(opening, statements, i), rows[i], statements[i])
  }

  predicate IsLargest(largest: int, statements: seq<CoverageStatement>) {
    && (forall s <- statements :: s.shortfallJpy <= largest)
    && (largest == 0 || exists s <- statements :: s.shortfallJpy == largest)
  }

  lemma ChainGrows(asOf: Date, opening: int, rows: seq<StatementRow>, statements: seq<CoverageStatement>, row: StatementRow,
                   s: CoverageStatement)
    requires IsChain(asOf, opening, rows, statements)
    requires FollowsFrom(asOf, BalanceBefore(opening, statements, |statements|), row, s)
    ensures IsChain(asOf, opening, rows + [row], statements + [s])
  {
    hide FollowsFrom;
    var longer := statements + [s];
    forall i | 0 <= i < |rows| + 1
      ensures FollowsFrom(asOf, BalanceBefore(opening, longer, i), (rows + [row])[i], longer[i])
    {
      assert BalanceBefore(opening, longer, i) == BalanceBefore(opening, statements, i);
    }
  }

  lemma LargestGrows(largest: i64, statements: seq<CoverageStatement>, s: CoverageStatement)
    requires IsLargest(largest, statements)
    ensures IsLargest(Max(largest, s.shortfallJpy), statements + [s])
  {
    assert s in statements + [s];
    if x :| x in statements && x.shortfallJpy == largest {
      assert x in statements + [s];
    }
  }

  /** For any amounts, the statements of a bank are a chain from its opening to its projected ending balance, and the
      largest shortfall is that of one of them, if there is one. */
  lemma {:induction false} StatementsFollow(asOf: Date, opening: BankCoverage, rows: seq<StatementRow>)
    requires IsOpening(opening)
    ensures var bank := ChargeAll(asOf, opening, rows);
            && IsChain(asOf, opening.balanceAsOfJpy, rows, bank.statements)
            && bank.projectedEndingBalanceJpy == BalanceBefore(opening.balanceAsOfJpy, bank.statements, |rows|)
            && IsLargest(bank.maxShortfallJpy, bank.statements)
  {
    hide FollowsFrom, IsLargest, Charge;
    if rows == [] {
      assert IsLargest(0, []) by { NothingIsMissing(); }
    } else {
      var front, last := rows[..|rows| - 1], rows[|rows| - 1];
      var bank := ChargeAll(asOf, opening, front);
      StatementsFollow(asOf, opening, front);
      ChargeFollows(asOf, bank, last);
      var s := Charge(asOf, bank, last).statements[|front|];
      ChainGrows(asOf, opening.balanceAsOfJpy, front, bank.statements, last, s);
      LargestGrows(bank.maxShortfallJpy, bank.statements, s);
      assert rows == front + [last];
    }
  }

  lemma NothingIsMissing()
    ensures IsLargest(0, [])
  {
  }

  lemma ChargeFollows(asOf: Date, bank: BankCoverage, row: StatementRow)
    ensures var next := Charge(asOf, bank, row);
            && |next.statements| == |bank.statements| + 1
            && next.statements == bank.statements + [next.statements[|bank.statements|]]
            && FollowsFrom(asOf, bank.projectedEndingBalanceJpy, row, next.statements[|bank.statements|])
            && next.projectedEndingBalanceJpy == next.statements[|bank.statements|].projectedBankBalanceJpy
            && next.maxShortfallJpy == Max(bank.maxShortfallJpy, next.statements[|bank.statements|].shortfallJpy)
  {
  }

  // ------------------------------------------------------------------- main results

  lemma {:induction false} RowsOfBankFromQuery(rows: seq<StatementRow>, bank: Option<string>)
    requires FromQuery(rows)
    ensures FromQuery(RowsOfBank(rows, bank))
  {
    if rows != [] {
      RowsOfBankFromQuery(rows[..|rows| - 1], bank);
      RowsOfBankBelong(rows[..|rows| - 1], bank);
    }
  }

  /** The i-th projected balance, shortfall and status of a bank, as the exact definition gives them. */
  lemma BankMatchesDefinition(asOf: Date, rows: seq<StatementRow>, id: string, balance: i64)
    requires FromQuery(rows)
    ensures var own, bank := RowsOfBank(rows, Some(id)), BankAlone(asOf, rows, id, balance);
            && |bank.statements| == |own| && bank.bankAccountId == id && bank.balanceAsOfJpy == balance
            && (own != [] && own[0].bankAccountName.Some? ==> bank.bankAccountName == own[0].bankAccountName.value)
            && bank.projectedEndingBalanceJpy == Clamp(balance - Outstanding(own))
            && (forall i :: 0 <= i < |own| ==>
                  var debt := Outstanding(own[..i + 1]) - balance;
                  bank.statements[i] == CoverageStatement(own[i], Clamp(-debt), ClampedShortfall(debt),
                                                          StatusFor(own[i].paymentDueOn < asOf, debt)))
            && (own != [] ==> bank.maxShortfallJpy == bank.statements[|own| - 1].shortfallJpy)
  {
    hide ChargeAll, Outstanding, RowsOfBank, Clamp, ClampedShortfall, StatusFor;
    var own := RowsOfBank(rows, Some(id));
    RowsOfBankFromQuery(rows, Some(id));
    var opening := Opening(id, own, balance);
    EndingBalanceClampsOnce(asOf, opening, own);
    StatementsKeepTheirPlace(asOf, opening, own, 0);
    forall i | 0 <= i < |own|
      ensures var debt := Outstanding(own[..i + 1]) - balance;
              ChargeAll(asOf, opening, own).statements[i] ==
              CoverageStatement(own[i], Clamp(-debt), ClampedShortfall(debt), StatusFor(own[i].paymentDueOn < asOf, debt))
    {
      StatementIs(asOf, opening, own, i);
    }
    if own != [] {
      assert own[..|own| - 1 + 1] == own;
    }
  }

  lemma {:induction false} OutstandingIncreases(rows: seq<StatementRow>, i: nat, j: nat)
    requires Positive(rows) && i <= j <= |rows|
    ensures Outstanding(rows[..i]) <= Outstanding(rows[..j])
    decreases j - i
  {
    if i < j {
      OutstandingIncreases(rows, i, j - 1);
      assert rows[..j][..j - 1] == rows[..j - 1];
      assert rows[j - 1].outstandingAmountJpy > 0;
    }
  }

  /** Within a bank the statuses read Overdue* Covered* Shortfall*. */
  lemma StatusesAreOrdered(asOf: Date, rows: seq<StatementRow>, id: string, balance: i64, i: nat, j: nat)
    requires FromQuery(rows) && i <= j < |BankAlone(asOf, rows, id, balance).statements|
    ensures var statements := BankAlone(asOf, rows, id, balance).statements;
            && (statements[j].status == Overdue ==> statements[i].status == Overdue)
            && (statements[i].status == Shortfall ==> statements[j].status == Shortfall)
  {
    hide BankAlone, RowsOfBank, Outstanding, Clamp, ClampedShortfall;
    var own := RowsOfBank(rows, Some(id));
    RowsOfBankFromQuery(rows, Some(id));
    BankMatchesDefinition(asOf, rows, id, balance);
    OutstandingIncreases(own, i + 1, j + 1);
  }

  /** Every row lands exactly once: in the list of its own bank or among the unmapped. */
  lemma {:induction false} EveryRowLandsOnce(rows: seq<StatementRow>, r: StatementRow, bank: Option<string>)
    ensures multiset(RowsOfBank(rows, bank))[r] == if r.bankAccountId == bank then multiset(rows)[r] else 0
  {
    if rows != [] {
      var front, last := rows[..|rows| - 1], rows[|rows| - 1];
      EveryRowLandsOnce(front, r, bank);
      assert rows == front + [last];
    }
  }
}
