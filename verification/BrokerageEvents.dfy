/** Validation of brokerage events: multi-currency legs, corporate-action terms and mergers.
    Amounts are real numbers, so the finiteness checks fall away; a date is either a day or malformed. */
module BrokerageEvents {
  import opened Wrappers

  const BALANCE_TOLERANCE: real := 0.000_001
  const MAX_MERGER_CASH_AMOUNT: real := 1_000_000_000_000_000_000.0
  const MAX_MERGER_FX_RATE: real := 1_000_000_000_000.0

  datatype EventType =
    | Buy | Sell | Dividend | Fee | Tax | Deposit | Withdrawal | Split | ReverseSplit | Merger
    | SpinOff | RightsSubscription | CashInLieu | UnknownType(name: string)

  datatype LegKind =
    | Security | Cash | InvestmentIncome | InvestmentExpense | InvestmentTax | Transfer | Adjustment | UnknownKind(name: string)

  datatype ReconciliationStatus = Balanced | Adjusted | UnknownStatus(name: string)

  datatype Date = Day(number: int) | Malformed(text: string)

  datatype Leg = Leg(
    id: string, kind: LegKind, signedAmount: real, currency: string,
    instrumentCode: Option<string>, instrumentName: Option<string>, signedQuantity: Option<real>, description: string)

  datatype Event = Event(
    id: string, sourceRow: int, eventType: EventType, tradeDate: Option<Date>, settlementDate: Option<Date>,
    instrumentCode: string, instrumentName: string, currency: string, quantity: Option<real>, unitPrice: Option<real>,
    grossAmount: real, feeAmount: real, taxAmount: real, settlementAmount: real,
    reconciliationStatus: ReconciliationStatus, affectsHouseholdExpense: bool, rawTransactionType: string,
    corporateActionRatio: Option<real>, targetInstrumentCode: Option<string>, targetInstrumentName: Option<string>,
    targetCurrency: Option<string>, costBasisAllocationRatio: Option<real>, subscriptionAmount: Option<real>,
    cashInLieuAmount: Option<real>, cashInLieuQuantity: Option<real>, mergerCashAmount: Option<real>,
    mergerCashCurrency: Option<string>, mergerStockCostBasisRatio: Option<real>,
    sourceToTargetFxRate: Option<real>, sourceToCashFxRate: Option<real>, legs: seq<Leg>)

  // ---------------------------------------------------------------------- text

  /** The White_Space property of Unicode, as trimming uses it. */
  predicate IsWhitespace(c: char) {
    var n := c as int;
    9 <= n <= 13 || n == 0x20 || n == 0x85 || n == 0xA0 || n == 0x1680 || 0x2000 <= n <= 0x200A
    || n == 0x2028 || n == 0x2029 || n == 0x202F || n == 0x205F || n == 0x3000
  }

  predicate Blank(text: string) {
    forall c <- text :: IsWhitespace(c)
  }

  predicate BlankOrMissing(text: Option<string>) {
    text.None? || Blank(text.value)
  }

  predicate ValidCurrency(value: string) {
    |value| == 3 && forall c <- value :: 'A' <= c <= 'Z'
  }

  predicate ValidDate(date: Option<Date>) {
    date.None? || date.value.Day?
  }

  function Abs(x: real): real {
    if x < 0.0 then -x else x
  }

  // --------------------------------------------------------------------- header

  predicate ValidHeader(e: Event) {
    && !Blank(e.id) && e.sourceRow > 0 && !e.eventType.UnknownType? && !e.reconciliationStatus.UnknownStatus?
    && !e.affectsHouseholdExpense && ValidCurrency(e.currency) && !Blank(e.rawTransactionType) && |e.legs| >= 2
    && ValidDate(e.tradeDate) && ValidDate(e.settlementDate) && (e.tradeDate.Some? || e.settlementDate.Some?)
    && e.grossAmount >= 0.0 && e.feeAmount >= 0.0 && e.taxAmount >= 0.0 && e.settlementAmount >= 0.0
    && (e.quantity.Some? ==> e.quantity.value >= 0.0) && (e.unitPrice.Some? ==> e.unitPrice.value >= 0.0)
  }

  // ---------------------------------------------------------- corporate-action terms

  predicate PositiveAmount(x: Option<real>) {
    x.Some? && x.value > 0.0
  }

  predicate Unnamed(code: Option<string>, name: Option<string>) {
    BlankOrMissing(code) && BlankOrMissing(name)
  }

  predicate ValidConditionalFxRate(rate: Option<real>, required: bool) {
    match (rate, required)
    case (Some(value), true) => 0.0 < value <= MAX_MERGER_FX_RATE
    case (None, false) => true
    case _ => false
  }

  predicate ValidMergerTerms(e: Event) {
    if e.targetCurrency.None? then false
    else if
      || Unnamed(e.targetInstrumentCode, e.targetInstrumentName)
      || !ValidCurrency(e.targetCurrency.value)
      || !ValidConditionalFxRate(e.sourceToTargetFxRate, e.targetCurrency.value != e.currency)
    then false
    else
      match (e.mergerCashAmount, e.mergerCashCurrency)
      case (None, None) => e.mergerStockCostBasisRatio == Some(1.0) && e.sourceToCashFxRate.None?
      case (Some(amount), Some(cashCurrency)) =>
        && 0.0 < amount <= MAX_MERGER_CASH_AMOUNT
        && ValidCurrency(cashCurrency)
        && e.mergerStockCostBasisRatio.Some? && 0.0 < e.mergerStockCostBasisRatio.value < 1.0
        && ValidConditionalFxRate(e.sourceToCashFxRate, cashCurrency != e.currency)
      case _ => false
  }

  /** The rejecting condition on the terms, clause by clause in the order it is tested. */
  predicate RejectsTerms(e: Event) {
    var t := e.eventType;
    var ratioAction := t.Split? || t.ReverseSplit? || t.Merger? || t.SpinOff? || t.RightsSubscription?;
    var complexAction := t.SpinOff? || t.RightsSubscription? || t.CashInLieu?;
    var anyTarget := e.targetInstrumentCode.Some? || e.targetInstrumentName.Some? || e.targetCurrency.Some?;
    || ratioAction != PositiveAmount(e.corporateActionRatio)
    || (!ratioAction && anyTarget)
    || (e.targetCurrency.Some? && !ValidCurrency(e.targetCurrency.value))
    || (!t.Merger? && e.targetCurrency.Some? && e.targetCurrency.value != e.currency)
    || ((t.Split? || t.ReverseSplit?) && anyTarget)
    || ((t.Merger? || t.SpinOff?) && Unnamed(e.targetInstrumentCode, e.targetInstrumentName))
    || (!t.SpinOff? && e.costBasisAllocationRatio.Some?)
    || (t.SpinOff? && !(e.costBasisAllocationRatio.Some? && 0.0 <= e.costBasisAllocationRatio.value <= 1.0))
    || (!t.RightsSubscription? && e.subscriptionAmount.Some?)
    || (t.RightsSubscription? && !PositiveAmount(e.subscriptionAmount))
    || (!t.CashInLieu? && (e.cashInLieuAmount.Some? || e.cashInLieuQuantity.Some?))
    || (t.CashInLieu? && (!PositiveAmount(e.cashInLieuAmount) || !PositiveAmount(e.cashInLieuQuantity)))
    || (!complexAction && (e.costBasisAllocationRatio.Some? || e.subscriptionAmount.Some?
                           || e.cashInLieuAmount.Some? || e.cashInLieuQuantity.Some?))
    || (t.Merger? && !ValidMergerTerms(e))
    || (!t.Merger? && (e.mergerCashAmount.Some? || e.mergerCashCurrency.Some? || e.mergerStockCostBasisRatio.Some?
                       || e.sourceToTargetFxRate.Some? || e.sourceToCashFxRate.Some?))
  }

  // ---------------------------------------------------------------------- legs

  predicate ValidLeg(e: Event, leg: Leg) {
    && !Blank(leg.id) && !leg.kind.UnknownKind? && ValidCurrency(leg.currency)
    && (e.eventType.Merger? || leg.currency == e.currency)
    && !Blank(leg.description)
  }

  predicate DistinctLegIds(legs: seq<Leg>) {
    forall i, j :: 0 <= i < j < |legs| ==> legs[i].id != legs[j].id
  }

  /** The exact balance of the legs in one currency. */
  function Balance(legs: seq<Leg>, currency: string): real {
    if legs == [] then 0.0
    else
      var front, last := Balance(legs[..|legs| - 1], currency), legs[|legs| - 1];
      if last.currency == currency then front + last.signedAmount else front
  }

  function Matching(legs: seq<Leg>, p: Leg -> bool): seq<Leg> {
    if legs == [] then []
    else
      var front, last := Matching(legs[..|legs| - 1], p), legs[|legs| - 1];
      if p(last) then front + [last] else front
  }

  predicate Has(legs: seq<Leg>, kind: LegKind, positive: bool) {
    exists leg <- legs :: leg.kind == kind && (leg.signedAmount > 0.0) == positive
  }

  predicate NoAmounts(e: Event) {
    e.grossAmount == 0.0 && e.feeAmount == 0.0 && e.taxAmount == 0.0 && e.settlementAmount == 0.0
  }

  predicate InstrumentMatches(leg: Leg, code: Option<string>, name: Option<string>) {
    if !BlankOrMissing(code) then leg.instrumentCode == code
    else !BlankOrMissing(name) && leg.instrumentName == name
  }

  predicate IsSource(e: Event, leg: Leg) {
    && leg.kind == Security && leg.currency == e.currency && leg.signedAmount == 0.0
    && leg.signedQuantity.Some? && leg.signedQuantity.value < 0.0
    && InstrumentMatches(leg, Some(e.instrumentCode), Some(e.instrumentName))
  }

  predicate IsTarget(e: Event, leg: Leg) {
    && leg.kind == Security && Some(leg.currency) == e.targetCurrency && leg.signedAmount == 0.0
    && leg.signedQuantity.Some? && leg.signedQuantity.value > 0.0
    && InstrumentMatches(leg, e.targetInstrumentCode, e.targetInstrumentName)
  }

  predicate IsCashPart(leg: Leg, kind: LegKind, currency: string, amount: real) {
    leg.kind == kind && leg.currency == currency && Abs(leg.signedAmount - amount) <= BALANCE_TOLERANCE && leg.signedQuantity.None?
  }

  predicate QuantitiesMatch(e: Event, source: Leg, target: Leg)
    requires source.signedQuantity.Some? && target.signedQuantity.Some?
  {
    var ratio := if e.corporateActionRatio.Some? then e.corporateActionRatio.value else 0.0;
    Abs(target.signedQuantity.value - (-source.signedQuantity.value * ratio)) <= BALANCE_TOLERANCE
  }

  lemma {:induction false} MatchingSelects(legs: seq<Leg>, p: Leg -> bool, x: Leg)
    ensures multiset(Matching(legs, p))[x] == if p(x) then multiset(legs)[x] else 0
  {
    if legs != [] {
      var front, last := legs[..|legs| - 1], legs[|legs| - 1];
      MatchingSelects(front, p, x);
      assert legs == front + [last];
    }
  }

  lemma MatchingSelectsAll(legs: seq<Leg>, p: Leg -> bool)
    ensures forall x: Leg :: multiset(Matching(legs, p))[x] == if p(x) then multiset(legs)[x] else 0
    ensures forall x <- Matching(legs, p) :: p(x) && x in legs
  {
    forall x: Leg
      ensures multiset(Matching(legs, p))[x] == if p(x) then multiset(legs)[x] else 0
    {
      MatchingSelects(legs, p, x);
    }
    forall x | x in Matching(legs, p)
      ensures p(x) && x in legs
    {
      assert x in multiset(Matching(legs, p));
      assert x in multiset(legs);
    }
  }

  function Sources(e: Event): (r: seq<Leg>)
    ensures forall x <- r :: IsSource(e, x) && x in e.legs
    ensures forall x: Leg :: multiset(r)[x] == if IsSource(e, x) then multiset(e.legs)[x] else 0
  {
    hide IsSource;
    var p := leg => IsSource(e, leg);
    MatchingSelectsAll(e.legs, p);
    Matching(e.legs, p)
  }

  function Targets(e: Event): (r: seq<Leg>)
    ensures forall x <- r :: IsTarget(e, x) && x in e.legs
    ensures forall x: Leg :: multiset(r)[x] == if IsTarget(e, x) then multiset(e.legs)[x] else 0
  {
    hide IsTarget;
    var p := leg => IsTarget(e, leg);
    MatchingSelectsAll(e.legs, p);
    Matching(e.legs, p)
  }

  function CashParts(legs: seq<Leg>, kind: LegKind, currency: string, amount: real): (r: seq<Leg>)
    ensures forall x <- r :: IsCashPart(x, kind, currency, amount) && x in legs
    ensures forall x: Leg :: multiset(r)[x] == if IsCashPart(x, kind, currency, amount) then multiset(legs)[x] else 0
  {
    hide IsCashPart;
    var p := leg => IsCashPart(leg, kind, currency, amount);
    MatchingSelectsAll(legs, p);
    Matching(legs, p)
  }

  predicate ValidMergerLegs(e: Event) {
    if !NoAmounts(e) then false
    else if e.targetCurrency.None? then false
    else if |Sources(e)| != 1 || |Targets(e)| != 1 then false
    else if !QuantitiesMatch(e, Sources(e)[0], Targets(e)[0]) then false
    else
      match (e.mergerCashAmount, e.mergerCashCurrency)
      case (None, None) => |e.legs| == 2
      case (Some(amount), Some(currency)) =>
        && |e.legs| == 4
        && |CashParts(e.legs, Cash, currency, amount)| == 1
        && |CashParts(e.legs, Adjustment, currency, -amount)| == 1
      case _ => false
  }

  predicate SemanticLegs(e: Event) {
    match e.eventType
    case Buy => Has(e.legs, Security, true) && Has(e.legs, Cash, false)
    case Sell => Has(e.legs, Security, false) && Has(e.legs, Cash, true)
    case Dividend => Has(e.legs, InvestmentIncome, false) && Has(e.legs, Cash, true)
    case Fee => Has(e.legs, InvestmentExpense, true) && Has(e.legs, Cash, false)
    case Tax => Has(e.legs, InvestmentTax, true) && Has(e.legs, Cash, false)
    case Deposit => Has(e.legs, Cash, true) && Has(e.legs, Transfer, false)
    case Withdrawal => Has(e.legs, Cash, false) && Has(e.legs, Transfer, true)
    case Split | ReverseSplit | SpinOff =>
      && NoAmounts(e)
      && |Matching(e.legs, (leg: Leg) => leg.kind == Security)| == 2
      && (exists leg <- e.legs :: leg.kind == Security && leg.signedQuantity.Some? && leg.signedQuantity.value < 0.0)
      && (exists leg <- e.legs :: leg.kind == Security && leg.signedQuantity.Some? && leg.signedQuantity.value > 0.0)
    case Merger => ValidMergerLegs(e)
    case RightsSubscription =>
      && e.subscriptionAmount == Some(e.grossAmount) && e.settlementAmount == e.grossAmount
      && Has(e.legs, Security, true) && Has(e.legs, Cash, false)
    case CashInLieu =>
      && e.cashInLieuAmount == Some(e.grossAmount) && e.settlementAmount == e.grossAmount
      && Has(e.legs, Security, false) && Has(e.legs, Cash, true)
    case UnknownType(_) => false
  }

  // ------------------------------------------------------------------ validate_event

  predicate WithinTolerance(legs: seq<Leg>) {
    forall leg <- legs :: Abs(Balance(legs, leg.currency)) <= BALANCE_TOLERANCE
  }

  /** What an accepted event is: well-formed, and balanced in every currency it has legs in. */
  predicate Accepted(e: Event) {
    && ValidHeader(e) && !RejectsTerms(e)
    && ValidLegs(e, e.legs) && WithinTolerance(e.legs) && SemanticLegs(e)
  }

  lemma BalanceGrows(legs: seq<Leg>, i: nat)
    requires i < |legs|
    ensures forall c :: Balance(legs[..i + 1], c) ==
                        Balance(legs[..i], c) + (if legs[i].currency == c then legs[i].signedAmount else 0.0)
  {
    assert legs[..i + 1][..i] == legs[..i];
  }

  lemma {:induction false} NoLegsNoBalance(legs: seq<Leg>, currency: string)
    requires forall leg <- legs :: leg.currency != currency
    ensures Balance(legs, currency) == 0.0
  {
    if legs != [] {
      NoLegsNoBalance(legs[..|legs| - 1], currency);
    }
  }

  predicate ValidLegs(e: Event, legs: seq<Leg>) {
    (forall leg <- legs :: ValidLeg(e, leg)) && DistinctLegIds(legs)
  }

  lemma ValidLegsGrow(e: Event, legs: seq<Leg>, i: nat)
    requires i < |legs| && ValidLegs(e, legs[..i])
    ensures ValidLegs(e, legs[..i + 1]) <==> ValidLeg(e, legs[i]) && forall leg <- legs[..i] :: leg.id != legs[i].id
  {
    hide ValidLeg;
    assert legs[..i + 1] == legs[..i] + [legs[i]];
    assert legs[i] in legs[..i + 1];
    if leg :| leg in legs[..i] && leg.id == legs[i].id {
      var k :| 0 <= k < i && legs[k] == leg;
      assert legs[..i + 1][k].id == legs[..i + 1][i].id;
    }
  }

  lemma ValidLegsShrink(e: Event, legs: seq<Leg>, i: nat)
    requires i <= |legs| && ValidLegs(e, legs)
    ensures ValidLegs(e, legs[..i])
  {
    hide ValidLeg;
  }

  /** The leg loop: rejects a repeated id or a malformed leg, and adds up one balance per currency. */
  method CheckLegs(e: Event) returns (ok: bool, balances: map<string, real>)
    ensures ok <==> ValidLegs(e, e.legs)
    ensures ok ==> forall c :: c in balances <==> exists leg <- e.legs :: leg.currency == c
    ensures ok ==> forall c :: c in balances ==> balances[c] == Balance(e.legs, c)
  {
    hide ValidLeg, ValidLegs, Balance;
    var legIds: set<string> := {};
    balances := map[];
    assert ValidLegs(e, []) by {
      NoLegsAreValid(e);
    }
    for i := 0 to |e.legs|
      invariant ValidLegs(e, e.legs[..i])
      invariant forall id :: id in legIds <==> exists leg <- e.legs[..i] :: leg.id == id
      invariant forall c :: c in balances <==> exists leg <- e.legs[..i] :: leg.currency == c
      invariant forall c :: c in balances ==> balances[c] == Balance(e.legs[..i], c)
    {
      var leg := e.legs[i];
      assert e.legs[..i + 1] == e.legs[..i] + [leg];
      ValidLegsGrow(e, e.legs, i);
      if leg.id in legIds || !ValidLeg(e, leg) {
        if ValidLegs(e, e.legs) {
          ValidLegsShrink(e, e.legs, i + 1);
        }
        return false, balances;
      }
      legIds := legIds + {leg.id};
      BalanceGrows(e.legs, i);
      if leg.currency !in balances {
        NoLegsNoBalance(e.legs[..i], leg.currency);
        balances := balances[leg.currency := 0.0];
      }
      balances := balances[leg.currency := balances[leg.currency] + leg.signedAmount];
    }
    assert e.legs[..|e.legs|] == e.legs;
    return true, balances;
  }

  lemma NoLegsAreValid(e: Event)
    ensures ValidLegs(e, [])
  {
  }

  method ValidateEvent(e: Event) returns (ok: bool)
    ensures ok <==> Accepted(e)
  {
    hide ValidHeader, RejectsTerms, SemanticLegs, ValidLegs, Abs, Balance;
    if !ValidHeader(e) || RejectsTerms(e) {
      return false;
    }
    var valid, balances := CheckLegs(e);
    if !valid {
      return false;
    }
    var within := forall c <- balances.Keys :: Abs(balances[c]) <= BALANCE_TOLERANCE;
    assert within <==> WithinTolerance(e.legs);
    return within && SemanticLegs(e);
  }

  datatype Batch = Batch(householdId: string, accountId: string, sourceDocumentId: string, events: seq<Event>)

  predicate AcceptedEvents(events: seq<Event>) {
    && (forall e <- events :: Accepted(e))
    && (forall i, j :: 0 <= i < j < |events| ==> events[i].id != events[j].id && events[i].sourceRow != events[j].sourceRow)
  }

  predicate AcceptedBatch(b: Batch) {
    && !Blank(b.householdId) && !Blank(b.accountId) && !Blank(b.sourceDocumentId) && b.events != []
    && AcceptedEvents(b.events)
  }

  lemma AcceptedEventsGrow(events: seq<Event>, i: nat)
    requires i < |events| && AcceptedEvents(events[..i])
    ensures AcceptedEvents(events[..i + 1]) <==>
              Accepted(events[i]) && forall e <- events[..i] :: e.id != events[i].id && e.sourceRow != events[i].sourceRow
  {
    hide Accepted;
    assert events[..i + 1] == events[..i] + [events[i]];
    assert events[i] in events[..i + 1];
    if e :| e in events[..i] && (e.id == events[i].id || e.sourceRow == events[i].sourceRow) {
      var k :| 0 <= k < i && events[k] == e;
      var longer := events[..i + 1];
      assert longer[k] == e && longer[i] == events[i];
    }
  }

  lemma AcceptedEventsShrink(events: seq<Event>, i: nat)
    requires i <= |events| && AcceptedEvents(events)
    ensures AcceptedEvents(events[..i])
  {
    hide Accepted;
  }

  method ValidateBatch(b: Batch) returns (ok: bool)
    ensures ok <==> AcceptedBatch(b)
  {
    hide Accepted, AcceptedEvents, Blank;
    if Blank(b.householdId) || Blank(b.accountId) || Blank(b.sourceDocumentId) || b.events == [] {
      return false;
    }
    var ids: set<string> := {};
    var rows: set<int> := {};
    NoEventsAreAccepted();
    for i := 0 to |b.events|
      invariant AcceptedEvents(b.events[..i])
      invariant forall id :: id in ids <==> exists e <- b.events[..i] :: e.id == id
      invariant forall row :: row in rows <==> exists e <- b.events[..i] :: e.sourceRow == row
    {
      var e := b.events[i];
      assert b.events[..i + 1] == b.events[..i] + [e];
      AcceptedEventsGrow(b.events, i);
      if AcceptedEvents(b.events) {
        AcceptedEventsShrink(b.events, i + 1);
      }
      if e.id in ids || e.sourceRow in rows {
        return false;
      }
      ids := ids + {e.id};
      rows := rows + {e.sourceRow};
      var valid := ValidateEvent(e);
      if !valid {
        return false;
      }
    }
    assert b.events[..|b.events|] == b.events;
    return true;
  }

  lemma NoEventsAreAccepted()
    ensures AcceptedEvents([])
  {
  }
}
