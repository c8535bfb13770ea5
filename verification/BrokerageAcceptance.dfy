/** What an accepted event is, event type by event type, and said without the predicates of the validator. */
module BrokerageAcceptance {
  import opened Wrappers
  import opened BrokerageEvents
  import opened BrokerageMergers

  // ---------------------------------------------------------------------- text

  lemma WhitespaceIs(c: char)
    ensures IsWhitespace(c) <==>
              c in " \t\n\r\U{B}\U{C}\U{85}\U{A0}\U{1680}\U{2000}\U{2001}\U{2002}\U{2003}\U{2004}\U{2005}\U{2006}\U{2007}"
              || c in "\U{2008}\U{2009}\U{200A}\U{2028}\U{2029}\U{202F}\U{205F}\U{3000}"
  {
  }

  lemma CurrencyIs(value: string)
    ensures ValidCurrency(value) <==> |value| == 3 && forall i :: 0 <= i < 3 ==> 65 <= value[i] as int <= 90
  {
    if ValidCurrency(value) {
      assert value[0] in value && value[1] in value && value[2] in value;
    }
  }

  // ---------------------------------------------------------------------- legs

  /** One leg of kind `to` gains, and one of kind `from` does not. */
  predicate Flows(legs: seq<Leg>, from: LegKind, to: LegKind) {
    exists i, j :: 0 <= i < |legs| && 0 <= j < |legs| && legs[i].kind == from && legs[j].kind == to
      && legs[i].signedAmount <= 0.0 < legs[j].signedAmount
  }

  /** The leg moves shares, in or out. */
  predicate Moves(leg: Leg, inward: bool) {
    leg.kind == Security && leg.signedQuantity.Some?
    && if inward then leg.signedQuantity.value > 0.0 else leg.signedQuantity.value < 0.0
  }

  /** Exactly two security legs, of which one gives up a quantity and the other receives one. */
  predicate Exchanges(legs: seq<Leg>) {
    exists i, j :: 0 <= i < |legs| && 0 <= j < |legs|
      && Moves(legs[i], false) && Moves(legs[j], true) && OnlySecurities(legs, i, j)
  }

  predicate OnlySecurities(legs: seq<Leg>, i: int, j: int) {
    forall k :: 0 <= k < |legs| && legs[k].kind == Security ==> k == i || k == j
  }

  function Indices(legs: seq<Leg>, p: Leg -> bool): set<nat> {
    set i: nat | i < |legs| && p(legs[i])
  }

  lemma {:induction false} MatchingCounts(legs: seq<Leg>, p: Leg -> bool)
    ensures |Matching(legs, p)| == |Indices(legs, p)|
  {
    if legs != [] {
      var front, n := legs[..|legs| - 1], |legs| - 1;
      MatchingCounts(front, p);
      assert Indices(legs, p) == Indices(front, p) + if p(legs[n]) then {n} else {};
    }
  }

  lemma TwoOf(s: set<nat>, i: nat, j: nat)
    requires i in s && j in s && i != j
    ensures |s| == 2 <==> forall k <- s :: k == i || k == j
  {
    var rest := s - {i, j};
    assert s == rest + {i, j} && |s| == |rest| + 2;
    if |s| == 2 {
      assert rest == {};
    }
    if forall k <- s :: k == i || k == j {
      assert rest == {};
    }
  }

  lemma TwoSecurities(legs: seq<Leg>, i: nat, j: nat)
    requires i < |legs| && j < |legs| && Moves(legs[i], false) && Moves(legs[j], true)
    ensures |Matching(legs, (leg: Leg) => leg.kind == Security)| == 2 <==> OnlySecurities(legs, i, j)
  {
    var p := (leg: Leg) => leg.kind == Security;
    MatchingCounts(legs, p);
    TwoOf(Indices(legs, p), i, j);
    assert forall k: nat :: k < |legs| && legs[k].kind == Security <==> k in Indices(legs, p);
  }

  lemma ExchangesExactly(e: Event)
    requires e.eventType.Split? || e.eventType.ReverseSplit? || e.eventType.SpinOff?
    ensures SemanticLegs(e) <==> NoAmounts(e) && Exchanges(e.legs)
  {
    hide NoAmounts, OnlySecurities, Matching;
    if SemanticLegs(e) {
      var i :| 0 <= i < |e.legs| && Moves(e.legs[i], false);
      var j :| 0 <= j < |e.legs| && Moves(e.legs[j], true);
      TwoSecurities(e.legs, i, j);
    }
    if NoAmounts(e) && Exchanges(e.legs) {
      var i, j :| 0 <= i < |e.legs| && 0 <= j < |e.legs|
        && Moves(e.legs[i], false) && Moves(e.legs[j], true) && OnlySecurities(e.legs, i, j);
      TwoSecurities(e.legs, i, j);
      assert e.legs[i] in e.legs && e.legs[j] in e.legs;
    }
  }

  lemma FlowsExactly(legs: seq<Leg>, from: LegKind, to: LegKind)
    ensures Has(legs, from, false) && Has(legs, to, true) <==> Flows(legs, from, to)
  {
    if Has(legs, from, false) && Has(legs, to, true) {
      var i :| 0 <= i < |legs| && legs[i].kind == from && legs[i].signedAmount <= 0.0;
      var j :| 0 <= j < |legs| && legs[j].kind == to && legs[j].signedAmount > 0.0;
      assert legs[i].signedAmount <= 0.0 < legs[j].signedAmount;
    }
  }

  /** The legs each event type demands: from which kind of leg to which the value flows. */
  lemma LegsExactly(e: Event)
    ensures e.eventType.Buy? ==> (SemanticLegs(e) <==> Flows(e.legs, Cash, Security))
    ensures e.eventType.Sell? ==> (SemanticLegs(e) <==> Flows(e.legs, Security, Cash))
    ensures e.eventType.Dividend? ==> (SemanticLegs(e) <==> Flows(e.legs, InvestmentIncome, Cash))
    ensures e.eventType.Fee? ==> (SemanticLegs(e) <==> Flows(e.legs, Cash, InvestmentExpense))
    ensures e.eventType.Tax? ==> (SemanticLegs(e) <==> Flows(e.legs, Cash, InvestmentTax))
    ensures e.eventType.Deposit? ==> (SemanticLegs(e) <==> Flows(e.legs, Transfer, Cash))
    ensures e.eventType.Withdrawal? ==> (SemanticLegs(e) <==> Flows(e.legs, Cash, Transfer))
    ensures e.eventType.RightsSubscription? ==>
              (SemanticLegs(e) <==> Flows(e.legs, Cash, Security)
                                    && e.subscriptionAmount == Some(e.settlementAmount) && e.settlementAmount == e.grossAmount)
    ensures e.eventType.CashInLieu? ==>
              (SemanticLegs(e) <==> Flows(e.legs, Security, Cash)
                                    && e.cashInLieuAmount == Some(e.settlementAmount) && e.settlementAmount == e.grossAmount)
    ensures e.eventType.Split? || e.eventType.ReverseSplit? || e.eventType.SpinOff? ==>
              (SemanticLegs(e) <==> Exchanges(e.legs)
                                    && e.grossAmount == e.feeAmount == e.taxAmount == e.settlementAmount == 0.0)
    ensures e.eventType.Merger? ==>
              (SemanticLegs(e) <==> MergerLegShape(e) && e.targetCurrency.Some?
                                    && e.grossAmount == e.feeAmount == e.taxAmount == e.settlementAmount == 0.0)
    ensures e.eventType.UnknownType? ==> !SemanticLegs(e)
  {
    hide Has, Flows, Exchanges, MergerLegShape, ValidMergerLegs, Matching;
    forall from, to
      ensures Has(e.legs, from, false) && Has(e.legs, to, true) <==> Flows(e.legs, from, to)
    {
      FlowsExactly(e.legs, from, to);
    }
    if e.eventType.Split? || e.eventType.ReverseSplit? || e.eventType.SpinOff? {
      ExchangesExactly(e);
    }
    if e.eventType.Merger? {
      MergerLegsExactly(e);
    }
  }

  // ------------------------------------------------------------------- mergers

  /** The leg names the instrument by its code or, when that is blank, by its name. */
  predicate Names(leg: Leg, code: Option<string>, name: Option<string>) {
    || (code.Some? && !Blank(code.value) && leg.instrumentCode == Some(code.value))
    || ((code == None || Blank(code.value)) && name.Some? && !Blank(name.value) && leg.instrumentName == Some(name.value))
  }

  /** One security leg gives up the event's instrument, the other receives the target at the ratio. */
  predicate SecurityPair(e: Event, s: Leg, t: Leg)
    requires e.corporateActionRatio.Some?
  {
    && s.kind == t.kind == Security && s.signedAmount == t.signedAmount == 0.0
    && s.currency == e.currency && Some(t.currency) == e.targetCurrency
    && Names(s, Some(e.instrumentCode), Some(e.instrumentName))
    && Names(t, e.targetInstrumentCode, e.targetInstrumentName)
    && s.signedQuantity.Some? && t.signedQuantity.Some? && s.signedQuantity.value < 0.0 < t.signedQuantity.value
    && -0.000_001 <= t.signedQuantity.value + s.signedQuantity.value * e.corporateActionRatio.value <= 0.000_001
  }

  /** One cash leg pays the amount, an adjustment leg offsets it. */
  predicate CashPair(currency: string, amount: real, c: Leg, a: Leg) {
    && c.kind == Cash && a.kind == Adjustment && c.currency == a.currency == currency
    && c.signedQuantity == a.signedQuantity == None
    && amount - 0.000_001 <= c.signedAmount <= amount + 0.000_001
    && -amount - 0.000_001 <= a.signedAmount <= -amount + 0.000_001
  }

  ghost predicate StockMergerLegs(e: Event)
    requires e.corporateActionRatio.Some?
  {
    exists s, t :: SecurityPair(e, s, t) && multiset(e.legs) == multiset{s, t}
  }

  ghost predicate CashMergerLegs(e: Event, currency: string, amount: real)
    requires e.corporateActionRatio.Some?
  {
    exists s, t, c, a :: SecurityPair(e, s, t) && CashPair(currency, amount, c, a) && multiset(e.legs) == multiset{s, t, c, a}
  }

  lemma TwoPartsExactly(e: Event, s: Leg, t: Leg)
    requires e.corporateActionRatio.Some?
    ensures AreTwoParts(e, s, t) <==> SecurityPair(e, s, t) && multiset(e.legs) == multiset{s, t}
  {
    hide Blank;
  }

  lemma FourPartsExactly(e: Event, currency: string, amount: real, s: Leg, t: Leg, c: Leg, a: Leg)
    requires e.corporateActionRatio.Some?
    ensures AreFourParts(e, currency, amount, s, t, c, a) <==>
              SecurityPair(e, s, t) && CashPair(currency, amount, c, a) && multiset(e.legs) == multiset{s, t, c, a}
  {
    hide Blank;
  }

  lemma StockShapeExactly(e: Event)
    requires e.corporateActionRatio.Some?
    ensures (exists s, t :: AreTwoParts(e, s, t)) <==> StockMergerLegs(e)
  {
    hide SecurityPair, AreTwoParts;
    if s, t :| AreTwoParts(e, s, t) {
      TwoPartsExactly(e, s, t);
    }
    if StockMergerLegs(e) {
      var s, t :| SecurityPair(e, s, t) && multiset(e.legs) == multiset{s, t};
      TwoPartsExactly(e, s, t);
    }
  }

  lemma CashShapeExactly(e: Event, currency: string, amount: real)
    requires e.corporateActionRatio.Some?
    ensures (exists s, t, c, a :: AreFourParts(e, currency, amount, s, t, c, a)) <==> CashMergerLegs(e, currency, amount)
  {
    hide SecurityPair, CashPair, AreFourParts;
    if s, t, c, a :| AreFourParts(e, currency, amount, s, t, c, a) {
      FourPartsExactly(e, currency, amount, s, t, c, a);
    }
    if CashMergerLegs(e, currency, amount) {
      var s, t, c, a :| SecurityPair(e, s, t) && CashPair(currency, amount, c, a) && multiset(e.legs) == multiset{s, t, c, a};
      FourPartsExactly(e, currency, amount, s, t, c, a);
    }
  }

  /** The legs a merger demands, leg by leg and up to order. */
  lemma MergerShapeExactly(e: Event)
    requires e.corporateActionRatio.Some?
    ensures MergerLegShape(e) <==>
              || (e.mergerCashAmount.None? && e.mergerCashCurrency.None? && StockMergerLegs(e))
              || (e.mergerCashAmount.Some? && e.mergerCashCurrency.Some?
                  && CashMergerLegs(e, e.mergerCashCurrency.value, e.mergerCashAmount.value))
  {
    hide AreTwoParts, AreFourParts, StockMergerLegs, CashMergerLegs;
    StockShapeExactly(e);
    if e.mergerCashAmount.Some? && e.mergerCashCurrency.Some? {
      CashShapeExactly(e, e.mergerCashCurrency.value, e.mergerCashAmount.value);
    }
  }

  // ---------------------------------------------------------------- every event

  lemma HeaderExactly(e: Event)
    ensures ValidHeader(e) <==>
              && !Blank(e.id) && !Blank(e.rawTransactionType) && e.sourceRow >= 1 && |e.legs| > 1
              && (e.reconciliationStatus == Balanced || e.reconciliationStatus == Adjusted)
              && !e.eventType.UnknownType? && !e.affectsHouseholdExpense && ValidCurrency(e.currency)
              && (e.tradeDate == None || e.tradeDate.value.Day?) && (e.settlementDate == None || e.settlementDate.value.Day?)
              && (e.tradeDate == None ==> e.settlementDate != None)
              && 0.0 <= e.grossAmount && 0.0 <= e.feeAmount && 0.0 <= e.taxAmount && 0.0 <= e.settlementAmount
              && (e.quantity == None || 0.0 <= e.quantity.value) && (e.unitPrice == None || 0.0 <= e.unitPrice.value)
  {
    hide Blank, ValidCurrency;
  }

  lemma LegListExactly(e: Event)
    ensures ValidLegs(e, e.legs) <==>
              && (forall i, j :: 0 <= i < |e.legs| && 0 <= j < |e.legs| && e.legs[i].id == e.legs[j].id ==> i == j)
              && (forall leg <- e.legs :: !Blank(leg.id) && !Blank(leg.description) && ValidCurrency(leg.currency)
                                          && !leg.kind.UnknownKind? && (leg.currency == e.currency || e.eventType == Merger))
  {
    hide Blank, ValidCurrency;
    if forall i, j :: 0 <= i < |e.legs| && 0 <= j < |e.legs| && e.legs[i].id == e.legs[j].id ==> i == j {
      assert DistinctLegIds(e.legs);
    }
  }

  lemma BalanceWithin(legs: seq<Leg>, currency: string)
    requires WithinTolerance(legs)
    ensures -0.000_001 <= Balance(legs, currency) <= 0.000_001
  {
    hide Balance;
    if forall leg <- legs :: leg.currency != currency {
      NoLegsNoBalance(legs, currency);
    }
  }

  ghost predicate BalancesInEveryCurrency(legs: seq<Leg>) {
    forall c :: -0.000_001 <= Balance(legs, c) <= 0.000_001
  }

  lemma ToleranceExactly(legs: seq<Leg>)
    ensures WithinTolerance(legs) <==> BalancesInEveryCurrency(legs)
  {
    hide Balance;
    if WithinTolerance(legs) {
      forall c
        ensures -0.000_001 <= Balance(legs, c) <= 0.000_001
      {
        BalanceWithin(legs, c);
      }
    }
  }

  /** The validator accepts an event exactly when all of this holds; the terms of its type are those of `TermsExactly`
      and the legs of its type those of `LegsExactly` and `MergerShapeExactly`. */
  lemma AcceptedExactly(e: Event)
    ensures Accepted(e) <==>
              && !Blank(e.id) && !Blank(e.rawTransactionType) && e.sourceRow >= 1 && |e.legs| > 1
              && (e.reconciliationStatus == Balanced || e.reconciliationStatus == Adjusted)
              && !e.affectsHouseholdExpense && ValidCurrency(e.currency)
              && (e.tradeDate == None || e.tradeDate.value.Day?) && (e.settlementDate == None || e.settlementDate.value.Day?)
              && (e.tradeDate == None ==> e.settlementDate != None)
              && 0.0 <= e.grossAmount && 0.0 <= e.feeAmount && 0.0 <= e.taxAmount && 0.0 <= e.settlementAmount
              && (e.quantity == None || 0.0 <= e.quantity.value) && (e.unitPrice == None || 0.0 <= e.unitPrice.value)
              && TermsByType(e)
              && (forall i, j :: 0 <= i < |e.legs| && 0 <= j < |e.legs| && e.legs[i].id == e.legs[j].id ==> i == j)
              && (forall leg <- e.legs :: !Blank(leg.id) && !Blank(leg.description) && ValidCurrency(leg.currency)
                                          && !leg.kind.UnknownKind? && (leg.currency == e.currency || e.eventType == Merger))
              && BalancesInEveryCurrency(e.legs)
              && SemanticLegs(e)
  {
    hide Blank, ValidCurrency, TermsByType, RejectsTerms, SemanticLegs, Balance, ValidHeader, ValidLegs, WithinTolerance;
    HeaderExactly(e);
    TermsExactly(e);
    LegListExactly(e);
    ToleranceExactly(e.legs);
    LegsExactly(e);
  }

  /** A batch is accepted exactly when it names household, account and document and has events, all of them accepted, no two
      with the same identifier and no two from the same source row. */
  lemma AcceptedBatchExactly(b: Batch)
    ensures AcceptedBatch(b) <==>
              && !Blank(b.householdId) && !Blank(b.accountId) && !Blank(b.sourceDocumentId) && |b.events| >= 1
              && (forall i :: 0 <= i < |b.events| ==> Accepted(b.events[i]))
              && (forall i, j :: 0 <= i < |b.events| && 0 <= j < |b.events| && i != j ==>
                    b.events[i].id != b.events[j].id && b.events[i].sourceRow != b.events[j].sourceRow)
  {
    hide Accepted, Blank;
  }
}
