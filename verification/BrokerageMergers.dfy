/** What the validator's clauses amount to: one table of terms per event type, and the exact legs of a merger. */
module BrokerageMergers {
  import opened Wrappers
  import opened BrokerageEvents

  // ---------------------------------------------------------------------- terms

  predicate NoMergerTerms(e: Event) {
    e.mergerCashAmount.None? && e.mergerCashCurrency.None? && e.mergerStockCostBasisRatio.None?
    && e.sourceToTargetFxRate.None? && e.sourceToCashFxRate.None?
  }

  predicate NoTarget(e: Event) {
    e.targetInstrumentCode.None? && e.targetInstrumentName.None? && e.targetCurrency.None?
  }

  /** A target, when given a currency, is in the currency of the event. */
  predicate SameCurrencyTarget(e: Event) {
    e.targetCurrency.None? || (e.targetCurrency == Some(e.currency) && ValidCurrency(e.currency))
  }

  /** There is a code or a name that is not blank. */
  predicate Named(code: Option<string>, name: Option<string>) {
    (code.Some? && !Blank(code.value)) || (name.Some? && !Blank(name.value))
  }

  predicate NoCashInLieu(e: Event) {
    e.cashInLieuAmount.None? && e.cashInLieuQuantity.None?
  }

  /** An exchange rate is present exactly when the two currencies differ. */
  predicate FxExactly(rate: Option<real>, from: string, to: string) {
    if from == to then rate.None? else rate.Some? && 0.0 < rate.value <= 1_000_000_000_000.0
  }

  predicate MergerTerms(e: Event) {
    && Named(e.targetInstrumentCode, e.targetInstrumentName)
    && e.targetCurrency.Some? && ValidCurrency(e.targetCurrency.value)
    && FxExactly(e.sourceToTargetFxRate, e.currency, e.targetCurrency.value)
    && (e.mergerCashAmount.Some? <==> e.mergerCashCurrency.Some?)
    && e.mergerStockCostBasisRatio.Some?
    && (if e.mergerCashAmount.None? then e.mergerStockCostBasisRatio.value == 1.0 && e.sourceToCashFxRate.None?
        else
          && 0.0 < e.mergerCashAmount.value <= 1_000_000_000_000_000_000.0
          && ValidCurrency(e.mergerCashCurrency.value)
          && 0.0 < e.mergerStockCostBasisRatio.value < 1.0
          && FxExactly(e.sourceToCashFxRate, e.currency, e.mergerCashCurrency.value))
  }

  /** The terms each event type may and must carry. */
  predicate TermsByType(e: Event) {
    match e.eventType
    case Split | ReverseSplit =>
      && PositiveAmount(e.corporateActionRatio) && NoTarget(e) && NoMergerTerms(e)
      && e.costBasisAllocationRatio.None? && e.subscriptionAmount.None? && NoCashInLieu(e)
    case Merger =>
      && PositiveAmount(e.corporateActionRatio) && MergerTerms(e)
      && e.costBasisAllocationRatio.None? && e.subscriptionAmount.None? && NoCashInLieu(e)
    case SpinOff =>
      && PositiveAmount(e.corporateActionRatio) && Named(e.targetInstrumentCode, e.targetInstrumentName)
      && SameCurrencyTarget(e) && NoMergerTerms(e)
      && e.costBasisAllocationRatio.Some? && 0.0 <= e.costBasisAllocationRatio.value <= 1.0
      && e.subscriptionAmount.None? && NoCashInLieu(e)
    case RightsSubscription =>
      && PositiveAmount(e.corporateActionRatio) && SameCurrencyTarget(e) && NoMergerTerms(e)
      && e.costBasisAllocationRatio.None? && PositiveAmount(e.subscriptionAmount) && NoCashInLieu(e)
    case CashInLieu =>
      && !PositiveAmount(e.corporateActionRatio) && NoTarget(e) && NoMergerTerms(e)
      && e.costBasisAllocationRatio.None? && e.subscriptionAmount.None?
      && PositiveAmount(e.cashInLieuAmount) && PositiveAmount(e.cashInLieuQuantity)
    case _ =>
      && !PositiveAmount(e.corporateActionRatio) && NoTarget(e) && NoMergerTerms(e)
      && e.costBasisAllocationRatio.None? && e.subscriptionAmount.None? && NoCashInLieu(e)
  }

  lemma MergerTermsExactly(e: Event)
    ensures ValidMergerTerms(e) <==> MergerTerms(e)
  {
    hide ValidCurrency, Blank;
  }

  /** The fifteen rejecting clauses accept exactly the table. */
  lemma TermsExactly(e: Event)
    ensures !RejectsTerms(e) <==> TermsByType(e)
  {
    hide ValidCurrency, Blank, ValidMergerTerms, FxExactly;
    MergerTermsExactly(e);
  }

  // ----------------------------------------------------------------------- legs

  ghost predicate AreTwoParts(e: Event, s: Leg, t: Leg) {
    IsSource(e, s) && IsTarget(e, t) && QuantitiesMatch(e, s, t) && multiset(e.legs) == multiset{s, t}
  }

  ghost predicate AreFourParts(e: Event, currency: string, amount: real, s: Leg, t: Leg, c: Leg, a: Leg) {
    && IsSource(e, s) && IsTarget(e, t) && QuantitiesMatch(e, s, t)
    && IsCashPart(c, Cash, currency, amount) && IsCashPart(a, Adjustment, currency, -amount)
    && multiset(e.legs) == multiset{s, t, c, a}
  }

  /** Up to order: one source leg, one target leg, and with cash terms one cash leg and its offset. */
  ghost predicate MergerLegShape(e: Event) {
    match (e.mergerCashAmount, e.mergerCashCurrency)
    case (None, None) => exists s, t :: AreTwoParts(e, s, t)
    case (Some(amount), Some(currency)) => exists s, t, c, a :: AreFourParts(e, currency, amount, s, t, c, a)
    case _ => false
  }

  lemma OneElement(s: seq<Leg>, x: Leg)
    requires multiset(s) == multiset{x}
    ensures s == [x]
  {
    assert |s| == |multiset(s)| == 1;
    assert s[0] in multiset(s);
  }

  lemma SameSize(small: multiset<Leg>, large: multiset<Leg>)
    requires small <= large && |small| == |large|
    ensures small == large
  {
    assert large == small + (large - small);
  }

  lemma TheOneSource(e: Event, s: Leg)
    requires IsSource(e, s) && multiset(e.legs)[s] == 1
    requires forall x: Leg :: x in multiset(e.legs) && IsSource(e, x) ==> x == s
    ensures Sources(e) == [s]
  {
    hide IsSource;
    var found := Sources(e);
    forall x: Leg
      ensures multiset(found)[x] == multiset{s}[x]
    {
      assert multiset(found)[x] == if IsSource(e, x) then multiset(e.legs)[x] else 0;
    }
    OneElement(found, s);
  }

  lemma TheOneTarget(e: Event, t: Leg)
    requires IsTarget(e, t) && multiset(e.legs)[t] == 1
    requires forall x: Leg :: x in multiset(e.legs) && IsTarget(e, x) ==> x == t
    ensures Targets(e) == [t]
  {
    hide IsTarget;
    var found := Targets(e);
    forall x: Leg
      ensures multiset(found)[x] == multiset{t}[x]
    {
      assert multiset(found)[x] == if IsTarget(e, x) then multiset(e.legs)[x] else 0;
    }
    OneElement(found, t);
  }

  lemma TheOneCashPart(legs: seq<Leg>, kind: LegKind, currency: string, amount: real, c: Leg)
    requires IsCashPart(c, kind, currency, amount) && multiset(legs)[c] == 1
    requires forall x: Leg :: x in multiset(legs) && IsCashPart(x, kind, currency, amount) ==> x == c
    ensures CashParts(legs, kind, currency, amount) == [c]
  {
    hide IsCashPart;
    var found := CashParts(legs, kind, currency, amount);
    forall x: Leg
      ensures multiset(found)[x] == multiset{c}[x]
    {
      assert multiset(found)[x] == if IsCashPart(x, kind, currency, amount) then multiset(legs)[x] else 0;
    }
    OneElement(found, c);
  }

  lemma ShapeOfStockMerger(e: Event)
    requires ValidMergerLegs(e) && e.mergerCashAmount.None? && e.mergerCashCurrency.None?
    ensures MergerLegShape(e)
  {
    hide InstrumentMatches, QuantitiesMatch;
    var s, t := Sources(e)[0], Targets(e)[0];
    assert s in multiset(e.legs) && t in multiset(e.legs);
    SameSize(multiset{s, t}, multiset(e.legs));
    assert AreTwoParts(e, s, t);
  }

  lemma ShapeOfCashMerger(e: Event)
    requires ValidMergerLegs(e) && e.mergerCashAmount.Some? && e.mergerCashCurrency.Some?
    ensures MergerLegShape(e)
  {
    hide InstrumentMatches, QuantitiesMatch;
    var amount, currency := e.mergerCashAmount.value, e.mergerCashCurrency.value;
    var s, t := Sources(e)[0], Targets(e)[0];
    var c, a := CashParts(e.legs, Cash, currency, amount)[0], CashParts(e.legs, Adjustment, currency, -amount)[0];
    assert s in multiset(e.legs) && t in multiset(e.legs) && c in multiset(e.legs) && a in multiset(e.legs);
    assert s != t && s != c && s != a && t != c && t != a && c != a;
    SameSize(multiset{s, t, c, a}, multiset(e.legs));
    assert AreFourParts(e, currency, amount, s, t, c, a);
  }

  /** No leg plays two parts. */
  lemma PartsExclude(e: Event, x: Leg, currency: string, amount: real)
    ensures !(IsSource(e, x) && IsTarget(e, x))
    ensures IsSource(e, x) || IsTarget(e, x) ==>
              !IsCashPart(x, Cash, currency, amount) && !IsCashPart(x, Adjustment, currency, -amount)
    ensures !(IsCashPart(x, Cash, currency, amount) && IsCashPart(x, Adjustment, currency, -amount))
  {
  }

  lemma TwoPartsFound(e: Event, s: Leg, t: Leg)
    requires AreTwoParts(e, s, t)
    ensures IsSource(e, s) && IsTarget(e, t) && QuantitiesMatch(e, s, t)
    ensures Sources(e) == [s] && Targets(e) == [t] && |e.legs| == 2
  {
    hide IsSource, IsTarget, IsCashPart, QuantitiesMatch;
    PartsExclude(e, s, "", 0.0);
    PartsExclude(e, t, "", 0.0);
    TheOneSource(e, s);
    TheOneTarget(e, t);
    assert |e.legs| == |multiset(e.legs)|;
  }

  lemma FourMembers(legs: seq<Leg>, s: Leg, t: Leg, c: Leg, a: Leg)
    requires multiset(legs) == multiset{s, t, c, a}
    requires s != t && s != c && s != a && t != c && t != a && c != a
    ensures |legs| == 4
    ensures multiset(legs)[s] == 1 && multiset(legs)[t] == 1 && multiset(legs)[c] == 1 && multiset(legs)[a] == 1
    ensures forall x: Leg :: x in multiset(legs) ==> x == s || x == t || x == c || x == a
  {
    assert |legs| == |multiset(legs)|;
  }

  lemma FourPartsFound(e: Event, currency: string, amount: real, s: Leg, t: Leg, c: Leg, a: Leg)
    requires AreFourParts(e, currency, amount, s, t, c, a)
    ensures IsSource(e, s) && IsTarget(e, t) && QuantitiesMatch(e, s, t)
    ensures Sources(e) == [s] && Targets(e) == [t] && |e.legs| == 4
    ensures CashParts(e.legs, Cash, currency, amount) == [c] && CashParts(e.legs, Adjustment, currency, -amount) == [a]
  {
    hide IsSource, IsTarget, IsCashPart, QuantitiesMatch, Sources, Targets, CashParts;
    PartsExclude(e, s, currency, amount);
    PartsExclude(e, t, currency, amount);
    PartsExclude(e, c, currency, amount);
    PartsExclude(e, a, currency, amount);
    FourMembers(e.legs, s, t, c, a);
    TheOneSource(e, s);
    TheOneTarget(e, t);
    TheOneCashPart(e.legs, Cash, currency, amount, c);
    TheOneCashPart(e.legs, Adjustment, currency, -amount, a);
  }

  lemma StockMergerOfShape(e: Event)
    requires MergerLegShape(e) && NoAmounts(e) && e.targetCurrency.Some? && e.mergerCashAmount.None?
    ensures ValidMergerLegs(e)
  {
    hide AreTwoParts, QuantitiesMatch, NoAmounts, Sources, Targets, CashParts;
    var s, t :| AreTwoParts(e, s, t);
    TwoPartsFound(e, s, t);
  }

  lemma CashMergerOfShape(e: Event)
    requires MergerLegShape(e) && NoAmounts(e) && e.targetCurrency.Some? && e.mergerCashAmount.Some?
    ensures ValidMergerLegs(e)
  {
    hide AreFourParts, QuantitiesMatch, NoAmounts, Sources, Targets, CashParts;
    var amount, currency := e.mergerCashAmount.value, e.mergerCashCurrency.value;
    var s, t, c, a :| AreFourParts(e, currency, amount, s, t, c, a);
    FourPartsFound(e, currency, amount, s, t, c, a);
  }

  /** The counting clauses accept exactly the leg lists of that shape. */
  lemma MergerLegsExactly(e: Event)
    ensures ValidMergerLegs(e) <==> NoAmounts(e) && e.targetCurrency.Some? && MergerLegShape(e)
  {
    if ValidMergerLegs(e) {
      if e.mergerCashAmount.None? {
        ShapeOfStockMerger(e);
      } else {
        ShapeOfCashMerger(e);
      }
    }
    if NoAmounts(e) && e.targetCurrency.Some? && MergerLegShape(e) {
      if e.mergerCashAmount.None? {
        StockMergerOfShape(e);
      } else {
        CashMergerOfShape(e);
      }
    }
  }

  /** Everything an accepted merger is. */
  lemma AcceptedMerger(e: Event)
    requires Accepted(e) && e.eventType.Merger?
    ensures NoAmounts(e) && MergerTerms(e) && MergerLegShape(e)
    ensures PositiveAmount(e.corporateActionRatio)
  {
    hide MergerTerms, MergerLegShape, ValidMergerLegs, NoAmounts, RejectsTerms, ValidHeader, ValidLegs, WithinTolerance;
    TermsExactly(e);
    MergerLegsExactly(e);
  }

  lemma NotBlank(text: string)
    requires text != [] && !IsWhitespace(text[0])
    ensures !Blank(text)
  {
    assert text[0] in text;
  }

  lemma Yen()
    ensures ValidCurrency("JPY")
  {
  }

  lemma TwoLegs(a: Leg, b: Leg)
    requires a.currency == b.currency
    ensures Balance([a, b], a.currency) == a.signedAmount + b.signedAmount
  {
    assert Balance([], a.currency) == 0.0;
    assert [a][..0] == [];
    assert Balance([a], a.currency) == a.signedAmount;
    assert [a, b][..1] == [a];
  }

  const SHARES := Leg("s", Security, 5.0, "JPY", Some("1301"), None, Some(1.0), "shares")
  const PAID := Leg("c", Cash, -5.0, "JPY", None, None, None, "paid")
  const PURCHASE := Event(
    "e", 1, Buy, Some(Day(0)), None, "1301", "", "JPY", Some(1.0), Some(5.0), 5.0, 0.0, 0.0, 5.0, Balanced, false, "buy",
    Some(-1.0), None, None, None, None, None, None, None, None, None, None, None, None, [SHARES, PAID])

  lemma PurchaseHeader()
    ensures ValidHeader(PURCHASE) && TermsByType(PURCHASE)
  {
    hide Blank, ValidCurrency;
    Yen();
    NotBlankSamples();
  }

  lemma PurchaseLegs()
    ensures ValidLegs(PURCHASE, [SHARES, PAID])
  {
    hide Blank, ValidCurrency;
    Yen();
    NotBlankSamples();
    assert SHARES.id[0] != PAID.id[0];
  }

  lemma PurchaseBalances()
    ensures WithinTolerance([SHARES, PAID]) && Has([SHARES, PAID], Security, true) && Has([SHARES, PAID], Cash, false)
  {
    hide Balance;
    TwoLegs(SHARES, PAID);
    assert SHARES in [SHARES, PAID] && PAID in [SHARES, PAID];
  }

  /** An accepted purchase may carry a corporate-action ratio, as long as it is not positive. */
  lemma NegativeRatioIsAccepted()
    ensures Accepted(PURCHASE) && PURCHASE.eventType.Buy? && PURCHASE.corporateActionRatio == Some(-1.0)
  {
    hide ValidHeader, RejectsTerms, TermsByType, ValidLegs, WithinTolerance, Has;
    PurchaseHeader();
    TermsExactly(PURCHASE);
    PurchaseLegs();
    PurchaseBalances();
  }

  lemma NotBlankSamples()
    ensures !Blank("e") && !Blank("buy") && !Blank("s") && !Blank("c") && !Blank("shares") && !Blank("paid")
  {
    NotBlank("e");
    NotBlank("buy");
    NotBlank("s");
    NotBlank("c");
    NotBlank("shares");
    NotBlank("paid");
  }
}
