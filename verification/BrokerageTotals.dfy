/** Totals per currency over a history of events, and what the validator guarantees about them. */
module BrokerageTotals {
  import opened Wrappers
  import opened BrokerageEvents
  import opened BrokerageMergers

  datatype Totals = Totals(buyGross: real, sellGross: real, dividendGross: real, fees: real, taxes: real,
                           deposits: real, withdrawals: real, netCashMovement: real)
  {
    function Plus(other: Totals): Totals {
      Totals(buyGross + other.buyGross, sellGross + other.sellGross, dividendGross + other.dividendGross,
             fees + other.fees, taxes + other.taxes, deposits + other.deposits, withdrawals + other.withdrawals,
             netCashMovement + other.netCashMovement)
    }
  }

  const ZERO := Totals(0.0, 0.0, 0.0, 0.0, 0.0, 0.0, 0.0, 0.0)

  function If(condition: bool, amount: real): real {
    if condition then amount else 0.0
  }

  // --------------------------------------------------------------- the definition

  function CashIn(legs: seq<Leg>, currency: string): real {
    if legs == [] then 0.0
    else
      var last := legs[|legs| - 1];
      CashIn(legs[..|legs| - 1], currency) + If(last.kind == Cash && last.currency == currency, last.signedAmount)
  }

  /** The legs that are not cash. */
  function OtherIn(legs: seq<Leg>, currency: string): real {
    if legs == [] then 0.0
    else
      var last := legs[|legs| - 1];
      OtherIn(legs[..|legs| - 1], currency) + If(last.kind != Cash && last.currency == currency, last.signedAmount)
  }

  /** What one event adds in its own currency. */
  function Amounts(e: Event): Totals {
    var t := e.eventType;
    Totals(If(t.Buy? || t.RightsSubscription?, e.grossAmount),
           If(t.Sell? || t.CashInLieu?, e.grossAmount),
           If(t.Dividend?, e.grossAmount),
           If(t.Fee? && e.feeAmount == 0.0, e.grossAmount) + e.feeAmount,
           If(t.Tax? && e.taxAmount == 0.0, e.grossAmount) + e.taxAmount,
           If(t.Deposit?, e.settlementAmount),
           If(t.Withdrawal?, e.settlementAmount),
           0.0)
  }

  function Share(e: Event, currency: string): Totals {
    (if e.currency == currency then Amounts(e) else ZERO).Plus(ZERO.(netCashMovement := CashIn(e.legs, currency)))
  }

  function TotalsIn(events: seq<Event>, currency: string): Totals {
    if events == [] then ZERO
    else TotalsIn(events[..|events| - 1], currency).Plus(Share(events[|events| - 1], currency))
  }

  predicate HasCashIn(legs: seq<Leg>, currency: string) {
    exists leg <- legs :: leg.kind == Cash && leg.currency == currency
  }

  predicate Mentions(e: Event, currency: string) {
    e.currency == currency || HasCashIn(e.legs, currency)
  }

  predicate Mentioned(events: seq<Event>, currency: string) {
    exists e <- events :: Mentions(e, currency)
  }

  ghost predicate TotalsOf(events: seq<Event>, totals: map<string, Totals>) {
    && (forall c :: c in totals <==> Mentioned(events, c))
    && (forall c :: c in totals ==> totals[c] == TotalsIn(events, c))
  }

  // ---------------------------------------------------------------- calculate_totals

  /** The total of `events` and of `e` with only the given legs of it. */
  function PartTotal(events: seq<Event>, e: Event, legs: seq<Leg>, currency: string): Totals {
    TotalsIn(events, currency).Plus(
      (if e.currency == currency then Amounts(e) else ZERO).Plus(ZERO.(netCashMovement := CashIn(legs, currency))))
  }

  /** The totals while the cash legs of `e` are being added. */
  ghost predicate Partway(events: seq<Event>, e: Event, legs: seq<Leg>, totals: map<string, Totals>) {
    && (forall c :: c in totals <==> c == e.currency || HasCashIn(legs, c) || Mentioned(events, c))
    && (forall c :: c in totals ==> totals[c] == PartTotal(events, e, legs, c))
  }

  lemma {:induction false} NothingMentioned(events: seq<Event>, currency: string)
    requires !Mentioned(events, currency)
    ensures TotalsIn(events, currency) == ZERO
  {
    if events != [] {
      var last := events[|events| - 1];
      NothingMentioned(events[..|events| - 1], currency);
      assert !Mentions(last, currency);
      NoCash(last.legs, currency);
    }
  }

  lemma {:induction false} NoCash(legs: seq<Leg>, currency: string)
    requires !HasCashIn(legs, currency)
    ensures CashIn(legs, currency) == 0.0
  {
    if legs != [] {
      NoCash(legs[..|legs| - 1], currency);
      assert legs[|legs| - 1] in legs;
    }
  }

  lemma TotalsGrow(events: seq<Event>, i: nat, currency: string)
    requires i < |events|
    ensures TotalsIn(events[..i + 1], currency) == PartTotal(events[..i], events[i], events[i].legs, currency)
    ensures Mentioned(events[..i + 1], currency) <==> Mentions(events[i], currency) || Mentioned(events[..i], currency)
  {
    hide Amounts, CashIn, Mentions, Totals.Plus;
    assert events[..i + 1] == events[..i] + [events[i]];
    assert events[..i + 1][..i] == events[..i];
  }

  lemma PartTotalStarts(events: seq<Event>, e: Event, currency: string)
    ensures PartTotal(events, e, [], currency) ==
            if e.currency == currency then TotalsIn(events, currency).Plus(Amounts(e)) else TotalsIn(events, currency)
    ensures !HasCashIn([], currency)
  {
    hide Amounts;
  }

  lemma PartTotalGrows(events: seq<Event>, e: Event, i: nat, currency: string)
    requires i < |e.legs|
    ensures var before, leg := PartTotal(events, e, e.legs[..i], currency), e.legs[i];
            PartTotal(events, e, e.legs[..i + 1], currency) ==
            if leg.kind == Cash && leg.currency == currency
            then before.(netCashMovement := before.netCashMovement + leg.signedAmount) else before
    ensures HasCashIn(e.legs[..i + 1], currency) <==>
              HasCashIn(e.legs[..i], currency) || (e.legs[i].kind == Cash && e.legs[i].currency == currency)
  {
    hide Amounts;
    assert e.legs[..i + 1] == e.legs[..i] + [e.legs[i]];
    assert e.legs[..i + 1][..i] == e.legs[..i];
  }

  lemma PartTotalOfUnseen(events: seq<Event>, e: Event, legs: seq<Leg>, currency: string)
    requires e.currency != currency && !HasCashIn(legs, currency) && !Mentioned(events, currency)
    ensures PartTotal(events, e, legs, currency) == ZERO
  {
    hide Amounts;
    NothingMentioned(events, currency);
    NoCash(legs, currency);
  }

  lemma PartwayDone(events: seq<Event>, i: nat, totals: map<string, Totals>)
    requires i < |events| && Partway(events[..i], events[i], events[i].legs, totals)
    ensures TotalsOf(events[..i + 1], totals)
  {
    hide PartTotal, TotalsIn, HasCashIn, Mentioned;
    forall c
      ensures c in totals <==> Mentioned(events[..i + 1], c)
      ensures c in totals ==> totals[c] == TotalsIn(events[..i + 1], c)
    {
      TotalsGrow(events, i, c);
    }
  }

  lemma PartwayStarts(events: seq<Event>, e: Event, totals: map<string, Totals>)
    requires TotalsOf(events, totals)
    ensures var own := if e.currency in totals then totals[e.currency] else ZERO;
            Partway(events, e, [], totals[e.currency := own.Plus(Amounts(e))])
  {
    hide PartTotal, TotalsIn, HasCashIn, Mentioned, Amounts, Totals.Plus;
    if e.currency !in totals {
      NothingMentioned(events, e.currency);
    }
    var own := if e.currency in totals then totals[e.currency] else ZERO;
    var started := totals[e.currency := own.Plus(Amounts(e))];
    forall c
      ensures c in started <==> c == e.currency || HasCashIn([], c) || Mentioned(events, c)
      ensures c in started ==> started[c] == PartTotal(events, e, [], c)
    {
      PartTotalStarts(events, e, c);
    }
  }

  function AddLeg(totals: map<string, Totals>, leg: Leg): map<string, Totals> {
    if leg.kind != Cash then totals
    else
      var own := if leg.currency in totals then totals[leg.currency] else ZERO;
      totals[leg.currency := own.(netCashMovement := own.netCashMovement + leg.signedAmount)]
  }

  lemma PartwayLeg(events: seq<Event>, e: Event, i: nat, totals: map<string, Totals>)
    requires i < |e.legs| && Partway(events, e, e.legs[..i], totals)
    ensures Partway(events, e, e.legs[..i + 1], AddLeg(totals, e.legs[i]))
  {
    hide PartTotal, TotalsIn, HasCashIn, Mentioned, Amounts, Totals.Plus;
    var leg := e.legs[i];
    if leg.currency !in totals {
      PartTotalOfUnseen(events, e, e.legs[..i], leg.currency);
    }
    var added := AddLeg(totals, leg);
    forall c
      ensures c in added <==> c == e.currency || HasCashIn(e.legs[..i + 1], c) || Mentioned(events, c)
      ensures c in added ==> added[c] == PartTotal(events, e, e.legs[..i + 1], c)
    {
      PartTotalGrows(events, e, i, c);
    }
  }

  method CalculateTotals(events: seq<Event>) returns (totals: map<string, Totals>)
    ensures TotalsOf(events, totals)
  {
    hide Partway, TotalsOf;
    totals := map[];
    assert TotalsOf([], totals) by {
      NoTotals();
    }
    for i := 0 to |events|
      invariant TotalsOf(events[..i], totals)
    {
      var e := events[i];
      PartwayStarts(events[..i], e, totals);
      ghost var before := totals;
      var total := if e.currency in totals then totals[e.currency] else ZERO;
      match e.eventType {
        case Buy | RightsSubscription => total := total.(buyGross := total.buyGross + e.grossAmount);
        case Sell | CashInLieu => total := total.(sellGross := total.sellGross + e.grossAmount);
        case Dividend => total := total.(dividendGross := total.dividendGross + e.grossAmount);
        case Fee =>
          if e.feeAmount == 0.0 {
            total := total.(fees := total.fees + e.grossAmount);
          }
        case Tax =>
          if e.taxAmount == 0.0 {
            total := total.(taxes := total.taxes + e.grossAmount);
          }
        case Deposit => total := total.(deposits := total.deposits + e.settlementAmount);
        case Withdrawal => total := total.(withdrawals := total.withdrawals + e.settlementAmount);
        case _ =>
      }
      total := total.(fees := total.fees + e.feeAmount, taxes := total.taxes + e.taxAmount);
      totals := totals[e.currency := total];
      for j := 0 to |e.legs|
        invariant Partway(events[..i], e, e.legs[..j], totals)
      {
        var leg := e.legs[j];
        PartwayLeg(events[..i], e, j, totals);
        if leg.kind == Cash {
          var own := if leg.currency in totals then totals[leg.currency] else ZERO;
          totals := totals[leg.currency := own.(netCashMovement := own.netCashMovement + leg.signedAmount)];
        }
      }
      assert e.legs[..|e.legs|] == e.legs;
      PartwayDone(events, i, totals);
    }
    assert events[..|events|] == events;
  }

  lemma NoTotals()
    ensures TotalsOf([], map[])
  {
  }

  // ------------------------------------------------------------------- main results

  /** The totals of a concatenation are the pointwise sum of the totals. */
  lemma {:induction false} TotalsOfConcatenation(a: seq<Event>, b: seq<Event>, currency: string)
    ensures TotalsIn(a + b, currency) == TotalsIn(a, currency).Plus(TotalsIn(b, currency))
  {
    hide Share, Totals.Plus;
    if b == [] {
      assert a + b == a;
      PlusZero(TotalsIn(a, currency));
    } else {
      var front := b[..|b| - 1];
      TotalsOfConcatenation(a, front, currency);
      assert (a + b)[..|a + b| - 1] == a + front;
      PlusAssociates(TotalsIn(a, currency), TotalsIn(front, currency), Share(b[|b| - 1], currency));
    }
  }

  lemma PlusZero(x: Totals)
    ensures x.Plus(ZERO) == x
  {
  }

  lemma PlusAssociates(x: Totals, y: Totals, z: Totals)
    ensures x.Plus(y).Plus(z) == x.Plus(y.Plus(z))
  {
  }

  datatype Figure = Gross | FeeOf | TaxOf | Settlement | UnstatedFee | UnstatedTax

  /** One amount of an event; the gross amount of a fee or tax event counts when its own amount is not stated. */
  function Read(e: Event, figure: Figure): real {
    match figure
    case Gross => e.grossAmount
    case FeeOf => e.feeAmount
    case TaxOf => e.taxAmount
    case Settlement => e.settlementAmount
    case UnstatedFee => if e.feeAmount == 0.0 then e.grossAmount else 0.0
    case UnstatedTax => if e.taxAmount == 0.0 then e.grossAmount else 0.0
  }

  /** The sum of one figure over the events in a currency that are of the given types, or of any type. */
  function SumOver(events: seq<Event>, currency: string, types: Option<set<EventType>>, figure: Figure): real {
    if events == [] then 0.0
    else
      var last := events[|events| - 1];
      var counts := last.currency == currency && (types.None? || last.eventType in types.value);
      SumOver(events[..|events| - 1], currency, types, figure) + (if counts then Read(last, figure) else 0.0)
  }

  lemma {:induction false} FeesAndTaxesAreSums(events: seq<Event>, currency: string)
    ensures var totals := TotalsIn(events, currency);
            && totals.fees == SumOver(events, currency, None, FeeOf) + SumOver(events, currency, Some({Fee}), UnstatedFee)
            && totals.taxes == SumOver(events, currency, None, TaxOf) + SumOver(events, currency, Some({Tax}), UnstatedTax)
  {
    hide Share;
    if events != [] {
      FeesAndTaxesAreSums(events[..|events| - 1], currency);
      ShareByType(events[|events| - 1], currency);
    }
  }

  lemma {:induction false} AmountsAreSums(events: seq<Event>, currency: string)
    ensures var totals := TotalsIn(events, currency);
            && totals.buyGross == SumOver(events, currency, Some({Buy, RightsSubscription}), Gross)
            && totals.sellGross == SumOver(events, currency, Some({Sell, CashInLieu}), Gross)
            && totals.dividendGross == SumOver(events, currency, Some({Dividend}), Gross)
            && totals.deposits == SumOver(events, currency, Some({Deposit}), Settlement)
            && totals.withdrawals == SumOver(events, currency, Some({Withdrawal}), Settlement)
  {
    hide Share;
    if events != [] {
      AmountsAreSums(events[..|events| - 1], currency);
      ShareByType(events[|events| - 1], currency);
    }
  }

  /** Each total is the sum of one figure over the events of certain types. */
  lemma TotalsAreSums(events: seq<Event>, currency: string)
    ensures var totals := TotalsIn(events, currency);
            && totals.buyGross == SumOver(events, currency, Some({Buy, RightsSubscription}), Gross)
            && totals.sellGross == SumOver(events, currency, Some({Sell, CashInLieu}), Gross)
            && totals.dividendGross == SumOver(events, currency, Some({Dividend}), Gross)
            && totals.fees == SumOver(events, currency, None, FeeOf) + SumOver(events, currency, Some({Fee}), UnstatedFee)
            && totals.taxes == SumOver(events, currency, None, TaxOf) + SumOver(events, currency, Some({Tax}), UnstatedTax)
            && totals.deposits == SumOver(events, currency, Some({Deposit}), Settlement)
            && totals.withdrawals == SumOver(events, currency, Some({Withdrawal}), Settlement)
            && totals.netCashMovement == CashOver(events, currency)
  {
    hide TotalsIn, SumOver;
    AmountsAreSums(events, currency);
    FeesAndTaxesAreSums(events, currency);
    CashIsSummed(events, currency);
  }

  /** The sum of all cash legs in a currency, whatever the currencies and types of the events. */
  function CashOver(events: seq<Event>, currency: string): real {
    if events == [] then 0.0
    else CashOver(events[..|events| - 1], currency) + CashIn(events[|events| - 1].legs, currency)
  }

  lemma {:induction false} CashIsSummed(events: seq<Event>, currency: string)
    ensures TotalsIn(events, currency).netCashMovement == CashOver(events, currency)
  {
    hide Share, CashIn;
    if events != [] {
      CashIsSummed(events[..|events| - 1], currency);
      ShareMovesCash(events[|events| - 1], currency);
    }
  }

  lemma ShareByType(e: Event, currency: string)
    ensures var share, t := Share(e, currency), e.eventType;
            && (e.currency != currency ==> share == ZERO.(netCashMovement := share.netCashMovement))
            && (e.currency == currency ==>
                  && share.buyGross == (if t in {Buy, RightsSubscription} then e.grossAmount else 0.0)
                  && share.sellGross == (if t in {Sell, CashInLieu} then e.grossAmount else 0.0)
                  && share.dividendGross == (if t in {Dividend} then e.grossAmount else 0.0)
                  && share.fees == e.feeAmount + (if t in {Fee} && e.feeAmount == 0.0 then e.grossAmount else 0.0)
                  && share.taxes == e.taxAmount + (if t in {Tax} && e.taxAmount == 0.0 then e.grossAmount else 0.0)
                  && share.deposits == (if t in {Deposit} then e.settlementAmount else 0.0)
                  && share.withdrawals == (if t in {Withdrawal} then e.settlementAmount else 0.0))
  {
    hide CashIn;
  }

  lemma ShareMovesCash(e: Event, currency: string)
    ensures Share(e, currency).netCashMovement == CashIn(e.legs, currency)
  {
    hide If;
  }

  function OtherTotal(events: seq<Event>, currency: string): real {
    if events == [] then 0.0
    else OtherTotal(events[..|events| - 1], currency) + OtherIn(events[|events| - 1].legs, currency)
  }

  predicate HasLegsIn(e: Event, currency: string) {
    exists leg <- e.legs :: leg.currency == currency
  }

  function EventsWithLegsIn(events: seq<Event>, currency: string): (n: nat)
    ensures n <= |events|
  {
    if events == [] then 0
    else EventsWithLegsIn(events[..|events| - 1], currency) + if HasLegsIn(events[|events| - 1], currency) then 1 else 0
  }

  lemma {:induction false} CashAndOtherBalance(legs: seq<Leg>, currency: string)
    ensures CashIn(legs, currency) + OtherIn(legs, currency) == Balance(legs, currency)
  {
    if legs != [] {
      CashAndOtherBalance(legs[..|legs| - 1], currency);
    }
  }

  lemma AcceptedEventConservesCash(e: Event, currency: string)
    requires Accepted(e)
    ensures Abs(CashIn(e.legs, currency) + OtherIn(e.legs, currency)) <= if HasLegsIn(e, currency) then BALANCE_TOLERANCE else 0.0
  {
    hide ValidHeader, RejectsTerms, SemanticLegs, ValidLegs;
    CashAndOtherBalance(e.legs, currency);
    if !HasLegsIn(e, currency) {
      NoLegsNoBalance(e.legs, currency);
    }
  }

  /** For every history of accepted events and every currency, the net cash movement offsets all other legs,
      within the tolerance for each event with legs in the currency. */
  lemma {:induction false} CashIsConserved(events: seq<Event>, currency: string)
    requires forall e <- events :: Accepted(e)
    ensures Abs(TotalsIn(events, currency).netCashMovement + OtherTotal(events, currency))
            <= BALANCE_TOLERANCE * EventsWithLegsIn(events, currency) as real
  {
    hide Accepted, HasLegsIn, Share, CashIn, OtherIn;
    if events != [] {
      var front, last := events[..|events| - 1], events[|events| - 1];
      CashIsConserved(front, currency);
      AcceptedEventConservesCash(last, currency);
      ShareMovesCash(last, currency);
      assert EventsWithLegsIn(events, currency) as real
             == EventsWithLegsIn(front, currency) as real + (if HasLegsIn(last, currency) then 1.0 else 0.0);
    }
  }

  predicate NonNegative(t: Totals) {
    t.buyGross >= 0.0 && t.sellGross >= 0.0 && t.dividendGross >= 0.0 && t.fees >= 0.0 && t.taxes >= 0.0
    && t.deposits >= 0.0 && t.withdrawals >= 0.0
  }

  /** What the validator guarantees about an event's share: no figure but the net cash is negative, a fee or tax is
      counted once, the amounts of a corporate action are those of its terms, and the others have none. */
  lemma AcceptedShare(e: Event)
    requires Accepted(e)
    ensures var share := Share(e, e.currency);
            && NonNegative(share)
            && (e.eventType.RightsSubscription? ==>
                  e.subscriptionAmount == Some(share.buyGross) && share.buyGross == e.settlementAmount > 0.0 == share.sellGross)
            && (e.eventType.CashInLieu? ==>
                  e.cashInLieuAmount == Some(share.sellGross) && share.sellGross == e.settlementAmount > 0.0 == share.buyGross)
            && (e.eventType.Fee? ==> share.fees == if e.feeAmount > 0.0 then e.feeAmount else e.grossAmount)
            && (e.eventType.Tax? ==> share.taxes == if e.taxAmount > 0.0 then e.taxAmount else e.grossAmount)
            && (e.eventType.Split? || e.eventType.ReverseSplit? || e.eventType.SpinOff? || e.eventType.Merger? ==>
                  share == ZERO.(netCashMovement := share.netCashMovement))
  {
    hide RejectsTerms, ValidLegs, WithinTolerance, Has, Matching, CashIn, ValidMergerLegs, Blank, ValidCurrency;
    TermsExactly(e);
    if e.eventType.Merger? {
      MergerLegsExactly(e);
    }
  }

  lemma ShareElsewhere(e: Event, currency: string)
    requires e.currency != currency
    ensures NonNegative(Share(e, currency))
  {
  }

  /** Over every history of accepted events no total but the net cash movement is negative. */
  lemma {:induction false} HistoryTotalsAreNonNegative(events: seq<Event>, currency: string)
    requires forall e <- events :: Accepted(e)
    ensures NonNegative(TotalsIn(events, currency))
    ensures var t := TotalsIn(events, currency);
            && 0.0 <= t.buyGross && 0.0 <= t.sellGross && 0.0 <= t.dividendGross && 0.0 <= t.fees && 0.0 <= t.taxes
            && 0.0 <= t.deposits && 0.0 <= t.withdrawals
  {
    hide Accepted, Share;
    if events != [] {
      var last := events[|events| - 1];
      HistoryTotalsAreNonNegative(events[..|events| - 1], currency);
      if last.currency == currency {
        AcceptedShare(last);
      } else {
        ShareElsewhere(last, currency);
      }
    }
  }

  function CashTerms(e: Event, currency: string): real {
    if e.mergerCashAmount.Some? && e.mergerCashCurrency == Some(currency) then e.mergerCashAmount.value else 0.0
  }

  /** An accepted merger adds nothing to the totals but its cash leg, and so moves in each currency
      exactly the cash of its terms, within the tolerance. */
  lemma MergerTotals(e: Event, currency: string)
    requires Accepted(e) && e.eventType.Merger?
    ensures Share(e, currency) == ZERO.(netCashMovement := CashIn(e.legs, currency))
    ensures Abs(CashIn(e.legs, currency) - CashTerms(e, currency)) <= BALANCE_TOLERANCE
  {
    hide Accepted;
    AcceptedMerger(e);
    MergerCash(e, currency);
  }

  lemma {:induction false} CashOfPermutation(a: seq<Leg>, b: seq<Leg>, currency: string)
    requires multiset(a) == multiset(b)
    ensures CashIn(a, currency) == CashIn(b, currency)
    decreases |a|
  {
    assert |a| == |multiset(a)| == |multiset(b)| == |b|;
    if a != [] {
      var front, last := a[..|a| - 1], a[|a| - 1];
      assert a == front + [last];
      assert last in multiset(b);
      var i :| 0 <= i < |b| && b[i] == last;
      var rest := b[..i] + b[i + 1..];
      assert b == b[..i] + [last] + b[i + 1..];
      assert multiset(rest) == multiset(b) - multiset{last};
      assert multiset(front) == multiset(a) - multiset{last};
      CashOfPermutation(front, rest, currency);
      CashOfSplit(b[..i], last, b[i + 1..], currency);
    }
  }

  lemma {:induction false} CashOfSplit(a: seq<Leg>, leg: Leg, b: seq<Leg>, currency: string)
    ensures CashIn(a + [leg] + b, currency) ==
            CashIn(a + b, currency) + If(leg.kind == Cash && leg.currency == currency, leg.signedAmount)
  {
    if b == [] {
      assert a + [leg] + b == a + [leg];
      assert a + b == a;
    } else {
      var front := b[..|b| - 1];
      CashOfSplit(a, leg, front, currency);
      assert (a + [leg] + b)[..|a + [leg] + b| - 1] == a + [leg] + front;
      assert (a + b)[..|a + b| - 1] == a + front;
    }
  }

  lemma LastIsTheOnlyCash(legs: seq<Leg>, currency: string)
    requires legs != [] && forall i :: 0 <= i < |legs| - 1 ==> legs[i].kind != Cash
    ensures CashIn(legs, currency) == If(legs[|legs| - 1].kind == Cash && legs[|legs| - 1].currency == currency,
                                         legs[|legs| - 1].signedAmount)
  {
    NoCash(legs[..|legs| - 1], currency);
  }

  lemma TwoPartsCash(e: Event, s: Leg, t: Leg, currency: string)
    requires AreTwoParts(e, s, t)
    ensures CashIn(e.legs, currency) == 0.0
  {
    hide InstrumentMatches, QuantitiesMatch, CashIn;
    assert multiset([s, t]) == multiset{s, t};
    CashOfPermutation(e.legs, [s, t], currency);
    LastIsTheOnlyCash([s, t], currency);
  }

  lemma SameFour(s: Leg, t: Leg, c: Leg, a: Leg)
    ensures multiset([s, t, a, c]) == multiset{s, t, c, a}
  {
  }

  lemma FourPartsCash(e: Event, cashCurrency: string, amount: real, s: Leg, t: Leg, c: Leg, a: Leg, currency: string)
    requires AreFourParts(e, cashCurrency, amount, s, t, c, a)
    ensures CashIn(e.legs, currency) == If(cashCurrency == currency, c.signedAmount)
    ensures Abs(c.signedAmount - amount) <= BALANCE_TOLERANCE
  {
    hide InstrumentMatches, QuantitiesMatch, CashIn, HasCashIn;
    SameFour(s, t, c, a);
    CashOfPermutation(e.legs, [s, t, a, c], currency);
    LastIsTheOnlyCash([s, t, a, c], currency);
  }

  lemma MergerCash(e: Event, currency: string)
    requires MergerLegShape(e)
    ensures Abs(CashIn(e.legs, currency) - CashTerms(e, currency)) <= BALANCE_TOLERANCE
  {
    hide AreTwoParts, AreFourParts, CashIn;
    if e.mergerCashAmount.None? {
      var s, t :| AreTwoParts(e, s, t);
      TwoPartsCash(e, s, t, currency);
    } else {
      var amount, cashCurrency := e.mergerCashAmount.value, e.mergerCashCurrency.value;
      var s, t, c, a :| AreFourParts(e, cashCurrency, amount, s, t, c, a);
      FourPartsCash(e, cashCurrency, amount, s, t, c, a, currency);
    }
  }
}
