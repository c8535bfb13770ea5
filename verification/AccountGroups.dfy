/** Ordered account groups: every SQL UPDATE is a loop of single-row writes in an arbitrary order,
    and the table refuses a write that would repeat a position within a household. */
module AccountGroups {
  import opened Wrappers

  type Id = string
  type Household = string
  type AccountId = string

  datatype Row = Row(household: Household, name: string, sortOrder: nat)
  type Rows = map<Id, Row>

  datatype GroupError = InvalidInput | NotFound | Conflict

  const SHIFT := 1_000_000
  const MAX_GROUPS := 1_000
  const MAX_GROUP_ACCOUNTS := 10_000

  /** The rows of a household. */
  function Members(rows: Rows, h: Household): set<Id> {
    set id | id in rows && rows[id].household == h
  }

  ghost predicate UniquePositions(rows: Rows) {
    forall a, b :: a in rows && b in rows && a != b && rows[a].household == rows[b].household
                   ==> rows[a].sortOrder != rows[b].sortOrder
  }

  ghost predicate UniqueNames(rows: Rows) {
    forall a, b :: a in rows && b in rows && a != b && rows[a].household == rows[b].household
                   ==> rows[a].name != rows[b].name
  }

  /** Each household's groups, listed in order: position k holds the k-th group and there are no other positions. */
  type Orders = map<Household, seq<Id>>

  function OrderOf(orders: Orders, h: Household): seq<Id> {
    if h in orders then orders[h] else []
  }

  ghost predicate ListedAs(rows: Rows, h: Household, s: seq<Id>) {
    && (forall id :: id in Members(rows, h) ==> rows[id].sortOrder < |s| && s[rows[id].sortOrder] == id)
    && (forall k :: 0 <= k < |s| ==> s[k] in Members(rows, h) && rows[s[k]].sortOrder == k)
  }

  ghost predicate Listed(rows: Rows, orders: Orders) {
    forall h {:trigger OrderOf(orders, h)} :: ListedAs(rows, h, OrderOf(orders, h))
  }

  /** The rows an UPDATE with `sort_order > above` selects. */
  function Selected(rows: Rows, h: Household, above: int): set<Id> {
    set id | id in rows && rows[id].household == h && rows[id].sortOrder > above
  }

  /** No selected row, moved on its own, would land on another row of the household. */
  ghost predicate CollisionFree(rows: Rows, h: Household, above: int, delta: int) {
    forall a, b :: a in Selected(rows, h, above) && b in Members(rows, h) && a != b
                   ==> rows[a].sortOrder + delta != rows[b].sortOrder
  }

  ghost predicate StaysNatural(rows: Rows, h: Household, above: int, delta: int) {
    forall a :: a in Selected(rows, h, above) ==> rows[a].sortOrder + delta >= 0
  }

  /** `after` is `before` with every selected row moved by `delta`. */
  ghost predicate Shifted(before: Rows, after: Rows, h: Household, above: int, delta: int) {
    && after.Keys == before.Keys
    && (forall id :: id in before ==>
          && (id in Selected(before, h, above) ==>
                before[id].sortOrder + delta >= 0 && after[id] == before[id].(sortOrder := before[id].sortOrder + delta))
          && (id !in Selected(before, h, above) ==> after[id] == before[id]))
  }

  /** Only positions may differ. */
  ghost predicate SameDetails(before: Rows, after: Rows) {
    forall x :: x in after ==> x in before && after[x].name == before[x].name && after[x].household == before[x].household
  }

  function Without(s: seq<Id>, k: nat): seq<Id>
    requires k < |s|
  {
    s[..k] + s[k + 1..]
  }

  /** A list of accounts a group may be given: not too long, without repetition. */
  predicate ValidAccounts(list: seq<AccountId>) {
    |list| <= MAX_GROUP_ACCOUNTS && forall i, j :: 0 <= i < j < |list| ==> list[i] != list[j]
  }

  /** Every group has a member list without repetition, and nothing else has one. */
  ghost predicate MembersListed(rows: Rows, members: map<Id, seq<AccountId>>) {
    members.Keys == rows.Keys && forall id :: id in members ==> ValidAccounts(members[id])
  }

  lemma ListedIsUnique(rows: Rows, orders: Orders)
    requires Listed(rows, orders)
    ensures UniquePositions(rows)
  {
    forall a, b | a in rows && b in rows && a != b && rows[a].household == rows[b].household
      ensures rows[a].sortOrder != rows[b].sortOrder
    {
      assert ListedAs(rows, rows[a].household, OrderOf(orders, rows[a].household));
      assert a in Members(rows, rows[a].household) && b in Members(rows, rows[a].household);
    }
  }

  /** Households whose rows did not change keep their list. */
  lemma ListedElsewhere(before: Rows, after: Rows, orders: Orders, h: Household, s: seq<Id>)
    requires Listed(before, orders)
    requires forall id :: id in before && before[id].household != h ==> id in after && after[id] == before[id]
    requires forall id :: id in after && after[id].household != h ==> id in before && before[id].household != h
    requires ListedAs(after, h, s)
    ensures Listed(after, orders[h := s])
  {
    forall h' {:trigger OrderOf(orders[h := s], h')}
      ensures ListedAs(after, h', OrderOf(orders[h := s], h'))
    {
      if h' != h {
        assert ListedAs(before, h', OrderOf(orders, h'));
        assert Members(after, h') == Members(before, h');
      }
    }
  }

  lemma ListedAppend(rows: Rows, orders: Orders, h: Household, id: Id, name: string)
    requires Listed(rows, orders) && id !in rows
    ensures var s := OrderOf(orders, h);
            Listed(rows[id := Row(h, name, |s|)], orders[h := s + [id]])
  {
    var s := OrderOf(orders, h);
    var after := rows[id := Row(h, name, |s|)];
    assert ListedAs(rows, h, s);
    assert Members(after, h) == Members(rows, h) + {id};
    ListedElsewhere(rows, after, orders, h, s + [id]);
  }

  lemma ListedRename(rows: Rows, orders: Orders, id: Id, name: string)
    requires Listed(rows, orders) && id in rows
    ensures Listed(rows[id := rows[id].(name := name)], orders)
  {
    var after := rows[id := rows[id].(name := name)];
    forall h
      ensures ListedAs(after, h, OrderOf(orders, h))
    {
      assert ListedAs(rows, h, OrderOf(orders, h));
      assert Members(after, h) == Members(rows, h);
    }
  }

  // -------------------------------------------------------------- runs of row writes

  /** One row write: refused if the position is negative or taken in the row's household. */
  function WriteOne(rows: Rows, id: Id, position: int): Option<Rows>
    requires id in rows
  {
    if position >= 0 && forall b <- rows.Keys :: b != id && rows[b].household == rows[id].household ==> rows[b].sortOrder != position
    then Some(rows[id := rows[id].(sortOrder := position)]) else None
  }

  /** Moving the rows of a list by `delta`, one at a time in its order; None as soon as a write is refused. */
  function WriteAll(rows: Rows, order: seq<Id>, delta: int): Option<Rows> {
    if order == [] then Some(rows)
    else
      match WriteAll(rows, order[..|order| - 1], delta)
      case None => None
      case Some(mid) =>
        var id := order[|order| - 1];
        if id in mid then WriteOne(mid, id, mid[id].sortOrder + delta) else None
  }

  /** An order in which to write the rows of a set. */
  predicate IsOrder(order: seq<Id>, ids: set<Id>) {
    Distinct(order) && Elements(order) == ids
  }

  lemma {:induction false} SomeOrder(ids: set<Id>) returns (order: seq<Id>)
    ensures IsOrder(order, ids)
    decreases |ids|
  {
    if ids == {} {
      order := [];
    } else {
      var id :| id in ids;
      var rest := SomeOrder(ids - {id});
      assert id !in Elements(rest);
      order := rest + [id];
      assert Elements(order) == Elements(rest) + {id};
    }
  }

  lemma {:induction false} RefusedStaysRefused(rows: Rows, first: seq<Id>, more: seq<Id>, delta: int)
    requires WriteAll(rows, first, delta).None?
    ensures WriteAll(rows, first + more, delta).None?
  {
    if more == [] {
      assert first + more == first;
    } else {
      RefusedStaysRefused(rows, first, more[..|more| - 1], delta);
      assert (first + more)[..|first + more| - 1] == first + more[..|more| - 1];
    }
  }

  lemma OrderFrom(first: seq<Id>, ids: set<Id>) returns (order: seq<Id>)
    requires Distinct(first) && Elements(first) <= ids
    ensures IsOrder(order, ids) && first <= order
  {
    var rest := SomeOrder(ids - Elements(first));
    order := first + rest;
    forall i, j | 0 <= i < j < |order|
      ensures order[i] != order[j]
    {
      assert i < |first| ==> order[i] in Elements(first);
      assert j >= |first| ==> order[j] in Elements(rest);
    }
    assert Elements(order) == Elements(first) + Elements(rest);
  }

  /** The rows after moving those of `done` and no others. */
  ghost predicate Moved(before: Rows, after: Rows, done: set<Id>, delta: int) {
    && after.Keys == before.Keys
    && (forall x :: x in before && x !in done ==> after[x] == before[x])
    && (forall x :: x in before && x in done ==>
          before[x].sortOrder + delta >= 0 && after[x] == before[x].(sortOrder := before[x].sortOrder + delta))
  }

  /** A completed run has moved exactly its rows. */
  lemma {:induction false} RunMoves(rows: Rows, order: seq<Id>, delta: int)
    requires Distinct(order) && WriteAll(rows, order, delta).Some?
    ensures Moved(rows, WriteAll(rows, order, delta).value, Elements(order), delta)
  {
    if order != [] {
      var front, last := order[..|order| - 1], order[|order| - 1];
      RunMoves(rows, front, delta);
      assert last !in front;
      assert Elements(order) == Elements(front) + {last};
    }
  }

  lemma {:induction false} SafeRunsComplete(rows: Rows, h: Household, above: int, delta: int, order: seq<Id>)
    requires UniquePositions(rows) && CollisionFree(rows, h, above, delta) && StaysNatural(rows, h, above, delta)
    requires Distinct(order) && Elements(order) <= Selected(rows, h, above)
    ensures WriteAll(rows, order, delta).Some?
  {
    hide UniquePositions, CollisionFree, StaysNatural, Moved;
    if order != [] {
      var front, last := order[..|order| - 1], order[|order| - 1];
      assert Elements(front) <= Elements(order) && last in Elements(order) && last !in front;
      SafeRunsComplete(rows, h, above, delta, front);
      var mid := WriteAll(rows, front, delta).value;
      RunMoves(rows, front, delta);
      SafeWrite(rows, mid, h, above, delta, Elements(front), last);
    }
  }

  lemma SafeWrite(rows: Rows, mid: Rows, h: Household, above: int, delta: int, done: set<Id>, id: Id)
    requires UniquePositions(rows) && CollisionFree(rows, h, above, delta) && StaysNatural(rows, h, above, delta)
    requires done <= Selected(rows, h, above) && id in Selected(rows, h, above) && id !in done
    requires Moved(rows, mid, done, delta)
    ensures id in mid && WriteOne(mid, id, mid[id].sortOrder + delta).Some?
  {
    forall b | b in mid && b != id && mid[b].household == mid[id].household
      ensures mid[b].sortOrder != mid[id].sortOrder + delta
    {
      assert b in Members(rows, h);
    }
  }

  lemma FirstWriteRefused(rows: Rows, h: Household, above: int, delta: int, a: Id) returns (order: seq<Id>)
    requires a in Selected(rows, h, above)
    requires rows[a].sortOrder + delta < 0
             || exists b :: b in Members(rows, h) && a != b && rows[a].sortOrder + delta == rows[b].sortOrder
    ensures IsOrder(order, Selected(rows, h, above)) && order[0] == a && WriteAll(rows, order, delta).None?
  {
    assert Elements([a]) == {a};
    order := OrderFrom([a], Selected(rows, h, above));
    assert [a][..0] == [] && WriteAll(rows, [a], delta).None?;
    RefusedStaysRefused(rows, [a], order[1..], delta);
    assert order == [a] + order[1..];
  }

  /** An UPDATE completes whatever the order of its row writes exactly when no selected row, moved on its own, would
      land on another row or below zero; otherwise some order has its very first write refused. */
  lemma EveryOrderCompletesIff(rows: Rows, h: Household, above: int, delta: int)
    requires UniquePositions(rows)
    ensures (forall order :: IsOrder(order, Selected(rows, h, above)) ==> WriteAll(rows, order, delta).Some?)
            <==> CollisionFree(rows, h, above, delta) && StaysNatural(rows, h, above, delta)
  {
    hide WriteAll, UniquePositions, IsOrder;
    if CollisionFree(rows, h, above, delta) && StaysNatural(rows, h, above, delta) {
      forall order | IsOrder(order, Selected(rows, h, above))
        ensures WriteAll(rows, order, delta).Some?
      {
        OrderOfSelected(order, Selected(rows, h, above));
        SafeRunsComplete(rows, h, above, delta, order);
      }
    } else {
      var a :| a in Selected(rows, h, above)
               && (rows[a].sortOrder + delta < 0
                   || exists b :: b in Members(rows, h) && a != b && rows[a].sortOrder + delta == rows[b].sortOrder);
      var order := FirstWriteRefused(rows, h, above, delta, a);
    }
  }

  lemma OrderOfSelected(order: seq<Id>, ids: set<Id>)
    requires IsOrder(order, ids)
    ensures Distinct(order) && Elements(order) == ids
  {
  }

  // ------------------------------------------------------------------ deletion

  /** For the group at position k among n, the first UPDATE of its deletion is free of collisions exactly when
      n <= k + SHIFT + 1. */
  lemma FirstShiftIsSafeFor(rows: Rows, h: Household, s: seq<Id>, id: Id)
    requires ListedAs(rows, h, s) && id in Members(rows, h)
    ensures CollisionFree(rows - {id}, h, rows[id].sortOrder, SHIFT) <==> |s| <= rows[id].sortOrder + SHIFT + 1
  {
    var k := rows[id].sortOrder;
    if |s| > k + SHIFT + 1 {
      var a, b := s[k + 1], s[k + SHIFT + 1];
      assert a in Members(rows, h) && b in Members(rows, h);
      assert rows[a].sortOrder == k + 1 && rows[b].sortOrder == k + SHIFT + 1;
      assert a in Selected(rows - {id}, h, k) && b in Members(rows - {id}, h);
    }
  }

  /** The first UPDATE is free of collisions for every group exactly when there are at most SHIFT + 1 groups. */
  lemma FirstShiftIsSafeIff(rows: Rows, h: Household, s: seq<Id>)
    requires ListedAs(rows, h, s)
    ensures (forall id :: id in Members(rows, h) ==> CollisionFree(rows - {id}, h, rows[id].sortOrder, SHIFT))
            <==> |s| <= 1_000_001
  {
    hide CollisionFree;
    forall id | id in Members(rows, h)
      ensures CollisionFree(rows - {id}, h, rows[id].sortOrder, SHIFT) <==> |s| <= rows[id].sortOrder + SHIFT + 1
    {
      FirstShiftIsSafeFor(rows, h, s, id);
    }
    if |s| > SHIFT + 1 {
      assert s[0] in Members(rows, h) && rows[s[0]].sortOrder == 0;
    }
  }

  lemma LiftedPositions(rows: Rows, h: Household, s: seq<Id>, id: Id, lifted: Rows, x: Id)
    requires ListedAs(rows, h, s) && id in Members(rows, h) && x in Members(lifted, h)
    requires Shifted(rows - {id}, lifted, h, rows[id].sortOrder, SHIFT)
    ensures x in Members(rows, h) && x != id && rows[x].sortOrder != rows[id].sortOrder && rows[x].sortOrder < |s|
    ensures lifted[x].sortOrder == rows[x].sortOrder + (if rows[x].sortOrder > rows[id].sortOrder then SHIFT else 0)
  {
    assert x in rows - {id};
    assert x in Selected(rows - {id}, h, rows[id].sortOrder) <==> rows[x].sortOrder > rows[id].sortOrder;
  }

  /** After it, the second UPDATE is free of collisions exactly when k <= SHIFT + 1. */
  lemma SecondShiftIsSafeIff(rows: Rows, h: Household, s: seq<Id>, id: Id, lifted: Rows)
    requires ListedAs(rows, h, s) && id in Members(rows, h) && |s| <= rows[id].sortOrder + SHIFT + 1
    requires Shifted(rows - {id}, lifted, h, rows[id].sortOrder, SHIFT)
    ensures StaysNatural(lifted, h, SHIFT, -SHIFT - 1)
    ensures CollisionFree(lifted, h, SHIFT, -SHIFT - 1) <==> rows[id].sortOrder <= SHIFT + 1
  {
    hide Shifted, ListedAs;
    var k := rows[id].sortOrder;
    if k <= SHIFT + 1 {
      forall a, b | a in Selected(lifted, h, SHIFT) && b in Members(lifted, h) && a != b
        ensures lifted[a].sortOrder - SHIFT - 1 != lifted[b].sortOrder
      {
        assert a in Members(lifted, h);
        LiftedPositions(rows, h, s, id, lifted, a);
        LiftedPositions(rows, h, s, id, lifted, b);
        DifferentPositions(rows, h, s, a, b);
      }
    } else {
      var low, high := LowAndHigh(rows, h, s, id, lifted);
      assert high in Selected(lifted, h, SHIFT) && low in Members(lifted, h);
    }
  }

  lemma DifferentPositions(rows: Rows, h: Household, s: seq<Id>, a: Id, b: Id)
    requires ListedAs(rows, h, s) && a in Members(rows, h) && b in Members(rows, h) && a != b
    ensures rows[a].sortOrder != rows[b].sortOrder
  {
  }

  /** Two rows below a gap that is too high: the second UPDATE moves one onto the other. */
  lemma LowAndHigh(rows: Rows, h: Household, s: seq<Id>, id: Id, lifted: Rows) returns (low: Id, high: Id)
    requires ListedAs(rows, h, s) && id in Members(rows, h) && rows[id].sortOrder > SHIFT + 1
    requires Shifted(rows - {id}, lifted, h, rows[id].sortOrder, SHIFT)
    ensures low != high && low in Members(lifted, h) && high in Members(lifted, h)
    ensures lifted[low].sortOrder == 0 && lifted[high].sortOrder == SHIFT + 1
  {
    low, high := s[0], s[SHIFT + 1];
    assert low in Members(rows, h) && high in Members(rows, h);
    assert low in rows - {id} && high in rows - {id};
    assert lifted[low] == rows[low] && lifted[high] == rows[high];
  }

  /** Beyond position SHIFT + 1 the second UPDATE also moves a row below the gap onto the first row. */
  lemma HighDeletionCollides(rows: Rows, h: Household, s: seq<Id>, id: Id, lifted: Rows, final: Rows)
    requires ListedAs(rows, h, s) && id in Members(rows, h) && rows[id].sortOrder > SHIFT + 1
    requires Shifted(rows - {id}, lifted, h, rows[id].sortOrder, SHIFT)
    requires Shifted(lifted, final, h, SHIFT, -SHIFT - 1)
    ensures !UniquePositions(final)
  {
    var low, high := LowAndHigh(rows, h, s, id, lifted);
    assert high in Selected(lifted, h, SHIFT) && low !in Selected(lifted, h, SHIFT);
    assert final[low].sortOrder == 0 && final[high].sortOrder == 0;
  }

  /** Both UPDATEs of a deletion complete, whatever the order of their row writes. */
  ghost predicate DeletesInEveryOrder(rows: Rows, h: Household, id: Id)
    requires id in rows
  {
    forall first :: IsOrder(first, Selected(rows - {id}, h, rows[id].sortOrder)) ==>
      var lifted := WriteAll(rows - {id}, first, SHIFT);
      && lifted.Some?
      && forall second :: IsOrder(second, Selected(lifted.value, h, SHIFT)) ==> WriteAll(lifted.value, second, -SHIFT - 1).Some?
  }

  lemma RunShifts(rows: Rows, h: Household, above: int, delta: int, order: seq<Id>)
    requires UniquePositions(rows) && IsOrder(order, Selected(rows, h, above)) && WriteAll(rows, order, delta).Some?
    ensures Shifted(rows, WriteAll(rows, order, delta).value, h, above, delta)
    ensures UniquePositions(WriteAll(rows, order, delta).value)
  {
    RunMoves(rows, order, delta);
    RunsStayUnique(rows, order, delta);
  }

  lemma {:induction false} RunsStayUnique(rows: Rows, order: seq<Id>, delta: int)
    requires UniquePositions(rows) && WriteAll(rows, order, delta).Some?
    ensures UniquePositions(WriteAll(rows, order, delta).value)
  {
    if order != [] {
      RunsStayUnique(rows, order[..|order| - 1], delta);
    }
  }

  /** Deleting the group at position k among n completes in every order of row writes exactly when n <= k + SHIFT + 1
      and k <= SHIFT + 1. */
  lemma DeletesInEveryOrderIff(rows: Rows, orders: Orders, h: Household, id: Id)
    requires Listed(rows, orders) && id in Members(rows, h)
    ensures DeletesInEveryOrder(rows, h, id) <==>
              |OrderOf(orders, h)| <= rows[id].sortOrder + 1_000_001 && rows[id].sortOrder <= 1_000_001
  {
    hide WriteAll, UniquePositions, CollisionFree, StaysNatural, Shifted, ListedAs, IsOrder, Selected, Listed;
    var s, k, rest := OrderOf(orders, h), rows[id].sortOrder, rows - {id};
    BeforeDeletion(rows, orders, h, id);
    FirstShiftIsSafeFor(rows, h, s, id);
    EveryOrderCompletesIff(rest, h, k, SHIFT);
    if |s| <= k + SHIFT + 1 {
      forall first | IsOrder(first, Selected(rest, h, k))
        ensures WriteAll(rest, first, SHIFT).Some?
        ensures var lifted := WriteAll(rest, first, SHIFT).value;
                (forall second :: IsOrder(second, Selected(lifted, h, SHIFT)) ==> WriteAll(lifted, second, -SHIFT - 1).Some?)
                <==> k <= SHIFT + 1
      {
        var lifted := WriteAll(rest, first, SHIFT).value;
        RunShifts(rest, h, k, SHIFT, first);
        SecondShiftIsSafeIff(rows, h, s, id, lifted);
        EveryOrderCompletesIff(lifted, h, SHIFT, -SHIFT - 1);
      }
      var some := SomeOrder(Selected(rest, h, k));
    }
  }

  ghost predicate GapClosed(rows: Rows, final: Rows, h: Household, id: Id)
    requires id in rows
  {
    && final.Keys == rows.Keys - {id}
    && (forall x :: x in final ==>
          final[x] == if rows[x].household == h && rows[x].sortOrder > rows[id].sortOrder
                      then rows[x].(sortOrder := rows[x].sortOrder - 1) else rows[x])
  }

  lemma BothShifts(rows: Rows, h: Household, s: seq<Id>, id: Id, lifted: Rows, final: Rows)
    requires ListedAs(rows, h, s) && id in Members(rows, h)
    requires Shifted(rows - {id}, lifted, h, rows[id].sortOrder, SHIFT)
    requires Shifted(lifted, final, h, SHIFT, -SHIFT - 1) && UniquePositions(final)
    ensures GapClosed(rows, final, h, id)
  {
    var k := rows[id].sortOrder;
    if k > SHIFT + 1 {
      HighDeletionCollides(rows, h, s, id, lifted, final);
    }
    forall x | x in final
      ensures x in rows && x != id
      ensures final[x] == if rows[x].household == h && rows[x].sortOrder > k then rows[x].(sortOrder := rows[x].sortOrder - 1) else rows[x]
    {
      assert x in rows - {id};
      assert x in Selected(rows - {id}, h, k) <==> rows[x].household == h && rows[x].sortOrder > k;
      assert rows[x].household == h ==> x in Members(rows, h) && rows[x].sortOrder != k;
    }
  }

  /** Closing the gap leaves the list without the deleted group, the others in their order. */
  lemma ListedWithout(rows: Rows, orders: Orders, h: Household, id: Id, final: Rows)
    requires Listed(rows, orders) && id in Members(rows, h) && GapClosed(rows, final, h, id)
    ensures rows[id].sortOrder < |OrderOf(orders, h)|
    ensures Listed(final, orders[h := Without(OrderOf(orders, h), rows[id].sortOrder)])
    ensures SameDetails(rows, final) && (UniqueNames(rows) ==> UniqueNames(final))
  {
    var s := OrderOf(orders, h);
    assert ListedAs(rows, h, s);
    var k := rows[id].sortOrder;
    var t := Without(s, k);
    WithoutIsListed(rows, h, s, id, final);
    ListedElsewhere(rows, final, orders, h, t);
  }

  lemma ClosedKeys(rows: Rows, final: Rows, h: Household, id: Id)
    requires id in rows && GapClosed(rows, final, h, id)
    ensures final.Keys == rows.Keys - {id}
    ensures forall x :: x in final ==>
              final[x].sortOrder
              == rows[x].sortOrder - if rows[x].household == h && rows[x].sortOrder > rows[id].sortOrder then 1 else 0
  {
  }

  lemma BeforeDeletion(rows: Rows, orders: Orders, h: Household, id: Id)
    requires Listed(rows, orders) && id in Members(rows, h)
    ensures ListedAs(rows, h, OrderOf(orders, h))
    ensures UniquePositions(rows) && UniquePositions(rows - {id})
    ensures StaysNatural(rows - {id}, h, rows[id].sortOrder, SHIFT)
    ensures |OrderOf(orders, h)| <= rows[id].sortOrder + SHIFT + 1 ==> CollisionFree(rows - {id}, h, rows[id].sortOrder, SHIFT)
  {
    ListedIsUnique(rows, orders);
    FirstShiftIsSafeFor(rows, h, OrderOf(orders, h), id);
  }

  lemma WithoutIsListed(rows: Rows, h: Household, s: seq<Id>, id: Id, final: Rows)
    requires ListedAs(rows, h, s) && id in Members(rows, h) && GapClosed(rows, final, h, id)
    ensures rows[id].sortOrder < |s| && ListedAs(final, h, Without(s, rows[id].sortOrder))
  {
    var k := rows[id].sortOrder;
    var t := Without(s, k);
    forall x | x in Members(final, h)
      ensures final[x].sortOrder < |t| && t[final[x].sortOrder] == x
    {
      assert x in Members(rows, h) && rows[x].sortOrder != k;
    }
    forall j | 0 <= j < |t|
      ensures t[j] in Members(final, h) && final[t[j]].sortOrder == j
    {
      var i := if j < k then j else j + 1;
      assert t[j] == s[i] && s[i] in Members(rows, h);
    }
  }

  // ---------------------------------------------------------------- reordering

  predicate Distinct(list: seq<Id>) {
    forall i, j :: 0 <= i < j < |list| ==> list[i] != list[j]
  }

  function Elements(list: seq<Id>): set<Id> {
    set id | id in list
  }

  lemma {:induction false} DistinctCount(list: seq<Id>)
    requires Distinct(list)
    ensures |Elements(list)| == |list|
  {
    if list != [] {
      var front, last := list[..|list| - 1], list[|list| - 1];
      DistinctCount(front);
      assert last !in front;
      assert Elements(list) == Elements(front) + {last};
    }
  }

  lemma SubsetOfSameSize(a: set<Id>, b: set<Id>)
    requires a <= b && |a| == |b|
    ensures a == b
  {
    assert |b - a| == |b| - |a|;
  }

  lemma MembersAreListed(rows: Rows, h: Household, s: seq<Id>)
    requires ListedAs(rows, h, s)
    ensures |Members(rows, h)| == |s|
  {
    assert Distinct(s);
    DistinctCount(s);
    assert Elements(s) == Members(rows, h);
  }

  function Positions(rows: Rows, h: Household): set<int> {
    set id | id in Members(rows, h) :: rows[id].sortOrder
  }

  /** A household with n groups uses exactly the positions 0 to n - 1. */
  lemma PositionsAreConsecutive(rows: Rows, orders: Orders, h: Household)
    requires Listed(rows, orders)
    ensures forall k: int :: k in Positions(rows, h) <==> 0 <= k < |Members(rows, h)|
  {
    var s := OrderOf(orders, h);
    assert ListedAs(rows, h, s);
    MembersAreListed(rows, h, s);
    forall k: int
      ensures k in Positions(rows, h) <==> 0 <= k < |s|
    {
      if 0 <= k < |s| {
        assert s[k] in Members(rows, h) && rows[s[k]].sortOrder == k;
      }
    }
  }

  lemma LiftAllIsSafe(rows: Rows, orders: Orders, h: Household)
    requires Listed(rows, orders) && |Members(rows, h)| <= SHIFT
    ensures UniquePositions(rows) && CollisionFree(rows, h, -1, SHIFT) && StaysNatural(rows, h, -1, SHIFT)
  {
    ListedIsUnique(rows, orders);
    assert ListedAs(rows, h, OrderOf(orders, h));
    MembersAreListed(rows, h, OrderOf(orders, h));
  }

  predicate AmongFirst(list: seq<Id>, n: nat, id: Id)
    requires n <= |list|
  {
    exists k :: 0 <= k < n && list[k] == id
  }

  lemma AmongFirstGrows(list: seq<Id>, n: nat)
    requires n < |list| && Distinct(list)
    ensures forall id :: AmongFirst(list, n + 1, id) <==> AmongFirst(list, n, id) || id == list[n]
    ensures !AmongFirst(list, n, list[n])
  {
    forall id
      ensures AmongFirst(list, n + 1, id) <==> AmongFirst(list, n, id) || id == list[n]
    {
      if id == list[n] {
        assert list[n] == id;
      }
    }
  }

  /** The first `n` ids of the list have their index, the other rows of the household are out of reach. */
  ghost predicate Reordered(before: Rows, after: Rows, h: Household, list: seq<Id>, n: nat)
    requires n <= |list|
  {
    && after.Keys == before.Keys
    && (forall k :: 0 <= k < n ==> list[k] in before && before[list[k]].household == h && after[list[k]] == before[list[k]].(sortOrder := k))
    && (forall id :: id in Members(before, h) && !AmongFirst(list, n, id) ==>
          after[id] == before[id].(sortOrder := before[id].sortOrder + SHIFT))
    && (forall id :: id in before && before[id].household != h ==> after[id] == before[id])
  }

  /** Pigeonhole: as many distinct ids as the household has groups, all of them groups of it, are all its groups. */
  lemma ReorderedIsListed(before: Rows, after: Rows, orders: Orders, h: Household, list: seq<Id>)
    requires Listed(before, orders) && Distinct(list) && |list| == |Members(before, h)|
    requires Reordered(before, after, h, list, |list|)
    ensures Elements(list) == Members(before, h)
    ensures Listed(after, orders[h := list])
    ensures SameDetails(before, after) && (UniqueNames(before) ==> UniqueNames(after))
  {
    DistinctCount(list);
    SubsetOfSameSize(Elements(list), Members(before, h));
    forall id | id in before
      ensures id in after && after[id].household == before[id].household && after[id].name == before[id].name
      ensures before[id].household == h ==> after[id].sortOrder < |list| && list[after[id].sortOrder] == id
    {
      if before[id].household == h {
        assert id in Elements(list);
        var k :| 0 <= k < |list| && list[k] == id;
      }
    }
    assert Members(after, h) == Members(before, h);
    ListedElsewhere(before, after, orders, h, list);
  }

  lemma SelectedAreRows(rows: Rows, h: Household, above: int)
    ensures Selected(rows, h, above) <= rows.Keys
  {
  }

  lemma MembersWithout(before: Rows, members: map<Id, seq<AccountId>>, after: Rows, id: Id)
    requires MembersListed(before, members) && after.Keys == before.Keys - {id}
    ensures MembersListed(after, members - {id})
  {
  }

  lemma MembersKept(before: Rows, after: Rows, members: map<Id, seq<AccountId>>)
    requires MembersListed(before, members) && after.Keys == before.Keys
    ensures MembersListed(after, members)
  {
  }

  lemma NothingWritten(rows: Rows, delta: int)
    ensures WriteAll(rows, [], delta) == Some(rows) && Distinct([]) && Elements([]) == {}
  {
  }

  lemma OneMoreWrite(rows: Rows, order: seq<Id>, delta: int, mid: Rows, id: Id)
    requires Distinct(order) && id !in Elements(order) && WriteAll(rows, order, delta) == Some(mid) && id in mid
    ensures WriteAll(rows, order + [id], delta) == WriteOne(mid, id, mid[id].sortOrder + delta)
    ensures Distinct(order + [id]) && Elements(order + [id]) == Elements(order) + {id}
  {
    hide WriteOne;
    assert (order + [id])[..|order|] == order;
  }

  lemma MovedKeys(before: Rows, after: Rows, done: set<Id>, delta: int)
    requires Moved(before, after, done, delta)
    ensures after.Keys == before.Keys
  {
  }

  class GroupTable {
    const households: set<Household>
    var rows: Rows

    /** The accounts of each group, in order. */
    var members: map<Id, seq<AccountId>>
    ghost var orders: Orders

    ghost predicate Valid()
      reads this
    {
      UniqueNames(rows) && Listed(rows, orders) && MembersListed(rows, members)
    }

    constructor (households: set<Household>)
      ensures Valid() && rows == map[] && members == map[] && this.households == households
    {
      this.households := households;
      rows := map[];
      members := map[];
      orders := map[];
    }

    /** One row write, refused if the position is taken in the row's household or negative. */
    method SetPosition(id: Id, position: int) returns (ok: bool)
      requires id in rows && UniquePositions(rows)
      modifies `rows
      ensures UniquePositions(rows)
      ensures ok <==> position >= 0
                      && forall b :: b in old(rows) && b != id && old(rows)[b].household == old(rows)[id].household
                                     ==> old(rows)[b].sortOrder != position
      ensures ok ==> rows == old(rows)[id := old(rows)[id].(sortOrder := position)]
      ensures !ok ==> rows == old(rows)
      ensures WriteOne(old(rows), id, position) == if ok then Some(rows) else None
    {
      ok := position >= 0
            && forall b <- rows.Keys :: b != id && rows[b].household == rows[id].household ==> rows[b].sortOrder != position;
      if ok {
        rows := rows[id := rows[id].(sortOrder := position)];
      }
    }

    /** UPDATE account_groups SET sort_order = sort_order + delta WHERE household_id = h AND sort_order > above:
        the selected rows are written one at a time, in any order. */
    method Shift(h: Household, above: int, delta: int) returns (ok: bool)
      requires UniquePositions(rows)
      modifies `rows
      ensures UniquePositions(rows)
      ensures exists order :: IsOrder(order, Selected(old(rows), h, above))
                              && WriteAll(old(rows), order, delta) == (if ok then Some(rows) else None)
      ensures ok ==> Shifted(old(rows), rows, h, above, delta)
      ensures CollisionFree(old(rows), h, above, delta) && StaysNatural(old(rows), h, above, delta) ==> ok
    {
      hide UniquePositions, CollisionFree, StaysNatural, Shifted, Distinct, Elements, WriteOne, WriteAll, Selected;
      ghost var before, selected := rows, Selected(rows, h, above);
      ghost var order: seq<Id> := [];
      NothingWritten(rows, delta);
      SelectedAreRows(rows, h, above);
      var todo := Selected(rows, h, above);
      while todo != {}
        invariant UniquePositions(rows) && todo <= selected <= before.Keys
        invariant Distinct(order) && Elements(order) == selected - todo
        invariant WriteAll(before, order, delta) == Some(rows)
        decreases todo
      {
        var id :| id in todo;
        ghost var now := rows;
        RunMoves(before, order, delta);
        MovedKeys(before, rows, Elements(order), delta);
        var written := SetPosition(id, rows[id].sortOrder + delta);
        OneMoreWrite(before, order, delta, now, id);
        order := order + [id];
        if !written {
          ghost var whole := OrderFrom(order, selected);
          RefusedStaysRefused(before, order, whole[|order|..], delta);
          assert whole == order + whole[|order|..];
          EveryOrderCompletesIff(before, h, above, delta);
          return false;
        }
        todo := todo - {id};
      }
      RunShifts(before, h, above, delta, order);
      return true;
    }

    /** SELECT COALESCE(MAX(sort_order) + 1, 0) */
    method NextPosition(h: Household) returns (next: nat)
      requires Valid()
      ensures next == |OrderOf(orders, h)|
    {
      next := 0;
      var todo := Members(rows, h);
      while todo != {}
        invariant todo <= Members(rows, h)
        invariant forall id :: id in Members(rows, h) - todo ==> rows[id].sortOrder < next
        invariant next <= |OrderOf(orders, h)|
        decreases todo
      {
        var id :| id in todo;
        assert ListedAs(rows, h, OrderOf(orders, h));
        if rows[id].sortOrder >= next {
          next := rows[id].sortOrder + 1;
        }
        todo := todo - {id};
      }
      ghost var s := OrderOf(orders, h);
      assert ListedAs(rows, h, s);
      assert forall k :: 0 <= k < |s| ==> s[k] in Members(rows, h) && rows[s[k]].sortOrder < next;
      assert |s| > 0 ==> rows[s[|s| - 1]].sortOrder == |s| - 1;
    }

    /** `replace_members`: the old members go, the new ones are inserted one by one. */
    method ReplaceMembers(id: Id, list: seq<AccountId>)
      modifies `members
      ensures members == old(members)[id := list]
    {
      members := members[id := []];
      for i := 0 to |list|
        invariant members == old(members)[id := list[..i]]
      {
        members := members[id := members[id] + [list[i]]];
        assert list[..i + 1] == list[..i] + [list[i]];
      }
      assert list[..|list|] == list;
    }

    /** A new group goes to the end of its household, with its accounts in the given order. `open` holds the accounts of
        each household that are not archived. */
    method Create(h: Household, id: Id, name: string, list: seq<AccountId>, open: set<(Household, AccountId)>)
      returns (r: Result<(), GroupError>)
      requires Valid()
      modifies `rows, `members, `orders
      ensures Valid() && UniqueNames(rows)
      ensures r.Ok? <==>
                && |list| <= 10_000 && Distinct(list) && h in households && (forall a <- list :: (h, a) in open)
                && id !in old(rows) && forall b :: b in Members(old(rows), h) ==> old(rows)[b].name != name
      ensures r.Ok? ==>
                && rows == old(rows)[id := Row(h, name, |OrderOf(old(orders), h)|)]
                && members == old(members)[id := list]
                && orders == old(orders)[h := OrderOf(old(orders), h) + [id]]
      ensures r.Err? ==> rows == old(rows) && members == old(members) && orders == old(orders)
      ensures r.Err? ==> r.error == (if !(|list| <= 10_000 && Distinct(list)) then InvalidInput else if h !in households then NotFound
                                     else if exists a <- list :: (h, a) !in open then InvalidInput else Conflict)
    {
      if !ValidAccounts(list) {
        return Err(InvalidInput);
      }
      if h !in households {
        return Err(NotFound);
      }
      if exists a <- list :: (h, a) !in open {
        return Err(InvalidInput);
      }
      var next := NextPosition(h);
      if id in rows || exists b <- Members(rows, h) :: rows[b].name == name {
        return Err(Conflict);
      }
      ListedAppend(rows, orders, h, id, name);
      rows := rows[id := Row(h, name, next)];
      ReplaceMembers(id, list);
      orders := orders[h := OrderOf(orders, h) + [id]];
      return Ok(());
    }

    /** Renaming and replacing the accounts leave every position alone. */
    method Update(h: Household, id: Id, name: string, list: seq<AccountId>, open: set<(Household, AccountId)>)
      returns (r: Result<(), GroupError>)
      requires Valid()
      modifies `rows, `members
      ensures Valid() && UniqueNames(rows)
      ensures r.Ok? <==>
                && |list| <= 10_000 && Distinct(list) && (forall a <- list :: (h, a) in open)
                && id in Members(old(rows), h) && forall b :: b in Members(old(rows), h) && b != id ==> old(rows)[b].name != name
      ensures r.Ok? ==> rows == old(rows)[id := old(rows)[id].(name := name)] && members == old(members)[id := list]
      ensures r.Err? ==> rows == old(rows) && members == old(members)
      ensures r.Err? ==> r.error == (if !(|list| <= 10_000 && Distinct(list)) || exists a <- list :: (h, a) !in open then InvalidInput
                                     else if id in Members(old(rows), h) then Conflict else NotFound)
    {
      if !ValidAccounts(list) || exists a <- list :: (h, a) !in open {
        return Err(InvalidInput);
      }
      if id !in Members(rows, h) {
        return Err(NotFound);
      }
      if exists b <- Members(rows, h) :: b != id && rows[b].name == name {
        return Err(Conflict);
      }
      ListedRename(rows, orders, id, name);
      rows := rows[id := rows[id].(name := name)];
      ReplaceMembers(id, list);
      return Ok(());
    }

    /** Deleting closes the gap and keeps the others in order; a failed deletion changes nothing. The group at position
        k among n is deleted if n <= k + SHIFT + 1 and k <= SHIFT + 1, and never if k > SHIFT + 1; in between the outcome
        depends on the order of the row writes. */
    method Delete(h: Household, id: Id) returns (r: Result<(), GroupError>)
      requires Valid()
      modifies `rows, `members, `orders
      ensures Valid() && UniqueNames(rows)
      ensures r.Ok? ==>
                && id in Members(old(rows), h)
                && rows.Keys == old(rows).Keys - {id} && SameDetails(old(rows), rows) && members == old(members) - {id}
                && (forall x :: x in rows ==>
                      rows[x].sortOrder == old(rows)[x].sortOrder
                                           - if old(rows)[x].household == h && old(rows)[x].sortOrder > old(rows)[id].sortOrder then 1 else 0)
                && old(rows)[id].sortOrder < |OrderOf(old(orders), h)|
                && orders == old(orders)[h := Without(OrderOf(old(orders), h), old(rows)[id].sortOrder)]
      ensures r.Err? ==> rows == old(rows) && members == old(members) && orders == old(orders)
      ensures id !in Members(old(rows), h) ==> r == Err(NotFound)
      ensures id in Members(old(rows), h) ==>
                var k, n := old(rows)[id].sortOrder, |OrderOf(old(orders), h)|;
                && (n <= k + 1_000_001 && k <= 1_000_001 ==> r.Ok?)
                && (k > 1_000_001 ==> r == Err(Conflict))
    {
      if id !in Members(rows, h) {
        return Err(NotFound);
      }
      var saved, savedMembers := rows, members;
      var removed := rows[id].sortOrder;
      hide MembersListed, UniquePositions, UniqueNames, CollisionFree, StaysNatural, Shifted, GapClosed, Selected, ListedAs, Without, SameDetails;
      BeforeDeletion(rows, orders, h, id);
      rows := rows - {id};
      members := members - {id};
      var ok := CloseGap(h, removed, saved, OrderOf(orders, h), id);
      if !ok {
        rows, members := saved, savedMembers;
        return Err(Conflict);
      }
      ClosedKeys(saved, rows, h, id);
      MembersWithout(saved, savedMembers, rows, id);
      ListedWithout(saved, orders, h, id, rows);
      orders := orders[h := Without(OrderOf(orders, h), removed)];
      return Ok(());
    }

    /** The two UPDATEs of a deletion: everything above the gap goes out of reach, then comes back one lower. */
    method CloseGap(h: Household, removed: nat, ghost before: Rows, ghost s: seq<Id>, ghost id: Id) returns (ok: bool)
      requires ListedAs(before, h, s) && id in Members(before, h) && removed == before[id].sortOrder
      requires rows == before - {id} && UniquePositions(rows)
      requires StaysNatural(rows, h, removed, SHIFT)
      requires |s| <= removed + SHIFT + 1 ==> CollisionFree(rows, h, removed, SHIFT)
      modifies `rows
      ensures UniquePositions(rows)
      ensures ok ==> GapClosed(before, rows, h, id)
      ensures |s| <= removed + SHIFT + 1 && removed <= SHIFT + 1 ==> ok
      ensures removed > SHIFT + 1 ==> !ok
    {
      hide UniquePositions, CollisionFree, StaysNatural, Shifted, GapClosed, ListedAs;
      ok := Shift(h, removed, SHIFT);
      if ok {
        ghost var lifted := rows;
        if |s| <= removed + SHIFT + 1 {
          SecondShiftIsSafeIff(before, h, s, id, lifted);
        }
        ok := Shift(h, SHIFT, -SHIFT - 1);
        if ok {
          if removed > SHIFT + 1 {
            HighDeletionCollides(before, h, s, id, lifted, rows);
          }
          BothShifts(before, h, s, id, lifted, rows);
        }
      }
    }

    /** Reordering gives each id its requested index, and accepts exactly the lists that name every
        group of the household once; anything else changes nothing. */
    method Reorder(h: Household, list: seq<Id>) returns (r: Result<(), GroupError>)
      requires Valid()
      modifies `rows, `orders
      ensures Valid() && UniqueNames(rows)
      ensures r.Ok? <==> |list| <= 1_000 && Distinct(list) && h in households && Elements(list) == Members(old(rows), h)
      ensures r.Ok? ==> rows.Keys == old(rows).Keys && SameDetails(old(rows), rows) && orders == old(orders)[h := list]
      ensures r.Ok? ==> forall k :: 0 <= k < |list| ==> list[k] in rows && rows[list[k]].sortOrder == k
      ensures r.Ok? ==> forall id :: id in old(rows) && old(rows)[id].household != h ==> rows[id] == old(rows)[id]
      ensures r.Err? ==> rows == old(rows) && orders == old(orders)
      ensures r.Err? ==> r.error == (if |list| <= 1_000 && Distinct(list) && h !in households then NotFound else InvalidInput)
    {
      hide MembersListed, UniquePositions, UniqueNames, CollisionFree, StaysNatural, Reordered, Listed, Shifted, SameDetails, Members,
           Elements;
      if |list| > MAX_GROUPS {
        return Err(InvalidInput);
      }
      if exists i, j :: 0 <= i < j < |list| && list[i] == list[j] {
        return Err(InvalidInput);
      }
      if h !in households {
        return Err(NotFound);
      }
      DistinctCount(list);
      if |Members(rows, h)| != |list| {
        return Err(InvalidInput);
      }
      var saved := rows;
      LiftAllIsSafe(rows, orders, h);
      var ok := Shift(h, -1, SHIFT);
      LiftedIsReordered(saved, rows, h, list);
      ok := AssignPositions(h, list, saved, orders);
      if !ok {
        rows := saved;
        return Err(InvalidInput);
      }
      ReorderedIsListed(saved, rows, orders, h, list);
      ReorderedRows(saved, rows, h, list);
      ReorderedKeys(saved, rows, h, list, |list|);
      MembersKept(saved, rows, members);
      orders := orders[h := list];
      return Ok(());
    }

    /** One UPDATE per listed id; each must hit exactly one row. */
    method AssignPositions(h: Household, list: seq<Id>, ghost before: Rows, ghost listing: Orders) returns (ok: bool)
      requires Listed(before, listing) && Distinct(list) && |list| <= MAX_GROUPS
      requires UniquePositions(rows) && Reordered(before, rows, h, list, 0)
      modifies `rows
      ensures UniquePositions(rows)
      ensures ok ==> Reordered(before, rows, h, list, |list|)
      ensures !ok ==> !(Elements(list) <= Members(before, h))
    {
      hide UniquePositions, Reordered, Listed, Distinct;
      for i := 0 to |list|
        invariant UniquePositions(rows) && Reordered(before, rows, h, list, i)
      {
        ReorderedKeys(before, rows, h, list, i);
        if list[i] !in rows || rows[list[i]].household != h {
          assert list[i] in Elements(list) && list[i] !in Members(rows, h);
          return false;
        }
        ReorderNext(before, listing, rows, h, list, i);
        var written := SetPosition(list[i], i);
      }
      return true;
    }
  }

  lemma LiftedIsReordered(before: Rows, after: Rows, h: Household, list: seq<Id>)
    requires Shifted(before, after, h, -1, SHIFT)
    ensures Reordered(before, after, h, list, 0)
  {
  }

  lemma ReorderedRows(before: Rows, after: Rows, h: Household, list: seq<Id>)
    requires Reordered(before, after, h, list, |list|)
    ensures forall k :: 0 <= k < |list| ==> list[k] in after && after[list[k]].sortOrder == k
    ensures forall id :: id in before && before[id].household != h ==> id in after && after[id] == before[id]
  {
  }

  lemma ReorderedKeys(before: Rows, after: Rows, h: Household, list: seq<Id>, n: nat)
    requires n <= |list| && Reordered(before, after, h, list, n)
    ensures after.Keys == before.Keys && Members(after, h) == Members(before, h)
  {
    forall id | id in before
      ensures after[id].household == before[id].household
    {
      if before[id].household == h && AmongFirst(list, n, id) {
        var k :| 0 <= k < n && list[k] == id;
      }
    }
  }

  /** The next position is free: earlier ids have smaller ones and the other rows are out of reach. */
  lemma ReorderNext(before: Rows, orders: Orders, after: Rows, h: Household, list: seq<Id>, n: nat)
    requires Listed(before, orders) && Distinct(list) && n < |list| <= MAX_GROUPS && Reordered(before, after, h, list, n)
    requires list[n] in after && after[list[n]].household == h
    ensures forall b :: b in after && b != list[n] && after[b].household == h ==> after[b].sortOrder != n
    ensures Reordered(before, after[list[n] := after[list[n]].(sortOrder := n)], h, list, n + 1)
  {
    hide Listed;
    ReorderedKeys(before, after, h, list, n);
    NextIsFree(before, orders, after, h, list, n);
    NextIsReordered(before, after, h, list, n);
  }

  lemma NextIsReordered(before: Rows, after: Rows, h: Household, list: seq<Id>, n: nat)
    requires n < |list| && Distinct(list) && Reordered(before, after, h, list, n)
    requires list[n] in Members(before, h) && list[n] in after
    ensures Reordered(before, after[list[n] := after[list[n]].(sortOrder := n)], h, list, n + 1)
  {
    hide AmongFirst;
    AmongFirstGrows(list, n);
    var next, last := after[list[n] := after[list[n]].(sortOrder := n)], list[n];
    assert after[last] == before[last].(sortOrder := before[last].sortOrder + SHIFT);
    forall k | 0 <= k < n + 1
      ensures list[k] in before && before[list[k]].household == h && next[list[k]] == before[list[k]].(sortOrder := k)
    {
      if k < n {
        assert list[k] != last;
      }
    }
  }

  lemma NextIsFree(before: Rows, orders: Orders, after: Rows, h: Household, list: seq<Id>, n: nat)
    requires Listed(before, orders) && Distinct(list) && n < |list| <= MAX_GROUPS && Reordered(before, after, h, list, n)
    requires Members(after, h) == Members(before, h)
    ensures forall b :: b in after && b != list[n] && after[b].household == h ==> after[b].sortOrder != n
  {
    forall b | b in after && b != list[n] && after[b].household == h
      ensures after[b].sortOrder != n
    {
      assert b in Members(before, h);
      if AmongFirst(list, n, b) {
        var k :| 0 <= k < n && list[k] == b;
      }
    }
  }
}
