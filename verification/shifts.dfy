/** The shift ledger (backend/src/controllers/shiftsController.js): work
    shifts, the single open shift, the back-fill of shift-less orders at close
    and the settlement of a shift's paid orders. The writing handlers are
    methods of `StoreModel.Store`. */
module Shifts {
  import opened Common
  import opened Rows
  import opened Sorting
  import opened Orders

  datatype ShiftStatus = ShiftOpen | ShiftClosed

  datatype Shift = Shift(
    id: int,
    openedBy: int,
    closedBy: Option<int>,
    openedAt: int,
    closedAt: Option<int>,
    status: ShiftStatus,
    totalSales: int)

  function ShiftKey(s: Shift): int { s.id }

  /** The ledger's invariant: no two shifts are open at once. */
  ghost predicate AtMostOneOpen(shifts: seq<Shift>) {
    forall i, j :: 0 <= i < |shifts| && 0 <= j < |shifts| && shifts[i].status == ShiftOpen && shifts[j].status == ShiftOpen ==> i == j
  }

  /** `WHERE status = 'open' ORDER BY opened_at DESC LIMIT 1`: the position of
      the open shift opened last, if any shift is open. */
  function OpenShiftIndex(shifts: seq<Shift>): (r: Option<nat>)
    ensures r.None? <==> forall k :: 0 <= k < |shifts| ==> shifts[k].status != ShiftOpen
    ensures r.Some? ==> r.value < |shifts| && shifts[r.value].status == ShiftOpen
    ensures r.Some? ==> forall k :: 0 <= k < |shifts| && shifts[k].status == ShiftOpen ==> shifts[k].openedAt <= shifts[r.value].openedAt
  {
    if shifts == [] then None
    else
      var n := |shifts| - 1;
      var rest := OpenShiftIndex(shifts[..n]);
      if shifts[n].status == ShiftOpen && (rest.None? || shifts[rest.value].openedAt <= shifts[n].openedAt)
      then Some(n)
      else rest
  }

  /** getCurrentShift: the open shift or nothing, never an error; under the
      ledger's invariant it is the one open shift. */
  function CurrentShift(shifts: seq<Shift>): (r: Option<Shift>)
    ensures r.None? <==> forall k :: 0 <= k < |shifts| ==> shifts[k].status != ShiftOpen
    ensures r.Some? ==> r.value in shifts && r.value.status == ShiftOpen
    ensures AtMostOneOpen(shifts) ==> forall k :: 0 <= k < |shifts| && shifts[k].status == ShiftOpen ==> r == Some(shifts[k])
  {
    match OpenShiftIndex(shifts)
    case None => None
    case Some(k) => Some(shifts[k])
  }

  function NewestShiftFirst(a: Shift, b: Shift): bool { a.openedAt >= b.openedAt }

  /** getShiftHistory: every shift once, most recently opened first. */
  function ShiftHistory(shifts: seq<Shift>): (r: seq<Shift>)
    ensures multiset(r) == multiset(shifts)
    ensures forall i, j :: 0 <= i < j < |r| ==> r[i].openedAt >= r[j].openedAt
  {
    assert Total(NewestShiftFirst);
    assert Transitive(NewestShiftFirst);
    var r := SortBy(shifts, NewestShiftFirst);
    forall i, j | 0 <= i < j < |r| ensures r[i].openedAt >= r[j].openedAt {
      SortedPairwise(r, NewestShiftFirst, i, j);
    }
    r
  }

  /** The close-time back-fill applied to one order: an order with no shift,
      opened inside `[from, until]`, is adopted by shift `shiftId`. */
  function Adopted(o: Order, shiftId: int, from: int, until: int): (r: Order)
    ensures r == o.(shiftId := r.shiftId)
    ensures o.shiftId.Some? ==> r == o
    ensures r.shiftId.Some? <==> o.shiftId.Some? || from <= o.openedAt <= until
    ensures o.shiftId.None? && r.shiftId.Some? ==> r.shiftId == Some(shiftId)
  {
    if o.shiftId.None? && from <= o.openedAt <= until then o.(shiftId := Some(shiftId)) else o
  }

  /** The back-fill over every order: exactly the shift-less orders of the
      window join the shift; every other order keeps its shift, and no other
      column changes. */
  function Backfill(orders: seq<Order>, shiftId: int, from: int, until: int): (r: seq<Order>)
    ensures |r| == |orders|
    ensures forall k :: 0 <= k < |r| ==> r[k] == orders[k].(shiftId := r[k].shiftId)
    ensures forall k :: 0 <= k < |r| ==>
      if orders[k].shiftId.None? && from <= orders[k].openedAt <= until
      then r[k].shiftId == Some(shiftId)
      else r[k].shiftId == orders[k].shiftId
  {
    seq(|orders|, k requires 0 <= k < |orders| => Adopted(orders[k], shiftId, from, until))
  }

  /** `SUM(total_amount) WHERE shift_id = $1 AND status = 'paid'`. */
  function PaidSales(orders: seq<Order>, shiftId: int): (r: int)
    ensures (forall k :: 0 <= k < |orders| ==> orders[k].total >= 0) ==> r >= 0
    ensures (forall k :: 0 <= k < |orders| ==> orders[k].shiftId != Some(shiftId) || orders[k].status != Paid) ==> r == 0
  {
    if orders == [] then 0
    else (if orders[0].shiftId == Some(shiftId) && orders[0].status == Paid then orders[0].total else 0)
         + PaidSales(orders[1..], shiftId)
  }

  /** The paid orders without a shift opened inside `[from, until]`: the
      sales the back-fill hands to the closing shift. */
  function OrphanSales(orders: seq<Order>, from: int, until: int): (r: int)
    ensures (forall k :: 0 <= k < |orders| ==> orders[k].total >= 0) ==> r >= 0
    ensures (forall k :: 0 <= k < |orders| ==> orders[k].shiftId.Some? || orders[k].status != Paid) ==> r == 0
  {
    if orders == [] then 0
    else (if orders[0].shiftId.None? && from <= orders[0].openedAt <= until && orders[0].status == Paid then orders[0].total else 0)
         + OrphanSales(orders[1..], from, until)
  }

  /** Settling after the back-fill counts the shift's own paid orders plus the
      paid orphans of its window, and nothing else. */
  lemma {:induction false} BackfillSettles(orders: seq<Order>, shiftId: int, from: int, until: int)
    ensures PaidSales(Backfill(orders, shiftId, from, until), shiftId)
         == PaidSales(orders, shiftId) + OrphanSales(orders, from, until)
  {
    if orders != [] {
      BackfillSettles(orders[1..], shiftId, from, until);
      assert Backfill(orders, shiftId, from, until)[1..] == Backfill(orders[1..], shiftId, from, until);
    }
  }

  /** `COUNT(*) WHERE shift_id = $1 AND status IN statuses`. */
  function Count(orders: seq<Order>, shiftId: int, statuses: set<OrderStatus>): (r: nat)
    ensures r <= |orders|
    ensures r == 0 <==> forall k :: 0 <= k < |orders| ==> orders[k].shiftId != Some(shiftId) || orders[k].status !in statuses
  {
    if orders == [] then 0
    else (if orders[0].shiftId == Some(shiftId) && orders[0].status in statuses then 1 else 0)
         + Count(orders[1..], shiftId, statuses)
  }

  /** `COUNT(*) WHERE shift_id = $1`. */
  function ShiftOrders(orders: seq<Order>, shiftId: int): (r: nat)
    ensures r <= |orders|
    ensures r == 0 <==> forall k :: 0 <= k < |orders| ==> orders[k].shiftId != Some(shiftId)
  {
    if orders == [] then 0
    else (if orders[0].shiftId == Some(shiftId) then 1 else 0) + ShiftOrders(orders[1..], shiftId)
  }

  /** Counting over disjoint sets of statuses adds up. */
  lemma {:induction false} CountSplit(orders: seq<Order>, shiftId: int, a: set<OrderStatus>, b: set<OrderStatus>)
    requires a !! b
    ensures Count(orders, shiftId, a + b) == Count(orders, shiftId, a) + Count(orders, shiftId, b)
  {
    if orders != [] {
      CountSplit(orders[1..], shiftId, a, b);
    }
  }

  /** Every order has one of the five statuses. */
  lemma {:induction false} CountEveryStatus(orders: seq<Order>, shiftId: int)
    ensures Count(orders, shiftId, {Open, InPreparation, Ready, Paid, Cancelled}) == ShiftOrders(orders, shiftId)
  {
    if orders != [] {
      CountEveryStatus(orders[1..], shiftId);
      match orders[0].status {
        case Open =>
        case InPreparation =>
        case Ready =>
        case Paid =>
        case Cancelled =>
      }
    }
  }

  datatype ShiftSummary = ShiftSummary(
    shift: Shift,
    totalOrders: nat,
    paidOrders: nat,
    cancelledOrders: nat,
    activeOrders: nat,
    totalSales: int)

  /** getShiftSummary: 404 for an unknown shift; otherwise the shift's orders
      split into paid, cancelled and active, which together are all of them,
      and the sales of the paid ones only. */
  function Summary(shifts: seq<Shift>, orders: seq<Order>, id: int): (r: Result<ShiftSummary>)
    ensures r.Err? <==> forall k :: 0 <= k < |shifts| ==> shifts[k].id != id
    ensures r.Err? ==> r.error == NotFound
    ensures r.Ok? ==>
      var s := r.value;
      && s.shift in shifts && s.shift.id == id
      && s.totalOrders == ShiftOrders(orders, id)
      && s.totalOrders == s.paidOrders + s.cancelledOrders + s.activeOrders
      && s.paidOrders == Count(orders, id, {Paid})
      && s.cancelledOrders == Count(orders, id, {Cancelled})
      && s.activeOrders == Count(orders, id, {Open, InPreparation, Ready})
      && s.totalSales == PaidSales(orders, id)
  {
    match Find(shifts, ShiftKey, id)
    case None => Err(NotFound)
    case Some(k) =>
      CountSplit(orders, id, {Paid}, {Cancelled});
      CountSplit(orders, id, {Paid, Cancelled}, {Open, InPreparation, Ready});
      assert {Paid} + {Cancelled} == {Paid, Cancelled};
      assert {Paid, Cancelled} + {Open, InPreparation, Ready} == {Open, InPreparation, Ready, Paid, Cancelled};
      CountEveryStatus(orders, id);
      Ok(ShiftSummary(
        shifts[k],
        ShiftOrders(orders, id),
        Count(orders, id, {Paid}),
        Count(orders, id, {Cancelled}),
        Count(orders, id, {Open, InPreparation, Ready}),
        PaidSales(orders, id)))
  }
}
