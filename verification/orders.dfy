/** Orders ("comandas") and their line items
    (backend/src/controllers/ordersController.js): the vocabulary of the order
    lifecycle, the running total and its relation to the line items, and the
    four read handlers. The writing handlers are methods of
    `StoreModel.Store`. */
module Orders {
  import opened Common
  import opened Rows
  import opened Sorting
  import opened Tables

  datatype OrderType = DineIn | Takeaway | Delivery

  function OrderTypeName(t: OrderType): string {
    match t
    case DineIn => "dine_in"
    case Takeaway => "takeaway"
    case Delivery => "delivery"
  }

  /** Only the three order types are accepted, each read back as itself. */
  function ParseOrderType(s: string): (r: Option<OrderType>)
    ensures r.Some? ==> OrderTypeName(r.value) == s
    ensures r.None? <==> forall t: OrderType :: OrderTypeName(t) != s
  {
    if s == "dine_in" then Some(DineIn)
    else if s == "takeaway" then Some(Takeaway)
    else if s == "delivery" then Some(Delivery)
    else None
  }

  datatype OrderStatus = Open | InPreparation | Ready | Paid | Cancelled {
    /** Paid and cancelled orders accept no further change. */
    predicate IsTerminal() { this == Paid || this == Cancelled }
    /** The statuses shown to the floor and the kitchen. */
    predicate IsActive() { this == Open || this == InPreparation || this == Ready }
  }

  function OrderStatusName(s: OrderStatus): string {
    match s
    case Open => "open"
    case InPreparation => "in_preparation"
    case Ready => "ready"
    case Paid => "paid"
    case Cancelled => "cancelled"
  }

  /** Only the five statuses are accepted, each read back as itself. */
  function ParseOrderStatus(s: string): (r: Option<OrderStatus>)
    ensures r.Some? ==> OrderStatusName(r.value) == s
    ensures r.None? <==> forall t: OrderStatus :: OrderStatusName(t) != s
  {
    if s == "open" then Some(Open)
    else if s == "in_preparation" then Some(InPreparation)
    else if s == "ready" then Some(Ready)
    else if s == "paid" then Some(Paid)
    else if s == "cancelled" then Some(Cancelled)
    else None
  }

  datatype Order = Order(
    id: int,
    tableId: Option<int>,
    shiftId: Option<int>,
    orderType: OrderType,
    waiterId: int,
    status: OrderStatus,
    openedAt: int,
    closedAt: Option<int>,
    notes: Option<string>,
    total: int)

  function OrderKey(o: Order): int { o.id }

  datatype OrderItem = OrderItem(
    id: int,
    orderId: int,
    menuItemId: Option<int>,
    meatType: Option<string>,
    customizations: Option<string>,
    quantity: int,
    unitPrice: int,
    notes: Option<string>)

  function ItemKey(it: OrderItem): int { it.id }

  /** quantity × unit_price, in cents. */
  function LineTotal(it: OrderItem): int { it.quantity * it.unitPrice }

  /** What the item contributes to the total of order `orderId`. */
  function Share(it: OrderItem, orderId: int): int {
    if it.orderId == orderId then LineTotal(it) else 0
  }

  /** The sum of quantity × unit_price over the items of order `orderId`:
      what `total_amount` is meant to equal. */
  function ItemsSum(items: seq<OrderItem>, orderId: int): int {
    if items == [] then 0 else Share(items[0], orderId) + ItemsSum(items[1..], orderId)
  }

  /** Inserting an item adds its line total to its own order's sum only. */
  lemma {:induction false} ItemsSumAppend(items: seq<OrderItem>, it: OrderItem, orderId: int)
    ensures ItemsSum(items + [it], orderId) == ItemsSum(items, orderId) + Share(it, orderId)
  {
    if items != [] {
      assert (items + [it])[1..] == items[1..] + [it];
      ItemsSumAppend(items[1..], it, orderId);
    }
  }

  /** Editing an item moves its order's sum by the new line total minus the old. */
  lemma {:induction false} ItemsSumUpdate(items: seq<OrderItem>, k: nat, it: OrderItem, orderId: int)
    requires k < |items|
    ensures ItemsSum(items[k := it], orderId) == ItemsSum(items, orderId) - Share(items[k], orderId) + Share(it, orderId)
  {
    if k == 0 {
      assert items[k := it][1..] == items[1..];
    } else {
      assert items[k := it][1..] == items[1..][k - 1 := it];
      ItemsSumUpdate(items[1..], k - 1, it, orderId);
    }
  }

  /** Deleting an item takes its line total off its order's sum. */
  lemma {:induction false} ItemsSumRemove(items: seq<OrderItem>, k: nat, orderId: int)
    requires k < |items|
    ensures ItemsSum(items[..k] + items[k + 1..], orderId) == ItemsSum(items, orderId) - Share(items[k], orderId)
  {
    if k == 0 {
      assert items[..k] + items[k + 1..] == items[1..];
    } else {
      assert (items[..k] + items[k + 1..])[1..] == items[1..][..k - 1] + items[1..][k..];
      ItemsSumRemove(items[1..], k - 1, orderId);
    }
  }

  /** An order with no items sums to zero. */
  lemma {:induction false} ItemsSumNone(items: seq<OrderItem>, orderId: int)
    requires forall k :: 0 <= k < |items| ==> items[k].orderId != orderId
    ensures ItemsSum(items, orderId) == 0
  {
    if items != [] {
      ItemsSumNone(items[1..], orderId);
    }
  }

  /** With no negative quantity or price among its items an order sums to at
      least zero. */
  lemma {:induction false} ItemsSumNonNegative(items: seq<OrderItem>, orderId: int)
    requires forall k :: 0 <= k < |items| && items[k].orderId == orderId ==> items[k].quantity >= 0 && items[k].unitPrice >= 0
    ensures ItemsSum(items, orderId) >= 0
  {
    if items != [] {
      ItemsSumNonNegative(items[1..], orderId);
    }
  }

  /** Every order's `total_amount` is the sum of its lines. */
  ghost predicate TotalsMatch(orders: seq<Order>, items: seq<OrderItem>) {
    forall k :: 0 <= k < |orders| ==> orders[k].total == ItemsSum(items, orders[k].id)
  }

  /** No two orders share an id. */
  ghost predicate DistinctOrders(orders: seq<Order>) {
    forall i, j :: 0 <= i < |orders| && 0 <= j < |orders| && orders[i].id == orders[j].id ==> i == j
  }

  /** Ids handed out by a sequence are distinct. */
  lemma KeyedOrdersDistinct(orders: seq<Order>, next: int)
    requires Keyed(orders, OrderKey, next)
    ensures DistinctOrders(orders)
  {
  }

  /** A new order without items, created with a zero total, agrees with its
      (empty) lines. */
  lemma TotalsAfterNewOrder(orders: seq<Order>, items: seq<OrderItem>, o: Order)
    requires TotalsMatch(orders, items)
    requires o.total == 0 && forall k :: 0 <= k < |items| ==> items[k].orderId != o.id
    ensures TotalsMatch(orders + [o], items)
  {
    ItemsSumNone(items, o.id);
  }

  /** Adding quantity × unit_price to the total of the item's order, and only
      to it, keeps every total equal to its lines. */
  lemma TotalsAfterAdd(orders: seq<Order>, items: seq<OrderItem>, m: nat, it: OrderItem)
    requires TotalsMatch(orders, items) && DistinctOrders(orders)
    requires m < |orders| && it.orderId == orders[m].id
    ensures TotalsMatch(orders[m := orders[m].(total := orders[m].total + LineTotal(it))], items + [it])
  {
    forall j | 0 <= j < |orders| {
      ItemsSumAppend(items, it, orders[j].id);
    }
  }

  /** Moving the order's total by the new line total minus the old one keeps
      every total equal to its lines. */
  lemma TotalsAfterEdit(orders: seq<Order>, items: seq<OrderItem>, m: nat, k: nat, it: OrderItem)
    requires TotalsMatch(orders, items) && DistinctOrders(orders)
    requires m < |orders| && k < |items| && items[k].orderId == orders[m].id && it.orderId == items[k].orderId
    ensures TotalsMatch(orders[m := orders[m].(total := orders[m].total + LineTotal(it) - LineTotal(items[k]))], items[k := it])
  {
    forall j | 0 <= j < |orders| {
      ItemsSumUpdate(items, k, it, orders[j].id);
    }
  }

  /** Taking the line total off the order's total keeps every total equal to
      its lines, and the floor at zero never bites while no line is negative. */
  lemma TotalsAfterRemove(orders: seq<Order>, items: seq<OrderItem>, m: nat, k: nat)
    requires TotalsMatch(orders, items) && DistinctOrders(orders)
    requires m < |orders| && k < |items| && items[k].orderId == orders[m].id
    requires forall j :: 0 <= j < |items| ==> items[j].quantity >= 0 && items[j].unitPrice >= 0
    ensures orders[m].total - LineTotal(items[k]) >= 0
    ensures TotalsMatch(orders[m := orders[m].(total := orders[m].total - LineTotal(items[k]))], items[..k] + items[k + 1..])
  {
    forall j | 0 <= j < |orders| {
      ItemsSumRemove(items, k, orders[j].id);
    }
    ItemsSumNonNegative(items[..k] + items[k + 1..], orders[m].id);
  }

  /** Changes that keep each order's id and total, such as a new status or
      shift, keep the totals in agreement. */
  lemma TotalsAfterRelabel(orders: seq<Order>, changed: seq<Order>, items: seq<OrderItem>)
    requires TotalsMatch(orders, items)
    requires |changed| == |orders|
    requires forall k :: 0 <= k < |orders| ==> changed[k].id == orders[k].id && changed[k].total == orders[k].total
    ensures TotalsMatch(changed, items)
  {
  }

  /** Where a line item and its order sit in their tables. */
  datatype LinePosition = LinePosition(item: nat, order: nat)

  /** The lookups updateOrderItem and deleteOrderItem share: the item must
      exist (404), its order must exist (404) and must not be paid or
      cancelled (400). */
  function LocateLine(items: seq<OrderItem>, orders: seq<Order>, itemId: int): (r: Result<LinePosition>)
    ensures r.Ok? ==>
      && r.value.item < |items| && items[r.value.item].id == itemId
      && r.value.order < |orders| && orders[r.value.order].id == items[r.value.item].orderId
      && !orders[r.value.order].status.IsTerminal()
    ensures (forall k :: 0 <= k < |items| ==> items[k].id != itemId) ==> r == Err(NotFound)
    ensures r.Err? ==> r.error == NotFound || r.error == BadRequest
    ensures r == Err(BadRequest) ==>
      exists k, m :: && 0 <= k < |items| && 0 <= m < |orders|
                     && items[k].id == itemId && orders[m].id == items[k].orderId && orders[m].status.IsTerminal()
  {
    match Find(items, ItemKey, itemId)
    case None => Err(NotFound)
    case Some(k) =>
      match Find(orders, OrderKey, items[k].orderId)
      case None => Err(NotFound)
      case Some(m) => if orders[m].status.IsTerminal() then Err(BadRequest) else Ok(LinePosition(k, m))
  }

  /** With unique keys the lookup fails only as it should: 404 exactly when
      the item or its order is missing, 400 exactly when the order is paid
      or cancelled. */
  lemma LocateLineComplete(items: seq<OrderItem>, nextItem: int, orders: seq<Order>, nextOrder: int, itemId: int, k: nat, m: nat)
    requires Keyed(items, ItemKey, nextItem) && Keyed(orders, OrderKey, nextOrder)
    requires k < |items| && items[k].id == itemId && m < |orders| && orders[m].id == items[k].orderId
    ensures orders[m].status.IsTerminal() ==> LocateLine(items, orders, itemId) == Err(BadRequest)
    ensures !orders[m].status.IsTerminal() ==> LocateLine(items, orders, itemId) == Ok(LinePosition(k, m))
  {
  }

  /** Line ids strictly increase along the sequence: `ORDER BY oi.id`. */
  predicate AscendingIds(items: seq<OrderItem>) {
    forall i, j :: 0 <= i < j < |items| ==> items[i].id < items[j].id
  }

  /** `WHERE order_id = $1`: every line of the order as many times as it is
      stored, and no other line. */
  function ItemsOf(items: seq<OrderItem>, orderId: int): (r: seq<OrderItem>)
    ensures forall x :: x in r <==> x in items && x.orderId == orderId
    ensures forall x {:trigger multiset(r)[x]} :: multiset(r)[x] == if x.orderId == orderId then multiset(items)[x] else 0
    ensures r == [] <==> forall x :: x in items ==> x.orderId != orderId
  {
    if items == [] then []
    else
      var rest := ItemsOf(items[1..], orderId);
      assert items == [items[0]] + items[1..];
      if items[0].orderId == orderId then [items[0]] + rest else rest
  }

  /** Lines stored in ascending id are selected in ascending id, so
      `ORDER BY oi.id` holds of the selection. */
  lemma {:induction false} ItemsOfAscending(items: seq<OrderItem>, orderId: int)
    requires AscendingIds(items)
    ensures AscendingIds(ItemsOf(items, orderId))
  {
    if items != [] {
      ItemsOfAscending(items[1..], orderId);
      var rest := ItemsOf(items[1..], orderId);
      forall k | 0 <= k < |rest| ensures items[0].id < rest[k].id {
        assert rest[k] in items[1..];
      }
    }
  }

  /** An order header joined with the number of its table. */
  datatype OrderRow = OrderRow(order: Order, tableNumber: Option<int>)

  /** An order, the number of its table and its items (getOrderById). */
  datatype OrderDetail = OrderDetail(order: Order, tableNumber: Option<int>, items: seq<OrderItem>)

  /** One kitchen-screen row: an active order with one of its items, or with
      no item when it has none (`LEFT JOIN order_items`). */
  datatype KitchenRow = KitchenRow(order: Order, tableNumber: Option<int>, item: Option<OrderItem>)

  function RowOf(o: Order, tables: seq<Table>): OrderRow {
    OrderRow(o, TableNumberOf(tables, o.tableId))
  }

  /** `WHERE status IN ('open','in_preparation','ready')`. */
  function ActiveOf(orders: seq<Order>): (r: seq<Order>)
    ensures forall o :: o in r <==> o in orders && o.status.IsActive()
    ensures forall o :: multiset(r)[o] == if o.status.IsActive() then multiset(orders)[o] else 0
  {
    if orders == [] then []
    else
      var rest := ActiveOf(orders[1..]);
      assert orders == [orders[0]] + orders[1..];
      if orders[0].status.IsActive() then [orders[0]] + rest else rest
  }

  function NewestFirst(a: OrderRow, b: OrderRow): bool { a.order.openedAt >= b.order.openedAt }

  /** The header rows of the orders `os`, in their order. */
  function RowsOf(os: seq<Order>, tables: seq<Table>): (r: seq<OrderRow>)
    ensures forall row :: row in r <==> row.order in os && row == RowOf(row.order, tables)
    ensures forall o :: multiset(r)[RowOf(o, tables)] == multiset(os)[o]
  {
    if os == [] then []
    else
      assert os == [os[0]] + os[1..];
      [RowOf(os[0], tables)] + RowsOf(os[1..], tables)
  }

  /** getActiveOrders: exactly the active orders, each with its table number,
      newest first. */
  function ActiveOrders(orders: seq<Order>, tables: seq<Table>): (r: seq<OrderRow>)
    ensures forall row :: row in r <==> row.order in orders && row.order.status.IsActive() && row == RowOf(row.order, tables)
    ensures forall o: Order :: o.status.IsActive() ==> multiset(r)[RowOf(o, tables)] == multiset(orders)[o]
    ensures multiset(r) == multiset(RowsOf(ActiveOf(orders), tables))
    ensures forall i, j :: 0 <= i < j < |r| ==> r[i].order.openedAt >= r[j].order.openedAt
  {
    var rows := RowsOf(ActiveOf(orders), tables);
    assert Total(NewestFirst);
    assert Transitive(NewestFirst);
    var r := SortBy(rows, NewestFirst);
    SortByKeepsRows(rows, NewestFirst);
    forall i, j | 0 <= i < j < |r| ensures r[i].order.openedAt >= r[j].order.openedAt {
      SortedPairwise(r, NewestFirst, i, j);
    }
    r
  }

  /** The active order of table `tableId` opened last, if any. */
  function LatestActiveOn(orders: seq<Order>, tableId: int): (r: Option<Order>)
    ensures r.None? <==> forall o :: o in orders ==> !(o.status.IsActive() && o.tableId == Some(tableId))
    ensures r.Some? ==> r.value in orders && r.value.status.IsActive() && r.value.tableId == Some(tableId)
    ensures r.Some? ==> forall o :: o in orders && o.status.IsActive() && o.tableId == Some(tableId) ==> o.openedAt <= r.value.openedAt
  {
    if orders == [] then None
    else
      var rest := LatestActiveOn(orders[1..], tableId);
      var o := orders[0];
      assert forall x :: x in orders <==> x == o || x in orders[1..];
      if o.status.IsActive() && o.tableId == Some(tableId) && (rest.None? || rest.value.openedAt <= o.openedAt)
      then Some(o)
      else rest
  }

  /** getActiveOrderByTable: the last-opened active order of an existing
      table with its items, or nothing (`{ order: null, items: [] }`). The
      inner join drops orders whose table row is missing. */
  function ActiveOrderByTable(orders: seq<Order>, tables: seq<Table>, items: seq<OrderItem>, tableId: int): (r: Option<OrderDetail>)
    ensures r.None? <==>
      (forall k :: 0 <= k < |tables| ==> tables[k].id != tableId) ||
      (forall o :: o in orders ==> !(o.status.IsActive() && o.tableId == Some(tableId)))
    ensures r.Some? ==>
      var d := r.value;
      && d.order in orders && d.order.status.IsActive() && d.order.tableId == Some(tableId)
      && (forall o :: o in orders && o.status.IsActive() && o.tableId == Some(tableId) ==> o.openedAt <= d.order.openedAt)
      && d.tableNumber.Some? && d.tableNumber == TableNumberOf(tables, Some(tableId))
      && (forall x :: x in d.items <==> x in items && x.orderId == d.order.id)
      && (forall x :: multiset(d.items)[x] == if x.orderId == d.order.id then multiset(items)[x] else 0)
      && (AscendingIds(items) ==> AscendingIds(d.items))
  {
    if Find(tables, TableKey, tableId).None? then None
    else match LatestActiveOn(orders, tableId)
      case None => None
      case Some(o) =>
        assert AscendingIds(items) ==> AscendingIds(ItemsOf(items, o.id)) by {
          if AscendingIds(items) { ItemsOfAscending(items, o.id); }
        }
        Some(OrderDetail(o, TableNumberOf(tables, o.tableId), ItemsOf(items, o.id)))
  }

  /** getOrderById: the order with its table number and its items, or 404. */
  function OrderById(orders: seq<Order>, tables: seq<Table>, items: seq<OrderItem>, id: int): (r: Result<OrderDetail>)
    ensures r.Err? <==> forall k :: 0 <= k < |orders| ==> orders[k].id != id
    ensures r.Err? ==> r.error == NotFound
    ensures r.Ok? ==>
      var d := r.value;
      && d.order in orders && d.order.id == id
      && d.tableNumber == TableNumberOf(tables, d.order.tableId)
      && (forall x :: x in d.items <==> x in items && x.orderId == id)
      && (forall x :: multiset(d.items)[x] == if x.orderId == id then multiset(items)[x] else 0)
      && (AscendingIds(items) ==> AscendingIds(d.items))
  {
    match Find(orders, OrderKey, id)
    case None => Err(NotFound)
    case Some(k) =>
      assert AscendingIds(items) ==> AscendingIds(ItemsOf(items, id)) by {
        if AscendingIds(items) { ItemsOfAscending(items, id); }
      }
      Ok(OrderDetail(orders[k], TableNumberOf(tables, orders[k].tableId), ItemsOf(items, id)))
  }

  /** One kitchen row per line in `its`, each with order `o` and table number
      `tn`. */
  function LineRows(o: Order, tn: Option<int>, its: seq<OrderItem>): (r: seq<KitchenRow>)
    ensures forall row :: row in r <==> row.order == o && row.tableNumber == tn && row.item.Some? && row.item.value in its
    ensures forall x {:trigger multiset(r)[KitchenRow(o, tn, Some(x))]} :: multiset(r)[KitchenRow(o, tn, Some(x))] == multiset(its)[x]
  {
    if its == [] then []
    else
      assert its == [its[0]] + its[1..];
      [KitchenRow(o, tn, Some(its[0]))] + LineRows(o, tn, its[1..])
  }

  /** The kitchen rows of one order: one per line, as often as the line is
      stored, or a single line-less row when the order has no line. */
  function KitchenRowsOfOrder(o: Order, tables: seq<Table>, items: seq<OrderItem>): (r: seq<KitchenRow>)
    ensures forall row :: row in r ==> row.order == o && row.tableNumber == TableNumberOf(tables, o.tableId)
  {
    var its := ItemsOf(items, o.id);
    var tn := TableNumberOf(tables, o.tableId);
    if its == [] then [KitchenRow(o, tn, None)] else LineRows(o, tn, its)
  }

  /** Which rows an order yields, and how often: each stored copy of each of
      its lines once, or the line-less row alone when it has no line. */
  lemma KitchenRowsOfOrderRows(o: Order, tables: seq<Table>, items: seq<OrderItem>)
    ensures forall row :: row in KitchenRowsOfOrder(o, tables, items) <==>
      && row.order == o && row.tableNumber == TableNumberOf(tables, o.tableId)
      && (if ItemsOf(items, o.id) == [] then row.item.None? else row.item.Some? && row.item.value in ItemsOf(items, o.id))
    ensures ItemsOf(items, o.id) == [] ==> KitchenRowsOfOrder(o, tables, items) == [KitchenRow(o, TableNumberOf(tables, o.tableId), None)]
  {
  }

  /** How often an order's rows repeat a line: as often as the line is
      stored when it belongs to the order, never otherwise. */
  lemma KitchenRowsOfOrderLineCount(o: Order, tables: seq<Table>, items: seq<OrderItem>, x: OrderItem)
    ensures multiset(KitchenRowsOfOrder(o, tables, items))[KitchenRow(o, TableNumberOf(tables, o.tableId), Some(x))] ==
            if x.orderId == o.id then multiset(items)[x] else 0
  {
  }

  /** An order's line-less row occurs once exactly when it has no line. */
  lemma KitchenRowsOfOrderBareCount(o: Order, tables: seq<Table>, items: seq<OrderItem>)
    ensures multiset(KitchenRowsOfOrder(o, tables, items))[KitchenRow(o, TableNumberOf(tables, o.tableId), None)] ==
            if ItemsOf(items, o.id) == [] then 1 else 0
  {
    var tn := TableNumberOf(tables, o.tableId);
    if ItemsOf(items, o.id) != [] {
      assert KitchenRow(o, tn, None) !in LineRows(o, tn, ItemsOf(items, o.id));
    }
  }

  /** The kitchen rows of the orders `os`: an order stored `m` times
      contributes `m` rows for each copy of each of its lines, or `m`
      line-less rows when it has no line. */
  function KitchenRowsOf(os: seq<Order>, tables: seq<Table>, items: seq<OrderItem>): seq<KitchenRow> {
    if os == [] then []
    else KitchenRowsOfOrder(os[0], tables, items) + KitchenRowsOf(os[1..], tables, items)
  }

  /** The rows of several orders are the rows of each of them. */
  lemma {:induction false} KitchenRowsOfMembers(os: seq<Order>, tables: seq<Table>, items: seq<OrderItem>)
    ensures forall row :: row in KitchenRowsOf(os, tables, items) <==> row.order in os && row in KitchenRowsOfOrder(row.order, tables, items)
  {
    if os != [] {
      KitchenRowsOfMembers(os[1..], tables, items);
      assert os == [os[0]] + os[1..];
    }
  }

  /** A value occurs in a non-empty sequence once more than in its tail
      when it is the head. */
  lemma HeadCount<T>(s: seq<T>, v: T)
    requires s != []
    ensures multiset(s)[v] == (if s[0] == v then 1 else 0) + multiset(s[1..])[v]
  {
    assert s == [s[0]] + s[1..];
  }

  /** `m` batches of `c` rows, counted batch by batch. */
  function Batches(m: nat, c: nat): nat {
    if m == 0 then 0 else Batches(m - 1, c) + c
  }

  lemma {:induction false} BatchesProduct(m: nat, c: nat)
    ensures Batches(m, c) == m * c
  {
    if m > 0 {
      BatchesProduct(m - 1, c);
    }
  }

  /** The rows of each copy of an order come one batch after another. */
  lemma {:induction false} KitchenLineBatches(os: seq<Order>, tables: seq<Table>, items: seq<OrderItem>, o: Order, x: OrderItem)
    requires x.orderId == o.id
    ensures multiset(KitchenRowsOf(os, tables, items))[KitchenRow(o, TableNumberOf(tables, o.tableId), Some(x))] ==
            Batches(multiset(os)[o], multiset(items)[x])
  {
    if os != [] {
      var line := KitchenRow(o, TableNumberOf(tables, o.tableId), Some(x));
      KitchenLineBatches(os[1..], tables, items, o, x);
      KitchenRowsOfStep(os, tables, items, line);
      HeadCount(os, o);
      if os[0] == o {
        KitchenRowsOfOrderLineCount(o, tables, items, x);
      } else {
        assert line !in KitchenRowsOfOrder(os[0], tables, items);
      }
    }
  }

  /** The rows of `os` are those of its first order followed by the rest. */
  lemma KitchenRowsOfStep(os: seq<Order>, tables: seq<Table>, items: seq<OrderItem>, row: KitchenRow)
    requires os != []
    ensures multiset(KitchenRowsOf(os, tables, items))[row] ==
            multiset(KitchenRowsOfOrder(os[0], tables, items))[row] + multiset(KitchenRowsOf(os[1..], tables, items))[row]
  {
  }

  /** How often a line's kitchen row occurs among the rows of the orders
      `os`: an order stored `m` times yields `m` rows for each stored copy of
      each of its lines, and no row for a line of another order. */
  lemma KitchenLineCount(os: seq<Order>, tables: seq<Table>, items: seq<OrderItem>, o: Order, x: OrderItem)
    ensures multiset(KitchenRowsOf(os, tables, items))[KitchenRow(o, TableNumberOf(tables, o.tableId), Some(x))] ==
            if x.orderId == o.id then multiset(os)[o] * multiset(items)[x] else 0
  {
    if x.orderId == o.id {
      KitchenLineBatches(os, tables, items, o, x);
      BatchesProduct(multiset(os)[o], multiset(items)[x]);
    } else {
      KitchenRowsOfMembers(os, tables, items);
    }
  }

  /** How often an order's line-less kitchen row occurs among the rows of the
      orders `os`: once per stored copy of an order without lines, never for
      an order with lines. */
  lemma {:induction false} KitchenBareCount(os: seq<Order>, tables: seq<Table>, items: seq<OrderItem>, o: Order)
    ensures multiset(KitchenRowsOf(os, tables, items))[KitchenRow(o, TableNumberOf(tables, o.tableId), None)] ==
            if ItemsOf(items, o.id) == [] then multiset(os)[o] else 0
  {
    if os != [] {
      var bare := KitchenRow(o, TableNumberOf(tables, o.tableId), None);
      KitchenBareCount(os[1..], tables, items, o);
      KitchenRowsOfStep(os, tables, items, bare);
      HeadCount(os, o);
      if os[0] == o {
        KitchenRowsOfOrderBareCount(o, tables, items);
      } else {
        assert bare !in KitchenRowsOfOrder(os[0], tables, items);
      }
    }
  }

  /** `ORDER BY o.opened_at ASC, oi.id ASC`; the item-less row of an order
      (a NULL item id) sorts last. */
  function KitchenOrder(a: KitchenRow, b: KitchenRow): bool {
    a.order.openedAt < b.order.openedAt ||
    (a.order.openedAt == b.order.openedAt &&
     (b.item.None? || (a.item.Some? && a.item.value.id <= b.item.value.id)))
  }

  lemma KitchenOrderIsPreorder()
    ensures Total(KitchenOrder) && Transitive(KitchenOrder)
  {
  }

  /** Every kitchen row belongs to an active order: an item of that order, or
      no item when the order has none. */
  lemma KitchenRowsSound(orders: seq<Order>, tables: seq<Table>, items: seq<OrderItem>)
    ensures forall row :: row in KitchenRowsOf(ActiveOf(orders), tables, items) ==>
      && row.order in orders && row.order.status.IsActive()
      && row.tableNumber == TableNumberOf(tables, row.order.tableId)
      && (row.item.Some? ==> row.item.value in items && row.item.value.orderId == row.order.id)
      && (row.item.None? ==> forall x :: x in items ==> x.orderId != row.order.id)
  {
    KitchenRowsOfMembers(ActiveOf(orders), tables, items);
    forall row | row in KitchenRowsOf(ActiveOf(orders), tables, items)
      ensures row.tableNumber == TableNumberOf(tables, row.order.tableId)
      ensures row.item.Some? ==> row.item.value in items && row.item.value.orderId == row.order.id
      ensures row.item.None? ==> forall x :: x in items ==> x.orderId != row.order.id
    {
      KitchenRowsOfOrderRows(row.order, tables, items);
      if row.item.None? {
        assert ItemsOf(items, row.order.id) == [];
      }
    }
  }

  /** Every item of an active order has its kitchen row, and so does every
      active order without items. */
  lemma KitchenRowsComplete(orders: seq<Order>, tables: seq<Table>, items: seq<OrderItem>)
    ensures forall o, x :: o in orders && o.status.IsActive() && x in items && x.orderId == o.id ==>
      KitchenRow(o, TableNumberOf(tables, o.tableId), Some(x)) in KitchenRowsOf(ActiveOf(orders), tables, items)
    ensures forall o :: o in orders && o.status.IsActive() && (forall x :: x in items ==> x.orderId != o.id) ==>
      KitchenRow(o, TableNumberOf(tables, o.tableId), None) in KitchenRowsOf(ActiveOf(orders), tables, items)
  {
    KitchenRowsOfMembers(ActiveOf(orders), tables, items);
    forall o | o in orders && o.status.IsActive() && (forall x :: x in items ==> x.orderId != o.id)
      ensures KitchenRow(o, TableNumberOf(tables, o.tableId), None) in KitchenRowsOfOrder(o, tables, items)
    {
      KitchenRowsOfOrderRows(o, tables, items);
    }
    forall o, x | o in orders && o.status.IsActive() && x in items && x.orderId == o.id
      ensures KitchenRow(o, TableNumberOf(tables, o.tableId), Some(x)) in KitchenRowsOfOrder(o, tables, items)
    {
      KitchenRowsOfOrderRows(o, tables, items);
      assert x in ItemsOf(items, o.id);
    }
  }

  /** getKitchenOrders: one row per item of every active order, and one
      item-less row per active order without items, as often as the unsorted
      join yields it; oldest order first, then by item id. */
  function KitchenOrders(orders: seq<Order>, tables: seq<Table>, items: seq<OrderItem>): (r: seq<KitchenRow>)
    ensures forall row :: row in r ==>
      && row.order in orders && row.order.status.IsActive()
      && row.tableNumber == TableNumberOf(tables, row.order.tableId)
      && (row.item.Some? ==> row.item.value in items && row.item.value.orderId == row.order.id)
      && (row.item.None? ==> forall x :: x in items ==> x.orderId != row.order.id)
    ensures forall o, x :: o in orders && o.status.IsActive() && x in items && x.orderId == o.id ==>
      KitchenRow(o, TableNumberOf(tables, o.tableId), Some(x)) in r
    ensures forall o :: o in orders && o.status.IsActive() && (forall x :: x in items ==> x.orderId != o.id) ==>
      KitchenRow(o, TableNumberOf(tables, o.tableId), None) in r
    ensures multiset(r) == multiset(KitchenRowsOf(ActiveOf(orders), tables, items))
    ensures forall i, j :: 0 <= i < j < |r| ==> KitchenOrder(r[i], r[j])
    ensures forall i, j :: 0 <= i < j < |r| ==> r[i].order.openedAt <= r[j].order.openedAt
  {
    var rows := KitchenRowsOf(ActiveOf(orders), tables, items);
    KitchenOrderIsPreorder();
    KitchenRowsSound(orders, tables, items);
    KitchenRowsComplete(orders, tables, items);
    var r := SortBy(rows, KitchenOrder);
    SortByKeepsRows(rows, KitchenOrder);
    forall i, j | 0 <= i < j < |r| ensures KitchenOrder(r[i], r[j]) {
      SortedPairwise(r, KitchenOrder, i, j);
    }
    r
  }

  /** The kitchen screen shows each line of an active order once per stored
      copy of the order and of the line, and an active order without lines
      once per stored copy; it shows nothing for any other order. */
  lemma KitchenOrdersCount(orders: seq<Order>, tables: seq<Table>, items: seq<OrderItem>, o: Order, x: OrderItem)
    ensures multiset(KitchenOrders(orders, tables, items))[KitchenRow(o, TableNumberOf(tables, o.tableId), Some(x))] ==
            if o.status.IsActive() && x.orderId == o.id then multiset(orders)[o] * multiset(items)[x] else 0
    ensures multiset(KitchenOrders(orders, tables, items))[KitchenRow(o, TableNumberOf(tables, o.tableId), None)] ==
            if o.status.IsActive() && ItemsOf(items, o.id) == [] then multiset(orders)[o] else 0
  {
    KitchenLineCount(ActiveOf(orders), tables, items, o, x);
    KitchenBareCount(ActiveOf(orders), tables, items, o);
  }
}
