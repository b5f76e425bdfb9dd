/** The restaurant backend's database as one in-memory store, with each
    writing Express handler of the four controllers as a method. A handler
    takes the request's fields as parameters and returns the row it answers
    with or the error kind. Every handler checks before it writes, so a failed
    call leaves the store exactly as it was (the transaction rolls back). */
module StoreModel {
  import opened Common
  import opened Rows
  import opened Tables
  import opened Orders
  import opened Shifts
  import opened Menu

  /** What closeShift answers: the closed shift and its number of paid orders. */
  datatype Closing = Closing(shift: Shift, paidOrders: nat)

  /** The request of createOrder passes the handler's own validation: a known
      order type, a waiter, and a table for a dine-in order. */
  predicate OrderRequestValid(tableId: Option<int>, orderType: string, waiterId: Option<int>)
    ensures OrderRequestValid(tableId, orderType, waiterId) ==> ParseOrderType(orderType).Some? && waiterId.Some?
    ensures OrderRequestValid(tableId, orderType, waiterId) && ParseOrderType(orderType) == Some(DineIn) ==>
      tableId.Some? && IdOrNull(tableId) == tableId
  {
    && ParseOrderType(orderType).Some?
    && Given(waiterId)
    && (ParseOrderType(orderType) == Some(DineIn) ==> Given(tableId))
  }

  /** The quantity passes addOrderItem's guard: missing, zero and negative
      quantities are refused; a non-numeric one slips through. */
  predicate QuantityPassesAdd(quantity: Numeric)
    ensures QuantityPassesAdd(quantity) <==> !quantity.Absent? && QuantityPassesUpdate(quantity)
  {
    quantity.NotANumber? || (quantity.Num? && quantity.n > 0)
  }

  /** A supplied quantity passes updateOrderItem's guard. */
  predicate QuantityPassesUpdate(quantity: Numeric)
    ensures quantity.Absent? ==> QuantityPassesUpdate(quantity)
    ensures QuantityPassesUpdate(quantity) && quantity.Num? ==> quantity.n > 0
  {
    !(quantity.Num? && quantity.n <= 0)
  }

  /** The item after updateOrderItem: supplied fields replace, the others keep
      their value. */
  function Edited(it: OrderItem, quantity: Numeric, unitPrice: Numeric,
                  meatType: Option<string>, customizations: Option<string>, notes: Option<string>): (e: OrderItem)
    requires !quantity.NotANumber? && !unitPrice.NotANumber?
    ensures e.id == it.id && e.orderId == it.orderId && e.menuItemId == it.menuItemId
    ensures it.quantity > 0 && QuantityPassesUpdate(quantity) ==> e.quantity > 0
  {
    it.(quantity := if quantity.Num? then quantity.n else it.quantity,
        unitPrice := if unitPrice.Num? then unitPrice.n else it.unitPrice,
        meatType := if meatType.Some? then meatType else it.meatType,
        customizations := if customizations.Some? then customizations else it.customizations,
        notes := if notes.Some? then notes else it.notes)
  }

  /** closeShift's back-fill, `UPDATE orders SET shift_id = $1 WHERE
      shift_id IS NULL AND opened_at BETWEEN ...`, row by row: exactly the
      shift-less orders opened in `[from, until]` join the shift, and each
      order keeps its id and total. */
  method AdoptOrphans(orders: seq<Order>, shiftId: int, from: int, until: int) returns (adopted: seq<Order>)
    ensures adopted == Backfill(orders, shiftId, from, until)
    ensures |adopted| == |orders|
    ensures forall k :: 0 <= k < |orders| ==> adopted[k].id == orders[k].id && adopted[k].total == orders[k].total
  {
    adopted := orders;
    var i := 0;
    while i < |adopted|
      invariant 0 <= i <= |adopted| == |orders|
      invariant forall j :: 0 <= j < i ==> adopted[j] == Adopted(orders[j], shiftId, from, until)
      invariant forall j :: i <= j < |adopted| ==> adopted[j] == orders[j]
    {
      var o := adopted[i];
      if o.shiftId.None? && from <= o.openedAt <= until {
        adopted := adopted[i := o.(shiftId := Some(shiftId))];
      }
      i := i + 1;
    }
  }

  /** The database's invariant: keys are unique and below their sequence's
      next value, table numbers and category names are unique, at most one
      shift is open, and every line item belongs to an order already created
      and has a positive quantity. */
  ghost predicate Consistent(
    tables: seq<Table>, nextTableId: int, shifts: seq<Shift>, nextShiftId: int,
    orders: seq<Order>, nextOrderId: int, items: seq<OrderItem>, nextItemId: int,
    categories: seq<Category>, nextCategoryId: int, menuItems: seq<MenuItem>, nextMenuItemId: int)
  {
    && Keyed(tables, TableKey, nextTableId) && NumbersUnique(tables)
    && Keyed(shifts, ShiftKey, nextShiftId) && AtMostOneOpen(shifts)
    && Keyed(orders, OrderKey, nextOrderId)
    && Keyed(items, ItemKey, nextItemId)
    && (forall k :: 0 <= k < |items| ==> items[k].orderId < nextOrderId && items[k].quantity > 0)
    && Keyed(categories, CategoryKey, nextCategoryId) && NamesUnique(categories)
    && Keyed(menuItems, MenuItemKey, nextMenuItemId)
  }

  /** The empty database, every sequence starting at 1, is consistent and its
      (no) orders agree with their (no) lines. */
  lemma EmptyConsistent()
    ensures Consistent([], 1, [], 1, [], 1, [], 1, [], 1, [], 1)
    ensures TotalsMatch([], [])
  {
  }

  class Store {
    /** The user directory (`users`), consulted by the shift handlers. */
    const users: set<int>
    /** The column default of `restaurant_tables.status`. */
    const tableDefault: TableStatus

    var tables: seq<Table>
    var shifts: seq<Shift>
    var orders: seq<Order>
    var items: seq<OrderItem>
    var categories: seq<Category>
    var menuItems: seq<MenuItem>

    /** The next value of each table's id sequence. */
    var nextTableId: int
    var nextShiftId: int
    var nextOrderId: int
    var nextItemId: int
    var nextCategoryId: int
    var nextMenuItemId: int

    /** The store's invariant, on the current rows and sequences. */
    ghost predicate Valid()
      reads this
    {
      Consistent(tables, nextTableId, shifts, nextShiftId, orders, nextOrderId, items, nextItemId,
                 categories, nextCategoryId, menuItems, nextMenuItemId)
    }

    /** Every order's `total_amount` is the sum of its lines. */
    ghost predicate TotalsAgree()
      reads this
    {
      TotalsMatch(orders, items)
    }

    constructor (users: set<int>, tableDefault: TableStatus)
      ensures Valid()
      ensures TotalsAgree()
      ensures this.users == users && this.tableDefault == tableDefault
      ensures tables == [] && shifts == [] && orders == [] && items == [] && categories == [] && menuItems == []
    {
      EmptyConsistent();
      this.users := users;
      this.tableDefault := tableDefault;
      tables, shifts, orders, items, categories, menuItems := [], [], [], [], [], [];
      nextTableId, nextShiftId, nextOrderId, nextItemId, nextCategoryId, nextMenuItemId := 1, 1, 1, 1, 1, 1;
    }

    // ---------------------------------------------------------------------
    // Row writes: the INSERT, UPDATE and DELETE statements the handlers
    // issue, each keeping the store's invariant.
    // ---------------------------------------------------------------------

    /** `INSERT INTO restaurant_tables`, under a fresh id and an unused number. */
    method InsertTable(t: Table)
      requires Valid() && t.id == nextTableId && !NumberTaken(tables, t.number)
      modifies this`tables, this`nextTableId
      ensures Valid()
      ensures tables == old(tables) + [t] && nextTableId == old(nextTableId) + 1
    {
      KeyedAppend(tables, TableKey, nextTableId, t);
      tables := tables + [t];
      nextTableId := nextTableId + 1;
    }

    /** `UPDATE restaurant_tables SET status`. */
    method SetTableStatus(k: nat, status: TableStatus)
      requires Valid() && k < |tables|
      modifies this`tables
      ensures Valid()
      ensures tables == old(tables)[k := old(tables)[k].(status := status)]
    {
      KeyedUpdate(tables, TableKey, nextTableId, k, tables[k].(status := status));
      tables := tables[k := tables[k].(status := status)];
    }

    /** `INSERT INTO shifts` of the one open shift. */
    method InsertShift(s: Shift)
      requires Valid() && s.id == nextShiftId && CurrentShift(shifts).None?
      modifies this`shifts, this`nextShiftId
      ensures Valid()
      ensures shifts == old(shifts) + [s] && nextShiftId == old(nextShiftId) + 1
    {
      KeyedAppend(shifts, ShiftKey, nextShiftId, s);
      shifts := shifts + [s];
      nextShiftId := nextShiftId + 1;
    }

    /** `UPDATE shifts SET ... status = 'closed'`. */
    method SetClosedShift(k: nat, s: Shift)
      requires Valid() && k < |shifts| && s.id == shifts[k].id && s.status == ShiftClosed
      modifies this`shifts
      ensures Valid()
      ensures shifts == old(shifts)[k := s]
    {
      KeyedUpdate(shifts, ShiftKey, nextShiftId, k, s);
      shifts := shifts[k := s];
    }

    /** `INSERT INTO orders`, under a fresh id. */
    method InsertOrder(o: Order)
      requires Valid() && o.id == nextOrderId
      modifies this`orders, this`nextOrderId
      ensures Valid()
      ensures orders == old(orders) + [o] && nextOrderId == old(nextOrderId) + 1
    {
      KeyedAppend(orders, OrderKey, nextOrderId, o);
      orders := orders + [o];
      nextOrderId := nextOrderId + 1;
    }

    /** `UPDATE orders`: any columns but the id. */
    method SetOrders(os: seq<Order>)
      requires Valid() && |os| == |orders|
      requires forall k :: 0 <= k < |os| ==> os[k].id == orders[k].id
      modifies this`orders
      ensures Valid()
      ensures orders == os
    {
      orders := os;
    }

    /** `UPDATE orders` of one row: any columns but the id. */
    method SetOrder(k: nat, o: Order)
      requires Valid() && k < |orders| && o.id == orders[k].id
      modifies this`orders
      ensures Valid()
      ensures orders == old(orders)[k := o]
    {
      KeyedUpdate(orders, OrderKey, nextOrderId, k, o);
      orders := orders[k := o];
    }

    /** `INSERT INTO order_items`, under a fresh id, for an existing order id. */
    method InsertItem(it: OrderItem)
      requires Valid() && it.id == nextItemId && it.orderId < nextOrderId && it.quantity > 0
      modifies this`items, this`nextItemId
      ensures Valid()
      ensures items == old(items) + [it] && nextItemId == old(nextItemId) + 1
    {
      KeyedAppend(items, ItemKey, nextItemId, it);
      items := items + [it];
      nextItemId := nextItemId + 1;
    }

    /** `UPDATE order_items`: the item stays with its order and keeps a
        positive quantity. */
    method SetItem(k: nat, it: OrderItem)
      requires Valid() && k < |items| && it.id == items[k].id && it.orderId == items[k].orderId && it.quantity > 0
      modifies this`items
      ensures Valid()
      ensures items == old(items)[k := it]
    {
      KeyedUpdate(items, ItemKey, nextItemId, k, it);
      items := items[k := it];
    }

    /** `DELETE FROM order_items`. */
    method RemoveItem(k: nat)
      requires Valid() && k < |items|
      modifies this`items
      ensures Valid()
      ensures items == old(items)[..k] + old(items)[k + 1..]
    {
      KeyedRemove(items, ItemKey, nextItemId, k);
      items := items[..k] + items[k + 1..];
    }

    /** Inserting a line and adding its line total to its order's total,
        as addOrderItem's transaction does. */
    method RecordLine(m: nat, it: OrderItem)
      requires Valid() && m < |orders| && it.orderId == orders[m].id
      requires it.id == nextItemId && it.quantity > 0
      modifies this`items, this`nextItemId, this`orders
      ensures Valid()
      ensures items == old(items) + [it] && nextItemId == old(nextItemId) + 1
      ensures orders == old(orders)[m := old(orders)[m].(total := old(orders)[m].total + LineTotal(it))]
      ensures old(TotalsAgree()) ==> TotalsAgree()
    {
      var o := orders[m].(total := orders[m].total + LineTotal(it));
      ghost var its, os := items + [it], orders[m := o];
      ghost var agreed := TotalsAgree();
      if agreed {
        KeyedOrdersDistinct(orders, nextOrderId);
        TotalsAfterAdd(orders, items, m, it);
      }
      InsertItem(it);
      assert items == its;
      SetOrder(m, o);
      assert orders == os;
    }

    /** Replacing a line and moving its order's total by the difference of
        the line totals, as updateOrderItem's transaction does. */
    method ReviseLine(m: nat, k: nat, it: OrderItem)
      requires Valid() && m < |orders| && k < |items| && items[k].orderId == orders[m].id
      requires it.id == items[k].id && it.orderId == items[k].orderId && it.quantity > 0
      modifies this`items, this`orders
      ensures Valid()
      ensures items == old(items)[k := it]
      ensures orders == old(orders)[m := old(orders)[m].(total := old(orders)[m].total + LineTotal(it) - LineTotal(old(items)[k]))]
      ensures old(TotalsAgree()) ==> TotalsAgree()
    {
      var o := orders[m].(total := orders[m].total + LineTotal(it) - LineTotal(items[k]));
      ghost var its, os := items[k := it], orders[m := o];
      ghost var agreed := TotalsAgree();
      if agreed {
        KeyedOrdersDistinct(orders, nextOrderId);
        TotalsAfterEdit(orders, items, m, k, it);
      }
      SetItem(k, it);
      assert items == its;
      SetOrder(m, o);
      assert orders == os;
    }

    /** Deleting a line and taking its line total off its order's total, not
        below zero, as deleteOrderItem's transaction does. */
    method DropLine(m: nat, k: nat)
      requires Valid() && m < |orders| && k < |items| && items[k].orderId == orders[m].id
      modifies this`items, this`orders
      ensures Valid()
      ensures items == old(items)[..k] + old(items)[k + 1..]
      ensures var lowered := old(orders)[m].total - LineTotal(old(items)[k]);
        orders == old(orders)[m := old(orders)[m].(total := if lowered < 0 then 0 else lowered)]
      ensures old(TotalsAgree()) && (forall j :: 0 <= j < |old(items)| ==> old(items)[j].unitPrice >= 0) ==> TotalsAgree()
    {
      var lowered := orders[m].total - LineTotal(items[k]);
      var o := orders[m].(total := if lowered < 0 then 0 else lowered);
      ghost var its, os := items[..k] + items[k + 1..], orders[m := o];
      if TotalsAgree() && (forall j :: 0 <= j < |items| ==> items[j].unitPrice >= 0) {
        KeyedOrdersDistinct(orders, nextOrderId);
        TotalsAfterRemove(orders, items, m, k);
      }
      RemoveItem(k);
      assert items == its;
      SetOrder(m, o);
      assert orders == os;
    }

    /** `INSERT INTO menu_categories`, under a fresh id and an unused name. */
    method InsertCategory(c: Category)
      requires Valid() && c.id == nextCategoryId && !NameTaken(categories, c.name, None)
      modifies this`categories, this`nextCategoryId
      ensures Valid()
      ensures categories == old(categories) + [c] && nextCategoryId == old(nextCategoryId) + 1
    {
      KeyedAppend(categories, CategoryKey, nextCategoryId, c);
      categories := categories + [c];
      nextCategoryId := nextCategoryId + 1;
    }

    /** `UPDATE menu_categories SET name`, to a name no other category has. */
    method SetCategory(k: nat, c: Category)
      requires Valid() && k < |categories| && c.id == categories[k].id && !NameTaken(categories, c.name, Some(c.id))
      modifies this`categories
      ensures Valid()
      ensures categories == old(categories)[k := c]
    {
      KeyedUpdate(categories, CategoryKey, nextCategoryId, k, c);
      categories := categories[k := c];
    }

    /** `DELETE FROM menu_categories`. */
    method RemoveCategory(k: nat)
      requires Valid() && k < |categories|
      modifies this`categories
      ensures Valid()
      ensures categories == old(categories)[..k] + old(categories)[k + 1..]
    {
      KeyedRemove(categories, CategoryKey, nextCategoryId, k);
      categories := categories[..k] + categories[k + 1..];
    }

    /** `INSERT INTO menu_items`, under a fresh id. */
    method InsertMenuItem(it: MenuItem)
      requires Valid() && it.id == nextMenuItemId
      modifies this`menuItems, this`nextMenuItemId
      ensures Valid()
      ensures menuItems == old(menuItems) + [it] && nextMenuItemId == old(nextMenuItemId) + 1
    {
      KeyedAppend(menuItems, MenuItemKey, nextMenuItemId, it);
      menuItems := menuItems + [it];
      nextMenuItemId := nextMenuItemId + 1;
    }

    /** `UPDATE menu_items`: any columns but the id. */
    method SetMenuItem(k: nat, it: MenuItem)
      requires Valid() && k < |menuItems| && it.id == menuItems[k].id
      modifies this`menuItems
      ensures Valid()
      ensures menuItems == old(menuItems)[k := it]
    {
      KeyedUpdate(menuItems, MenuItemKey, nextMenuItemId, k, it);
      menuItems := menuItems[k := it];
    }

    // ---------------------------------------------------------------------
    // Table registry
    // ---------------------------------------------------------------------

    /** createTable: a missing, zero or non-numeric number is refused, a
        number already in use conflicts; otherwise a new table with that
        number and the column's default status is added. */
    method CreateTable(number: Numeric) returns (r: Result<Table>)
      requires Valid()
      modifies this`tables, this`nextTableId
      ensures Valid()
      ensures r.Err? ==> unchanged(this)
      ensures !(number.Num? && number.n != 0) ==> r == Err(BadRequest)
      ensures number.Num? && number.n != 0 && NumberTaken(old(tables), number.n) ==> r == Err(Conflict)
      ensures r.Ok? <==> number.Num? && number.n != 0 && !NumberTaken(old(tables), number.n)
      ensures r.Ok? ==>
        && r.value == Table(old(nextTableId), number.n, tableDefault)
        && tables == old(tables) + [r.value]
    {
      if !(number.Num? && number.n != 0) {
        return Err(BadRequest);
      }
      if NumberTaken(tables, number.n) {
        return Err(Conflict);
      }
      var t := Table(nextTableId, number.n, tableDefault);
      InsertTable(t);
      r := Ok(t);
    }

    /** updateTableStatus: the status is checked before the table is looked
        up; the table's status is overwritten whatever it was, and nothing
        else changes. */
    method UpdateTableStatus(id: int, status: string) returns (r: Result<Table>)
      requires Valid()
      modifies this`tables
      ensures Valid()
      ensures r.Err? ==> unchanged(this)
      ensures ParseTableStatus(status).None? ==> r == Err(BadRequest)
      ensures ParseTableStatus(status).Some? && Find(old(tables), TableKey, id).None? ==> r == Err(NotFound)
      ensures r.Ok? <==> ParseTableStatus(status).Some? && Find(old(tables), TableKey, id).Some?
      ensures r.Ok? ==>
        var k := Find(old(tables), TableKey, id).value;
        && tables == old(tables)[k := old(tables)[k].(status := ParseTableStatus(status).value)]
        && r.value == tables[k]
    {
      var s := ParseTableStatus(status);
      if s.None? {
        return Err(BadRequest);
      }
      var k := Find(tables, TableKey, id);
      if k.None? {
        return Err(NotFound);
      }
      var t := tables[k.value].(status := s.value);
      SetTableStatus(k.value, s.value);
      r := Ok(t);
    }

    // ---------------------------------------------------------------------
    // Shift ledger
    // ---------------------------------------------------------------------

    /** openShift: the opener must be given and known (400); a shift already
        open conflicts (409); otherwise a new open shift with no sales starts
        at the given time or now, and it is the current shift. */
    method OpenShift(openedBy: Option<int>, openedAt: Option<int>, now: int) returns (r: Result<Shift>)
      requires Valid()
      modifies this`shifts, this`nextShiftId
      ensures Valid()
      ensures r.Err? ==> unchanged(this)
      ensures !Given(openedBy) || openedBy.value !in users ==> r == Err(BadRequest)
      ensures Given(openedBy) && openedBy.value in users && CurrentShift(old(shifts)).Some? ==> r == Err(Conflict)
      ensures r.Ok? <==> Given(openedBy) && openedBy.value in users && CurrentShift(old(shifts)).None?
      ensures r.Ok? ==>
        && r.value == Shift(old(nextShiftId), openedBy.value, None, openedAt.GetOr(now), None, ShiftOpen, 0)
        && shifts == old(shifts) + [r.value]
        && CurrentShift(shifts) == Some(r.value)
    {
      if !Given(openedBy) || openedBy.value !in users {
        return Err(BadRequest);
      }
      if CurrentShift(shifts).Some? {
        return Err(Conflict);
      }
      var s := Shift(nextShiftId, openedBy.value, None, openedAt.GetOr(now), None, ShiftOpen, 0);
      InsertShift(s);
      r := Ok(s);
    }

    /** closeShift: the closer must be given and known (400) and a shift must
        be open (409). The open shift adopts the shift-less orders opened in
        its window, is settled with the sales of its paid orders, and is
        closed at the given time or now. */
    method CloseShift(closedBy: Option<int>, closedAt: Option<int>, now: int) returns (r: Result<Closing>)
      requires Valid()
      modifies this`shifts, this`orders
      ensures Valid()
      ensures r.Err? ==> unchanged(this)
      ensures !Given(closedBy) || closedBy.value !in users ==> r == Err(BadRequest)
      ensures Given(closedBy) && closedBy.value in users && CurrentShift(old(shifts)).None? ==> r == Err(Conflict)
      ensures r.Ok? <==> Given(closedBy) && closedBy.value in users && CurrentShift(old(shifts)).Some?
      ensures r.Ok? ==>
        var k := OpenShiftIndex(old(shifts)).value;
        var s := old(shifts)[k];
        var until := closedAt.GetOr(now);
        && orders == Backfill(old(orders), s.id, s.openedAt, until)
        && r.value.shift == s.(closedBy := closedBy, closedAt := Some(until), status := ShiftClosed,
                               totalSales := PaidSales(orders, s.id))
        && r.value.shift.totalSales == PaidSales(old(orders), s.id) + OrphanSales(old(orders), s.openedAt, until)
        && r.value.paidOrders == Count(orders, s.id, {Paid})
        && shifts == old(shifts)[k := r.value.shift]
        && CurrentShift(shifts).None?
      ensures old(TotalsAgree()) ==> TotalsAgree()
    {
      if !Given(closedBy) || closedBy.value !in users {
        return Err(BadRequest);
      }
      var open := OpenShiftIndex(shifts);
      if open.None? {
        return Err(Conflict);
      }
      var k := open.value;
      var s := shifts[k];
      var until := closedAt.GetOr(now);
      var adopted := AdoptOrphans(orders, s.id, s.openedAt, until);
      if TotalsAgree() {
        TotalsAfterRelabel(orders, adopted, items);
      }
      BackfillSettles(orders, s.id, s.openedAt, until);
      var closed := s.(closedBy := closedBy, closedAt := Some(until), status := ShiftClosed,
                       totalSales := PaidSales(adopted, s.id));
      ghost var closedShifts := shifts[k := closed];
      SetOrders(adopted);
      SetClosedShift(k, closed);
      assert shifts == closedShifts;
      r := Ok(Closing(closed, Count(adopted, s.id, {Paid})));
    }

    // ---------------------------------------------------------------------
    // Order lifecycle
    // ---------------------------------------------------------------------

    /** createOrder: the request is validated first (400), then a shift must
        be open (409), then a dine-in order's table must exist (404) and be
        free (409). The new order is open, totals zero, belongs to the open
        shift, and its table, and no other, becomes occupied. */
    method CreateOrder(tableId: Option<int>, orderType: string, waiterId: Option<int>, notes: Option<string>, now: int)
      returns (r: Result<Order>)
      requires Valid()
      modifies this`orders, this`nextOrderId, this`tables
      ensures Valid()
      ensures r.Err? ==> unchanged(this)
      ensures !OrderRequestValid(tableId, orderType, waiterId) ==> r == Err(BadRequest)
      ensures OrderRequestValid(tableId, orderType, waiterId) && CurrentShift(old(shifts)).None? ==> r == Err(Conflict)
      ensures OrderRequestValid(tableId, orderType, waiterId) && CurrentShift(old(shifts)).Some?
              && ParseOrderType(orderType) == Some(DineIn) ==>
        match Find(old(tables), TableKey, tableId.value)
        case None => r == Err(NotFound)
        case Some(k) => old(tables)[k].status != Free <==> r == Err(Conflict)
      ensures r.Ok? <==>
        && OrderRequestValid(tableId, orderType, waiterId) && CurrentShift(old(shifts)).Some?
        && (ParseOrderType(orderType) == Some(DineIn) ==>
              var k := Find(old(tables), TableKey, tableId.value);
              k.Some? && old(tables)[k.value].status == Free)
      ensures r.Ok? ==>
        && OrderRequestValid(tableId, orderType, waiterId) && CurrentShift(old(shifts)).Some?
        && r.value == Order(old(nextOrderId), IdOrNull(tableId), Some(CurrentShift(old(shifts)).value.id),
                            ParseOrderType(orderType).value, waiterId.value, Open, now, None, TextOrNull(notes), 0)
        && orders == old(orders) + [r.value]
      ensures r.Ok? && ParseOrderType(orderType) == Some(DineIn) ==>
        var k := Find(old(tables), TableKey, tableId.value);
        && k.Some? && old(tables)[k.value].status == Free
        && tables == old(tables)[k.value := old(tables)[k.value].(status := Occupied)]
      ensures r.Ok? && ParseOrderType(orderType) != Some(DineIn) ==> tables == old(tables)
      ensures old(TotalsAgree()) ==> TotalsAgree()
    {
      var orderTypeParsed := ParseOrderType(orderType);
      if orderTypeParsed.None? {
        return Err(BadRequest);
      }
      var kind := orderTypeParsed.value;
      if !Given(waiterId) {
        return Err(BadRequest);
      }
      if kind == DineIn && !Given(tableId) {
        return Err(BadRequest);
      }
      var shift := CurrentShift(shifts);
      if shift.None? {
        return Err(Conflict);
      }
      var tableIndex: Option<nat> := None;
      if kind == DineIn {
        tableIndex := Find(tables, TableKey, tableId.value);
        if tableIndex.None? {
          return Err(NotFound);
        }
        if tables[tableIndex.value].status != Free {
          return Err(Conflict);
        }
      }
      var o := Order(nextOrderId, IdOrNull(tableId), Some(shift.value.id), kind, waiterId.value,
                     Open, now, None, TextOrNull(notes), 0);
      if TotalsAgree() {
        TotalsAfterNewOrder(orders, items, o);
      }
      InsertOrder(o);
      if kind == DineIn {
        SetTableStatus(tableIndex.value, Occupied);
      }
      r := Ok(o);
    }

    /** addOrderItem: a missing or non-positive quantity or a missing or
        non-numeric price is refused (400), then the order must exist (404)
        and not be paid or cancelled (400). The item is inserted and the
        order's total grows by exactly quantity × unit_price. A non-numeric
        quantity passes the guard and is refused by the integer column. */
    method AddOrderItem(orderId: int, menuItemId: Option<int>, meatType: Option<string>, customizations: Option<string>,
                        quantity: Numeric, unitPrice: Numeric, notes: Option<string>)
      returns (r: Result<OrderItem>)
      requires Valid()
      modifies this`items, this`nextItemId, this`orders
      ensures Valid()
      ensures r.Err? ==> unchanged(this)
      ensures !QuantityPassesAdd(quantity) ==> r == Err(BadRequest)
      ensures QuantityPassesAdd(quantity) && !unitPrice.Num? ==> r == Err(BadRequest)
      ensures QuantityPassesAdd(quantity) && unitPrice.Num? ==>
        match Find(old(orders), OrderKey, orderId)
        case None => r == Err(NotFound)
        case Some(k) =>
          if old(orders)[k].status.IsTerminal() then r == Err(BadRequest)
          else quantity.NotANumber? <==> r == Err(Rejected)
      ensures r.Ok? <==>
        && quantity.Num? && quantity.n > 0 && unitPrice.Num?
        && Find(old(orders), OrderKey, orderId).Some?
        && !old(orders)[Find(old(orders), OrderKey, orderId).value].status.IsTerminal()
      ensures r.Ok? ==>
        var k := Find(old(orders), OrderKey, orderId).value;
        && quantity.Num? && quantity.n > 0 && unitPrice.Num?
        && !old(orders)[k].status.IsTerminal()
        && r.value == OrderItem(old(nextItemId), orderId, IdOrNull(menuItemId), TextOrNull(meatType),
                                TextOrNull(customizations), quantity.n, unitPrice.n, TextOrNull(notes))
        && items == old(items) + [r.value]
        && orders == old(orders)[k := old(orders)[k].(total := old(orders)[k].total + quantity.n * unitPrice.n)]
      ensures old(TotalsAgree()) ==> TotalsAgree()
    {
      if !QuantityPassesAdd(quantity) {
        return Err(BadRequest);
      }
      if !unitPrice.Num? {
        return Err(BadRequest);
      }
      var found := Find(orders, OrderKey, orderId);
      if found.None? {
        return Err(NotFound);
      }
      var k := found.value;
      if orders[k].status.IsTerminal() {
        return Err(BadRequest);
      }
      if quantity.NotANumber? {
        return Err(Rejected);
      }
      var it := OrderItem(nextItemId, orderId, IdOrNull(menuItemId), TextOrNull(meatType),
                          TextOrNull(customizations), quantity.n, unitPrice.n, TextOrNull(notes));
      RecordLine(k, it);
      r := Ok(it);
    }

    /** updateOrderItem: the item must exist (404), its order must exist
        (404) and not be paid or cancelled (400), a supplied quantity must be
        positive and a supplied price numeric (400). Supplied fields replace,
        the others keep their value, and the order's total moves by the new
        line total minus the old one. */
    method UpdateOrderItem(itemId: int, quantity: Numeric, unitPrice: Numeric,
                           meatType: Option<string>, customizations: Option<string>, notes: Option<string>)
      returns (r: Result<OrderItem>)
      requires Valid()
      modifies this`items, this`orders
      ensures Valid()
      ensures r.Err? ==> unchanged(this)
      ensures LocateLine(old(items), old(orders), itemId).Err? ==> r == Err(LocateLine(old(items), old(orders), itemId).error)
      ensures LocateLine(old(items), old(orders), itemId).Ok? ==>
        if !QuantityPassesUpdate(quantity) || unitPrice.NotANumber? then r == Err(BadRequest)
        else quantity.NotANumber? <==> r == Err(Rejected)
      ensures r.Ok? <==>
        && LocateLine(old(items), old(orders), itemId).Ok?
        && QuantityPassesUpdate(quantity) && !quantity.NotANumber? && !unitPrice.NotANumber?
      ensures r.Ok? ==>
        var at := LocateLine(old(items), old(orders), itemId).value;
        var it := old(items)[at.item];
        && LocateLine(old(items), old(orders), itemId).Ok?
        && !quantity.NotANumber? && !unitPrice.NotANumber?
        && r.value == Edited(it, quantity, unitPrice, meatType, customizations, notes)
        && items == old(items)[at.item := r.value]
        && orders == old(orders)[at.order := old(orders)[at.order].(total := old(orders)[at.order].total + LineTotal(r.value) - LineTotal(it))]
      ensures old(TotalsAgree()) ==> TotalsAgree()
    {
      var located := LocateLine(items, orders, itemId);
      if located.Err? {
        return Err(located.error);
      }
      if !QuantityPassesUpdate(quantity) || unitPrice.NotANumber? {
        return Err(BadRequest);
      }
      if quantity.NotANumber? {
        return Err(Rejected);
      }
      var k, m := located.value.item, located.value.order;
      var edited := Edited(items[k], quantity, unitPrice, meatType, customizations, notes);
      ReviseLine(m, k, edited);
      r := Ok(edited);
    }

    /** deleteOrderItem: the item must exist (404), its order must exist
        (404) and not be paid or cancelled (400). The item is removed and the
        order's total drops by its line total, but not below zero. */
    method DeleteOrderItem(itemId: int) returns (r: Result<int>)
      requires Valid()
      modifies this`items, this`orders
      ensures Valid()
      ensures r.Err? ==> unchanged(this)
      ensures LocateLine(old(items), old(orders), itemId).Err? ==> r == Err(LocateLine(old(items), old(orders), itemId).error)
      ensures r.Ok? ==>
        var at := LocateLine(old(items), old(orders), itemId).value;
        var lowered := old(orders)[at.order].total - LineTotal(old(items)[at.item]);
        && LocateLine(old(items), old(orders), itemId).Ok?
        && r.value == itemId
        && items == old(items)[..at.item] + old(items)[at.item + 1..]
        && orders == old(orders)[at.order := old(orders)[at.order].(total := if lowered < 0 then 0 else lowered)]
      ensures r.Ok? <==> LocateLine(old(items), old(orders), itemId).Ok?
      ensures old(TotalsAgree()) && (forall j :: 0 <= j < |old(items)| ==> old(items)[j].unitPrice >= 0) ==> TotalsAgree()
    {
      var located := LocateLine(items, orders, itemId);
      if located.Err? {
        return Err(located.error);
      }
      DropLine(located.value.order, located.value.item);
      r := Ok(itemId);
    }

    /** updateOrderStatus: an unknown status is refused before the lookup
        (400), the order must exist (404) and not be paid or cancelled (400):
        the terminal statuses are absorbing. `closed_at` is stamped exactly
        when the new status is terminal, and only then is the order's table,
        if it has one, freed. */
    method UpdateOrderStatus(orderId: int, status: string, now: int) returns (r: Result<Order>)
      requires Valid()
      modifies this`orders, this`tables
      ensures Valid()
      ensures r.Err? ==> unchanged(this)
      ensures ParseOrderStatus(status).None? ==> r == Err(BadRequest)
      ensures ParseOrderStatus(status).Some? ==>
        match Find(old(orders), OrderKey, orderId)
        case None => r == Err(NotFound)
        case Some(k) => old(orders)[k].status.IsTerminal() <==> r == Err(BadRequest)
      ensures r.Ok? <==>
        && ParseOrderStatus(status).Some?
        && Find(old(orders), OrderKey, orderId).Some?
        && !old(orders)[Find(old(orders), OrderKey, orderId).value].status.IsTerminal()
      ensures r.Ok? ==>
        var s := ParseOrderStatus(status).value;
        var k := Find(old(orders), OrderKey, orderId).value;
        var o := old(orders)[k];
        && !o.status.IsTerminal()
        && r.value == o.(status := s, closedAt := if s.IsTerminal() then Some(now) else o.closedAt)
        && orders == old(orders)[k := r.value]
        && (r.value.closedAt != o.closedAt ==> s.IsTerminal())
        && (if s.IsTerminal() && Given(o.tableId) && Find(old(tables), TableKey, o.tableId.value).Some?
            then var t := Find(old(tables), TableKey, o.tableId.value).value;
                 tables == old(tables)[t := old(tables)[t].(status := Free)]
            else tables == old(tables))
      ensures old(TotalsAgree()) ==> TotalsAgree()
    {
      var parsed := ParseOrderStatus(status);
      if parsed.None? {
        return Err(BadRequest);
      }
      var s := parsed.value;
      var found := Find(orders, OrderKey, orderId);
      if found.None? {
        return Err(NotFound);
      }
      var k := found.value;
      var o := orders[k];
      if o.status.IsTerminal() {
        return Err(BadRequest);
      }
      var updated := o.(status := s, closedAt := if s.IsTerminal() then Some(now) else o.closedAt);
      if TotalsAgree() {
        TotalsAfterRelabel(orders, orders[k := updated], items);
      }
      SetOrder(k, updated);
      if s.IsTerminal() && Given(o.tableId) {
        var t := Find(tables, TableKey, o.tableId.value);
        if t.Some? {
          SetTableStatus(t.value, Free);
        }
      }
      r := Ok(updated);
    }

    /** requestPayment: the order must exist (404), be active (400) and have
        a table (400). The table is put into awaiting_payment; the order
        itself is left as it is. */
    method RequestPayment(orderId: int) returns (r: Result<int>)
      requires Valid()
      modifies this`tables
      ensures Valid()
      ensures r.Err? ==> unchanged(this)
      ensures match Find(old(orders), OrderKey, orderId)
        case None => r == Err(NotFound)
        case Some(k) =>
          !old(orders)[k].status.IsActive() || !Given(old(orders)[k].tableId) <==> r == Err(BadRequest)
      ensures r.Ok? <==>
        var k := Find(old(orders), OrderKey, orderId);
        k.Some? && old(orders)[k.value].status.IsActive() && Given(old(orders)[k.value].tableId)
      ensures r.Ok? ==>
        var o := old(orders)[Find(old(orders), OrderKey, orderId).value];
        && r.value == orderId
        && o.status.IsActive() && Given(o.tableId)
        && (match Find(old(tables), TableKey, o.tableId.value)
            case None => tables == old(tables)
            case Some(t) => tables == old(tables)[t := old(tables)[t].(status := AwaitingPayment)])
    {
      var found := Find(orders, OrderKey, orderId);
      if found.None? {
        return Err(NotFound);
      }
      var o := orders[found.value];
      if !o.status.IsActive() {
        return Err(BadRequest);
      }
      if !Given(o.tableId) {
        return Err(BadRequest);
      }
      var t := Find(tables, TableKey, o.tableId.value);
      if t.Some? {
        SetTableStatus(t.value, AwaitingPayment);
      }
      r := Ok(orderId);
    }

    // ---------------------------------------------------------------------
    // Menu catalog
    // ---------------------------------------------------------------------

    /** createCategory: a missing or blank name is refused (400), a name in
        use conflicts (409); the trimmed name is stored. */
    method CreateCategory(name: Option<string>) returns (r: Result<Category>)
      requires Valid()
      modifies this`categories, this`nextCategoryId
      ensures Valid()
      ensures r.Err? ==> unchanged(this)
      ensures name.None? || Blank(name.value) ==> r == Err(BadRequest)
      ensures name.Some? && !Blank(name.value) && NameTaken(old(categories), Trim(name.value), None) ==> r == Err(Conflict)
      ensures r.Ok? <==> name.Some? && !Blank(name.value) && !NameTaken(old(categories), Trim(name.value), None)
      ensures r.Ok? ==>
        && r.value == Category(old(nextCategoryId), Trim(name.value))
        && categories == old(categories) + [r.value]
    {
      if name.None? || Trim(name.value) == "" {
        return Err(BadRequest);
      }
      var trimmed := Trim(name.value);
      if NameTaken(categories, trimmed, None) {
        return Err(Conflict);
      }
      var c := Category(nextCategoryId, trimmed);
      InsertCategory(c);
      r := Ok(c);
    }

    /** updateCategory: a missing or blank name is refused (400), an unknown
        category is 404, a name carried by another category conflicts (409);
        the trimmed name is stored. */
    method UpdateCategory(id: int, name: Option<string>) returns (r: Result<Category>)
      requires Valid()
      modifies this`categories
      ensures Valid()
      ensures r.Err? ==> unchanged(this)
      ensures name.None? || Blank(name.value) ==> r == Err(BadRequest)
      ensures name.Some? && !Blank(name.value) ==>
        match Find(old(categories), CategoryKey, id)
        case None => r == Err(NotFound)
        case Some(_) => NameTaken(old(categories), Trim(name.value), Some(id)) <==> r == Err(Conflict)
      ensures r.Ok? <==>
        && name.Some? && !Blank(name.value)
        && Find(old(categories), CategoryKey, id).Some?
        && !NameTaken(old(categories), Trim(name.value), Some(id))
      ensures r.Ok? ==>
        var k := Find(old(categories), CategoryKey, id).value;
        && name.Some? && !Blank(name.value)
        && r.value == Category(id, Trim(name.value))
        && categories == old(categories)[k := r.value]
    {
      if name.None? || Trim(name.value) == "" {
        return Err(BadRequest);
      }
      var trimmed := Trim(name.value);
      var found := Find(categories, CategoryKey, id);
      if found.None? {
        return Err(NotFound);
      }
      if NameTaken(categories, trimmed, Some(id)) {
        return Err(Conflict);
      }
      var c := Category(id, trimmed);
      SetCategory(found.value, c);
      r := Ok(c);
    }

    /** deleteCategory: refused while any menu item is filed under the
        category (409), even before the category is looked up; otherwise an
        unknown category is 404 and a known one is removed. */
    method DeleteCategory(id: int) returns (r: Result<Category>)
      requires Valid()
      modifies this`categories
      ensures Valid()
      ensures r.Err? ==> unchanged(this)
      ensures (exists j :: 0 <= j < |menuItems| && menuItems[j].categoryId == Some(id)) ==> r == Err(Conflict)
      ensures (forall j :: 0 <= j < |menuItems| ==> menuItems[j].categoryId != Some(id)) ==>
        match Find(old(categories), CategoryKey, id)
        case None => r == Err(NotFound)
        case Some(k) =>
          && r == Ok(old(categories)[k])
          && categories == old(categories)[..k] + old(categories)[k + 1..]
    {
      if ItemsInCategory(menuItems, id) > 0 {
        return Err(Conflict);
      }
      var found := Find(categories, CategoryKey, id);
      if found.None? {
        return Err(NotFound);
      }
      var k := found.value;
      var c := categories[k];
      RemoveCategory(k);
      r := Ok(c);
    }

    /** createMenuItem: a missing or blank name, a missing or non-numeric
        price, or a supplied category that does not exist is refused (400).
        The new item carries the trimmed name and is active. */
    method CreateMenuItem(name: Option<string>, categoryId: Option<int>, basePrice: Numeric) returns (r: Result<MenuItem>)
      requires Valid()
      modifies this`menuItems, this`nextMenuItemId
      ensures Valid()
      ensures r.Err? ==> unchanged(this) && r.error == BadRequest
      ensures r.Ok? <==>
        && name.Some? && !Blank(name.value)
        && basePrice.Num?
        && (categoryId.Some? ==> Find(categories, CategoryKey, categoryId.value).Some?)
      ensures r.Ok? ==>
        && r.value == MenuItem(old(nextMenuItemId), Trim(name.value), categoryId, basePrice.n, true)
        && menuItems == old(menuItems) + [r.value]
    {
      if name.None? || Trim(name.value) == "" {
        return Err(BadRequest);
      }
      if !basePrice.Num? {
        return Err(BadRequest);
      }
      if categoryId.Some? && Find(categories, CategoryKey, categoryId.value).None? {
        return Err(BadRequest);
      }
      var it := MenuItem(nextMenuItemId, Trim(name.value), categoryId, basePrice.n, true);
      InsertMenuItem(it);
      r := Ok(it);
    }

    /** updateMenuItem: a supplied blank name, a supplied non-numeric price
        or a supplied unknown category is refused (400) before the item is
        looked up (404). Supplied fields replace, the others are kept. */
    method UpdateMenuItem(id: int, name: Option<string>, categoryId: Option<int>, basePrice: Numeric) returns (r: Result<MenuItem>)
      requires Valid()
      modifies this`menuItems
      ensures Valid()
      ensures r.Err? ==> unchanged(this)
      ensures ((name.Some? && Blank(name.value)) || basePrice.NotANumber?
               || (categoryId.Some? && Find(categories, CategoryKey, categoryId.value).None?)) ==> r == Err(BadRequest)
      ensures r.Ok? <==>
        && !(name.Some? && Blank(name.value)) && !basePrice.NotANumber?
        && !(categoryId.Some? && Find(categories, CategoryKey, categoryId.value).None?)
        && Find(old(menuItems), MenuItemKey, id).Some?
      ensures r.Err? && r.error != BadRequest ==> r.error == NotFound
      ensures (&& !(name.Some? && Blank(name.value)) && !basePrice.NotANumber?
               && !(categoryId.Some? && Find(categories, CategoryKey, categoryId.value).None?)
               && Find(old(menuItems), MenuItemKey, id).None?) ==> r == Err(NotFound)
      ensures r.Ok? ==>
        var k := Find(old(menuItems), MenuItemKey, id).value;
        var it := old(menuItems)[k];
        && r.value == it.(name := if name.Some? then Trim(name.value) else it.name,
                          categoryId := if categoryId.Some? then categoryId else it.categoryId,
                          basePrice := if basePrice.Num? then basePrice.n else it.basePrice)
        && menuItems == old(menuItems)[k := r.value]
    {
      if name.Some? && Trim(name.value) == "" {
        return Err(BadRequest);
      }
      if basePrice.NotANumber? {
        return Err(BadRequest);
      }
      if categoryId.Some? && Find(categories, CategoryKey, categoryId.value).None? {
        return Err(BadRequest);
      }
      var found := Find(menuItems, MenuItemKey, id);
      if found.None? {
        return Err(NotFound);
      }
      var k := found.value;
      var it := menuItems[k];
      var updated := it.(name := if name.Some? then Trim(name.value) else it.name,
                         categoryId := if categoryId.Some? then categoryId else it.categoryId,
                         basePrice := if basePrice.Num? then basePrice.n else it.basePrice);
      SetMenuItem(k, updated);
      r := Ok(updated);
    }

    /** toggleMenuItemActive: an unknown item is 404; without a value the
        flag is negated, with one it is set, and nothing else changes. */
    method ToggleMenuItemActive(id: int, isActive: Option<bool>) returns (r: Result<MenuItem>)
      requires Valid()
      modifies this`menuItems
      ensures Valid()
      ensures r.Err? ==> unchanged(this)
      ensures r.Err? <==> Find(old(menuItems), MenuItemKey, id).None?
      ensures r.Err? ==> r.error == NotFound
      ensures r.Ok? ==>
        var k := Find(old(menuItems), MenuItemKey, id).value;
        var it := old(menuItems)[k];
        && r.value == it.(isActive := if isActive.None? then !it.isActive else isActive.value)
        && menuItems == old(menuItems)[k := r.value]
    {
      var found := Find(menuItems, MenuItemKey, id);
      if found.None? {
        return Err(NotFound);
      }
      var k := found.value;
      var it := menuItems[k];
      var updated := it.(isActive := if isActive.None? then !it.isActive else isActive.value);
      SetMenuItem(k, updated);
      r := Ok(updated);
    }
  }
}
