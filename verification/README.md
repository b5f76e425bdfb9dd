# Taco platform backend — order lifecycle and shift accounting in Dafny

This project models the core of the taco-platform restaurant backend: its
Express controllers over a PostgreSQL database. It covers four controllers:

- the **table registry** (`tablesController.js`);
- the **shift ledger** (`shiftsController.js`);
- the **order lifecycle** with its line items (`ordersController.js`);
- the **menu catalog** (`menuController.js`).

The database is one `StoreModel.Store` object. It holds one sequence of rows
per table (`restaurant_tables`, `shifts`, `orders`, `order_items`,
`menu_categories`, `menu_items`) in insertion order, plus the next value of
each table's id sequence. Every handler that writes is a method of the store:

- Its parameters are the request fields, and it returns the row it answers
  with or the kind of failure.
- Failures are 400 `BadRequest`, 404 `NotFound`, 409 `Conflict`, or
  `Rejected` when the database itself refuses the write.
- Each method's contract states the new contents of the tables it touches.
- Each method preserves the store invariant `Valid()`:
  - keys are unique, ascending and below their sequence;
  - table numbers and category names are unique;
  - at most one shift is open;
  - every line item belongs to a created order and has a positive quantity.
- A failed call leaves the store unchanged, as the handlers' transactions do.
- Every order-writing method also preserves `TotalsAgree()`: each order's
  `total_amount` equals the sum of `quantity × unit_price` over its lines.
  `DeleteOrderItem` preserves it when no line has a negative price.

Handlers that only read are functions over the row sequences, in the module
of their controller:

- `Tables.AllTables` and `Tables.TableById`;
- `Orders.OrderById`, `Orders.KitchenOrders`, `Orders.ActiveOrders` and
  `Orders.ActiveOrderByTable`;
- `Shifts.CurrentShift`, `Shifts.ShiftHistory` and `Shifts.Summary`;
- `Menu.CategoriesByName` and `Menu.MenuItems`.

Ordering is modelled in one of three ways:

- A full `ORDER BY` becomes an insertion sort (`Sorting.SortBy`) by a total,
  transitive comparator.
- `ORDER BY oi.id` over one order's lines keeps the stored order of the
  lines. `Orders.ItemsOfAscending` shows that this order ascends by id
  whenever the stored ids ascend, as the store invariant guarantees.
- `ORDER BY ... DESC LIMIT 1` becomes a search for a maximum
  (`Orders.LatestActiveOn`, `Shifts.OpenShiftIndex`).

Each read handler's result is proved to hold the selected rows and no
others, each as often as the query yields it (a multiset equality or a
per-row count), in the required order.

Modules:

| module | file | contents |
|---|---|---|
| `Common` | common.dfy | `Option`, `Result`, the failure kinds, JSON numeric fields, JavaScript truthiness of ids and texts |
| `Rows` | rows.dfy | rows keyed by a SERIAL id, lookup by key, and the lemmas that `INSERT`, `UPDATE` and `DELETE` keep keys unique |
| `Sorting` | sorting.dfy | sorting by a comparator; character-by-character text order |
| `Tables` | tables.dfy | tables and their status; the read handlers |
| `Orders` | orders.dfy | order types and statuses, orders, line items, the order total and its relation to the lines; the read handlers |
| `Shifts` | shifts.dfy | shifts, the open shift, the close-time back-fill, settlement and summary |
| `Menu` | menu.dfy | trimming, categories, menu items; the read handlers |
| `StoreModel` | store.dfy | the store and every writing handler |

Modelling conventions:

- Money is integer cents. Timestamps are integers.
- The wall clock (`NOW()`) is the parameter `now`.
- The `users` directory consulted by the shift handlers is a set of user ids.
- A numeric body field is a `Numeric`: absent, not a number (such as the
  text `"abc"`), or a number.

## Model

The row-writing helpers of `StoreModel.Store` (`InsertTable` through
`SetMenuItem`) are single `INSERT`, `UPDATE` or `DELETE` steps inside the
handlers listed below. They have no row of their own.

| member | source | states |
|---|---|---|
| Common.IdOrNull | backend/src/controllers/ordersController.js:93 | `table_id \|\| null`: a falsy id (missing or 0) is stored as NULL; any other id is stored as given |
| Common.TextOrNull | backend/src/controllers/ordersController.js:97 | `notes \|\| null`: a missing or empty text is stored as NULL; any other text is stored as given |
| Rows.Find | backend/src/controllers/tablesController.js:24-33 | `WHERE id = $1` finds a row carrying that key, and finds none exactly when no row carries it |
| Rows.FindKeyed | backend/src/controllers/tablesController.js:24-33 | with unique keys, the lookup by a row's key returns that very row |
| Rows.KeyedAppend | backend/src/controllers/tablesController.js:53-58 | an `INSERT` under the sequence's next id keeps the keys unique, ascending and below the advanced sequence |
| Rows.KeyedRemove | backend/src/controllers/menuController.js:103-108 | a `DELETE` keeps the keys unique and ascending |
| Rows.KeyedUpdate | backend/src/controllers/tablesController.js:86-92 | an `UPDATE` that keeps the row's key keeps the keys unique and ascending |
| Sorting.SortBy | backend/src/controllers/tablesController.js:10 | `ORDER BY`: the result is ordered by the comparator and is a permutation of the rows |
| Sorting.SortByKeepsRows | backend/src/controllers/tablesController.js:10 | sorting neither adds nor drops a row |
| Sorting.SortedPairwise | backend/src/controllers/tablesController.js:10 | a sorted result is ordered between any two positions, not only neighbours |
| Sorting.TextLeTotal | backend/src/controllers/menuController.js:11 | any two names are ordered one way or the other |
| Sorting.TextLeTransitive | backend/src/controllers/menuController.js:11 | the name order is transitive |
| Sorting.TextLeAntisymmetric | backend/src/controllers/menuController.js:155 | two names each ordered before the other are equal, so `mc.name` ties are exactly equal names |
| Tables.ParseTableStatus | backend/src/controllers/tablesController.js:78-84 | exactly `free`, `occupied` and `awaiting_payment` are accepted, each read back as itself |
| Tables.AllTables | backend/src/controllers/tablesController.js:5-17 | getAllTables: every table once, in ascending table number |
| Tables.TableById | backend/src/controllers/tablesController.js:20-39 | getTableById: the table with that id, or 404 exactly when there is none |
| Tables.NumberTaken | backend/src/controllers/tablesController.js:62-66 | the unique-number check behind createTable's 409: a new table keeps the numbers unique exactly when no table already has its number |
| Tables.AppendNumber | backend/src/controllers/tablesController.js:62-66 | a table appended at the end keeps the numbers unique exactly when its number is new |
| Tables.TableNumberOf | backend/src/controllers/ordersController.js:230 | `LEFT JOIN restaurant_tables`: the referenced table's number; NULL exactly when the reference is NULL or dangling |
| Orders.ParseOrderType | backend/src/controllers/ordersController.js:4 | exactly `dine_in`, `takeaway` and `delivery` are accepted, each read back as itself |
| Orders.ParseOrderStatus | backend/src/controllers/ordersController.js:5-11 | exactly the five order statuses are accepted, each read back as itself |
| Orders.ItemsSumAppend | backend/src/controllers/ordersController.js:190-198 | inserting a line adds quantity × unit_price to its own order's sum and to no other order's |
| Orders.ItemsSumUpdate | backend/src/controllers/ordersController.js:602-614 | editing a line moves its order's sum by the new line total minus the old one |
| Orders.ItemsSumRemove | backend/src/controllers/ordersController.js:673-683 | deleting a line takes its line total off its order's sum |
| Orders.ItemsSumNone | backend/src/controllers/ordersController.js:87-88 | an order without lines sums to 0, the total a new order is inserted with |
| Orders.ItemsSumNonNegative | backend/src/controllers/ordersController.js:680 | with no negative quantity or price among its lines an order's sum is at least 0, so the `GREATEST(..., 0)` floor never applies |
| Orders.TotalsAfterNewOrder | backend/src/controllers/ordersController.js:86-98 | inserting an order with total 0 and no lines keeps every total equal to the sum of its lines |
| Orders.TotalsAfterAdd | backend/src/controllers/ordersController.js:172-198 | insert-line-then-add-line-total keeps every order's total equal to the sum of its lines |
| Orders.TotalsAfterEdit | backend/src/controllers/ordersController.js:579-614 | update-line-then-add-difference keeps every order's total equal to the sum of its lines |
| Orders.TotalsAfterRemove | backend/src/controllers/ordersController.js:673-683 | with non-negative prices, delete-line-then-subtract keeps every total equal to the sum of its lines and never goes below 0 |
| Orders.TotalsAfterRelabel | backend/src/controllers/ordersController.js:432-444 | changing orders' status, `closed_at` or shift but neither id nor total keeps the totals agreeing |
| Orders.LocateLine | backend/src/controllers/ordersController.js:531-565 | the item-then-order checks shared by updateOrderItem and deleteOrderItem: 404 when the item is missing or its order is missing, 400 only for a paid or cancelled order, otherwise the item's and its order's positions |
| Orders.LocateLineComplete | backend/src/controllers/ordersController.js:531-565 | an existing item of an existing order is always found: 400 exactly when that order is terminal, otherwise its own positions |
| Orders.ItemsOf | backend/src/controllers/ordersController.js:250-252 | `WHERE oi.order_id = $1`: exactly the lines of that order, each as often as it occurs among all lines; empty exactly when the order has none |
| Orders.ItemsOfAscending | backend/src/controllers/ordersController.js:252 | when the stored line ids ascend (as SERIAL ids do), the selected lines are in ascending id, as `ORDER BY oi.id` requires |
| Orders.ActiveOf | backend/src/controllers/ordersController.js:321 | exactly the orders that are open, in preparation or ready, each as often as it is stored |
| Orders.RowsOf | backend/src/controllers/ordersController.js:308-320 | the header row of each order with its table number: exactly one row per stored copy of each order, and no other row |
| Orders.ActiveOrders | backend/src/controllers/ordersController.js:306-329 | getActiveOrders: a permutation of the active orders' rows, each active order once per stored copy with its table number, newest first |
| Orders.LatestActiveOn | backend/src/controllers/ordersController.js:350-355 | the active order of the table opened last, and none exactly when the table has no active order |
| Orders.ActiveOrderByTable | backend/src/controllers/ordersController.js:335-388 | getActiveOrderByTable: nothing when the table row is missing or has no active order; otherwise its last-opened active order, the table number and that order's lines with their multiplicities, in ascending id |
| Orders.OrderById | backend/src/controllers/ordersController.js:213-264 | getOrderById: 404 exactly when no order has the id; otherwise the order, its table number and its lines with their multiplicities, in ascending id |
| Orders.LineRows | backend/src/controllers/ordersController.js:288-290 | one row per selected line, with the order and its table number, each as often as the line is selected |
| Orders.KitchenRowsOfOrder | backend/src/controllers/ordersController.js:288-290 | `LEFT JOIN order_items` for one order: every row carries the order and its table number |
| Orders.KitchenRowsOfOrderRows | backend/src/controllers/ordersController.js:288-290 | the join yields rows for exactly the order's own lines, or exactly the single line-less row when the order has no line |
| Orders.KitchenRowsOfOrderLineCount | backend/src/controllers/ordersController.js:288-290 | a line's row occurs as often as the line is stored when the line is the order's, and never otherwise |
| Orders.KitchenRowsOfOrderBareCount | backend/src/controllers/ordersController.js:288-290 | the line-less row occurs once when the order has no line, and never when it has one |
| Orders.KitchenRowsOfMembers | backend/src/controllers/ordersController.js:288-291 | the rows of several orders are exactly the rows of each of them |
| Orders.KitchenLineCount | backend/src/controllers/ordersController.js:288-291 | over several orders, a line's row occurs (copies of the order) × (copies of the line) times when the line is the order's, and never otherwise |
| Orders.KitchenBareCount | backend/src/controllers/ordersController.js:288-291 | over several orders, an order's line-less row occurs once per copy of the order when it has no line, and never otherwise |
| Orders.KitchenOrderIsPreorder | backend/src/controllers/ordersController.js:292 | `ORDER BY o.opened_at, oi.id` with NULL ids last is total and transitive |
| Orders.KitchenRowsSound | backend/src/controllers/ordersController.js:288-291 | every kitchen row is an active order with one of its own lines, or with no line when it has none |
| Orders.KitchenRowsComplete | backend/src/controllers/ordersController.js:288-291 | every line of every active order has a kitchen row, and so does every active order without lines |
| Orders.KitchenOrders | backend/src/controllers/ordersController.js:270-300 | getKitchenOrders: a permutation of the join's rows over the active orders, ordered pairwise oldest order first and by line id within an order |
| Orders.KitchenOrdersCount | backend/src/controllers/ordersController.js:270-300 | getKitchenOrders shows each line of an active order once per stored copy of the order and of the line, an active order without lines once per stored copy, and nothing for any other order |
| Shifts.OpenShiftIndex | backend/src/controllers/shiftsController.js:63-71 | `WHERE status = 'open' ORDER BY opened_at DESC LIMIT 1`: an open shift opened no earlier than any other open shift; none exactly when no shift is open |
| Shifts.CurrentShift | backend/src/controllers/shiftsController.js:61-81 | getCurrentShift: null exactly when no shift is open; with at most one open shift it is that shift |
| Shifts.ShiftHistory | backend/src/controllers/shiftsController.js:192-207 | getShiftHistory: every shift once, most recently opened first |
| Shifts.Backfill | backend/src/controllers/shiftsController.js:134-143 | exactly the shift-less orders opened inside the window join the shift; no other order or column changes |
| Shifts.BackfillSettles | backend/src/controllers/shiftsController.js:134-159 | after the back-fill, the shift's paid sales are its own paid sales plus those of the paid orphans of its window |
| Shifts.Adopted | backend/src/controllers/shiftsController.js:134-143 | the back-fill on one order: only `shift_id` may change; an order with a shift keeps it; the order has a shift afterwards exactly when it had one or was opened inside the window, and an adopted order gets the closing shift |
| Shifts.PaidSales | backend/src/controllers/shiftsController.js:146-156 | `SUM(total_amount)` over the shift's paid orders: 0 when no order is a paid order of the shift, and never negative when no total is |
| Shifts.OrphanSales | backend/src/controllers/shiftsController.js:134-156 | the paid shift-less orders' sales: 0 when there is no paid shift-less order, and never negative when no total is |
| Shifts.Count | backend/src/controllers/shiftsController.js:236-239 | `COUNT(*)` over the shift's orders with the given statuses: at most the number of orders, and 0 exactly when none matches |
| Shifts.ShiftOrders | backend/src/controllers/shiftsController.js:236 | `COUNT(*)` over the shift's orders: at most the number of orders, and 0 exactly when the shift has none |
| Shifts.CountSplit | backend/src/controllers/shiftsController.js:237-239 | counting over disjoint status sets adds up |
| Shifts.CountEveryStatus | backend/src/controllers/shiftsController.js:236-239 | counting over all five statuses counts every order of the shift |
| Shifts.Summary | backend/src/controllers/shiftsController.js:216-254 | getShiftSummary: 404 exactly for an unknown shift; otherwise paid + cancelled + active = total orders, and the sales are those of the paid orders |
| Menu.IsSpace | backend/src/controllers/menuController.js:25 | the characters `trim` removes: space, tab, line feed and carriage return are white space; ASCII letters and digits are not |
| Menu.TrimStart | backend/src/controllers/menuController.js:25 | drops exactly the leading white space |
| Menu.TrimEnd | backend/src/controllers/menuController.js:25 | drops exactly the trailing white space |
| Menu.Trim | backend/src/controllers/menuController.js:25 | `String(name).trim()` is a middle slice of the name with only white space cut off on either side; empty exactly when the name is blank, otherwise starting and ending with a non-space |
| Menu.MiddleSlice | backend/src/controllers/menuController.js:25 | cutting leading then trailing white space leaves a middle slice of the text with only white space around it, empty exactly when the text is blank |
| Menu.TrimIdempotent | backend/src/controllers/menuController.js:35 | a stored (trimmed) name trims to itself |
| Menu.NameTaken | backend/src/controllers/menuController.js:40-44 | the unique-name check behind the 409 of createCategory and updateCategory (menuController.js:76-79): adding a category keeps names unique exactly when no category has its name, and renaming one keeps them unique when no other category has the new name |
| Menu.AppendName | backend/src/controllers/menuController.js:40-44 | a category appended at the end keeps the names unique exactly when its name is new |
| Menu.CategoriesByName | backend/src/controllers/menuController.js:6-17 | getCategories: every category once, ordered by name |
| Menu.ItemsInCategory | backend/src/controllers/menuController.js:90-97 | the count is positive exactly when some menu item is filed under the category |
| Menu.ActiveFilter | backend/src/controllers/menuController.js:129-135 | only the texts `"true"` and `"false"` filter by the active flag |
| Menu.Matches | backend/src/controllers/menuController.js:129-140 | the `WHERE` of getMenuItems: with no filter every item passes, and an item without a category never passes a category filter |
| Menu.CategoryNameOf | backend/src/controllers/menuController.js:151-153 | `LEFT JOIN menu_categories`: the category's name; NULL exactly when the reference is NULL or dangling |
| Menu.RowsMatching | backend/src/controllers/menuController.js:126-154 | exactly the items passing every supplied filter, each with its category name and as often as it is stored |
| Menu.MenuOrderIsPreorder | backend/src/controllers/menuController.js:155 | `ORDER BY mc.name NULLS LAST, mi.name` is total and transitive |
| Menu.MenuItems | backend/src/controllers/menuController.js:122-163 | getMenuItems: a permutation of the matching items' rows with their category names, by category name with uncategorised items last, then by item name |
| StoreModel.OrderRequestValid | backend/src/controllers/ordersController.js:23-39 | createOrder's own validation: a known order type and a waiter, and for dine-in a table id that is stored as given |
| StoreModel.QuantityPassesAdd | backend/src/controllers/ordersController.js:137 | addOrderItem's quantity guard is updateOrderItem's guard plus presence: a missing, zero or negative quantity is refused |
| StoreModel.QuantityPassesUpdate | backend/src/controllers/ordersController.js:568 | updateOrderItem's quantity guard: a missing quantity passes, and a numeric one passes only when positive |
| StoreModel.Edited | backend/src/controllers/ordersController.js:579-599 | the `COALESCE` update keeps the item's id, order and menu item, and keeps the quantity positive when the supplied one passes the guard |
| StoreModel.AdoptOrphans | backend/src/controllers/shiftsController.js:134-143 | the back-fill row by row equals `Backfill`, keeping every order's id and total |
| StoreModel.Store.RecordLine | backend/src/controllers/ordersController.js:172-198 | inserts the line and adds its line total to its order, keeping the invariant and the totals agreement |
| StoreModel.Store.ReviseLine | backend/src/controllers/ordersController.js:579-614 | replaces the line and moves its order's total by the difference, keeping the invariant and the totals agreement |
| StoreModel.Store.DropLine | backend/src/controllers/ordersController.js:673-683 | deletes the line and lowers its order's total by its line total, floored at 0, keeping the totals agreement when no price is negative |
| StoreModel.Store.CreateTable | backend/src/controllers/tablesController.js:43-69 | 400 exactly for a missing, zero or non-numeric number; 409 for a number in use; otherwise one new table with the next id, that number and the default status |
| StoreModel.Store.UpdateTableStatus | backend/src/controllers/tablesController.js:73-102 | 400 for an unknown status before the lookup, 404 for an unknown table; otherwise only that table's status changes |
| StoreModel.Store.OpenShift | backend/src/controllers/shiftsController.js:16-58 | 400 for a missing or unknown opener, 409 while a shift is open; otherwise a new open shift with no sales, opened at the given time or now, becomes the current shift |
| StoreModel.Store.CloseShift | backend/src/controllers/shiftsController.js:92-189 | 400 for a missing or unknown closer, 409 with no open shift; otherwise the back-fill, then the shift is closed with the paid sales of its own and adopted orders and the count of its paid orders, and no shift stays open |
| StoreModel.Store.CreateOrder | backend/src/controllers/ordersController.js:18-118 | 400, then 409 without an open shift, then for dine-in 404 for an unknown table and 409 for one not free; succeeds exactly when none of these apply, with one new open order with total 0 in the current shift, and only a dine-in table becomes occupied |
| StoreModel.Store.AddOrderItem | backend/src/controllers/ordersController.js:123-208 | 400 for a bad quantity or price, 404 for an unknown order, 400 for a paid or cancelled one; succeeds exactly for a positive quantity, a numeric price and an active order, adding one new line and growing the order's total by exactly quantity × unit_price |
| StoreModel.Store.UpdateOrderItem | backend/src/controllers/ordersController.js:521-625 | 404 for the item or its order, 400 for a terminal order, then 400 for a bad quantity or price; succeeds exactly when none of these apply, supplied fields replace and the order's total moves by the line-total difference |
| StoreModel.Store.DeleteOrderItem | backend/src/controllers/ordersController.js:631-694 | succeeds exactly when the line and its non-terminal order exist; the line goes and the total drops by its line total, not below 0 |
| StoreModel.Store.UpdateOrderStatus | backend/src/controllers/ordersController.js:395-463 | 400 for an unknown status, 404, 400 for a terminal order, success exactly otherwise; `closed_at` is stamped exactly on a terminal status, which alone frees the order's table |
| StoreModel.Store.RequestPayment | backend/src/controllers/ordersController.js:469-514 | 404; 400 exactly for an inactive order or one without a table; succeeds exactly otherwise, and only that table becomes awaiting_payment while the order is untouched |
| StoreModel.Store.CreateCategory | backend/src/controllers/menuController.js:21-47 | 400 exactly for a missing or blank name, 409 for a trimmed name in use; otherwise one new category with the trimmed name |
| StoreModel.Store.UpdateCategory | backend/src/controllers/menuController.js:51-82 | 400 for a missing or blank name, 404 for an unknown category, 409 exactly when another category has the trimmed name, success exactly otherwise; only that name changes |
| StoreModel.Store.DeleteCategory | backend/src/controllers/menuController.js:86-118 | 409 while any menu item is in the category, before the lookup; then 404, or exactly that category is removed |
| StoreModel.Store.CreateMenuItem | backend/src/controllers/menuController.js:172-211 | succeeds exactly for a non-blank name, a numeric price and a missing or existing category; the new item has the trimmed name and is active |
| StoreModel.Store.UpdateMenuItem | backend/src/controllers/menuController.js:216-271 | 400 for a blank name, a non-numeric price or an unknown category before the lookup, then 404 exactly for an unknown item; supplied fields replace, the others are kept |
| StoreModel.Store.ToggleMenuItemActive | backend/src/controllers/menuController.js:275-302 | 404 exactly for an unknown item; without a value the flag is negated, with one it is set, nothing else changes |

## Left out

- SQL text, the connection pool, HTTP routing and JSON encoding are not modelled. Each handler is a method from request fields to a result.
- Concurrency is not modelled. Each handler runs atomically on the store, which is what its `BEGIN`/`COMMIT` transaction aims at; interleavings of the reads-then-writes of handlers without a transaction (createTable, the menu handlers, openShift) are not modelled.
- Money is integer cents rather than JavaScript floating point and `numeric(12,2)`. Rounding and float drift are not modelled.
- Timestamps are integers and `NOW()` is the `now` parameter. Date parsing, invalid date strings and time zones are not modelled.
- JSON `null` and a missing field are one case (`None`/`Absent`). The code treats an explicit `null` differently in these places, which the model does not follow:
  - StoreModel.Store.UpdateOrderItem: a `null` quantity is refused with 400 (`Number(null)` is 0, ordersController.js:568); the model keeps the old quantity.
  - StoreModel.Store.UpdateOrderItem: a `null` unit_price passes the guard and stores 0 (ordersController.js:573, :593); the model keeps the old price.
  - StoreModel.Store.AddOrderItem: a `null` unit_price passes the guard and stores 0 (ordersController.js:143); the model answers 400. A `null` quantity is refused in both (ordersController.js:137).
  - StoreModel.Store.CreateMenuItem: a `null` base_price passes the guard and stores 0 (menuController.js:182); the model answers 400.
  - StoreModel.Store.UpdateMenuItem: a `null` name is stored as the text "null" and a `null` base_price as 0 (menuController.js:221, :256-258); the model keeps both.
  - StoreModel.Store.ToggleMenuItemActive: a `null` is_active sets the flag to false (`Boolean(null)`, menuController.js:291); the model negates the flag.
- Values of the wrong JSON type (a numeric name, an object as id) are not modelled. Request ids are integers.
- Text order is by code point (`Sorting.TextLe`). PostgreSQL collations are not modelled.
- `Rejected`: the status the error middleware sends for a write the database refuses is not modelled. The middleware is not part of this model.
- The column default of `restaurant_tables.status` comes from a schema that is not part of this model. It is the store's `tableDefault`.
- `opened_at` of a new order is the column default `NOW()`, modelled as `now`.
- Foreign keys other than the ones the handlers check are not modelled. For example, a takeaway order's `table_id` or a line's `menu_item_id` naming no row is accepted.
- A unique violation still consumes a sequence value in PostgreSQL. The model leaves the sequence untouched on failure.
- The 409 body of openShift also carries the open shift; the model returns only the failure kind.
- Handlers answer with column subsets (for example, updateOrderStatus returns only some columns, and deleteCategory returns a message with the row). The model returns the whole row.
- The login handler, users and roles, authentication middleware and the front ends are not part of this model.
- StoreModel.Store.DeleteOrderItem: preserves the totals agreement only when no line has a negative unit price, because the code accepts negative prices and then floors the total at 0.
- Orders.ItemsOf: does not state that the selected lines keep their stored order. The `ORDER BY oi.id` order is stated instead by Orders.ItemsOfAscending, for stored ids that ascend.
- StoreModel.Edited: states only the kept key columns and quantity positivity; the full effect of the update is stated by StoreModel.Store.UpdateOrderItem.

## Code notes

These are behaviours of the code that a reader might not expect. The model follows the code.

- `unit_price` is only checked for being a number (ordersController.js:143, :573). Negative prices are accepted. That is why the totals agreement after a delete needs non-negative prices.
- createTable refuses only a missing, zero or non-numeric `table_number` (tablesController.js:47). Negative numbers are accepted.
- updateOrderStatus guards only against terminal orders (ordersController.js:422). Any active status may move to any other status, backwards included, for example from `ready` to `open`.
- createOrder stores a supplied `table_id` for takeaway and delivery orders too (ordersController.js:93). Paying such an order frees that table (ordersController.js:448-453).
- The comment above closeShift (shiftsController.js:91) says shift-less paid orders are not counted. The back-fill at shiftsController.js:134-143 does hand the ones opened inside the shift's window to the shift, and they are counted. `Shifts.BackfillSettles` states this.
