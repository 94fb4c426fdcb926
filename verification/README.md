# Restaurant data layer in Dafny

This project models the data layer of a single-page restaurant app. The app
keeps two SQLite tables. `menu (id, name, price)` holds the items and
`orders (id, menu_id, quantity, order_time)` holds the orders. Each run of the
page script can add a menu item or place an order, and it then reads back
three reports: the order history (an inner join of orders with menu items),
today's order count and revenue, and today's revenue per menu name.

Every SQL statement becomes a pure function over a `Db` value. A `Db` holds the
two tables as sequences of row records. It also holds the two AUTOINCREMENT
counters (the `sqlite_sequence` entries), which are the largest id each table
has issued.

- `tables.dfy` (`Tables`): the row types, the store, the empty store, and
  `Valid`, the invariant of every reachable store. Valid ids are ascending and
  never above the counter, names are non-empty, prices are at least 0,
  quantities are at least 1, and every order references a menu row.
- `decimal.dfy` (`Decimal`): Python's `str()` of an integer, which the selector
  labels embed, and its inverse parser.
- `menu.dfy` (`Menu`): the guarded menu insert, the label `f"{name} (¥{price})"`,
  and `menu_dict`, a dict comprehension in which a later row overwrites an
  earlier row with the same label.
- `orders.dfy` (`Orders`): the order insert, and "Place Order", which takes its
  menu id from `menu_dict`.
- `reports.dfy` (`Reports`): the join, the history, the daily summary with its
  NULL-to-0 coalescing, and the group-by on menu name. Each report is proved
  against a reference definition that is written without the join. For the
  history this is the orders table itself. For the summary and for each
  per-name total it is a sum over today's orders at current prices.
- `effects.dfy` (`Effects`): how each write changes the reports.
- `app.dfy` (`App`): one run of the page script, plus two worked scenarios:
  one item ordered once, and two items ordered once each.

Some modelling choices:

- `date('now')` and `datetime('now')` become a `now: Timestamp` parameter of
  each run. A timestamp has a day and a second of the day, and `date()` keeps
  the day.
- A new id is the counter plus one. SQLite's AUTOINCREMENT picks one more than
  the larger of the counter and the largest rowid. Under `Valid` every id is at
  most the counter, and rows are never deleted, so the two rules agree.
- The queries without `ORDER BY` have no defined row order. The model fixes
  one order:
  - each table is kept in rowid order;
  - the join runs with orders as the outer loop;
  - `GROUP BY` emits groups in order of first occurrence.

  The summary, the per-name totals and the set of group names are stated by
  id and by name, so they do not depend on this order. The following members
  rest on the fixed order:
  - `Menu.SelectorPicksNewestItem`, and the clause of `Orders.PlaceOrder`
    saying that no row with the selected label has a larger id. The
    comprehension keeps the last row the query returns. That row is the
    newest only when the rows come in rowid order.
  - `Reports.OrderHistoryOnePerOrder` matches history row i to order i.
  - `Effects.PlaceOrderExtendsHistory` puts the new history row last.
  - `App.RamenJoin`, `App.TwoItemJoin`, `App.RamenReported` and
    `App.RamenOrdered` state exact lists of rows or groups.

  `Menu.IdByKeyKeepsLast` holds for any order, because "last" there means last
  in the order the rows are read.
- The schema declares `FOREIGN KEY(menu_id) REFERENCES menu(id)`
  (app.py:47-53), which suggests that an order for a missing menu id is
  refused. The code never runs `PRAGMA foreign_keys = ON`, so SQLite
  would store such an order. The model follows the code: `InsertOrder` does not
  check the reference. The reference holds anyway, because the only caller takes
  the id from `menu_dict`. `Effects.InsertOrderDanglingHidden` shows that a
  dangling order would be stored but never reported.
- Per-item sales are best thought of as a mapping from name to total. The query returns rows
  of `(name, total)`, so the model returns a sequence and proves that its names
  are distinct.
- The name check is Python truthiness (`if name:`). A name of only spaces is
  therefore accepted.

## Model

| member | source | states |
|---|---|---|
| Tables.Date | app.py:102 | SQLite's `date()` of an `order_time`: the day, with the time of day dropped. The filters at lines 102 and 118 compare it with `date('now')`. |
| Tables.EmptyDb | app.py:9-54 | After both `CREATE TABLE IF NOT EXISTS` statements on a fresh file (lines 9-15 and 46-54), both tables are empty and the store satisfies the invariant. |
| Decimal.Str | app.py:65 | Python's `str()` of a price is the text of an integer: an optional minus sign followed by digits. Its partners are `StrRoundTrip` and `StrInjective`. |
| Decimal.NatStr | app.py:65 | The price text in a label is a non-empty run of decimal digits with no leading zero. |
| Decimal.StrRoundTrip | app.py:65 | Parsing the text `str()` prints for an integer gives the integer back. |
| Decimal.StrInjective | app.py:65 | Two prices print the same text exactly when they are equal. |
| Menu.AddMenuItem | app.py:26-35 | An empty name is rejected and writes nothing. A non-empty name appends exactly one row with that name, that price and an id above the old counter. Every existing row, and the orders table, stay as they were. A valid store stays valid, and the new id is greater than every id the menu held. |
| Menu.Label | app.py:65 | The selector label `f"{name} (¥{price})"`. This function has no contract of its own; `LabelDecodes` and `LabelInjective` state its properties. |
| Menu.LabelDecodes | app.py:65 | A label starts with the item's name and ends with ")". The text between " (¥" and that ")" parses back to the price. |
| Menu.LabelInjective | app.py:65 | Two menu rows get the same selector label exactly when they have the same name and the same price. |
| Menu.IdByKey | app.py:65 | A dict comprehension over the rows in order, keyed by any function of the row. This function has no contract of its own; `IdByKeyKeys` and `IdByKeyKeepsLast` state its properties. |
| Menu.MenuDict | app.py:61-65 | `menu_dict`, the comprehension keyed by the label. This function has no contract of its own; `IdByKeyKeys`, `IdByKeyKeepsLast` and `SelectorPicksNewestItem` state its properties. |
| Menu.IdByKeyKeys | app.py:61-65 | `menu_dict` has exactly the labels of the menu rows as its keys. |
| Menu.IdByKeyKeepsLast | app.py:65 | Each `menu_dict` value is the id of the last row that carries its label. |
| Menu.SelectorPicksNewestItem | app.py:61-65 | In a valid store, each selector label maps to an existing row with that label. Among the rows with that name and price, it maps to the one with the largest id. |
| Orders.InsertOrder | app.py:70-74 | The order insert appends one row with the given menu id, quantity and timestamp. Its id is above the old counter. The menu and the existing orders are unchanged. |
| Orders.PlaceOrder | app.py:61-75 | Placing an order for a selected label appends one order with that quantity and time. Its menu id is the id of an existing menu row that carries the label. That id is `menu_dict[selected]`, and in a valid store no other row with the label has a larger id. Nothing else changes. A valid store stays valid, so the reference to the menu holds, and the new order id is greater than every earlier order id. |
| Reports.Join | app.py:85-86 | `orders JOIN menu ON orders.menu_id = menu.id`. This function has no contract of its own; `JoinMembership` and `JoinOnePerOrder` state its properties. |
| Reports.JoinMembership | app.py:83-89 | A pair is a join row exactly when its order and its menu row are in the tables and `menu_id` matches `id`. Orders with no match contribute nothing. |
| Reports.JoinOnePerOrder | app.py:84-86 | When menu ids are unique and every order references a menu row, the join has one row per order, paired with the row its `menu_id` names. |
| Reports.OrderHistory | app.py:83-89 | The order-history query. This function has no contract of its own; `OrderHistoryOnePerOrder` and `Effects.PlaceOrderExtendsHistory` state its properties. |
| Reports.OrderHistoryOnePerOrder | app.py:83-89 | In a valid store, the history has one row per order. Each row carries the order's id, quantity and time, and the name of the menu row it references. |
| Reports.OnDay | app.py:102 | The filter `WHERE date(orders.order_time) = date('now')`. This function has no contract of its own; `OnDayMembership` states it. |
| Reports.OnDayMembership | app.py:102 | A joined row passes the date filter exactly when it is one of the input rows and its order was placed on the given day. |
| Reports.TodayRows | app.py:100-102 | The joined and filtered rows that both daily queries aggregate. This function has no contract of its own; `TodayRowsMembership` states it. |
| Reports.TodayRowsMembership | app.py:100-102 | A pair is one of today's rows exactly when its order is stored and was placed today, its menu row is stored, and `menu_id` matches `id`. |
| Reports.SqlSum | app.py:99 | SQL `SUM` is NULL exactly when no rows match. |
| Reports.OrZero | app.py:106-107 | `x if x else 0` on a fetched value equals `COALESCE(x, 0)`. NULL and 0 both give 0. |
| Reports.DailySummary | app.py:96-107 | The count is the number of today's joined rows and the total is the sum of their `price * quantity`. With no rows today it reports (0, 0), never NULL. |
| Reports.DailySummaryMatchesOrders | app.py:96-103 | In a valid store, the count equals the number of orders placed today. The total equals the sum of their quantities times the current prices of their items, computed without the join. |
| Reports.GroupByName | app.py:115-119 | `GROUP BY menu.name` with `SUM` per group. This function has no contract of its own; `GroupByNameSums` and `GroupByNameGroups` state its properties. |
| Reports.SalesByMenuName | app.py:114-120 | The per-name sales query. This function has no contract of its own; `SalesByMenuNameCorrect`, `SalesByMenuNameMatchesOrders` and `SalesAddUpToSummary` state its properties. |
| Reports.GroupByNameSums | app.py:115-119 | Grouping by name keeps every amount. The group totals add up to the total of the rows, and each name's total is the sum over that name's rows. |
| Reports.GroupByNameGroups | app.py:119 | Grouping yields one group per name, and a group exactly for each name that occurs in the rows. |
| Reports.SalesByMenuNameCorrect | app.py:114-122 | Each menu name appears once. Exactly the names with at least one joined order today appear. Each total is that name's revenue today, with items that share a name merged. |
| Reports.TodayRowsMatchNames | app.py:114-119 | When menu ids are unique and every order references a menu row, the joined, filtered rows of one name add up to that name's revenue computed from the orders table and current prices, without the join. |
| Reports.SalesByMenuNameMatchesOrders | app.py:114-122 | In a valid store, each per-name total equals that name's revenue today, computed from the orders table and current prices without the join. |
| Reports.SalesAddUpToSummary | app.py:96-122 | The per-name totals add up to the daily summary's total. |
| Effects.AddMenuItemKeepsReports | app.py:26-31 | In a valid store, adding a menu item changes none of the three reports, because no order can reference the fresh id. |
| Effects.InsertOrderDanglingHidden | app.py:49-52 | An order whose `menu_id` matches no menu row is stored. The history, the summary and the per-name sales all omit it. |
| Effects.PlaceOrderExtendsHistory | app.py:70-89 | Placing an order keeps every earlier history row and adds exactly one row: the new order with the selected item's name, the quantity and the time. |
| Effects.SummaryAfterAppend | app.py:96-107 | Appending an order that references a menu row adds 1 to the count of the order's day, and the row's price times the quantity to that day's total. Other days are unchanged. |
| Effects.PlaceOrderUpdatesSummary | app.py:70-107 | Placing an order adds 1 to that day's count and the item's price times the quantity to that day's total. Other days are unchanged. |
| App.Allowed | app.py:67-68 | The inputs the widgets let through. The price input has `min_value=0` (line 24), the selectbox offers only `menu_dict` keys, and the quantity input has `min_value=1`. A run without a click is always allowed. |
| App.Rerun | app.py:26-122 | One run of the script. The menu is read before the order insert, yet every panel shows the final store. A run without a click writes nothing. "Add menu item" performs exactly the guarded menu insert, and "Place Order" performs exactly the order insert for the selected label. Every run the widgets allow keeps a valid store valid. |
| App.ReadPage | app.py:40-122 | All reads of one run. The summary panel's total equals the sum of the per-name chart's totals. |
| App.RefreshIsStable | app.py:40-122 | Refreshing later on the same day, with no click, returns the same page and leaves the store unchanged. |
| App.RamenAdded | app.py:26-31 | From an empty store, adding ("Ramen", 800) issues id 1. |
| App.RamenOrderStored | app.py:61-75 | Selecting that item's label with quantity 2 stores order 1 for menu id 1. |
| App.RamenJoin | app.py:96-102 | That order joins with its item and falls on today. |
| App.RamenReported | app.py:96-122 | That store reports one order, a total of 1600, and the single group ("Ramen", 1600). |
| App.RamenOrdered | app.py:61-122 | The whole run that places the order shows that summary and that group. |
| App.TwoItemMenu | app.py:26-31 | Adding ("Ramen", 800) and then ("Gyoza", 400) to an empty store issues ids 1 and 2. |
| App.TwoItemFirstOrder | app.py:61-75 | On that menu, selecting Ramen with quantity 2 stores order 1 for menu id 1. |
| App.TwoItemSecondOrder | app.py:61-75 | Then selecting Gyoza with quantity 3 stores order 2 for menu id 2. |
| App.TwoItemSummary | app.py:96-122 | Those two orders give a count of 2 and a total of 2800. There are two groups, 1600 for "Ramen" and 1200 for "Gyoza", in either order. |

## Left out

- Streamlit rendering and widgets (`st.*`). Only the input limits the widgets
  impose are kept, as preconditions: price at least 0, quantity at least 1, and
  a selection that is one of the `menu_dict` keys.
- The SQLite connection, cursor and `commit` calls, which are I/O. Each
  statement is one atomic step.
- The `CREATE TABLE IF NOT EXISTS` statements. The model starts from
  `EmptyDb` and has no schema migration.
- The real clock and the text form of `order_time`. A timestamp is abstract
  (day, second), SQLite's UTC convention is not modelled, and one `now` serves
  the whole run. The real script reads the clock separately for the insert and
  for each query, so in a run that straddles midnight they could disagree.
- Row order of the `SELECT`s without `ORDER BY` and of the `GROUP BY` output.
  The model fixes rowid order for the tables and `menu_dict`, orders-outer order
  for the join, and first-occurrence order for the groups. SQLite promises none
  of these.
- SQLite's 64-bit integer limits: overflow in `SUM` and the AUTOINCREMENT
  ceiling. All integers are unbounded.
- The pandas DataFrame and the bar chart. They only present the grouped rows.
- Several browser sessions writing at once. The model has one run at a time.
- Deletion and editing of menu items. The source has neither, so the reports'
  use of the current price never differs from the price when the order was
  placed.
