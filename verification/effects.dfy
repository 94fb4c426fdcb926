/** How each write changes what the read queries report. */
module Effects {
  import opened Tables
  import Menu
  import Orders
  import opened Reports

  /** A menu row no order references adds nothing to the join. */
  lemma {:induction false} JoinExtraItem(orders: seq<OrderRow>, menu: seq<MenuRow>, m: MenuRow)
    requires forall i :: 0 <= i < |orders| ==> orders[i].menuId != m.id
    ensures Join(orders, menu + [m]) == Join(orders, menu)
  {
    if orders != [] {
      var n := |orders| - 1;
      var init := orders[..n];
      assert forall i :: 0 <= i < n ==> init[i] == orders[i];
      JoinExtraItem(init, menu, m);
      assert (menu + [m])[..|menu|] == menu;
      assert JoinOne(orders[n], menu + [m]) == JoinOne(orders[n], menu) + [];
    }
  }

  lemma HistoryOfAppend(a: seq<Joined>, b: seq<Joined>)
    ensures HistoryOf(a + b) == HistoryOf(a) + HistoryOf(b)
  {
  }

  /** Adding a menu item changes no report: the new id is fresh, so no order
      can reference it yet. */
  lemma AddMenuItemKeepsReports(db: Db, name: string, price: int, today: Day)
    requires Valid(db) && price >= 0
    ensures var db' := Menu.AfterAdd(db, Menu.AddMenuItem(db, name, price));
      && OrderHistory(db') == OrderHistory(db)
      && DailySummary(db', today) == DailySummary(db, today)
      && SalesByMenuName(db', today) == SalesByMenuName(db, today)
  {
    var r := Menu.AddMenuItem(db, name, price);
    if r.Added? {
      var m := r.db.menu[|db.menu|];
      assert r.db.menu == db.menu + [m];
      forall i | 0 <= i < |db.orders| ensures db.orders[i].menuId != m.id {
        var k :| 0 <= k < |db.menu| && db.menu[k].id == db.orders[i].menuId;
      }
      JoinExtraItem(db.orders, db.menu, m);
    }
  }

  /** An order inserted with a `menu_id` that matches no menu row is stored but
      never reported: the inner join drops it. */
  lemma InsertOrderDanglingHidden(db: Db, menuId: int, quantity: int, now: Timestamp, today: Day)
    requires !HasMenuId(db.menu, menuId)
    ensures var db' := Orders.InsertOrder(db, menuId, quantity, now);
      && |db'.orders| == |db.orders| + 1
      && OrderHistory(db') == OrderHistory(db)
      && DailySummary(db', today) == DailySummary(db, today)
      && SalesByMenuName(db', today) == SalesByMenuName(db, today)
  {
    var db' := Orders.InsertOrder(db, menuId, quantity, now);
    var o := db'.orders[|db.orders|];
    assert db'.orders == db.orders + [o];
    JoinAppendOrder(db.orders, o, db.menu);
    JoinOneUnmatched(o, db.menu);
    assert Join(db.orders, db.menu) + [] == Join(db.orders, db.menu);
  }

  /** The order `PlaceOrder` appends, and the index of the menu row it names. */
  lemma PlacedOrder(db: Db, selected: string, quantity: int, now: Timestamp) returns (i: int)
    requires selected in Menu.MenuDict(db.menu)
    requires quantity >= 1
    ensures 0 <= i < |db.menu| && Menu.Label(db.menu[i]) == selected
    ensures var db' := Orders.PlaceOrder(db, selected, quantity, now);
      db'.orders == db.orders + [OrderRow(db'.orderSeq, db.menu[i].id, quantity, now)]
  {
    var db' := Orders.PlaceOrder(db, selected, quantity, now);
    var o := db'.orders[|db.orders|];
    i :| 0 <= i < |db.menu| && db.menu[i].id == o.menuId && Menu.Label(db.menu[i]) == selected;
    assert db'.orders == db.orders + [o];
  }

  /** Placing an order leaves every earlier history row as it was and adds
      exactly one row: the new order with the name of the selected item. */
  lemma PlaceOrderExtendsHistory(db: Db, selected: string, quantity: int, now: Timestamp)
    requires Valid(db)
    requires selected in Menu.MenuDict(db.menu)
    requires quantity >= 1
    ensures var db' := Orders.PlaceOrder(db, selected, quantity, now);
      exists i :: 0 <= i < |db.menu| && Menu.Label(db.menu[i]) == selected
        && OrderHistory(db') == OrderHistory(db)
             + [HistoryRow(db'.orderSeq, db.menu[i].name, quantity, now)]
  {
    var db' := Orders.PlaceOrder(db, selected, quantity, now);
    var i := PlacedOrder(db, selected, quantity, now);
    var o := OrderRow(db'.orderSeq, db.menu[i].id, quantity, now);
    JoinAppendMatched(db.orders, o, db.menu, db.menu[i]);
    HistoryOfAppend(Join(db.orders, db.menu), [Joined(o, db.menu[i])]);
  }

  /** Appending an order that joins with the keyed menu row `m` adds one to
      the count of the day it was placed on, and its amount to that day's
      total; other days are unaffected. */
  lemma SummaryAfterAppend(db: Db, db': Db, o: OrderRow, m: MenuRow, today: Day)
    requires UniqueIds(db.menu)
    requires m in db.menu && m.id == o.menuId
    requires db'.menu == db.menu && db'.orders == db.orders + [o]
    ensures DailySummary(db', today).orderCount
      == DailySummary(db, today).orderCount + (if Date(o.orderTime) == today then 1 else 0)
    ensures DailySummary(db', today).totalSales
      == DailySummary(db, today).totalSales
         + (if Date(o.orderTime) == today then m.price * o.quantity else 0)
  {
    var picked := if Date(o.orderTime) == today then [Joined(o, m)] else [];
    TodayRowsAppend(db.orders, o, db.menu, m, today);
    assert TodayRows(db', today) == TodayRows(db, today) + picked;
    assert picked != [] ==> picked[..0] == [];
    TotalAmountAppend(TodayRows(db, today), picked);
  }

  /** Placing an order adds one to the order count of the day it was placed on,
      and the item's price times the quantity to that day's total; other days
      are unaffected. */
  lemma PlaceOrderUpdatesSummary(db: Db, selected: string, quantity: int, now: Timestamp, today: Day)
    requires Valid(db)
    requires selected in Menu.MenuDict(db.menu)
    requires quantity >= 1
    ensures var db' := Orders.PlaceOrder(db, selected, quantity, now);
      exists i :: 0 <= i < |db.menu| && Menu.Label(db.menu[i]) == selected
        && DailySummary(db', today).orderCount
             == DailySummary(db, today).orderCount + (if Date(now) == today then 1 else 0)
        && DailySummary(db', today).totalSales
             == DailySummary(db, today).totalSales
                + (if Date(now) == today then db.menu[i].price * quantity else 0)
  {
    var db' := Orders.PlaceOrder(db, selected, quantity, now);
    var i := PlacedOrder(db, selected, quantity, now);
    var o := OrderRow(db'.orderSeq, db.menu[i].id, quantity, now);
    SummaryAfterAppend(db, db', o, db.menu[i], today);
  }
}
