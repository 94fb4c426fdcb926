/** The three read queries over `orders JOIN menu`: the order history, today's
    count-and-total summary, and today's sales grouped by menu name. */
module Reports {
  import opened Tables

  // ---------------------------------------------------------------------
  // The inner join
  // ---------------------------------------------------------------------

  /** A row of `orders JOIN menu ON orders.menu_id = menu.id`. */
  datatype Joined = Joined(order: OrderRow, item: MenuRow)

  /** The join rows one order contributes: one per menu row with its id. */
  function JoinOne(o: OrderRow, menu: seq<MenuRow>): seq<Joined>
  {
    if menu == [] then
      []
    else
      var m := menu[|menu| - 1];
      JoinOne(o, menu[..|menu| - 1]) + (if m.id == o.menuId then [Joined(o, m)] else [])
  }

  /** `FROM orders JOIN menu ON orders.menu_id = menu.id`, orders outermost. */
  function Join(orders: seq<OrderRow>, menu: seq<MenuRow>): seq<Joined>
  {
    if orders == [] then
      []
    else
      Join(orders[..|orders| - 1], menu) + JoinOne(orders[|orders| - 1], menu)
  }

  lemma {:induction false} JoinOneMembership(o: OrderRow, menu: seq<MenuRow>, j: Joined)
    ensures j in JoinOne(o, menu) <==> j.order == o && j.item in menu && j.item.id == o.menuId
  {
    if menu != [] {
      var init := menu[..|menu| - 1];
      assert menu == init + [menu[|menu| - 1]];
      JoinOneMembership(o, init, j);
    }
  }

  /** Inner-join semantics: a pair is a join row exactly when its order and its
      menu row are both in the tables and the ids match; an order whose
      `menu_id` matches no menu row contributes nothing. */
  lemma {:induction false} JoinMembership(orders: seq<OrderRow>, menu: seq<MenuRow>, j: Joined)
    ensures j in Join(orders, menu) <==>
      j.order in orders && j.item in menu && j.order.menuId == j.item.id
  {
    if orders != [] {
      var init := orders[..|orders| - 1];
      assert orders == init + [orders[|orders| - 1]];
      JoinMembership(init, menu, j);
      JoinOneMembership(orders[|orders| - 1], menu, j);
    }
  }

  /** An order whose `menu_id` matches no menu row joins with nothing. */
  lemma {:induction false} JoinOneUnmatched(o: OrderRow, menu: seq<MenuRow>)
    requires !HasMenuId(menu, o.menuId)
    ensures JoinOne(o, menu) == []
  {
    if menu != [] {
      var init := menu[..|menu| - 1];
      assert forall i :: 0 <= i < |init| ==> init[i] == menu[i];
      JoinOneUnmatched(o, init);
    }
  }

  /** Menu ids are pairwise distinct (the primary key). */
  predicate UniqueIds(menu: seq<MenuRow>)
  {
    forall i, j :: 0 <= i < j < |menu| ==> menu[i].id != menu[j].id
  }

  /** Every order references some menu row. */
  predicate AllReferenced(orders: seq<OrderRow>, menu: seq<MenuRow>)
  {
    forall i :: 0 <= i < |orders| ==> HasMenuId(menu, orders[i].menuId)
  }

  /** With a primary key on `menu.id`, an order that references a menu row
      joins with exactly that row. */
  lemma {:induction false} JoinOneMatched(o: OrderRow, menu: seq<MenuRow>)
    requires UniqueIds(menu)
    requires HasMenuId(menu, o.menuId)
    ensures |JoinOne(o, menu)| == 1
    ensures JoinOne(o, menu)[0].order == o
    ensures JoinOne(o, menu)[0].item in menu
    ensures JoinOne(o, menu)[0].item.id == o.menuId
  {
    var n := |menu| - 1;
    var init := menu[..n];
    assert menu == init + [menu[n]];
    if menu[n].id == o.menuId {
      assert forall i :: 0 <= i < |init| ==> init[i] == menu[i];
      JoinOneUnmatched(o, init);
    } else {
      var i :| 0 <= i < |menu| && menu[i].id == o.menuId;
      assert init[i] == menu[i];
      JoinOneMatched(o, init);
    }
  }

  /** When every order references an existing menu row, the join has exactly
      one row per order, pairing it with the row its `menu_id` names. */
  lemma {:induction false} JoinOnePerOrder(orders: seq<OrderRow>, menu: seq<MenuRow>)
    requires UniqueIds(menu)
    requires AllReferenced(orders, menu)
    ensures |Join(orders, menu)| == |orders|
    ensures forall i :: 0 <= i < |orders| ==>
      && Join(orders, menu)[i].order == orders[i]
      && Join(orders, menu)[i].item in menu
      && Join(orders, menu)[i].item.id == orders[i].menuId
  {
    if orders != [] {
      var n := |orders| - 1;
      var init := orders[..n];
      assert AllReferenced(init, menu) by {
        forall i | 0 <= i < n ensures HasMenuId(menu, init[i].menuId) {
          assert init[i] == orders[i];
        }
      }
      JoinOnePerOrder(init, menu);
      JoinOneMatched(orders[n], menu);
      var left, one := Join(init, menu), JoinOne(orders[n], menu);
      assert Join(orders, menu) == left + one;
      forall i | 0 <= i < |orders|
        ensures && Join(orders, menu)[i].order == orders[i]
                && Join(orders, menu)[i].item in menu
                && Join(orders, menu)[i].item.id == orders[i].menuId
      {
        if i < n {
          assert Join(orders, menu)[i] == left[i];
          assert init[i] == orders[i];
        } else {
          assert Join(orders, menu)[i] == one[0];
        }
      }
    }
  }

  lemma JoinAppendOrder(orders: seq<OrderRow>, o: OrderRow, menu: seq<MenuRow>)
    ensures Join(orders + [o], menu) == Join(orders, menu) + JoinOne(o, menu)
  {
    assert (orders + [o])[..|orders|] == orders;
  }

  /** Appending an order that references the keyed menu row `m` appends
      exactly its pairing with `m` to the join. */
  lemma JoinAppendMatched(orders: seq<OrderRow>, o: OrderRow, menu: seq<MenuRow>, m: MenuRow)
    requires UniqueIds(menu)
    requires m in menu && m.id == o.menuId
    ensures Join(orders + [o], menu) == Join(orders, menu) + [Joined(o, m)]
  {
    JoinAppendOrder(orders, o, menu);
    JoinOneMatched(o, menu);
    var one := JoinOne(o, menu);
    JoinOneMembership(o, menu, one[0]);
    JoinOneMembership(o, menu, Joined(o, m));
    assert one == [one[0]];
    var k :| 0 <= k < |menu| && menu[k] == one[0].item;
    var l :| 0 <= l < |menu| && menu[l] == m;
  }

  // ---------------------------------------------------------------------
  // Order history
  // ---------------------------------------------------------------------

  /** A row of `SELECT orders.id, menu.name, orders.quantity, orders.order_time`. */
  datatype HistoryRow = HistoryRow(orderId: int, name: string, quantity: int, orderTime: Timestamp)

  function ToHistory(j: Joined): HistoryRow
  {
    HistoryRow(j.order.id, j.item.name, j.order.quantity, j.order.orderTime)
  }

  function HistoryOf(js: seq<Joined>): seq<HistoryRow>
  {
    seq(|js|, i requires 0 <= i < |js| => ToHistory(js[i]))
  }

  /** The order-history query. */
  function OrderHistory(db: Db): seq<HistoryRow>
  {
    HistoryOf(Join(db.orders, db.menu))
  }

  /** In a valid store the history has one row per order, carrying the order's
      id, quantity and time and the name of the menu row it references. */
  lemma OrderHistoryOnePerOrder(db: Db)
    requires Valid(db)
    ensures |OrderHistory(db)| == |db.orders|
    ensures forall i :: 0 <= i < |db.orders| ==>
      && OrderHistory(db)[i].orderId == db.orders[i].id
      && OrderHistory(db)[i].quantity == db.orders[i].quantity
      && OrderHistory(db)[i].orderTime == db.orders[i].orderTime
      && exists k :: 0 <= k < |db.menu| && db.menu[k].id == db.orders[i].menuId
                     && OrderHistory(db)[i].name == db.menu[k].name
  {
    JoinOnePerOrder(db.orders, db.menu);
    var js := Join(db.orders, db.menu);
    forall i | 0 <= i < |db.orders|
      ensures exists k :: 0 <= k < |db.menu| && db.menu[k].id == db.orders[i].menuId
                          && OrderHistory(db)[i].name == db.menu[k].name
    {
      var k :| 0 <= k < |db.menu| && db.menu[k] == js[i].item;
    }
  }

  // ---------------------------------------------------------------------
  // Today's summary
  // ---------------------------------------------------------------------

  /** `WHERE date(orders.order_time) = date('now')`, with `today` for `date('now')`. */
  function OnDay(js: seq<Joined>, today: Day): seq<Joined>
  {
    if js == [] then
      []
    else
      var j := js[|js| - 1];
      OnDay(js[..|js| - 1], today) + (if Date(j.order.orderTime) == today then [j] else [])
  }

  /** The joined rows the two daily queries aggregate. */
  function TodayRows(db: Db, today: Day): seq<Joined>
  {
    OnDay(Join(db.orders, db.menu), today)
  }

  /** The date filter keeps exactly the rows of the given day. */
  lemma {:induction false} OnDayMembership(js: seq<Joined>, today: Day, j: Joined)
    ensures j in OnDay(js, today) <==> j in js && Date(j.order.orderTime) == today
  {
    if js != [] {
      var init := js[..|js| - 1];
      assert js == init + [js[|js| - 1]];
      OnDayMembership(init, today, j);
    }
  }

  /** Today's rows are exactly the pairs of a stored order placed today and the
      stored menu row it references. */
  lemma TodayRowsMembership(db: Db, today: Day, j: Joined)
    ensures j in TodayRows(db, today) <==>
      && j.order in db.orders && j.item in db.menu && j.order.menuId == j.item.id
      && Date(j.order.orderTime) == today
  {
    OnDayMembership(Join(db.orders, db.menu), today, j);
    JoinMembership(db.orders, db.menu, j);
  }

  /** `menu.price * orders.quantity`. */
  function Amount(j: Joined): int
  {
    j.item.price * j.order.quantity
  }

  /** The sum of the amounts of some joined rows. */
  function TotalAmount(js: seq<Joined>): int
  {
    if js == [] then 0 else TotalAmount(js[..|js| - 1]) + Amount(js[|js| - 1])
  }

  /** A nullable SQL value. */
  datatype Option<T> = None | Some(value: T)

  /** SQL `SUM(menu.price * orders.quantity)`: NULL over no rows. */
  function SqlSum(js: seq<Joined>): (r: Option<int>)
    ensures r.None? <==> js == []
  {
    if js == [] then None else Some(TotalAmount(js))
  }

  /** Python's `x if x else 0` on a fetched value: NULL (`None`) and 0 are
      both falsy, so the result is `COALESCE(x, 0)`. */
  function OrZero(v: Option<int>): (r: int)
    ensures r == (if v.Some? then v.value else 0)
  {
    if v.Some? && v.value != 0 then v.value else 0
  }

  /** `(order_count, total_sales)` as shown under "Today's Sales Summary". */
  datatype Summary = Summary(orderCount: int, totalSales: int)

  /** `SELECT COUNT(orders.id), SUM(menu.price * orders.quantity) ... WHERE
      date(orders.order_time) = date('now')`, then each value coalesced to 0.
      `COUNT` of the never-NULL `orders.id` is the number of rows. */
  function DailySummary(db: Db, today: Day): (s: Summary)
    ensures s.orderCount == |TodayRows(db, today)|
    ensures s.totalSales == TotalAmount(TodayRows(db, today))
    ensures TodayRows(db, today) == [] ==> s == Summary(0, 0)
  {
    var rows := TodayRows(db, today);
    Summary(OrZero(Some(|rows|)), OrZero(SqlSum(rows)))
  }

  /** The orders placed on a given day, taken straight from the orders table. */
  function OrdersOn(orders: seq<OrderRow>, today: Day): seq<OrderRow>
  {
    if orders == [] then
      []
    else
      var o := orders[|orders| - 1];
      OrdersOn(orders[..|orders| - 1], today) + (if Date(o.orderTime) == today then [o] else [])
  }

  /** The current price of the menu row with the given id (0 when there is none). */
  function PriceOf(menu: seq<MenuRow>, id: int): int
  {
    if menu == [] then
      0
    else if menu[|menu| - 1].id == id then
      menu[|menu| - 1].price
    else
      PriceOf(menu[..|menu| - 1], id)
  }

  /** The name of the menu row with the given id ("" when there is none). */
  function NameOf(menu: seq<MenuRow>, id: int): string
  {
    if menu == [] then
      ""
    else if menu[|menu| - 1].id == id then
      menu[|menu| - 1].name
    else
      NameOf(menu[..|menu| - 1], id)
  }

  /** A reference definition of a day's revenue, without the join: for each
      order of that day, the current price of its item times its quantity. */
  function SalesOn(orders: seq<OrderRow>, menu: seq<MenuRow>, today: Day): int
  {
    if orders == [] then
      0
    else
      var o := orders[|orders| - 1];
      SalesOn(orders[..|orders| - 1], menu, today)
        + (if Date(o.orderTime) == today then PriceOf(menu, o.menuId) * o.quantity else 0)
  }

  /** Looking a keyed menu row up by its id finds its price and its name. */
  lemma {:induction false} LookupRow(menu: seq<MenuRow>, m: MenuRow)
    requires UniqueIds(menu)
    requires m in menu
    ensures PriceOf(menu, m.id) == m.price
    ensures NameOf(menu, m.id) == m.name
  {
    var n := |menu| - 1;
    var init := menu[..n];
    assert menu == init + [menu[n]];
    if menu[n] != m {
      var i :| 0 <= i < |menu| && menu[i] == m;
      assert i < n;
      assert init[i] == m;
      LookupRow(init, m);
    }
  }

  lemma {:induction false} OnDayAppend(a: seq<Joined>, b: seq<Joined>, today: Day)
    ensures OnDay(a + b, today) == OnDay(a, today) + OnDay(b, today)
    decreases |b|
  {
    if b != [] {
      var n := |b| - 1;
      assert (a + b)[..|a + b| - 1] == a + b[..n];
      OnDayAppend(a, b[..n], today);
    } else {
      assert a + b == a;
    }
  }

  lemma {:induction false} TotalAmountAppend(a: seq<Joined>, b: seq<Joined>)
    ensures TotalAmount(a + b) == TotalAmount(a) + TotalAmount(b)
    decreases |b|
  {
    if b != [] {
      var n := |b| - 1;
      assert (a + b)[..|a + b| - 1] == a + b[..n];
      TotalAmountAppend(a, b[..n]);
    } else {
      assert a + b == a;
    }
  }

  /** Appending an order that joins with `m` adds its pairing to today's rows
      when it was placed today, and nothing otherwise. */
  lemma TodayRowsAppend(orders: seq<OrderRow>, o: OrderRow, menu: seq<MenuRow>, m: MenuRow, today: Day)
    requires UniqueIds(menu)
    requires m in menu && m.id == o.menuId
    ensures OnDay(Join(orders + [o], menu), today)
      == OnDay(Join(orders, menu), today) + (if Date(o.orderTime) == today then [Joined(o, m)] else [])
  {
    JoinAppendMatched(orders, o, menu, m);
    var one := [Joined(o, m)];
    assert one[..0] == [];
    OnDayAppend(Join(orders, menu), one, today);
  }

  /** The join-and-filter counts and sums the same orders as the reference
      definitions, when every order references a row of a keyed menu. */
  lemma {:induction false} TodayRowsMatchOrders(orders: seq<OrderRow>, menu: seq<MenuRow>, today: Day)
    requires UniqueIds(menu)
    requires AllReferenced(orders, menu)
    ensures |OnDay(Join(orders, menu), today)| == |OrdersOn(orders, today)|
    ensures TotalAmount(OnDay(Join(orders, menu), today)) == SalesOn(orders, menu, today)
  {
    if orders != [] {
      var n := |orders| - 1;
      var init := orders[..n];
      var o := orders[n];
      assert orders == init + [o];
      assert AllReferenced(init, menu) by {
        forall i | 0 <= i < n ensures HasMenuId(menu, init[i].menuId) {
          assert init[i] == orders[i];
        }
      }
      TodayRowsMatchOrders(init, menu, today);
      var k :| 0 <= k < |menu| && menu[k].id == o.menuId;
      var m := menu[k];
      TodayRowsAppend(init, o, menu, m, today);
      var picked := if Date(o.orderTime) == today then [Joined(o, m)] else [];
      TotalAmountAppend(OnDay(Join(init, menu), today), picked);
      LookupRow(menu, m);
    }
  }

  /** In a valid store the summary counts exactly the orders placed today, and
      its total is their revenue at current prices; with no order today it is (0, 0). */
  lemma DailySummaryMatchesOrders(db: Db, today: Day)
    requires Valid(db)
    ensures DailySummary(db, today).orderCount == |OrdersOn(db.orders, today)|
    ensures DailySummary(db, today).totalSales == SalesOn(db.orders, db.menu, today)
  {
    TodayRowsMatchOrders(db.orders, db.menu, today);
  }

  // ---------------------------------------------------------------------
  // Today's sales grouped by menu name
  // ---------------------------------------------------------------------

  /** A row of `SELECT menu.name, SUM(menu.price * orders.quantity) ... GROUP BY menu.name`. */
  datatype SalesRow = SalesRow(name: string, total: int)

  /** Adds one joined row's amount to the group of its name, opening the group
      when the name is new. */
  function AddToGroup(groups: seq<SalesRow>, name: string, amount: int): seq<SalesRow>
  {
    if groups == [] then
      [SalesRow(name, amount)]
    else if groups[0].name == name then
      [groups[0].(total := groups[0].total + amount)] + groups[1..]
    else
      [groups[0]] + AddToGroup(groups[1..], name, amount)
  }

  /** `GROUP BY menu.name` with `SUM` per group. */
  function GroupByName(js: seq<Joined>): seq<SalesRow>
  {
    if js == [] then
      []
    else
      var j := js[|js| - 1];
      AddToGroup(GroupByName(js[..|js| - 1]), j.item.name, Amount(j))
  }

  /** The per-name sales query. */
  function SalesByMenuName(db: Db, today: Day): seq<SalesRow>
  {
    GroupByName(TodayRows(db, today))
  }

  /** The sum of the group totals. */
  function SumTotals(groups: seq<SalesRow>): int
  {
    if groups == [] then 0 else groups[0].total + SumTotals(groups[1..])
  }

  /** The sum of the totals of the groups with a given name. */
  function TotalNamed(groups: seq<SalesRow>, name: string): int
  {
    if groups == [] then
      0
    else
      (if groups[0].name == name then groups[0].total else 0) + TotalNamed(groups[1..], name)
  }

  /** A reference definition of one name's sales: the amounts of the joined rows
      whose menu row has that name. */
  function NameSum(js: seq<Joined>, name: string): int
  {
    if js == [] then
      0
    else
      var j := js[|js| - 1];
      NameSum(js[..|js| - 1], name) + (if j.item.name == name then Amount(j) else 0)
  }

  /** The group names. */
  function Names(groups: seq<SalesRow>): set<string>
  {
    if groups == [] then {} else {groups[0].name} + Names(groups[1..])
  }

  /** No name heads two groups, stated group by group. */
  predicate Distinct(groups: seq<SalesRow>)
  {
    groups == [] || (groups[0].name !in Names(groups[1..]) && Distinct(groups[1..]))
  }

  /** No name heads two groups, stated by position. */
  predicate DistinctNames(groups: seq<SalesRow>)
  {
    forall i, j :: 0 <= i < j < |groups| ==> groups[i].name != groups[j].name
  }

  predicate HasGroup(groups: seq<SalesRow>, name: string)
  {
    exists i :: 0 <= i < |groups| && groups[i].name == name
  }

  /** Some joined row's menu row has this name. */
  predicate NameOccurs(js: seq<Joined>, name: string)
  {
    exists i :: 0 <= i < |js| && js[i].item.name == name
  }

  lemma {:induction false} AddToGroupSums(groups: seq<SalesRow>, name: string, amount: int, other: string)
    ensures SumTotals(AddToGroup(groups, name, amount)) == SumTotals(groups) + amount
    ensures TotalNamed(AddToGroup(groups, name, amount), other)
      == TotalNamed(groups, other) + (if other == name then amount else 0)
    decreases |groups|
  {
    if groups != [] && groups[0].name != name {
      AddToGroupSums(groups[1..], name, amount, other);
      var rest := AddToGroup(groups[1..], name, amount);
      assert ([groups[0]] + rest)[1..] == rest;
    } else if groups != [] {
      var g := [groups[0].(total := groups[0].total + amount)] + groups[1..];
      assert g[1..] == groups[1..];
    }
  }

  /** Adding to a group opens at most the one new name and keeps names distinct. */
  lemma {:induction false} AddToGroupNames(groups: seq<SalesRow>, name: string, amount: int)
    ensures Names(AddToGroup(groups, name, amount)) == Names(groups) + {name}
    ensures Distinct(groups) ==> Distinct(AddToGroup(groups, name, amount))
    decreases |groups|
  {
    var r := AddToGroup(groups, name, amount);
    if groups != [] {
      if groups[0].name == name {
        assert r[1..] == groups[1..];
      } else {
        AddToGroupNames(groups[1..], name, amount);
        assert r[1..] == AddToGroup(groups[1..], name, amount);
      }
    }
  }

  lemma {:induction false} NamesHasGroup(groups: seq<SalesRow>, name: string)
    ensures name in Names(groups) <==> HasGroup(groups, name)
    decreases |groups|
  {
    if groups != [] {
      var tail := groups[1..];
      NamesHasGroup(tail, name);
      if HasGroup(tail, name) {
        var i :| 0 <= i < |tail| && tail[i].name == name;
        assert groups[i + 1] == tail[i];
      }
      if HasGroup(groups, name) && groups[0].name != name {
        var i :| 0 <= i < |groups| && groups[i].name == name;
        assert tail[i - 1] == groups[i];
      }
    }
  }

  lemma {:induction false} DistinctByPosition(groups: seq<SalesRow>)
    requires Distinct(groups)
    ensures DistinctNames(groups)
    decreases |groups|
  {
    if groups != [] {
      var tail := groups[1..];
      DistinctByPosition(tail);
      forall i, j | 0 <= i < j < |groups| ensures groups[i].name != groups[j].name {
        assert groups[j] == tail[j - 1];
        if i == 0 {
          NamesHasGroup(tail, groups[0].name);
        } else {
          assert groups[i] == tail[i - 1];
        }
      }
    }
  }

  /** Grouping keeps every amount: the group totals add up to the total of the
      rows, and each name's total is the sum of that name's rows. */
  lemma {:induction false} GroupByNameSums(js: seq<Joined>, name: string)
    ensures SumTotals(GroupByName(js)) == TotalAmount(js)
    ensures TotalNamed(GroupByName(js), name) == NameSum(js, name)
  {
    if js != [] {
      var j := js[|js| - 1];
      GroupByNameSums(js[..|js| - 1], name);
      AddToGroupSums(GroupByName(js[..|js| - 1]), j.item.name, Amount(j), name);
    }
  }

  /** Grouping yields one group per name, and a group exactly for the names
      that occur in the rows. */
  lemma {:induction false} GroupByNameGroups(js: seq<Joined>, n: string)
    ensures Distinct(GroupByName(js))
    ensures n in Names(GroupByName(js)) <==> NameOccurs(js, n)
  {
    if js != [] {
      var init := js[..|js| - 1];
      var j := js[|js| - 1];
      GroupByNameGroups(init, n);
      AddToGroupNames(GroupByName(init), j.item.name, Amount(j));
      if NameOccurs(init, n) {
        var i :| 0 <= i < |init| && init[i].item.name == n;
        assert js[i] == init[i];
      }
      if NameOccurs(js, n) && n != j.item.name {
        var i :| 0 <= i < |js| && js[i].item.name == n;
        assert init[i] == js[i];
      }
    }
  }

  lemma {:induction false} TotalNamedAbsent(groups: seq<SalesRow>, name: string)
    requires name !in Names(groups)
    ensures TotalNamed(groups, name) == 0
    decreases |groups|
  {
    if groups != [] {
      TotalNamedAbsent(groups[1..], name);
    }
  }

  /** With distinct names, a group's total is the total for its name. */
  lemma {:induction false} TotalNamedDistinct(groups: seq<SalesRow>, i: int)
    requires Distinct(groups)
    requires 0 <= i < |groups|
    ensures TotalNamed(groups, groups[i].name) == groups[i].total
    decreases |groups|
  {
    var tail := groups[1..];
    if i == 0 {
      TotalNamedAbsent(tail, groups[0].name);
    } else {
      assert tail[i - 1] == groups[i];
      NamesHasGroup(tail, groups[i].name);
      TotalNamedDistinct(tail, i - 1);
    }
  }

  /** Today's per-name sales: each menu name appears once, exactly the names
      with at least one joined order today appear, and each name's total is the
      revenue of today's orders of items with that name (items that share a
      name are merged). */
  lemma SalesByMenuNameCorrect(db: Db, today: Day)
    ensures DistinctNames(SalesByMenuName(db, today))
    ensures forall n :: HasGroup(SalesByMenuName(db, today), n) <==> NameOccurs(TodayRows(db, today), n)
    ensures forall i :: 0 <= i < |SalesByMenuName(db, today)| ==>
      SalesByMenuName(db, today)[i].total
        == NameSum(TodayRows(db, today), SalesByMenuName(db, today)[i].name)
  {
    var rows := TodayRows(db, today);
    var s := GroupByName(rows);
    GroupByNameGroups(rows, "");
    DistinctByPosition(s);
    forall n ensures HasGroup(s, n) <==> NameOccurs(rows, n) {
      GroupByNameGroups(rows, n);
      NamesHasGroup(s, n);
    }
    forall i | 0 <= i < |s| ensures s[i].total == NameSum(rows, s[i].name) {
      GroupByNameSums(rows, s[i].name);
      TotalNamedDistinct(s, i);
    }
  }

  /** The per-name totals add up to the daily summary's total. */
  lemma SalesAddUpToSummary(db: Db, today: Day)
    ensures SumTotals(SalesByMenuName(db, today)) == DailySummary(db, today).totalSales
  {
    GroupByNameSums(TodayRows(db, today), "");
  }

  /** A reference definition of one name's revenue on a day, without the join:
      for each order of that day whose item carries the name, the item's
      current price times the quantity. */
  function NameSalesOn(orders: seq<OrderRow>, menu: seq<MenuRow>, today: Day, name: string): int
  {
    if orders == [] then
      0
    else
      var o := orders[|orders| - 1];
      NameSalesOn(orders[..|orders| - 1], menu, today, name)
        + (if Date(o.orderTime) == today && NameOf(menu, o.menuId) == name
           then PriceOf(menu, o.menuId) * o.quantity else 0)
  }

  lemma {:induction false} NameSumAppend(a: seq<Joined>, b: seq<Joined>, name: string)
    ensures NameSum(a + b, name) == NameSum(a, name) + NameSum(b, name)
    decreases |b|
  {
    if b != [] {
      var n := |b| - 1;
      assert (a + b)[..|a + b| - 1] == a + b[..n];
      NameSumAppend(a, b[..n], name);
    } else {
      assert a + b == a;
    }
  }

  /** The join-and-filter sums the same revenue per name as the reference
      definition, when every order references a row of a keyed menu. */
  lemma {:induction false} TodayRowsMatchNames(orders: seq<OrderRow>, menu: seq<MenuRow>, today: Day, name: string)
    requires UniqueIds(menu)
    requires AllReferenced(orders, menu)
    ensures NameSum(OnDay(Join(orders, menu), today), name) == NameSalesOn(orders, menu, today, name)
  {
    if orders != [] {
      var n := |orders| - 1;
      var init := orders[..n];
      var o := orders[n];
      assert orders == init + [o];
      assert AllReferenced(init, menu) by {
        forall i | 0 <= i < n ensures HasMenuId(menu, init[i].menuId) {
          assert init[i] == orders[i];
        }
      }
      TodayRowsMatchNames(init, menu, today, name);
      var k :| 0 <= k < |menu| && menu[k].id == o.menuId;
      var m := menu[k];
      TodayRowsAppend(init, o, menu, m, today);
      var picked := if Date(o.orderTime) == today then [Joined(o, m)] else [];
      NameSumAppend(OnDay(Join(init, menu), today), picked, name);
      assert picked != [] ==> picked[..0] == [];
      LookupRow(menu, m);
    }
  }

  /** In a valid store each per-name total is that name's revenue today,
      computed from the orders table and current prices without the join. */
  lemma SalesByMenuNameMatchesOrders(db: Db, today: Day)
    requires Valid(db)
    ensures forall i :: 0 <= i < |SalesByMenuName(db, today)| ==>
      SalesByMenuName(db, today)[i].total
        == NameSalesOn(db.orders, db.menu, today, SalesByMenuName(db, today)[i].name)
  {
    SalesByMenuNameCorrect(db, today);
    forall i | 0 <= i < |SalesByMenuName(db, today)|
      ensures SalesByMenuName(db, today)[i].total
        == NameSalesOn(db.orders, db.menu, today, SalesByMenuName(db, today)[i].name)
    {
      TodayRowsMatchNames(db.orders, db.menu, today, SalesByMenuName(db, today)[i].name);
    }
  }
}
