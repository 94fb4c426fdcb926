/** One run of the page script: at most one button press, then every read
    query in the order the script issues them. */
module App {
  import opened Tables
  import Menu
  import Orders
  import opened Reports

  /** The button pressed in this run (Streamlit reports at most one per run). */
  datatype Action =
    | NoClick
    | AddMenuClicked(name: string, price: int)
    | PlaceOrderClicked(selected: string, quantity: int)

  /** What the script reads back and renders. */
  datatype Page = Page(
    menuList: seq<MenuRow>,
    selector: map<string, int>,
    history: seq<HistoryRow>,
    summary: Summary,
    sales: seq<SalesRow>)

  datatype Run = Run(db: Db, page: Page)

  /** What the widgets let through: a price input with `min_value=0`, a
      selectbox offering only the keys of `menu_dict`, a quantity input with
      `min_value=1`. */
  predicate Allowed(db: Db, a: Action)
  {
    match a
    case NoClick => true
    case AddMenuClicked(_, price) => price >= 0
    case PlaceOrderClicked(selected, quantity) => selected in Menu.MenuDict(db.menu) && quantity >= 1
  }

  /** All read queries against one store, with `today` for `date('now')`. The
      summary panel and the per-name chart agree on today's revenue. */
  function ReadPage(db: Db, today: Day): (p: Page)
    ensures p.summary.totalSales == SumTotals(p.sales)
  {
    SalesAddUpToSummary(db, today);
    Page(db.menu, Menu.MenuDict(db.menu), OrderHistory(db),
         DailySummary(db, today), SalesByMenuName(db, today))
  }

  /** The script top to bottom: the guarded menu insert, `SELECT * FROM menu`,
      the selector query, the order insert, then the three report queries.
      The menu is read before the order insert, yet every panel shows the
      final store, and a run without a click writes nothing. */
  function Rerun(db: Db, a: Action, now: Timestamp): (r: Run)
    requires Allowed(db, a)
    ensures r.page == ReadPage(r.db, Date(now))
    ensures a.NoClick? ==> r.db == db
    ensures a.AddMenuClicked? ==> r.db == Menu.AfterAdd(db, Menu.AddMenuItem(db, a.name, a.price))
    ensures a.PlaceOrderClicked? ==> r.db == Orders.PlaceOrder(db, a.selected, a.quantity, now)
    ensures Valid(db) ==> Valid(r.db)
  {
    var db1 :=
      if a.AddMenuClicked? then Menu.AfterAdd(db, Menu.AddMenuItem(db, a.name, a.price)) else db;
    var menuList := db1.menu;
    var selector := Menu.MenuDict(db1.menu);
    var db2 :=
      if a.PlaceOrderClicked? then Orders.PlaceOrder(db1, a.selected, a.quantity, now) else db1;
    Run(db2, Page(menuList, selector, OrderHistory(db2),
                  DailySummary(db2, Date(now)), SalesByMenuName(db2, Date(now))))
  }

  /** Refreshing the page later the same day, without a click, shows exactly
      what the run showed and leaves the store as it was. */
  lemma RefreshIsStable(db: Db, a: Action, now: Timestamp, later: Timestamp)
    requires Allowed(db, a)
    requires Date(later) == Date(now)
    ensures Rerun(Rerun(db, a, now).db, NoClick, later) == Rerun(db, a, now)
  {
  }

  /** Adding ("Ramen", 800) to a fresh store issues id 1. */
  lemma RamenAdded(now: Timestamp)
    ensures Rerun(EmptyDb(), AddMenuClicked("Ramen", 800), now).db
      == Db([MenuRow(1, "Ramen", 800)], [], 1, 0)
  {
  }

  /** Selecting that item's label with quantity 2 stores order 1 for menu id 1. */
  lemma RamenOrderStored(now: Timestamp)
    ensures var ramen := MenuRow(1, "Ramen", 800);
      && Menu.Label(ramen) in Menu.MenuDict([ramen])
      && Orders.PlaceOrder(Db([ramen], [], 1, 0), Menu.Label(ramen), 2, now)
           == Db([ramen], [OrderRow(1, 1, 2, now)], 1, 1)
  {
    var ramen := MenuRow(1, "Ramen", 800);
    assert [ramen][..0] == [];
    assert Menu.IdByKey([ramen], Menu.Label) == Menu.IdByKey([], Menu.Label)[Menu.Label(ramen) := 1];
  }

  /** The join of that store pairs the order with its item. */
  lemma RamenJoin(now: Timestamp)
    ensures var ramen := MenuRow(1, "Ramen", 800);
      var o := OrderRow(1, 1, 2, now);
      TodayRows(Db([ramen], [o], 1, 1), Date(now)) == [Joined(o, ramen)]
  {
    var ramen := MenuRow(1, "Ramen", 800);
    var o := OrderRow(1, 1, 2, now);
    assert [ramen][..0] == [] && [o][..0] == [];
    assert JoinOne(o, [ramen]) == JoinOne(o, []) + [Joined(o, ramen)];
    assert Join([o], [ramen]) == Join([], [ramen]) + JoinOne(o, [ramen]);
    var js := [Joined(o, ramen)];
    assert js[..0] == [];
    assert OnDay(js, Date(now)) == OnDay([], Date(now)) + js;
  }

  /** With that order stored, today's page reports one order and 1600 in total,
      all under "Ramen". */
  lemma RamenReported(now: Timestamp)
    ensures var ramen := MenuRow(1, "Ramen", 800);
      var db := Db([ramen], [OrderRow(1, 1, 2, now)], 1, 1);
      && DailySummary(db, Date(now)) == Summary(1, 1600)
      && SalesByMenuName(db, Date(now)) == [SalesRow("Ramen", 1600)]
  {
    RamenJoin(now);
    var js := [Joined(OrderRow(1, 1, 2, now), MenuRow(1, "Ramen", 800))];
    assert js[..0] == [];
    assert TotalAmount(js) == TotalAmount([]) + 1600;
    assert GroupByName(js) == AddToGroup([], "Ramen", 1600);
  }

  /** The whole run: pressing "Place Order" for two Ramen reports one order,
      1600 in total, all under "Ramen". */
  lemma RamenOrdered(now: Timestamp)
    ensures var ramen := MenuRow(1, "Ramen", 800);
      var db := Db([ramen], [], 1, 0);
      var click := PlaceOrderClicked(Menu.Label(ramen), 2);
      && Allowed(db, click)
      && Rerun(db, click, now).page.summary == Summary(1, 1600)
      && Rerun(db, click, now).page.sales == [SalesRow("Ramen", 1600)]
  {
    RamenOrderStored(now);
    RamenReported(now);
  }

  /** Two rows with different names get different labels, so the selector
      keeps both. */
  lemma TwoItemSelector()
    ensures var ramen := MenuRow(1, "Ramen", 800);
      var gyoza := MenuRow(2, "Gyoza", 400);
      Menu.MenuDict([ramen, gyoza]) == map[Menu.Label(ramen) := 1, Menu.Label(gyoza) := 2]
  {
    var ramen := MenuRow(1, "Ramen", 800);
    var gyoza := MenuRow(2, "Gyoza", 400);
    var menu := [ramen, gyoza];
    assert menu[..1] == [ramen] && menu[..1][..0] == [];
    assert Menu.IdByKey([ramen], Menu.Label) == Menu.IdByKey([], Menu.Label)[Menu.Label(ramen) := 1];
    assert Menu.IdByKey(menu, Menu.Label) == Menu.IdByKey([ramen], Menu.Label)[Menu.Label(gyoza) := 2];
  }

  /** Adding ("Ramen", 800) and then ("Gyoza", 400) to a fresh store issues
      ids 1 and 2. */
  lemma TwoItemMenu()
    ensures var db1 := Menu.AfterAdd(EmptyDb(), Menu.AddMenuItem(EmptyDb(), "Ramen", 800));
      Menu.AfterAdd(db1, Menu.AddMenuItem(db1, "Gyoza", 400))
        == Db([MenuRow(1, "Ramen", 800), MenuRow(2, "Gyoza", 400)], [], 2, 0)
  {
    var db1 := Menu.AfterAdd(EmptyDb(), Menu.AddMenuItem(EmptyDb(), "Ramen", 800));
    assert db1 == Db([MenuRow(1, "Ramen", 800)], [], 1, 0);
  }

  /** Ordering two Ramen from that menu stores order 1 for menu id 1. */
  lemma TwoItemFirstOrder(now: Timestamp)
    ensures var ramen := MenuRow(1, "Ramen", 800);
      var menu := [ramen, MenuRow(2, "Gyoza", 400)];
      && Menu.Label(ramen) in Menu.MenuDict(menu)
      && Orders.PlaceOrder(Db(menu, [], 2, 0), Menu.Label(ramen), 2, now)
           == Db(menu, [OrderRow(1, 1, 2, now)], 2, 1)
  {
    var ramen := MenuRow(1, "Ramen", 800);
    var gyoza := MenuRow(2, "Gyoza", 400);
    TwoItemSelector();
    Menu.LabelInjective(ramen, gyoza);
    assert Menu.MenuDict([ramen, gyoza])[Menu.Label(ramen)] == 1;
  }

  /** Then ordering three Gyoza stores order 2 for menu id 2. */
  lemma TwoItemSecondOrder(now: Timestamp)
    ensures var gyoza := MenuRow(2, "Gyoza", 400);
      var menu := [MenuRow(1, "Ramen", 800), gyoza];
      var o1 := OrderRow(1, 1, 2, now);
      && Menu.Label(gyoza) in Menu.MenuDict(menu)
      && Orders.PlaceOrder(Db(menu, [o1], 2, 1), Menu.Label(gyoza), 3, now)
           == Db(menu, [o1, OrderRow(2, 2, 3, now)], 2, 2)
  {
    var ramen := MenuRow(1, "Ramen", 800);
    var gyoza := MenuRow(2, "Gyoza", 400);
    TwoItemSelector();
    Menu.LabelInjective(ramen, gyoza);
    assert Menu.MenuDict([ramen, gyoza])[Menu.Label(gyoza)] == 2;
  }

  /** The join of the two-item store pairs each order with its item. */
  lemma TwoItemJoin(now: Timestamp)
    ensures var ramen := MenuRow(1, "Ramen", 800);
      var gyoza := MenuRow(2, "Gyoza", 400);
      var o1 := OrderRow(1, 1, 2, now);
      var o2 := OrderRow(2, 2, 3, now);
      TodayRows(Db([ramen, gyoza], [o1, o2], 2, 2), Date(now))
        == [Joined(o1, ramen), Joined(o2, gyoza)]
  {
    var ramen := MenuRow(1, "Ramen", 800);
    var gyoza := MenuRow(2, "Gyoza", 400);
    var o1 := OrderRow(1, 1, 2, now);
    var o2 := OrderRow(2, 2, 3, now);
    var menu := [ramen, gyoza];
    var orders := [o1, o2];
    assert menu[..1] == [ramen] && menu[..1][..0] == [];
    assert orders[..1] == [o1] && orders[..1][..0] == [];
    assert JoinOne(o1, [ramen]) == JoinOne(o1, []) + [Joined(o1, ramen)];
    assert JoinOne(o1, menu) == JoinOne(o1, [ramen]) + [];
    assert JoinOne(o2, [ramen]) == JoinOne(o2, []) + [];
    assert JoinOne(o2, menu) == JoinOne(o2, [ramen]) + [Joined(o2, gyoza)];
    var js := [Joined(o1, ramen), Joined(o2, gyoza)];
    assert Join([o1], menu) == Join([], menu) + JoinOne(o1, menu);
    assert Join(orders, menu) == Join([o1], menu) + JoinOne(o2, menu);
    assert js[..1] == [js[0]] && js[..1][..0] == [];
    assert OnDay(js[..1], Date(now)) == OnDay([], Date(now)) + [js[0]];
    assert OnDay(js, Date(now)) == OnDay(js[..1], Date(now)) + [js[1]];
    assert Join(orders, menu) == js;
    assert TodayRows(Db(menu, orders, 2, 2), Date(now)) == OnDay(js, Date(now));
  }

  /** With those two orders stored, today's summary reports two orders and
      800 * 2 + 400 * 3 = 2800. The per-name sales have one group for each of
      the two names, 1600 for "Ramen" and 1200 for "Gyoza", in whatever order
      the groups come out. */
  lemma TwoItemSummary(now: Timestamp)
    ensures var ramen := MenuRow(1, "Ramen", 800);
      var gyoza := MenuRow(2, "Gyoza", 400);
      var db := Db([ramen, gyoza], [OrderRow(1, 1, 2, now), OrderRow(2, 2, 3, now)], 2, 2);
      var sales := SalesByMenuName(db, Date(now));
      && DailySummary(db, Date(now)) == Summary(2, 2800)
      && |sales| == 2
      && HasGroup(sales, "Ramen") && HasGroup(sales, "Gyoza")
      && TotalNamed(sales, "Ramen") == 1600 && TotalNamed(sales, "Gyoza") == 1200
  {
    TwoItemJoin(now);
    var js := [Joined(OrderRow(1, 1, 2, now), MenuRow(1, "Ramen", 800)),
               Joined(OrderRow(2, 2, 3, now), MenuRow(2, "Gyoza", 400))];
    assert js[..1] == [js[0]] && js[..1][..0] == [];
    assert TotalAmount(js[..1]) == TotalAmount([]) + 1600;
    assert TotalAmount(js) == TotalAmount(js[..1]) + 1200;
    assert GroupByName(js[..1]) == AddToGroup([], "Ramen", 1600);
    var sales := [SalesRow("Ramen", 1600), SalesRow("Gyoza", 1200)];
    assert GroupByName(js) == AddToGroup([SalesRow("Ramen", 1600)], "Gyoza", 1200) == sales;
    assert sales[1..] == [sales[1]] && sales[1..][1..] == [];
    assert TotalNamed(sales, "Ramen") == 1600 + TotalNamed([sales[1]], "Ramen");
    assert TotalNamed(sales, "Gyoza") == 0 + TotalNamed([sales[1]], "Gyoza");
  }
}
