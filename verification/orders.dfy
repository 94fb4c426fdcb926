/** The order side of the application: `INSERT INTO orders` with the id the
    selector maps the chosen label to. */
module Orders {
  import opened Tables
  import Menu

  /** `INSERT INTO orders (menu_id, quantity, order_time) VALUES (?, ?, datetime('now'))`.
      SQLite checks foreign keys only under `PRAGMA foreign_keys`, which the
      application never sets, so any `menuId` is accepted here. */
  function InsertOrder(db: Db, menuId: int, quantity: int, now: Timestamp): (r: Db)
    ensures r.menu == db.menu && r.menuSeq == db.menuSeq
    ensures |r.orders| == |db.orders| + 1
    ensures r.orders[..|db.orders|] == db.orders
    ensures r.orderSeq > db.orderSeq
    ensures r.orders[|db.orders|] == OrderRow(r.orderSeq, menuId, quantity, now)
  {
    var id := db.orderSeq + 1;
    db.(orders := db.orders + [OrderRow(id, menuId, quantity, now)], orderSeq := id)
  }

  /** "Place Order": the selected label is one of the selector's keys and the
      quantity input has `min_value=1`. The new order names the menu row that
      carries the selected label (the newest one, when several rows share it),
      and nothing else in the store changes. */
  function PlaceOrder(db: Db, selected: string, quantity: int, now: Timestamp): (r: Db)
    requires selected in Menu.MenuDict(db.menu)
    requires quantity >= 1
    ensures r.menu == db.menu && r.menuSeq == db.menuSeq
    ensures |r.orders| == |db.orders| + 1 && r.orders[..|db.orders|] == db.orders
    ensures r.orders[|db.orders|].id == r.orderSeq > db.orderSeq
    ensures r.orders[|db.orders|].quantity == quantity
    ensures r.orders[|db.orders|].orderTime == now
    ensures exists i :: 0 <= i < |db.menu| && db.menu[i].id == r.orders[|db.orders|].menuId
                        && Menu.Label(db.menu[i]) == selected
    ensures r.orders[|db.orders|].menuId == Menu.MenuDict(db.menu)[selected]
    ensures Valid(db) ==> forall j :: 0 <= j < |db.menu| && Menu.Label(db.menu[j]) == selected
                                      ==> db.menu[j].id <= r.orders[|db.orders|].menuId
    ensures Valid(db) ==> Valid(r)
    ensures Valid(db) ==> forall i :: 0 <= i < |db.orders| ==> db.orders[i].id < r.orderSeq
  {
    Menu.IdByKeyKeepsLast(db.menu, Menu.Label, selected);
    InsertOrder(db, Menu.MenuDict(db.menu)[selected], quantity, now)
  }
}
