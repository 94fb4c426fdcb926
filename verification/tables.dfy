/** The two tables of the restaurant store, `menu` and `orders`, and the
    AUTOINCREMENT counters that issue their ids. Every statement of the
    application is a pure function over a `Db` value. */
module Tables {

  /** A calendar day: the part of an `order_time` that SQLite's `date()` keeps. */
  type Day = int

  /** An `order_time` value as written by `datetime('now')`: a day and a time of day. */
  datatype Timestamp = Timestamp(day: Day, secondOfDay: nat)

  /** `date(t)`: the day of a timestamp. */
  function Date(t: Timestamp): Day
  {
    t.day
  }

  /** A row of `menu (id, name, price)`. */
  datatype MenuRow = MenuRow(id: int, name: string, price: int)

  /** A row of `orders (id, menu_id, quantity, order_time)`. */
  datatype OrderRow = OrderRow(id: int, menuId: int, quantity: int, orderTime: Timestamp)

  /** The whole store. The rows of each table are kept in insertion (rowid) order;
      `menuSeq` and `orderSeq` are the `sqlite_sequence` entries, the largest id
      each table has ever issued (0 before the first insert). */
  datatype Db = Db(menu: seq<MenuRow>, orders: seq<OrderRow>, menuSeq: int, orderSeq: int)

  /** The store right after both `CREATE TABLE IF NOT EXISTS` statements on a fresh file. */
  function EmptyDb(): (db: Db)
    ensures Valid(db)
    ensures db.menu == [] && db.orders == []
  {
    Db([], [], 0, 0)
  }

  /** Some menu row carries this id. */
  predicate HasMenuId(menu: seq<MenuRow>, id: int)
  {
    exists i :: 0 <= i < |menu| && menu[i].id == id
  }

  /** Menu ids were issued by the counter, in increasing order; names are
      non-empty and prices non-negative (the only values the input form lets through). */
  predicate MenuValid(menu: seq<MenuRow>, menuSeq: int)
  {
    && (forall i :: 0 <= i < |menu| ==>
          1 <= menu[i].id <= menuSeq && menu[i].name != [] && menu[i].price >= 0)
    && (forall i, j :: 0 <= i < j < |menu| ==> menu[i].id < menu[j].id)
  }

  /** Order ids were issued by the counter, in increasing order; every quantity
      is at least 1 and every order references an existing menu row. */
  predicate OrdersValid(orders: seq<OrderRow>, orderSeq: int, menu: seq<MenuRow>)
  {
    && (forall i :: 0 <= i < |orders| ==>
          1 <= orders[i].id <= orderSeq && orders[i].quantity >= 1
          && HasMenuId(menu, orders[i].menuId))
    && (forall i, j :: 0 <= i < j < |orders| ==> orders[i].id < orders[j].id)
  }

  /** The invariant of every store the application can reach. */
  predicate Valid(db: Db)
  {
    && db.menuSeq >= 0
    && db.orderSeq >= 0
    && MenuValid(db.menu, db.menuSeq)
    && OrdersValid(db.orders, db.orderSeq, db.menu)
  }
}
