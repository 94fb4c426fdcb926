/** The menu side of the application: the guarded `INSERT INTO menu`, and the
    `menu_dict` that maps each selector label to a menu id. */
module Menu {
  import opened Tables
  import Decimal

  /** What pressing "Add menu item" does: a new row with its id, or the
      "Please enter a menu name" rejection that writes nothing. */
  datatype AddOutcome = Added(db: Db, newId: int) | MissingName

  /** The store after an attempted add: the rejection leaves it as it was. */
  function AfterAdd(db: Db, r: AddOutcome): Db
  {
    match r
    case Added(db', _) => db'
    case MissingName => db
  }

  /** `if name: INSERT INTO menu (name, price) VALUES (?, ?)`; the new id is the
      next value of the AUTOINCREMENT counter. The price input has `min_value=0`. */
  function AddMenuItem(db: Db, name: string, price: int): (r: AddOutcome)
    requires price >= 0
    ensures r.MissingName? <==> name == []
    ensures r.MissingName? ==> AfterAdd(db, r) == db
    ensures r.Added? ==>
      && r.db.orders == db.orders && r.db.orderSeq == db.orderSeq
      && |r.db.menu| == |db.menu| + 1
      && r.db.menu[..|db.menu|] == db.menu
      && r.db.menu[|db.menu|] == MenuRow(r.newId, name, price)
      && r.db.menuSeq == r.newId > db.menuSeq
    ensures Valid(db) ==> Valid(AfterAdd(db, r))
    ensures Valid(db) && r.Added? ==> forall i :: 0 <= i < |db.menu| ==> db.menu[i].id < r.newId
  {
    if name == [] then
      MissingName
    else
      var id := db.menuSeq + 1;
      Added(db.(menu := db.menu + [MenuRow(id, name, price)], menuSeq := id), id)
  }

  /** The selector label `f"{name} (¥{price})"`. */
  function Label(row: MenuRow): string
  {
    row.name + " (\U{A5}" + Decimal.Str(row.price) + ")"
  }

  /** A label can be read back: it starts with the name, ends with ")", and the
      text between " (¥" and that ")" parses as the price. */
  lemma LabelDecodes(row: MenuRow)
    ensures |row.name| + 4 <= |Label(row)|
    ensures Label(row)[..|row.name|] == row.name && Label(row)[|Label(row)| - 1] == ')'
    ensures Decimal.IsIntText(Label(row)[|row.name| + 3 .. |Label(row)| - 1])
    ensures Decimal.ParseInt(Label(row)[|row.name| + 3 .. |Label(row)| - 1]) == row.price
  {
    var r := Label(row);
    assert r[|row.name| + 3 .. |r| - 1] == Decimal.Str(row.price);
    Decimal.StrRoundTrip(row.price);
  }

  /** Two rows get the same label exactly when they have the same name and price:
      the price text is the last run of digits before the final ")", and
      the "¥" before it cannot be a digit or sign. */
  lemma LabelInjective(a: MenuRow, b: MenuRow)
    ensures Label(a) == Label(b) <==> a.name == b.name && a.price == b.price
  {
    if Label(a) == Label(b) {
      var la, lb := Label(a), Label(b);
      var sa, sb := Decimal.Str(a.price), Decimal.Str(b.price);
      assert la[|la| - |sa| - 2] == '\U{A5}';
      assert lb[|lb| - |sb| - 2] == '\U{A5}';
      assert forall t :: |la| - |sa| - 1 <= t < |la| - 1 ==> la[t] == sa[t - (|la| - |sa| - 1)];
      assert forall t :: |lb| - |sb| - 1 <= t < |lb| - 1 ==> lb[t] == sb[t - (|lb| - |sb| - 1)];
      assert |sa| == |sb|;
      assert a.name == la[..|a.name|];
      assert b.name == lb[..|b.name|];
      assert sa == la[|a.name| + 3 .. |a.name| + 3 + |sa|];
      assert sb == lb[|b.name| + 3 .. |b.name| + 3 + |sb|];
      Decimal.StrInjective(a.price, b.price);
    }
  }

  /** Some row of `rows` has key `k`. */
  predicate HasKey<K(==)>(rows: seq<MenuRow>, key: MenuRow -> K, k: K)
  {
    exists i :: 0 <= i < |rows| && key(rows[i]) == k
  }

  /** Row `i` is the last of `rows` whose key is `k`. */
  predicate IsLastWithKey<K(==)>(rows: seq<MenuRow>, key: MenuRow -> K, i: int, k: K)
  {
    && 0 <= i < |rows|
    && key(rows[i]) == k
    && forall j :: i < j < |rows| ==> key(rows[j]) != k
  }

  /** `{key(m): m[0] for m in rows}`: a dict comprehension over the rows in order,
      so a later row with the same key overwrites an earlier one. */
  function IdByKey<K(==)>(rows: seq<MenuRow>, key: MenuRow -> K): map<K, int>
  {
    if rows == [] then
      map[]
    else
      var last := rows[|rows| - 1];
      IdByKey(rows[..|rows| - 1], key)[key(last) := last.id]
  }

  /** The comprehension has exactly the keys of the rows. */
  lemma {:induction false} IdByKeyKeys<K>(rows: seq<MenuRow>, key: MenuRow -> K, k: K)
    ensures k in IdByKey(rows, key) <==> HasKey(rows, key, k)
  {
    if rows != [] {
      var n := |rows| - 1;
      var init := rows[..n];
      assert IdByKey(rows, key) == IdByKey(init, key)[key(rows[n]) := rows[n].id];
      IdByKeyKeys(init, key, k);
      if HasKey(init, key, k) {
        var i :| 0 <= i < |init| && key(init[i]) == k;
        assert rows[i] == init[i];
      }
      if HasKey(rows, key, k) && key(rows[n]) != k {
        var i :| 0 <= i < |rows| && key(rows[i]) == k;
        assert init[i] == rows[i];
      }
    }
  }

  /** Each key maps to the id of the last row carrying it. */
  lemma {:induction false} IdByKeyKeepsLast<K>(rows: seq<MenuRow>, key: MenuRow -> K, k: K)
    requires k in IdByKey(rows, key)
    ensures exists i :: IsLastWithKey(rows, key, i, k) && IdByKey(rows, key)[k] == rows[i].id
  {
    var n := |rows| - 1;
    var init := rows[..n];
    assert IdByKey(rows, key) == IdByKey(init, key)[key(rows[n]) := rows[n].id];
    if key(rows[n]) != k {
      assert k in IdByKey(init, key);
      IdByKeyKeepsLast(init, key, k);
      var i :| IsLastWithKey(init, key, i, k) && IdByKey(init, key)[k] == init[i].id;
      assert rows[i] == init[i];
      assert forall j :: i < j < n ==> rows[j] == init[j];
      assert IsLastWithKey(rows, key, i, k);
    } else {
      assert IsLastWithKey(rows, key, n, k);
    }
  }

  /** `menu_dict = {f"{m[1]} (¥{m[2]})": m[0] for m in menu_items}`. */
  function MenuDict(rows: seq<MenuRow>): map<string, int>
  {
    IdByKey(rows, Label)
  }

  /** In a valid store the selector maps each label to an existing row with that
      label, and of all rows sharing its name and price, to the newest one. */
  lemma SelectorPicksNewestItem(db: Db, k: string)
    requires Valid(db)
    requires k in MenuDict(db.menu)
    ensures exists i ::
      && 0 <= i < |db.menu|
      && Label(db.menu[i]) == k
      && MenuDict(db.menu)[k] == db.menu[i].id
      && forall j :: 0 <= j < |db.menu| && db.menu[j].name == db.menu[i].name
           && db.menu[j].price == db.menu[i].price
           ==> db.menu[j].id <= db.menu[i].id
  {
    IdByKeyKeepsLast(db.menu, Label, k);
    var i :| IsLastWithKey(db.menu, Label, i, k) && MenuDict(db.menu)[k] == db.menu[i].id;
    forall j | 0 <= j < |db.menu| && db.menu[j].name == db.menu[i].name
      && db.menu[j].price == db.menu[i].price
      ensures db.menu[j].id <= db.menu[i].id
    {
      LabelInjective(db.menu[j], db.menu[i]);
    }
  }
}
