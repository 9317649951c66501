/** What `delete_product` does to the usage history: the history query can
    no longer see the deleted product, but only the first deleted row's
    history is removed from the table, so a product filed under two
    categories leaves history rows pointing at nothing.  `DeleteProductCascade`
    is the deletion the function's own comment describes. */
module DeleteFacts {
  import opened Wrappers
  import opened Seqs
  import opened Database
  import opened UsageHistory
  import DatabaseFacts

  /** A non-empty history answer for a product name shows that the user
      still has a row with that name. */
  lemma HistoryNeedsProduct(d: Db, user: Id, name: string, limit: int)
    requires HistoryValid(d) && name != ""
    requires |GetProductUsageHistory(d, user, Some(name), limit)| > 0
    ensures exists j :: 0 <= j < |d.items| && NameMatch(d.items[j], user, name)
  {
    var row := GetProductUsageHistory(d, user, Some(name), limit)[0];
    RowNamesOwnedItem(d, user, name, row);
  }

  /** A history row of the user joined with an item of that name shows that
      the item is the user's. */
  lemma RowNamesOwnedItem(d: Db, user: Id, name: string, row: HistoryRow)
    requires HistoryValid(d)
    requires row.usage in d.history && row.usage.owner == user && row.productName == name
    requires exists j :: 0 <= j < |d.items| && d.items[j].id == row.usage.productId && d.items[j].name == row.productName
    ensures exists j :: 0 <= j < |d.items| && NameMatch(d.items[j], user, name)
  {
    var j :| 0 <= j < |d.items| && d.items[j].id == row.usage.productId && d.items[j].name == row.productName;
    var i :| 0 <= i < |d.history| && d.history[i] == row.usage;
    assert d.items[j].owner == user;
  }

  /** After a successful delete the history query for that product is
      empty: its rows are joined only with inventory rows that still exist.
      (An empty name switches the query's filter off, so it is excluded.) */
  lemma DeleteHidesHistory(db: Db, user: Id, name: string, limit: int)
    requires Valid(db) && name != "" && DeleteProduct(db, user, name).1
    ensures GetProductUsageHistory(DeleteProduct(db, user, name).0, user, Some(name), limit) == []
  {
    var d := DeleteProduct(db, user, name).0;
    DatabaseFacts.DeleteProductValid(db, user, name);
    if |GetProductUsageHistory(d, user, Some(name), limit)| > 0 {
      HistoryNeedsProduct(d, user, name, limit);
      assert false;
    }
  }

  /** Some inventory row has this id. */
  predicate HasItem(items: seq<Item>, id: Id) {
    exists j :: 0 <= j < |items| && items[j].id == id
  }

  /** Every history row points at an inventory row that exists. */
  predicate NoOrphans(db: Db) {
    forall i :: 0 <= i < |db.history| ==> HasItem(db.items, db.history[i].productId)
  }

  /** A user's "Milk" filed under two categories: ids 1 and 2, one history
      row each. */
  function TwoCategoryMilk(): Db {
    var d1 := AddProduct(Empty, 1, "Milk", "Dairy & Alternatives", 2.0, "L", None, Some(0.0), 0);
    AddProduct(d1, 1, "Milk", "Frozen Foods", 1.0, "L", None, Some(0.0), 1)
  }

  const DairyMilk: Item := Item(1, 1, "Milk", "Dairy & Alternatives", 2.0, "L", 0, None, None, Some(0.0))
  const FrozenMilk: Item := Item(2, 1, "Milk", "Frozen Foods", 1.0, "L", 1, None, None, Some(0.0))
  const DairyAdd: Usage := Usage(1, 1, 1, 2.0, 0, Add)
  const FrozenAdd: Usage := Usage(2, 1, 2, 1.0, 1, Add)

  lemma FirstMilk()
    ensures AddProduct(Empty, 1, "Milk", "Dairy & Alternatives", 2.0, "L", None, Some(0.0), 0)
      == Db([], [DairyMilk], [DairyAdd], 1, 2, 2)
  {
    assert KeyIndex(Empty.items, 1, "Milk", "Dairy & Alternatives").None?;
  }

  lemma SecondMilk()
    ensures AddProduct(Db([], [DairyMilk], [DairyAdd], 1, 2, 2), 1, "Milk", "Frozen Foods", 1.0, "L", None, Some(0.0), 1)
      == Db([], [DairyMilk, FrozenMilk], [DairyAdd, FrozenAdd], 1, 3, 3)
  {
    var d1 := Db([], [DairyMilk], [DairyAdd], 1, 2, 2);
    assert !KeyMatch(d1.items[0], 1, "Milk", "Frozen Foods");
    assert KeyIndex(d1.items, 1, "Milk", "Frozen Foods").None?;
  }

  lemma MilkValid()
    ensures var d := Db([], [DairyMilk, FrozenMilk], [DairyAdd, FrozenAdd], 1, 3, 3);
      Valid(d) && NoOrphans(d)
  {
    var d := Db([], [DairyMilk, FrozenMilk], [DairyAdd, FrozenAdd], 1, 3, 3);
    assert d.items[0].id == d.history[0].productId;
    assert d.items[1].id == d.history[1].productId;
  }

  /** `delete_product(1, "Milk")` on the two rows: the first match has id 1,
      so only the history of product 1 goes. */
  lemma DeleteMilk()
    ensures var d := Db([], [DairyMilk, FrozenMilk], [DairyAdd, FrozenAdd], 1, 3, 3);
      DeleteProduct(d, 1, "Milk") == (Db([], [], [FrozenAdd], 1, 3, 3), true)
  {
    var d := Db([], [DairyMilk, FrozenMilk], [DairyAdd, FrozenAdd], 1, 3, 3);
    assert NameMatch(d.items[0], 1, "Milk");
    assert NameIndex(d.items, 1, "Milk") == Some(0);
    var f := (it: Item) => !NameMatch(it, 1, "Milk");
    var g := (h: Usage) => !(h.owner == 1 && h.productId == 1);
    assert d.items[1..][1..] == [];
    assert Filter(d.items, f) == [];
    assert d.history[1..][1..] == [];
    assert Filter(d.history, g) == [FrozenAdd];
  }

  /** The delete as written: both "Milk" rows go, but the history of the
      second one (product id 2) stays behind, pointing at nothing. */
  lemma DeleteLeavesOrphans()
    ensures Valid(TwoCategoryMilk()) && NoOrphans(TwoCategoryMilk())
    ensures var r := DeleteProduct(TwoCategoryMilk(), 1, "Milk");
      && r.1
      && r.0.items == []
      && r.0.history == [Usage(2, 1, 2, 1.0, 1, Add)]
      && !NoOrphans(r.0)
  {
    FirstMilk();
    SecondMilk();
    MilkValid();
    DeleteMilk();
  }

  /** Some row of the user with that name has this id: its history goes
      with it. */
  predicate Deleted(db: Db, user: Id, name: string, id: Id) {
    exists j :: 0 <= j < |db.items| && NameMatch(db.items[j], user, name) && db.items[j].id == id
  }

  /** The delete `delete_product` means to perform: every row of the user
      with that name, and the history of every one of them, and nothing
      else. */
  function DeleteProductCascade(db: Db, user: Id, name: string): (r: (Db, bool))
    ensures r.1 <==> exists k :: 0 <= k < |db.items| && NameMatch(db.items[k], user, name)
    ensures !r.1 ==> r.0 == db
    ensures r.0.users == db.users
    ensures r.0.nextUserId == db.nextUserId && r.0.nextItemId == db.nextItemId && r.0.nextUsageId == db.nextUsageId
    ensures forall k :: 0 <= k < |r.0.items| ==> r.0.items[k] in db.items && !NameMatch(r.0.items[k], user, name)
    ensures forall k :: 0 <= k < |db.items| && !NameMatch(db.items[k], user, name) ==> db.items[k] in r.0.items
    ensures forall k :: 0 <= k < |r.0.history| ==> r.0.history[k] in db.history
    ensures forall k :: 0 <= k < |r.0.history| ==> !Deleted(db, user, name, r.0.history[k].productId)
    ensures forall k :: 0 <= k < |db.history| && !Deleted(db, user, name, db.history[k].productId) ==> db.history[k] in r.0.history
  {
    match NameIndex(db.items, user, name)
    case None => (db, false)
    case Some(_) =>
      (db.(items := Filter(db.items, (it: Item) => !NameMatch(it, user, name)),
           history := Filter(db.history, (h: Usage) => !Deleted(db, user, name, h.productId))), true)
  }

  /** With the cascading delete no history row is ever left pointing at a
      deleted product. */
  lemma CascadeKeepsNoOrphans(db: Db, user: Id, name: string)
    requires NoOrphans(db)
    ensures NoOrphans(DeleteProductCascade(db, user, name).0)
  {
    KeptRowsKeepTargets(db, DeleteProductCascade(db, user, name).0, user, name);
  }

  /** Any store whose rows are drawn from `db`, that keeps every row not
      matching the name, and whose history points at none that does, has no
      orphans when `db` had none. */
  lemma KeptRowsKeepTargets(db: Db, r: Db, user: Id, name: string)
    requires NoOrphans(db)
    requires forall k :: 0 <= k < |db.items| && !NameMatch(db.items[k], user, name) ==> db.items[k] in r.items
    requires forall k :: 0 <= k < |r.history| ==> r.history[k] in db.history
    requires forall k :: 0 <= k < |r.history| ==> !Deleted(db, user, name, r.history[k].productId)
    ensures NoOrphans(r)
  {
    forall i | 0 <= i < |r.history|
      ensures HasItem(r.items, r.history[i].productId)
    {
      var i0 :| 0 <= i0 < |db.history| && db.history[i0] == r.history[i];
      var j0 :| 0 <= j0 < |db.items| && db.items[j0].id == db.history[i0].productId;
      var j :| 0 <= j < |r.items| && r.items[j] == db.items[j0];
      assert r.items[j].id == r.history[i].productId;
    }
  }

  /** `add_product` and `update_inventory_quantity` never orphan a history
      row either, so with the cascading delete the property is an invariant
      of the store. */
  lemma AddProductKeepsNoOrphans(db: Db, user: Id, name: string, category: string, quantity: real, unit: string,
                                 imagePath: Option<string>, minStock: Option<real>, now: Timestamp)
    requires NoOrphans(db)
    ensures NoOrphans(AddProduct(db, user, name, category, quantity, unit, imagePath, minStock, now))
  {
    var r := AddProduct(db, user, name, category, quantity, unit, imagePath, minStock, now);
    var n := |db.history|;
    forall i | 0 <= i < |r.history|
      ensures HasItem(r.items, r.history[i].productId)
    {
      match KeyIndex(db.items, user, name, category)
      case Some(k) =>
        if i < n {
          assert r.history[i] == db.history[i];
          var j :| 0 <= j < |db.items| && db.items[j].id == db.history[i].productId;
          assert r.items[j].id == db.items[j].id;
        } else {
          assert r.items[k].id == r.history[i].productId;
        }
      case None =>
        if i < n {
          assert r.history[i] == db.history[i];
          var j :| 0 <= j < |db.items| && db.items[j].id == db.history[i].productId;
          assert r.items[j] == db.items[j];
        } else {
          assert r.items[|db.items|].id == r.history[i].productId;
        }
    }
  }

  lemma UpdateKeepsNoOrphans(db: Db, user: Id, name: string, quantity: real, minStock: Option<real>, now: Timestamp)
    requires NoOrphans(db)
    ensures NoOrphans(UpdateInventoryQuantity(db, user, name, quantity, minStock, now))
  {
    var r := UpdateInventoryQuantity(db, user, name, quantity, minStock, now);
    assert r.history == db.history;
    assert forall k :: 0 <= k < |db.items| ==> r.items[k].id == db.items[k].id;
    forall i | 0 <= i < |r.history|
      ensures HasItem(r.items, r.history[i].productId)
    {
      var j :| 0 <= j < |db.items| && db.items[j].id == db.history[i].productId;
      assert r.items[j].id == r.history[i].productId;
    }
  }
}
