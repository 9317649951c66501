/** Properties relating several calls of `database.py`: the table invariants
    every transition keeps, the additive merge of `add_product`, and the
    places where the store is keyed differently from what its callers
    expect. */
module DatabaseFacts {
  import opened Wrappers
  import opened Seqs
  import opened Database

  lemma EmptyValid()
    ensures Valid(Empty)
  {
  }

  lemma AddUserValid(db: Db, username: string, password: string)
    requires Valid(db)
    ensures Valid(AddUser(db, username, password).0)
  {
    var r := AddUser(db, username, password).0;
    if AddUser(db, username, password).1 {
      assert !HasUsername(db, username);
      forall i, j | 0 <= i < j < |r.users|
        ensures r.users[i].id < r.users[j].id && r.users[i].username != r.users[j].username
      {
        if j == |db.users| {
          assert r.users[i] == db.users[i];
        }
      }
    }
  }

  lemma MergeIntoItemsValid(db: Db, i: nat, user: Id, quantity: real, now: Timestamp)
    requires ItemsValid(db) && i < |db.items|
    ensures ItemsValid(MergeInto(db, i, user, quantity, now))
  {
    var r := MergeInto(db, i, user, quantity, now);
    assert forall k :: 0 <= k < |db.items| ==> SameKey(r.items[k], db.items[k]) && r.items[k].id == db.items[k].id;
  }

  lemma MergeIntoHistoryValid(db: Db, i: nat, user: Id, quantity: real, now: Timestamp)
    requires ItemsValid(db) && HistoryValid(db) && i < |db.items| && db.items[i].owner == user
    ensures HistoryValid(MergeInto(db, i, user, quantity, now))
  {
    var r := MergeInto(db, i, user, quantity, now);
    var n := |db.history|;
    assert forall k :: 0 <= k < n ==> r.history[k] == db.history[k];
    assert forall k :: 0 <= k < |db.items| ==> r.items[k].id == db.items[k].id && r.items[k].owner == db.items[k].owner;
    forall h, j | 0 <= h < |r.history| && 0 <= j < |r.items| && r.history[h].productId == r.items[j].id
      ensures r.history[h].owner == r.items[j].owner
    {
      if h == n {
        ItemIdIsKey(db, i, j);
      }
    }
  }

  /** Two inventory rows with the same id are the same row. */
  lemma ItemIdIsKey(db: Db, i: nat, j: nat)
    requires ItemsValid(db)
    requires i < |db.items| && j < |db.items| && db.items[i].id == db.items[j].id
    ensures i == j
  {
  }

  lemma MergeIntoValid(db: Db, i: nat, user: Id, quantity: real, now: Timestamp)
    requires Valid(db) && i < |db.items| && db.items[i].owner == user
    ensures Valid(MergeInto(db, i, user, quantity, now))
  {
    MergeIntoItemsValid(db, i, user, quantity, now);
    MergeIntoHistoryValid(db, i, user, quantity, now);
  }

  lemma InsertNewItemsValid(db: Db, user: Id, name: string, category: string, quantity: real, unit: string,
                            imagePath: Option<string>, minStock: Option<real>, now: Timestamp)
    requires ItemsValid(db) && KeyIndex(db.items, user, name, category).None?
    ensures ItemsValid(InsertNew(db, user, name, category, quantity, unit, imagePath, minStock, now))
  {
    var r := InsertNew(db, user, name, category, quantity, unit, imagePath, minStock, now);
    var x := Item(db.nextItemId, user, name, category, quantity, unit, now, None, imagePath, minStock);
    assert forall k :: 0 <= k < |db.items| ==> !KeyMatch(db.items[k], user, name, category);
    AppendItemValid(db, r, x);
  }

  /** A row with a fresh id and a key no row has keeps the inventory valid. */
  lemma AppendItemValid(db: Db, r: Db, x: Item)
    requires ItemsValid(db)
    requires r.items == db.items + [x] && x.id == db.nextItemId && r.nextItemId == db.nextItemId + 1
    requires forall k :: 0 <= k < |db.items| ==> !SameKey(db.items[k], x)
    ensures ItemsValid(r)
  {
    assert forall k :: 0 <= k < |db.items| ==> r.items[k] == db.items[k];
  }

  lemma InsertNewHistoryValid(db: Db, user: Id, name: string, category: string, quantity: real, unit: string,
                              imagePath: Option<string>, minStock: Option<real>, now: Timestamp)
    requires ItemsValid(db) && HistoryValid(db)
    ensures HistoryValid(InsertNew(db, user, name, category, quantity, unit, imagePath, minStock, now))
  {
    var r := InsertNew(db, user, name, category, quantity, unit, imagePath, minStock, now);
    var m, n := |db.items|, |db.history|;
    assert forall k :: 0 <= k < m ==> r.items[k] == db.items[k];
    assert forall k :: 0 <= k < n ==> r.history[k] == db.history[k];
  }

  lemma InsertNewValid(db: Db, user: Id, name: string, category: string, quantity: real, unit: string,
                       imagePath: Option<string>, minStock: Option<real>, now: Timestamp)
    requires Valid(db) && KeyIndex(db.items, user, name, category).None?
    ensures Valid(InsertNew(db, user, name, category, quantity, unit, imagePath, minStock, now))
  {
    InsertNewItemsValid(db, user, name, category, quantity, unit, imagePath, minStock, now);
    InsertNewHistoryValid(db, user, name, category, quantity, unit, imagePath, minStock, now);
  }

  lemma AddProductValid(db: Db, user: Id, name: string, category: string, quantity: real, unit: string,
                        imagePath: Option<string>, minStock: Option<real>, now: Timestamp)
    requires Valid(db)
    ensures Valid(AddProduct(db, user, name, category, quantity, unit, imagePath, minStock, now))
  {
    match KeyIndex(db.items, user, name, category)
    case Some(i) => MergeIntoValid(db, i, user, quantity, now);
    case None => InsertNewValid(db, user, name, category, quantity, unit, imagePath, minStock, now);
  }

  lemma UpdateInventoryQuantityValid(db: Db, user: Id, name: string, quantity: real,
                                     minStock: Option<real>, now: Timestamp)
    requires Valid(db)
    ensures Valid(UpdateInventoryQuantity(db, user, name, quantity, minStock, now))
  {
    var r := UpdateInventoryQuantity(db, user, name, quantity, minStock, now);
    forall k | 0 <= k < |db.items| ensures SameKey(r.items[k], db.items[k]) && r.items[k].id == db.items[k].id {
      if NameMatch(db.items[k], user, name) {
        assert SameIdentity(r.items[k], db.items[k]);
      }
    }
    SameKeysValid(db, r);
  }

  /** Changing only columns outside the key and the id keeps a store valid. */
  lemma SameKeysValid(db: Db, r: Db)
    requires Valid(db)
    requires r.users == db.users && r.history == db.history
    requires r.nextUserId == db.nextUserId && r.nextItemId == db.nextItemId && r.nextUsageId == db.nextUsageId
    requires |r.items| == |db.items|
    requires forall k :: 0 <= k < |db.items| ==> SameKey(r.items[k], db.items[k]) && r.items[k].id == db.items[k].id
    ensures Valid(r)
  {
  }

  /** Rows drawn from the tables of a valid store keep the history's
      ownership link. */
  lemma SubsetHistoryValid(db: Db, r: Db)
    requires HistoryValid(db) && r.nextUsageId == db.nextUsageId && r.nextItemId == db.nextItemId
    requires forall k :: 0 <= k < |r.history| ==> r.history[k] in db.history
    requires forall k :: 0 <= k < |r.items| ==> r.items[k] in db.items
    requires Pairwise(r.history, (a: Usage, b: Usage) => a.id < b.id)
    ensures HistoryValid(r)
  {
    forall h, j | 0 <= h < |r.history| && 0 <= j < |r.items| && r.history[h].productId == r.items[j].id
      ensures r.history[h].owner == r.items[j].owner
    {
      var h' :| 0 <= h' < |db.history| && db.history[h'] == r.history[h];
      var j' :| 0 <= j' < |db.items| && db.items[j'] == r.items[j];
    }
    forall h | 0 <= h < |r.history|
      ensures r.history[h].id < r.nextUsageId && r.history[h].productId < r.nextItemId
    {
      var h' :| 0 <= h' < |db.history| && db.history[h'] == r.history[h];
    }
  }

  lemma SubsetItemsValid(db: Db, r: Db)
    requires ItemsValid(db) && r.nextItemId == db.nextItemId
    requires forall k :: 0 <= k < |r.items| ==> r.items[k] in db.items
    requires Pairwise(r.items, (a: Item, b: Item) => a.id < b.id)
    requires Pairwise(r.items, (a: Item, b: Item) => !SameKey(a, b))
    ensures ItemsValid(r)
  {
    forall k | 0 <= k < |r.items| ensures r.items[k].id < r.nextItemId {
      var k' :| 0 <= k' < |db.items| && db.items[k'] == r.items[k];
    }
  }

  lemma DeleteProductValid(db: Db, user: Id, name: string)
    requires Valid(db)
    ensures Valid(DeleteProduct(db, user, name).0)
  {
    match NameIndex(db.items, user, name)
    case None =>
    case Some(i) =>
      var first := db.items[i].id;
      var f := (it: Item) => !NameMatch(it, user, name);
      var g := (h: Usage) => !(h.owner == user && h.productId == first);
      var r := DeleteProduct(db, user, name).0;
      assert r == db.(items := Filter(db.items, f), history := Filter(db.history, g));
      FilteredValid(db, f, g);
  }

  /** Keeping only some inventory rows and some history rows of a valid
      store leaves it valid. */
  lemma FilteredValid(db: Db, f: Item -> bool, g: Usage -> bool)
    requires Valid(db)
    ensures Valid(db.(items := Filter(db.items, f), history := Filter(db.history, g)))
  {
    var r := db.(items := Filter(db.items, f), history := Filter(db.history, g));
    FilterPairwise(db.items, f, (a: Item, b: Item) => a.id < b.id);
    FilterPairwise(db.items, f, (a: Item, b: Item) => !SameKey(a, b));
    FilterPairwise(db.history, g, (a: Usage, b: Usage) => a.id < b.id);
    SubsetItemsValid(db, r);
    SubsetHistoryValid(db, r);
  }

  /** Both inventory queries return rows in rowid order; with the
      multiplicities their contracts give, each answer is exactly the
      qualifying rows, once each, by increasing id. */
  lemma QueriesInRowidOrder(db: Db, user: Id)
    requires ItemsValid(db)
    ensures Pairwise(GetUserInventory(db, user), (a: Item, b: Item) => a.id < b.id)
    ensures Pairwise(GetLowStockItems(db, user), (a: Item, b: Item) => a.id < b.id)
  {
    var rel := (a: Item, b: Item) => a.id < b.id;
    FilterPairwise(db.items, (it: Item) => it.owner == user, rel);
    FilterPairwise(db.items, (it: Item) => it.owner == user && IsLow(it), rel);
  }

  /** The (user, name, category) row, if there is one. */
  function KeyRow(db: Db, user: Id, name: string, category: string): Option<Item> {
    match KeyIndex(db.items, user, name, category)
    case Some(i) => Some(db.items[i])
    case None => None
  }

  /** `add_product` accumulates: afterwards the key has a row whose stock is
      the old stock (nothing, for a new row) plus the added amount, and the
      new `'add'` history row points at that row. */
  lemma AddProductAccumulates(db: Db, user: Id, name: string, category: string, quantity: real, unit: string,
                              imagePath: Option<string>, minStock: Option<real>, now: Timestamp)
    ensures var r := AddProduct(db, user, name, category, quantity, unit, imagePath, minStock, now);
      var old_ := KeyRow(db, user, name, category);
      && KeyRow(r, user, name, category).Some?
      && KeyRow(r, user, name, category).value.quantity == (if old_.Some? then old_.value.quantity else 0.0) + quantity
      && KeyRow(r, user, name, category).value.id == r.history[|r.history| - 1].productId
  {
    var r := AddProduct(db, user, name, category, quantity, unit, imagePath, minStock, now);
    var f := (it: Item) => KeyMatch(it, user, name, category);
    match KeyIndex(db.items, user, name, category)
    case Some(i) =>
      FirstIndexAgree(db.items, r.items, f);
    case None =>
      var m := |db.items|;
      assert r.items == db.items + [r.items[m]];
      FirstIndexAppend(db.items, r.items[m], f);
  }

  /** `add_product` leaves the row of every other key as it was. */
  lemma AddProductKeepsOtherKeys(db: Db, user: Id, name: string, category: string, quantity: real, unit: string,
                                 imagePath: Option<string>, minStock: Option<real>, now: Timestamp,
                                 user': Id, name': string, category': string)
    requires (user', name', category') != (user, name, category)
    ensures var r := AddProduct(db, user, name, category, quantity, unit, imagePath, minStock, now);
      KeyRow(r, user', name', category') == KeyRow(db, user', name', category')
  {
    var r := AddProduct(db, user, name, category, quantity, unit, imagePath, minStock, now);
    var g := (it: Item) => KeyMatch(it, user', name', category');
    match KeyIndex(db.items, user, name, category)
    case Some(i) =>
      assert !g(r.items[i]);
      FirstIndexAgree(db.items, r.items, g);
      if KeyIndex(db.items, user', name', category').Some? {
        assert KeyIndex(db.items, user', name', category').value != i;
      }
    case None =>
      var m := |db.items|;
      assert r.items == db.items + [r.items[m]];
      FirstIndexAppend(db.items, r.items[m], g);
  }

  /** The additive-merge property: adding the same key twice adds both
      amounts to the stock and leaves two `'add'` history rows, for the two
      amounts, pointing at that key's row. */
  lemma AddTwiceMerges(db: Db, user: Id, name: string, category: string, q1: real, q2: real, unit: string,
                       img1: Option<string>, min1: Option<real>, now1: Timestamp,
                       img2: Option<string>, min2: Option<real>, now2: Timestamp)
    ensures var d1 := AddProduct(db, user, name, category, q1, unit, img1, min1, now1);
      var d2 := AddProduct(d1, user, name, category, q2, unit, img2, min2, now2);
      var old_ := KeyRow(db, user, name, category);
      var n := |db.history|;
      && KeyRow(d2, user, name, category).Some?
      && KeyRow(d2, user, name, category).value.quantity == (if old_.Some? then old_.value.quantity else 0.0) + q1 + q2
      && |d2.history| == n + 2
      && d2.history[n].operation == Add && d2.history[n].quantityUsed == q1
      && d2.history[n + 1].operation == Add && d2.history[n + 1].quantityUsed == q2
      && d2.history[n].productId == KeyRow(d2, user, name, category).value.id
      && d2.history[n + 1].productId == KeyRow(d2, user, name, category).value.id
  {
    var d1 := AddProduct(db, user, name, category, q1, unit, img1, min1, now1);
    var d2 := AddProduct(d1, user, name, category, q2, unit, img2, min2, now2);
    AddProductAccumulates(db, user, name, category, q1, unit, img1, min1, now1);
    AddProductAccumulates(d1, user, name, category, q2, unit, img2, min2, now2);
    var n := |db.history|;
    assert d2.history[..|d1.history|] == d1.history;
    assert d2.history[n] == d1.history[n];
    assert KeyRow(d2, user, name, category).value.id == KeyRow(d1, user, name, category).value.id;
  }


  /** A user created with `add_user` cannot log in unless the name is also a
      predefined credential: `authenticate_user` never consults the stored
      password. */
  lemma AddedUserCannotLogIn(credentials: map<string, string>, db: Db, username: string, password: string)
    requires username !in credentials
    ensures Authenticate(credentials, AddUser(db, username, password).0, username, password).None?
  {
  }

  /** A predefined user whose row exists always logs in with the predefined
      password, and always gets the id of that row. */
  lemma PredefinedUserLogsIn(credentials: map<string, string>, db: Db, k: nat)
    requires Valid(db)
    requires k < |db.users| && db.users[k].username in credentials
    ensures Authenticate(credentials, db, db.users[k].username, credentials[db.users[k].username]) == Some(db.users[k].id)
  {
    var u := db.users[k].username;
    var r := Authenticate(credentials, db, u, credentials[u]);
    assert HasUsername(db, u);
    var j :| 0 <= j < |db.users| && db.users[j].username == u && db.users[j].id == r.value;
    UsernameIsKey(db, j, k);
  }

  /** Two user rows with the same name are the same row. */
  lemma UsernameIsKey(db: Db, j: nat, k: nat)
    requires UsersValid(db)
    requires j < |db.users| && k < |db.users| && db.users[j].username == db.users[k].username
    ensures j == k
  {
  }

  // ---------------------------------------------------------------------
  // AUTOINCREMENT: an id is never handed out twice
  // ---------------------------------------------------------------------

  /** One call of a store transition of `database.py`. */
  datatype Call =
    | AddUserCall(username: string, password: string)
    | AddProductCall(user: Id, name: string, category: string, quantity: real, unit: string,
                     imagePath: Option<string>, minStock: Option<real>, now: Timestamp)
    | UpdateCall(user: Id, name: string, quantity: real, minStock: Option<real>, now: Timestamp)
    | DeleteCall(user: Id, name: string)

  function Apply(db: Db, c: Call): Db {
    match c
    case AddUserCall(username, password) => AddUser(db, username, password).0
    case AddProductCall(user, name, category, quantity, unit, imagePath, minStock, now) =>
      AddProduct(db, user, name, category, quantity, unit, imagePath, minStock, now)
    case UpdateCall(user, name, quantity, minStock, now) =>
      UpdateInventoryQuantity(db, user, name, quantity, minStock, now)
    case DeleteCall(user, name) => DeleteProduct(db, user, name).0
  }

  /** The store after the calls, in order. */
  function Run(db: Db, calls: seq<Call>): Db
    decreases |calls|
  {
    if |calls| == 0 then db else Run(Apply(db, calls[0]), calls[1..])
  }

  predicate CountersNotLowered(a: Db, b: Db) {
    a.nextUserId <= b.nextUserId && a.nextItemId <= b.nextItemId && a.nextUsageId <= b.nextUsageId
  }

  /** No sequence of store calls lowers an AUTOINCREMENT counter. */
  lemma {:induction false} RunKeepsCounters(db: Db, calls: seq<Call>)
    ensures CountersNotLowered(db, Run(db, calls))
    decreases |calls|
  {
    if |calls| > 0 {
      RunKeepsCounters(Apply(db, calls[0]), calls[1..]);
    }
  }

  /** An inventory id that was handed out and that no row holds any more. */
  predicate ItemIdRetired(db: Db, id: Id) {
    id < db.nextItemId && forall j :: 0 <= j < |db.items| ==> db.items[j].id != id
  }

  /** A history id that was handed out and that no row holds any more. */
  predicate UsageIdRetired(db: Db, id: Id) {
    id < db.nextUsageId && forall j :: 0 <= j < |db.history| ==> db.history[j].id != id
  }

  /** A retired id stays retired through any one call: new rows take the
      counter's value, which is above every id already handed out. */
  lemma ApplyKeepsRetired(db: Db, c: Call, id: Id)
    ensures ItemIdRetired(db, id) ==> ItemIdRetired(Apply(db, c), id)
    ensures UsageIdRetired(db, id) ==> UsageIdRetired(Apply(db, c), id)
  {
    match c
    case AddUserCall(_, _) =>
    case AddProductCall(user, name, category, quantity, unit, imagePath, minStock, now) =>
      AddProductKeepsRetired(db, user, name, category, quantity, unit, imagePath, minStock, now, id);
    case UpdateCall(user, name, quantity, minStock, now) =>
      UpdateKeepsRetired(db, user, name, quantity, minStock, now, id);
    case DeleteCall(user, name) =>
      DeleteKeepsRetired(db, user, name, id);
  }

  lemma AddProductKeepsRetired(db: Db, user: Id, name: string, category: string, quantity: real, unit: string,
                               imagePath: Option<string>, minStock: Option<real>, now: Timestamp, id: Id)
    ensures var r := AddProduct(db, user, name, category, quantity, unit, imagePath, minStock, now);
      && (ItemIdRetired(db, id) ==> ItemIdRetired(r, id))
      && (UsageIdRetired(db, id) ==> UsageIdRetired(r, id))
  {
    var r := AddProduct(db, user, name, category, quantity, unit, imagePath, minStock, now);
    var n := |db.history|;
    assert forall j :: 0 <= j < n ==> r.history[j] == db.history[j];
    if KeyIndex(db.items, user, name, category).Some? {
      assert forall j :: 0 <= j < |db.items| ==> r.items[j].id == db.items[j].id;
    } else {
      assert forall j :: 0 <= j < |db.items| ==> r.items[j] == db.items[j];
    }
  }

  lemma UpdateKeepsRetired(db: Db, user: Id, name: string, quantity: real, minStock: Option<real>, now: Timestamp, id: Id)
    ensures var r := UpdateInventoryQuantity(db, user, name, quantity, minStock, now);
      && (ItemIdRetired(db, id) ==> ItemIdRetired(r, id))
      && (UsageIdRetired(db, id) ==> UsageIdRetired(r, id))
  {
    var r := UpdateInventoryQuantity(db, user, name, quantity, minStock, now);
    forall j | 0 <= j < |db.items| ensures r.items[j].id == db.items[j].id {
      if NameMatch(db.items[j], user, name) {
        assert SameIdentity(r.items[j], db.items[j]);
      }
    }
  }

  lemma DeleteKeepsRetired(db: Db, user: Id, name: string, id: Id)
    ensures var r := DeleteProduct(db, user, name).0;
      && (ItemIdRetired(db, id) ==> ItemIdRetired(r, id))
      && (UsageIdRetired(db, id) ==> UsageIdRetired(r, id))
  {
    var r := DeleteProduct(db, user, name).0;
    forall j | 0 <= j < |r.items| ensures r.items[j] in db.items {
    }
    forall j | 0 <= j < |r.history| ensures r.history[j] in db.history {
    }
  }

  lemma {:induction false} RunKeepsRetired(db: Db, calls: seq<Call>, id: Id)
    ensures ItemIdRetired(db, id) ==> ItemIdRetired(Run(db, calls), id)
    ensures UsageIdRetired(db, id) ==> UsageIdRetired(Run(db, calls), id)
    decreases |calls|
  {
    if |calls| > 0 {
      ApplyKeepsRetired(db, calls[0], id);
      RunKeepsRetired(Apply(db, calls[0]), calls[1..], id);
    }
  }

  /** Ids freed by `delete_product` are never handed out again: after the
      delete and any later calls, no inventory row has the id of a deleted
      row, and no history row has the id of a deleted history row. */
  lemma DeletedIdsNeverReused(db: Db, user: Id, name: string, calls: seq<Call>)
    requires Valid(db)
    ensures var d := DeleteProduct(db, user, name).0;
      var r := Run(d, calls);
      && (forall k, j :: 0 <= k < |db.items| && NameMatch(db.items[k], user, name) && 0 <= j < |r.items| ==>
            r.items[j].id != db.items[k].id)
      && (forall h, j :: 0 <= h < |db.history| && db.history[h] !in d.history && 0 <= j < |r.history| ==>
            r.history[j].id != db.history[h].id)
  {
    var d := DeleteProduct(db, user, name).0;
    var r := Run(d, calls);
    forall k | 0 <= k < |db.items| && NameMatch(db.items[k], user, name)
      ensures ItemIdRetired(r, db.items[k].id)
    {
      DeletedItemRetired(db, user, name, k);
      RunKeepsRetired(d, calls, db.items[k].id);
    }
    forall h | 0 <= h < |db.history| && db.history[h] !in d.history
      ensures UsageIdRetired(r, db.history[h].id)
    {
      DeletedUsageRetired(db, user, name, h);
      RunKeepsRetired(d, calls, db.history[h].id);
    }
  }

  /** Right after the delete, the id of a deleted row is retired. */
  lemma DeletedItemRetired(db: Db, user: Id, name: string, k: nat)
    requires Valid(db) && k < |db.items| && NameMatch(db.items[k], user, name)
    ensures ItemIdRetired(DeleteProduct(db, user, name).0, db.items[k].id)
  {
    var d := DeleteProduct(db, user, name).0;
    DroppedItemIdAbsent(db.items, d.items, user, name, k);
  }

  /** Right after the delete, the id of a deleted history row is retired. */
  lemma DeletedUsageRetired(db: Db, user: Id, name: string, h: nat)
    requires Valid(db) && h < |db.history| && db.history[h] !in DeleteProduct(db, user, name).0.history
    ensures UsageIdRetired(DeleteProduct(db, user, name).0, db.history[h].id)
  {
    var d := DeleteProduct(db, user, name).0;
    DroppedUsageIdAbsent(db.history, d.history, h);
  }

  /** Among rows with strictly increasing ids, keeping only rows that do not
      match the name drops the id of every matching row. */
  lemma DroppedItemIdAbsent(xs: seq<Item>, ys: seq<Item>, user: Id, name: string, k: nat)
    requires forall i, j :: 0 <= i < j < |xs| ==> xs[i].id < xs[j].id
    requires k < |xs| && NameMatch(xs[k], user, name)
    requires forall j :: 0 <= j < |ys| ==> ys[j] in xs && !NameMatch(ys[j], user, name)
    ensures forall j :: 0 <= j < |ys| ==> ys[j].id != xs[k].id
  {
    forall j | 0 <= j < |ys| ensures ys[j].id != xs[k].id {
      var j' :| 0 <= j' < |xs| && xs[j'] == ys[j];
    }
  }

  /** Among history rows with strictly increasing ids, a row left out of a
      selection takes its id with it. */
  lemma DroppedUsageIdAbsent(xs: seq<Usage>, ys: seq<Usage>, h: nat)
    requires forall i, j :: 0 <= i < j < |xs| ==> xs[i].id < xs[j].id
    requires h < |xs| && xs[h] !in ys
    requires forall j :: 0 <= j < |ys| ==> ys[j] in xs
    ensures forall j :: 0 <= j < |ys| ==> ys[j].id != xs[h].id
  {
    forall j | 0 <= j < |ys| ensures ys[j].id != xs[h].id {
      var j' :| 0 <= j' < |xs| && xs[j'] == ys[j];
    }
  }
}
