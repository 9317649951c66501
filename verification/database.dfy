/** The SQLite store of `database.py` as an immutable value: the `users`,
    `inventory` and `product_usage_history` tables, each a sequence of rows
    in rowid order, plus the next AUTOINCREMENT value of each table.  Every
    public function of the file is a pure query or transition; the clock is
    the `now` parameter and SQL NULL is `None`. */
module Database {
  import opened Wrappers
  import opened Seqs

  type Timestamp = int
  type Id = nat

  /** A row of `users`. */
  datatype User = User(id: Id, username: string, password: string)

  /** The `operation_type` column: `'add'` or `'remove'`. */
  datatype Operation = Add | Remove

  /** A row of `inventory`. */
  datatype Item = Item(
    id: Id,
    owner: Id,
    name: string,
    category: string,
    quantity: real,
    unit: string,
    dateAdded: Timestamp,
    lastUsed: Option<Timestamp>,
    imagePath: Option<string>,
    minStock: Option<real>)

  /** A row of `product_usage_history`. */
  datatype Usage = Usage(
    id: Id,
    owner: Id,
    productId: Id,
    quantityUsed: real,
    usageDate: Timestamp,
    operation: Operation)

  /** The three tables and their AUTOINCREMENT counters. */
  datatype Db = Db(
    users: seq<User>,
    items: seq<Item>,
    history: seq<Usage>,
    nextUserId: Id,
    nextItemId: Id,
    nextUsageId: Id)

  /** Freshly created tables: no rows, every counter at SQLite's first rowid. */
  const Empty: Db := Db([], [], [], 1, 1, 1)

  // ---------------------------------------------------------------------
  // Table invariants
  // ---------------------------------------------------------------------

  /** `users`: rowids increase and stay below the counter; `username` is
      UNIQUE. */
  predicate UsersValid(db: Db) {
    && (forall i, j :: 0 <= i < j < |db.users| ==>
          db.users[i].id < db.users[j].id && db.users[i].username != db.users[j].username)
    && (forall i :: 0 <= i < |db.users| ==> db.users[i].id < db.nextUserId)
  }

  /** The merge key of `add_product`. */
  predicate SameKey(a: Item, b: Item) {
    a.owner == b.owner && a.name == b.name && a.category == b.category
  }

  /** `inventory`: rowids increase and stay below the counter, and no two
      rows share an (owner, name, category) key. */
  predicate ItemsValid(db: Db) {
    && (forall i, j :: 0 <= i < j < |db.items| ==> db.items[i].id < db.items[j].id)
    && (forall i :: 0 <= i < |db.items| ==> db.items[i].id < db.nextItemId)
    && (forall i, j :: 0 <= i < j < |db.items| ==> !SameKey(db.items[i], db.items[j]))
  }

  /** `product_usage_history`: rowids increase and stay below the counter,
      every product id was handed out by `inventory`, and a row whose product
      still exists belongs to that product's owner. */
  predicate HistoryValid(db: Db) {
    && (forall i, j :: 0 <= i < j < |db.history| ==> db.history[i].id < db.history[j].id)
    && (forall i :: 0 <= i < |db.history| ==>
          db.history[i].id < db.nextUsageId && db.history[i].productId < db.nextItemId)
    && (forall i, j :: 0 <= i < |db.history| && 0 <= j < |db.items| && db.history[i].productId == db.items[j].id
          ==> db.history[i].owner == db.items[j].owner)
  }

  predicate Valid(db: Db) {
    UsersValid(db) && ItemsValid(db) && HistoryValid(db)
  }

  // ---------------------------------------------------------------------
  // users
  // ---------------------------------------------------------------------

  predicate HasUsername(db: Db, username: string) {
    exists k :: 0 <= k < |db.users| && db.users[k].username == username
  }

  /** `add_user`: INSERT into `users`; the UNIQUE constraint on `username`
      turns a duplicate into `False` with nothing written. */
  function AddUser(db: Db, username: string, password: string): (r: (Db, bool))
    ensures !r.1 <==> HasUsername(db, username)
    ensures !r.1 ==> r.0 == db
    ensures r.1 ==> r.0.users == db.users + [User(db.nextUserId, username, password)]
    ensures r.0.items == db.items && r.0.history == db.history
    ensures r.1 ==> r.0.nextUserId == db.nextUserId + 1
    ensures r.0.nextItemId == db.nextItemId && r.0.nextUsageId == db.nextUsageId
  {
    match FirstIndex(db.users, (u: User) => u.username == username)
    case Some(_) => (db, false)
    case None =>
      (db.(users := db.users + [User(db.nextUserId, username, password)],
           nextUserId := db.nextUserId + 1), true)
  }

  /** `authenticate_user`: the pair must match the predefined credential map
      exactly; the id then comes from the `users` row with that name. */
  function Authenticate(credentials: map<string, string>, db: Db, username: string, password: string): (r: Option<Id>)
    ensures r.Some? ==> username in credentials && credentials[username] == password
    ensures r.Some? ==> exists k :: 0 <= k < |db.users| && db.users[k].username == username && db.users[k].id == r.value
    ensures r.None? <==> !(username in credentials && credentials[username] == password) || !HasUsername(db, username)
  {
    if username in credentials && credentials[username] == password then
      match FirstIndex(db.users, (u: User) => u.username == username)
      case Some(k) => Some(db.users[k].id)
      case None => None
    else None
  }

  // ---------------------------------------------------------------------
  // inventory
  // ---------------------------------------------------------------------

  predicate KeyMatch(it: Item, user: Id, name: string, category: string) {
    it.owner == user && it.name == name && it.category == category
  }

  predicate NameMatch(it: Item, user: Id, name: string) {
    it.owner == user && it.name == name
  }

  /** The row `SELECT ... WHERE user_id = ? AND product_name = ? AND
      category = ?` fetches first. */
  function KeyIndex(items: seq<Item>, user: Id, name: string, category: string): Option<nat> {
    FirstIndex(items, (it: Item) => KeyMatch(it, user, name, category))
  }

  /** The row `SELECT ... WHERE user_id = ? AND product_name = ?` fetches
      first. */
  function NameIndex(items: seq<Item>, user: Id, name: string): Option<nat> {
    FirstIndex(items, (it: Item) => NameMatch(it, user, name))
  }

  /** The columns an UPDATE of quantity never touches. */
  predicate SameIdentity(a: Item, b: Item) {
    a.id == b.id && a.owner == b.owner && a.name == b.name && a.category == b.category
    && a.unit == b.unit && a.imagePath == b.imagePath
  }

  /** `add_product`: an existing (user, name, category) row has `quantity`
      added to its stock and `date_added` refreshed; otherwise a new row is
      inserted.  Either way one `'add'` history row records `quantity`. */
  function AddProduct(db: Db, user: Id, name: string, category: string, quantity: real, unit: string,
                      imagePath: Option<string>, minStock: Option<real>, now: Timestamp): (r: Db)
    ensures r.users == db.users && r.nextUserId == db.nextUserId
    ensures |r.history| == |db.history| + 1 && r.history[..|db.history|] == db.history
    ensures r.history[|db.history|].operation == Add && r.history[|db.history|].quantityUsed == quantity
    ensures r.history[|db.history|].owner == user && r.history[|db.history|].usageDate == now
    ensures r.history[|db.history|].id == db.nextUsageId && r.nextUsageId == db.nextUsageId + 1
    ensures KeyIndex(db.items, user, name, category).Some? ==>
      var i := KeyIndex(db.items, user, name, category).value;
      && |r.items| == |db.items|
      && SameIdentity(r.items[i], db.items[i])
      && r.items[i].quantity == db.items[i].quantity + quantity
      && r.items[i].dateAdded == now
      && r.items[i].lastUsed == db.items[i].lastUsed
      && r.items[i].minStock == db.items[i].minStock
      && (forall k :: 0 <= k < |db.items| && k != i ==> r.items[k] == db.items[k])
      && r.history[|db.history|].productId == db.items[i].id
      && r.nextItemId == db.nextItemId
    ensures KeyIndex(db.items, user, name, category).None? ==>
      && r.items == db.items + [Item(db.nextItemId, user, name, category, quantity, unit, now, None, imagePath, minStock)]
      && r.history[|db.history|].productId == db.nextItemId
      && r.nextItemId == db.nextItemId + 1
  {
    match KeyIndex(db.items, user, name, category)
    case Some(i) => MergeInto(db, i, user, quantity, now)
    case None => InsertNew(db, user, name, category, quantity, unit, imagePath, minStock, now)
  }

  /** The merge branch of `add_product`: row `i` gains `quantity`. */
  function MergeInto(db: Db, i: nat, user: Id, quantity: real, now: Timestamp): Db
    requires i < |db.items|
  {
    var row := db.items[i];
    db.(items := db.items[i := row.(quantity := row.quantity + quantity, dateAdded := now)],
        history := db.history + [Usage(db.nextUsageId, user, row.id, quantity, now, Add)],
        nextUsageId := db.nextUsageId + 1)
  }

  /** The insert branch of `add_product`. */
  function InsertNew(db: Db, user: Id, name: string, category: string, quantity: real, unit: string,
                     imagePath: Option<string>, minStock: Option<real>, now: Timestamp): Db
  {
    db.(items := db.items + [Item(db.nextItemId, user, name, category, quantity, unit, now, None, imagePath, minStock)],
        history := db.history + [Usage(db.nextUsageId, user, db.nextItemId, quantity, now, Add)],
        nextItemId := db.nextItemId + 1,
        nextUsageId := db.nextUsageId + 1)
  }

  /** `get_user_inventory`: every row of the user, in rowid order. */
  function GetUserInventory(db: Db, user: Id): (r: seq<Item>)
    ensures forall k :: 0 <= k < |r| ==> r[k] in db.items && r[k].owner == user
    ensures forall k :: 0 <= k < |db.items| && db.items[k].owner == user ==> db.items[k] in r
    ensures multiset(r) <= multiset(db.items)
    ensures forall k :: 0 <= k < |db.items| && db.items[k].owner == user ==>
      multiset(r)[db.items[k]] == multiset(db.items)[db.items[k]]
  {
    Filter(db.items, (it: Item) => it.owner == user)
  }

  /** The row after `UPDATE inventory SET quantity, last_used[, min_stock_level]
      WHERE user_id = ? AND product_name = ?`. */
  function Overwrite(it: Item, user: Id, name: string, quantity: real, minStock: Option<real>, now: Timestamp): Item {
    if NameMatch(it, user, name) then
      it.(quantity := quantity, lastUsed := Some(now),
          minStock := if minStock.Some? then minStock else it.minStock)
    else it
  }

  /** `update_inventory_quantity`: overwrites the quantity of every row of
      the user with that product name, in any category; the minimum stock
      level changes only when one is given.  No sign check, no history row. */
  function UpdateInventoryQuantity(db: Db, user: Id, name: string, quantity: real,
                                   minStock: Option<real>, now: Timestamp): (r: Db)
    ensures r.users == db.users && r.history == db.history
    ensures r.nextUserId == db.nextUserId && r.nextItemId == db.nextItemId && r.nextUsageId == db.nextUsageId
    ensures |r.items| == |db.items|
    ensures forall k :: 0 <= k < |db.items| && NameMatch(db.items[k], user, name) ==>
      && SameIdentity(r.items[k], db.items[k])
      && r.items[k].dateAdded == db.items[k].dateAdded
      && r.items[k].quantity == quantity
      && r.items[k].lastUsed == Some(now)
      && r.items[k].minStock == (if minStock.Some? then minStock else db.items[k].minStock)
    ensures forall k :: 0 <= k < |db.items| && !NameMatch(db.items[k], user, name) ==> r.items[k] == db.items[k]
  {
    db.(items := seq(|db.items|, k requires 0 <= k < |db.items| =>
                       Overwrite(db.items[k], user, name, quantity, minStock, now)))
  }

  /** The low-stock condition `quantity <= min_stock_level`; a NULL level
      makes the comparison NULL, so such a row is never low. */
  predicate IsLow(it: Item) {
    it.minStock.Some? && it.quantity <= it.minStock.value
  }

  /** `get_low_stock_items`. */
  function GetLowStockItems(db: Db, user: Id): (r: seq<Item>)
    ensures forall k :: 0 <= k < |r| ==>
      r[k] in db.items && r[k].owner == user && r[k].minStock.Some? && r[k].quantity <= r[k].minStock.value
    ensures forall k :: 0 <= k < |db.items| && db.items[k].owner == user && IsLow(db.items[k]) ==> db.items[k] in r
    ensures multiset(r) <= multiset(db.items)
    ensures forall k :: 0 <= k < |db.items| && db.items[k].owner == user && IsLow(db.items[k]) ==>
      multiset(r)[db.items[k]] == multiset(db.items)[db.items[k]]
  {
    Filter(db.items, (it: Item) => it.owner == user && IsLow(it))
  }

  /** `delete_product`: when some row of the user has that name, deletes
      every such row but only the history of the first one found. */
  function DeleteProduct(db: Db, user: Id, name: string): (r: (Db, bool))
    ensures r.1 <==> exists k :: 0 <= k < |db.items| && NameMatch(db.items[k], user, name)
    ensures !r.1 ==> r.0 == db
    ensures r.0.users == db.users
    ensures r.0.nextUserId == db.nextUserId && r.0.nextItemId == db.nextItemId && r.0.nextUsageId == db.nextUsageId
    ensures r.1 ==>
      var first := db.items[NameIndex(db.items, user, name).value].id;
      && (forall k :: 0 <= k < |r.0.items| ==> r.0.items[k] in db.items && !NameMatch(r.0.items[k], user, name))
      && (forall k :: 0 <= k < |db.items| && !NameMatch(db.items[k], user, name) ==> db.items[k] in r.0.items)
      && (forall k :: 0 <= k < |r.0.history| ==>
            r.0.history[k] in db.history && !(r.0.history[k].owner == user && r.0.history[k].productId == first))
      && (forall k :: 0 <= k < |db.history| && !(db.history[k].owner == user && db.history[k].productId == first) ==>
            db.history[k] in r.0.history)
  {
    match NameIndex(db.items, user, name)
    case None => (db, false)
    case Some(i) =>
      var first := db.items[i].id;
      (db.(items := Filter(db.items, (it: Item) => !NameMatch(it, user, name)),
           history := Filter(db.history, (h: Usage) => !(h.owner == user && h.productId == first))), true)
  }
}
