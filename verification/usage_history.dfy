/** `get_product_usage_history`: the user's history rows joined with the
    inventory row they point at, newest first, at most `limit` of them. */
module UsageHistory {
  import opened Wrappers
  import opened Seqs
  import opened Database

  /** A result row: the history columns `h.*` plus `i.product_name`. */
  datatype HistoryRow = HistoryRow(usage: Usage, productName: string)

  /** `if product_name:` — `None` and the empty string both mean "every
      product". */
  predicate FiltersByName(name: Option<string>) {
    name.Some? && name.value != ""
  }

  /** The inventory row `JOIN inventory i ON h.product_id = i.id` pairs with a
      history row. */
  function ItemById(items: seq<Item>, id: Id): (r: Option<Item>)
    ensures r.Some? ==> r.value in items && r.value.id == id
    ensures r.None? ==> forall k :: 0 <= k < |items| ==> items[k].id != id
  {
    match FirstIndex(items, (it: Item) => it.id == id)
    case Some(k) => Some(items[k])
    case None => None
  }

  /** The result row a history row contributes, if it passes the WHERE
      clause and the join. */
  function JoinRow(items: seq<Item>, user: Id, name: Option<string>, h: Usage): Option<HistoryRow> {
    if h.owner != user then None
    else match ItemById(items, h.productId)
      case None => None
      case Some(it) =>
        if FiltersByName(name) && it.name != name.value then None
        else Some(HistoryRow(h, it.name))
  }

  /** Every result row of the join, before ordering and LIMIT. */
  function Joined(items: seq<Item>, hist: seq<Usage>, user: Id, name: Option<string>): (r: seq<HistoryRow>)
    ensures forall k :: 0 <= k < |r| ==> r[k].usage in hist && JoinRow(items, user, name, r[k].usage) == Some(r[k])
    ensures forall k :: 0 <= k < |hist| && JoinRow(items, user, name, hist[k]).Some? ==>
      JoinRow(items, user, name, hist[k]).value in r
  {
    if |hist| == 0 then []
    else
      var rest := Joined(items, hist[1..], user, name);
      match JoinRow(items, user, name, hist[0])
      case Some(row) => [row] + rest
      case None => rest
  }

  predicate NewestFirst(s: seq<HistoryRow>) {
    forall i, j :: 0 <= i < j < |s| ==> s[i].usage.usageDate >= s[j].usage.usageDate
  }

  /** A newest-first sequence stays newest first under a row at least as
      new as all of it. */
  lemma NewestFirstCons(x: HistoryRow, s: seq<HistoryRow>)
    requires NewestFirst(s)
    requires forall k :: 0 <= k < |s| ==> x.usage.usageDate >= s[k].usage.usageDate
    ensures NewestFirst([x] + s)
  {
    var r := [x] + s;
    forall i, j | 0 <= i < j < |r| ensures r[i].usage.usageDate >= r[j].usage.usageDate {
      assert r[j] == s[j - 1];
      if i > 0 {
        assert r[i] == s[i - 1];
      }
    }
  }

  /** Places `x` into a newest-first sequence. */
  function InsertByDate(x: HistoryRow, s: seq<HistoryRow>): (r: seq<HistoryRow>)
    requires NewestFirst(s)
    ensures NewestFirst(r)
    ensures multiset(r) == multiset(s) + multiset{x}
    ensures forall k :: 0 <= k < |r| ==> r[k] == x || r[k] in s
  {
    if |s| == 0 then [x]
    else if x.usage.usageDate >= s[0].usage.usageDate then
      NewestFirstCons(x, s);
      [x] + s
    else
      var rest := InsertByDate(x, s[1..]);
      assert s == [s[0]] + s[1..];
      HeadIsNewest(s);
      NoNewerThan(s[0], x, s[1..], rest);
      NewestFirstCons(s[0], rest);
      ConsKeepsRows(s[0], x, s[1..], rest);
      [s[0]] + rest
  }

  /** Putting the same row in front of both sides keeps `rest` made of the
      rows of `t` and `x`. */
  lemma ConsKeepsRows(y: HistoryRow, x: HistoryRow, t: seq<HistoryRow>, rest: seq<HistoryRow>)
    requires multiset(rest) == multiset(t) + multiset{x}
    requires forall k :: 0 <= k < |rest| ==> rest[k] == x || rest[k] in t
    ensures multiset([y] + rest) == multiset([y] + t) + multiset{x}
    ensures forall k :: 0 <= k < |[y] + rest| ==> ([y] + rest)[k] == x || ([y] + rest)[k] in [y] + t
  {
    forall k | 0 <= k < |[y] + rest| ensures ([y] + rest)[k] == x || ([y] + rest)[k] in [y] + t {
      if k > 0 {
        assert ([y] + rest)[k] == rest[k - 1];
      }
    }
  }

  /** The head of a newest-first sequence is at least as new as its tail. */
  lemma HeadIsNewest(s: seq<HistoryRow>)
    requires NewestFirst(s) && |s| > 0
    ensures forall k :: 0 <= k < |s[1..]| ==> s[0].usage.usageDate >= s[1..][k].usage.usageDate
  {
    forall k | 0 <= k < |s[1..]| ensures s[0].usage.usageDate >= s[1..][k].usage.usageDate {
      assert s[1..][k] == s[k + 1];
    }
  }

  /** Rows drawn from `t` and `x` are no newer than `y` when `t` and `x`
      are not. */
  lemma NoNewerThan(y: HistoryRow, x: HistoryRow, t: seq<HistoryRow>, rest: seq<HistoryRow>)
    requires forall k :: 0 <= k < |t| ==> y.usage.usageDate >= t[k].usage.usageDate
    requires y.usage.usageDate >= x.usage.usageDate
    requires forall k :: 0 <= k < |rest| ==> rest[k] == x || rest[k] in t
    ensures forall k :: 0 <= k < |rest| ==> y.usage.usageDate >= rest[k].usage.usageDate
  {
    forall k | 0 <= k < |rest| ensures y.usage.usageDate >= rest[k].usage.usageDate {
      if rest[k] != x {
        var j :| 0 <= j < |t| && t[j] == rest[k];
      }
    }
  }

  /** `ORDER BY h.usage_date DESC`.  SQLite leaves the order of equal dates
      open; the contract says nothing about it either. */
  function SortNewestFirst(s: seq<HistoryRow>): (r: seq<HistoryRow>)
    ensures NewestFirst(r)
    ensures multiset(r) == multiset(s)
  {
    if |s| == 0 then []
    else
      assert s == [s[0]] + s[1..];
      InsertByDate(s[0], SortNewestFirst(s[1..]))
  }

  /** `LIMIT ?`: a negative limit means no limit in SQLite. */
  function Limit(s: seq<HistoryRow>, limit: int): (r: seq<HistoryRow>)
    ensures limit >= 0 ==> |r| == if limit < |s| then limit else |s|
    ensures limit < 0 ==> r == s
    ensures r == s[..|r|]
  {
    if limit < 0 || limit >= |s| then s else s[..limit]
  }

  /** The first `n` rows of a newest-first sequence are at least as new as
      every row after them. */
  lemma PrefixIsNewest(s: seq<HistoryRow>, n: nat)
    requires NewestFirst(s) && n <= |s|
    ensures multiset(s[..n]) <= multiset(s)
    ensures forall x :: x in multiset(s) - multiset(s[..n]) ==>
      forall k :: 0 <= k < n ==> s[k].usage.usageDate >= x.usage.usageDate
  {
    assert s == s[..n] + s[n..];
    assert multiset(s) == multiset(s[..n]) + multiset(s[n..]);
    forall x | x in multiset(s) - multiset(s[..n])
      ensures forall k :: 0 <= k < n ==> s[k].usage.usageDate >= x.usage.usageDate
    {
      assert x in multiset(s[n..]);
      var j :| 0 <= j < |s[n..]| && s[n..][j] == x;
      assert s[n + j] == x;
    }
  }

  /** What a row of the join is made of. */
  lemma JoinedRow(items: seq<Item>, hist: seq<Usage>, user: Id, name: Option<string>, row: HistoryRow)
    requires row in Joined(items, hist, user, name)
    ensures row.usage in hist && row.usage.owner == user
    ensures exists j :: 0 <= j < |items| && items[j].id == row.usage.productId && items[j].name == row.productName
    ensures FiltersByName(name) ==> row.productName == name.value
  {
    var all := Joined(items, hist, user, name);
    var k :| 0 <= k < |all| && all[k] == row;
    assert JoinRow(items, user, name, row.usage) == Some(row);
    var it := ItemById(items, row.usage.productId).value;
    var j :| 0 <= j < |items| && items[j] == it;
  }

  /** `get_product_usage_history(user_id, product_name, limit)`.  The result
      holds only rows of the user whose product still exists (the inner
      join), only that product's rows when a name is given, newest first,
      at most `limit` of them; and no qualifying row left out is newer than
      a row kept. */
  function GetProductUsageHistory(db: Db, user: Id, name: Option<string>, limit: int): (r: seq<HistoryRow>)
    ensures limit >= 0 ==> |r| <= limit
    ensures forall k :: 0 <= k < |r| ==>
      && r[k].usage in db.history
      && r[k].usage.owner == user
      && (exists j :: 0 <= j < |db.items| && db.items[j].id == r[k].usage.productId && db.items[j].name == r[k].productName)
      && (FiltersByName(name) ==> r[k].productName == name.value)
    ensures NewestFirst(r)
    ensures var all := Joined(db.items, db.history, user, name);
      && multiset(r) <= multiset(all)
      && |r| == (if 0 <= limit < |all| then limit else |all|)
      && (forall x :: x in multiset(all) - multiset(r) ==>
            forall k :: 0 <= k < |r| ==> r[k].usage.usageDate >= x.usage.usageDate)
  {
    var all := Joined(db.items, db.history, user, name);
    var sorted := SortNewestFirst(all);
    var r := Limit(sorted, limit);
    NewestPrefix(all, sorted, r, limit);
    JoinedRows(db, user, name, r);
    r
  }

  /** A limited prefix of the sorted rows holds the newest of them. */
  lemma NewestPrefix(all: seq<HistoryRow>, sorted: seq<HistoryRow>, r: seq<HistoryRow>, limit: int)
    requires NewestFirst(sorted) && multiset(sorted) == multiset(all)
    requires limit >= 0 ==> |r| == if limit < |sorted| then limit else |sorted|
    requires limit < 0 ==> r == sorted
    requires r == sorted[..|r|]
    ensures NewestFirst(r)
    ensures multiset(r) <= multiset(all)
    ensures |r| == (if 0 <= limit < |all| then limit else |all|)
    ensures forall x :: x in multiset(all) - multiset(r) ==>
      forall k :: 0 <= k < |r| ==> r[k].usage.usageDate >= x.usage.usageDate
  {
    assert |sorted| == |all| by {
      assert |multiset(sorted)| == |multiset(all)|;
    }
    PrefixIsNewest(sorted, |r|);
    PrefixNewestFirst(sorted, |r|);
  }

  /** A prefix of a newest-first sequence is newest first. */
  lemma PrefixNewestFirst(s: seq<HistoryRow>, n: nat)
    requires NewestFirst(s) && n <= |s|
    ensures NewestFirst(s[..n])
  {
  }

  /** Rows drawn from the join have the join's properties. */
  lemma JoinedRows(db: Db, user: Id, name: Option<string>, r: seq<HistoryRow>)
    requires multiset(r) <= multiset(Joined(db.items, db.history, user, name))
    ensures forall k :: 0 <= k < |r| ==>
      && r[k].usage in db.history
      && r[k].usage.owner == user
      && (exists j :: 0 <= j < |db.items| && db.items[j].id == r[k].usage.productId && db.items[j].name == r[k].productName)
      && (FiltersByName(name) ==> r[k].productName == name.value)
  {
    forall k | 0 <= k < |r|
      ensures r[k].usage in db.history && r[k].usage.owner == user
      ensures exists j :: 0 <= j < |db.items| && db.items[j].id == r[k].usage.productId && db.items[j].name == r[k].productName
      ensures FiltersByName(name) ==> r[k].productName == name.value
    {
      assert r[k] in multiset(r);
      JoinedRow(db.items, db.history, user, name, r[k]);
    }
  }

  /** Two inventories that agree row by row on ids and names. */
  predicate SameIdsAndNames(a: seq<Item>, b: seq<Item>) {
    |a| == |b| && forall k :: 0 <= k < |a| ==> a[k].id == b[k].id && a[k].name == b[k].name
  }

  /** The join reads only the ids and names of the inventory. */
  lemma {:induction false} JoinedAgree(a: seq<Item>, b: seq<Item>, hist: seq<Usage>, user: Id, name: Option<string>)
    requires SameIdsAndNames(a, b)
    ensures Joined(a, hist, user, name) == Joined(b, hist, user, name)
  {
    if |hist| > 0 {
      JoinedAgree(a, b, hist[1..], user, name);
      var id := hist[0].productId;
      FirstIndexAgree(a, b, (it: Item) => it.id == id);
      assert JoinRow(a, user, name, hist[0]) == JoinRow(b, user, name, hist[0]);
    }
  }

  /** Changing stock levels, dates or minimum levels of inventory rows never
      changes what the history query answers. */
  lemma HistoryIgnoresStock(d: Db, e: Db, user: Id, name: Option<string>, limit: int)
    requires d.history == e.history && SameIdsAndNames(d.items, e.items)
    ensures GetProductUsageHistory(d, user, name, limit) == GetProductUsageHistory(e, user, name, limit)
  {
    JoinedAgree(d.items, e.items, d.history, user, name);
  }
}
