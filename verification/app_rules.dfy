/** The domain rules `app.py` applies around the store: the "Use Product"
    check, applying a product the chat assistant describes, the "Add
    Product" page's update-or-insert choice, the growing category list and
    the inventory table's filters.  Widgets, reruns and messages are left to
    the outcome values. */
module AppRules {
  import opened Wrappers
  import opened Seqs
  import opened Text
  import opened Database
  import UsageHistory

  // ---------------------------------------------------------------------
  // Categories
  // ---------------------------------------------------------------------

  /** The initial `CATEGORIES` list. */
  const DefaultCategories: seq<string> := [
    "Fresh Produce", "Meat & Eggs", "Grocery", "Household Supplies",
    "Dairy & Alternatives", "Beverages", "Frozen Foods", "Bakery"]

  /** `if c not in CATEGORIES: CATEGORIES.append(c)`: the list only ever
      grows at its end, by a value it did not hold. */
  function AppendCategory(cats: seq<string>, c: string): (r: seq<string>)
    ensures |cats| <= |r| <= |cats| + 1 && r[..|cats|] == cats
    ensures c in r
    ensures |r| == |cats| + 1 <==> c !in cats
  {
    if c in cats then cats else cats + [c]
  }

  predicate NoDuplicates(cats: seq<string>) {
    forall i, j :: 0 <= i < j < |cats| ==> cats[i] != cats[j]
  }

  /** The list the application starts from holds each category once, so
      with `AppendCategoryKeepsSet` the list never holds a duplicate. */
  lemma DefaultCategoriesDistinct()
    ensures NoDuplicates(DefaultCategories)
  {
  }

  /** Appending keeps the list free of duplicates, and appending the same
      value again changes nothing. */
  lemma AppendCategoryKeepsSet(cats: seq<string>, c: string)
    requires NoDuplicates(cats)
    ensures NoDuplicates(AppendCategory(cats, c))
    ensures AppendCategory(AppendCategory(cats, c), c) == AppendCategory(cats, c)
  {
    var r := AppendCategory(cats, c);
    if c !in cats {
      forall i, j | 0 <= i < j < |r| ensures r[i] != r[j] {
        if j == |cats| {
          assert r[i] == cats[i];
        } else {
          assert r[i] == cats[i] && r[j] == cats[j];
        }
      }
    }
  }

  // ---------------------------------------------------------------------
  // Use Product (show_use_product_page)
  // ---------------------------------------------------------------------

  datatype UseOutcome =
    | NoProduct                      // nothing selected to update
    | Insufficient                   // "Cannot use more than available quantity"
    | Updated(newQuantity: real)     // the store was asked to set this quantity

  /** `next(item for item in inventory if item['product_name'] == name)`. */
  function FirstNamed(inventory: seq<Item>, name: string): (r: Option<Item>)
    ensures r.Some? ==> r.value in inventory && r.value.name == name
    ensures r.Some? ==> exists k ::
      && 0 <= k < |inventory| && inventory[k] == r.value
      && forall j :: 0 <= j < k ==> inventory[j].name != name
    ensures r.None? <==> forall k :: 0 <= k < |inventory| ==> inventory[k].name != name
  {
    match FirstIndex(inventory, (it: Item) => it.name == name)
    case Some(k) => Some(inventory[k])
    case None => None
  }

  /** The "Update Inventory" button of the Use Product page: the stock of
      the selected product minus the amount used, refused when negative,
      otherwise written through `update_inventory_quantity`. */
  function UseProduct(db: Db, user: Id, name: string, used: real, now: Timestamp): (r: (Db, UseOutcome))
    ensures var current := FirstNamed(GetUserInventory(db, user), name);
      && (r.1.NoProduct? <==> current.None?)
      && (r.1.Insufficient? <==> current.Some? && current.value.quantity - used < 0.0)
      && (r.1.Updated? ==> r.1.newQuantity == current.value.quantity - used && r.1.newQuantity >= 0.0)
    ensures !r.1.Updated? ==> r.0 == db
    ensures r.1.Updated? ==> r.0 == UpdateInventoryQuantity(db, user, name, r.1.newQuantity, None, now)
  {
    match FirstNamed(GetUserInventory(db, user), name)
    case None => (db, NoProduct)
    case Some(current) =>
      var newQuantity := current.quantity - used;
      if newQuantity < 0.0 then (db, Insufficient)
      else (UpdateInventoryQuantity(db, user, name, newQuantity, None, now), Updated(newQuantity))
  }

  predicate NonNegative(db: Db) {
    forall k :: 0 <= k < |db.items| ==> db.items[k].quantity >= 0.0
  }

  /** Using a product never drives any stock negative. */
  lemma UseKeepsNonNegative(db: Db, user: Id, name: string, used: real, now: Timestamp)
    requires NonNegative(db)
    ensures NonNegative(UseProduct(db, user, name, used, now).0)
  {
    var r := UseProduct(db, user, name, used, now);
    if r.1.Updated? {
      forall k | 0 <= k < |r.0.items| ensures r.0.items[k].quantity >= 0.0 {
        if NameMatch(db.items[k], user, name) {
          assert r.0.items[k].quantity == r.1.newQuantity;
        } else {
          assert r.0.items[k] == db.items[k];
        }
      }
    }
  }

  /** Every row with the used product's name gets the new quantity, computed
      from the first row only: a product filed under two categories has its
      second row overwritten with the first row's stock minus the amount. */
  lemma UseOverwritesEveryCategory(db: Db, user: Id, name: string, used: real, now: Timestamp, k: nat)
    requires k < |db.items| && NameMatch(db.items[k], user, name)
    requires UseProduct(db, user, name, used, now).1.Updated?
    ensures var r := UseProduct(db, user, name, used, now);
      && r.0.items[k].quantity == FirstNamed(GetUserInventory(db, user), name).value.quantity - used
      && r.0.items[k].category == db.items[k].category
  {
  }

  /** Using a product never reaches the usage history: no `'remove'` row is
      written, and the history query answers exactly as before. */
  lemma UseWritesNoHistory(db: Db, user: Id, name: string, used: real, now: Timestamp,
                           filter: Option<string>, limit: int)
    ensures var r := UseProduct(db, user, name, used, now).0;
      && r.history == db.history
      && UsageHistory.GetProductUsageHistory(r, user, filter, limit)
         == UsageHistory.GetProductUsageHistory(db, user, filter, limit)
  {
    var u := UseProduct(db, user, name, used, now);
    if u.1.Updated? {
      UpdateKeepsIdsAndNames(db, user, name, u.1.newQuantity, now);
      UsageHistory.HistoryIgnoresStock(u.0, db, user, filter, limit);
    }
  }

  /** A stock update touches neither the history nor any row's id or name. */
  lemma UpdateKeepsIdsAndNames(db: Db, user: Id, name: string, quantity: real, now: Timestamp)
    ensures var r := UpdateInventoryQuantity(db, user, name, quantity, None, now);
      r.history == db.history && UsageHistory.SameIdsAndNames(r.items, db.items)
  {
    var r := UpdateInventoryQuantity(db, user, name, quantity, None, now);
    forall k | 0 <= k < |db.items| ensures r.items[k].id == db.items[k].id && r.items[k].name == db.items[k].name {
      if NameMatch(db.items[k], user, name) {
        assert SameIdentity(r.items[k], db.items[k]);
      }
    }
  }

  /** A use that takes a row to its minimum stock level or below makes it
      show up as low stock. */
  lemma UseCanTriggerLowStock(db: Db, user: Id, name: string, used: real, now: Timestamp, k: nat)
    requires k < |db.items| && NameMatch(db.items[k], user, name)
    requires db.items[k].minStock.Some?
    requires UseProduct(db, user, name, used, now).1.Updated?
    requires UseProduct(db, user, name, used, now).1.newQuantity <= db.items[k].minStock.value
    ensures UseProduct(db, user, name, used, now).0.items[k] in GetLowStockItems(UseProduct(db, user, name, used, now).0, user)
  {
    var r := UseProduct(db, user, name, used, now).0;
    assert IsLow(r.items[k]);
  }

  // ---------------------------------------------------------------------
  // Applying the chat assistant's answer (display_chatbot)
  // ---------------------------------------------------------------------

  const NameLabel: string := "Product Name: "
  const CategoryLabel: string := "Category: "
  const UnitLabel: string := "Unit: "
  const QuantityLabel: string := "Quantity: "

  /** `re.search(marker + r"(.*?)(?:\n|$)", text).group(1)`: the text after
      the leftmost occurrence of the marker up to the first line feed or the
      end; `None` when the marker does not occur. */
  function Field(text: string, marker: string): (r: Option<string>)
    ensures r.Some? <==> Contains(text, marker)
    ensures r.Some? ==> exists i: nat :: FieldAt(text, marker, i, r.value)
  {
    match IndexOf(text, marker)
    case None => None
    case Some(i) =>
      assert FieldAt(text, marker, i, TakeLine(text[i + |marker|..]));
      Some(TakeLine(text[i + |marker|..]))
  }

  /** `value` is what follows the leftmost `marker`, which starts at `i`, up
      to the first line feed. */
  predicate FieldAt(text: string, marker: string, i: nat, value: string) {
    && OccursAt(text, marker, i)
    && (forall j :: 0 <= j < i ==> !OccursAt(text, marker, j))
    && i + |marker| + |value| <= |text|
    && text[i + |marker|..i + |marker| + |value|] == value
    && '\n' !in value
    && (i + |marker| + |value| == |text| || text[i + |marker| + |value|] == '\n')
  }

  datatype ChatFields = ChatFields(name: string, category: string, unit: string, quantity: string)

  /** The four fields, when the answer mentions "Product Name:" and every
      labelled field is present. */
  function ExtractFields(text: string): (r: Option<ChatFields>)
    ensures r.Some? <==>
      Contains(text, "Product Name:") && Contains(text, NameLabel) && Contains(text, CategoryLabel)
      && Contains(text, UnitLabel) && Contains(text, QuantityLabel)
    ensures r.Some? ==>
      && Field(text, NameLabel) == Some(r.value.name)
      && Field(text, CategoryLabel) == Some(r.value.category)
      && Field(text, UnitLabel) == Some(r.value.unit)
      && Field(text, QuantityLabel) == Some(r.value.quantity)
  {
    if !Contains(text, "Product Name:") then None
    else
      match (Field(text, NameLabel), Field(text, CategoryLabel), Field(text, UnitLabel), Field(text, QuantityLabel))
      case (Some(n), Some(c), Some(u), Some(q)) => Some(ChatFields(n, c, u, q))
      case _ => None
  }

  /** The "Product Name:" test is implied by the four patterns: an answer is
      applied exactly when all four labels occur. */
  lemma ExtractIffAllLabels(text: string)
    ensures ExtractFields(text).Some? <==>
      Contains(text, NameLabel) && Contains(text, CategoryLabel)
      && Contains(text, UnitLabel) && Contains(text, QuantityLabel)
  {
    if Contains(text, NameLabel) {
      var i := IndexOf(text, NameLabel).value;
      assert text[i..i + 13] == text[i..i + 14][..13];
      assert OccursAt(text, "Product Name:", i);
    }
  }

  /** The answer format the assistant is told to use when adding or
      updating a product: four lines, each a bullet, a label and a value. */
  function Answer(f: ChatFields): string {
    "- " + (NameLabel + (f.name + CategoryLine(f)))
  }

  function CategoryLine(f: ChatFields): string {
    "\n- " + (CategoryLabel + (f.category + UnitLine(f)))
  }

  function UnitLine(f: ChatFields): string {
    "\n- " + (UnitLabel + (f.unit + QuantityLine(f)))
  }

  function QuantityLine(f: ChatFields): string {
    "\n- " + (QuantityLabel + f.quantity)
  }

  /** A field value that stays on its line and holds no colon. */
  predicate PlainValue(v: string) {
    forall k :: 0 <= k < |v| ==> v[k] != '\n' && v[k] != ':'
  }

  predicate PlainFields(f: ChatFields) {
    PlainValue(f.name) && PlainValue(f.category) && PlainValue(f.unit) && PlainValue(f.quantity)
  }

  /** The only colons of an answer are those of its four labels (`s1`, `s2`
      and `s3` are where the category, unit and quantity lines start). */
  lemma AnswerColons(f: ChatFields)
    requires PlainFields(f)
    ensures var t := Answer(f);
      var s1 := 17 + |f.name|;
      var s2 := s1 + 13 + |f.category|;
      var s3 := s2 + 9 + |f.unit|;
      forall i :: 0 <= i < |t| && t[i] == ':' ==> i == 14 || i == s1 + 10 || i == s2 + 6 || i == s3 + 10
  {
  }

  /** Letters of an answer that rule out a label starting there. */
  lemma AnswerLetters(f: ChatFields)
    ensures var t := Answer(f);
      var s1 := 17 + |f.name|;
      var s2 := s1 + 13 + |f.category|;
      && |t| > s2 && t[6] == 'u' && t[10] == 'N'
      && t[s1 + 2] == 'C' && t[s1 + 6] == 'g' && t[s2] == '-'
  {
    var t := Answer(f);
    var s1 := 17 + |f.name|;
    assert t[s1 + 2] == CategoryLine(f)[3];
    assert t[s1 + 6] == CategoryLine(f)[7];
    assert t[s1 + 13 + |f.category|] == CategoryLine(f)[14 + |f.category|] == UnitLine(f)[1];
  }

  /** `pre + (marker + rest)` holds the marker right after `pre`, which is
      `p` long. */
  lemma LabelPlace(pre: string, marker: string, rest: string, p: nat)
    requires p == |pre|
    ensures OccursAt(pre + (marker + rest), marker, p)
    ensures (pre + (marker + rest))[p + |marker|..] == rest
  {
    OccursAfter(pre, marker + rest, marker, 0);
    assert (marker + rest)[|marker|..] == rest;
  }

  /** An occurrence at `k` in `d`, followed by `v`, is one at `n` in
      `t == a + (b + (c + d))`, followed by the same. */
  lemma Lift(t: string, a: string, b: string, c: string, d: string, sub: string, k: nat, n: nat, v: string)
    requires t == a + (b + (c + d)) && n == |a| + |b| + |c| + k
    requires OccursAt(d, sub, k) && d[k + |sub|..] == v
    ensures OccursAt(t, sub, n)
    ensures t[n + |sub|..] == v
  {
    OccursAfter(c, d, sub, k);
    OccursAfter(b, c + d, sub, |c| + k);
    OccursAfter(a, b + (c + d), sub, |b| + |c| + k);
  }

  // A label inside an answer line nested one, two or three lines deep.  The
  // strings are kept abstract: each level is one step of `Lift`.

  lemma PlaceIn2(y: string, a: string, b: string, c: string, x: string, p: string, lab: string, v: string)
    requires x == p + (lab + v)
    requires y == a + (b + (c + x))
    ensures OccursAt(y, lab, |a| + |b| + |c| + |p|)
    ensures y[|a| + |b| + |c| + |p| + |lab|..] == v
  {
    LabelPlace(p, lab, v, |p|);
    Lift(y, a, b, c, x, lab, |p|, |a| + |b| + |c| + |p|, v);
  }

  lemma PlaceIn3(z: string, a2: string, b2: string, c2: string, y: string,
                 a: string, b: string, c: string, x: string, p: string, lab: string, v: string)
    requires x == p + (lab + v)
    requires y == a + (b + (c + x))
    requires z == a2 + (b2 + (c2 + y))
    ensures OccursAt(z, lab, |a2| + |b2| + |c2| + (|a| + |b| + |c| + |p|))
    ensures z[|a2| + |b2| + |c2| + (|a| + |b| + |c| + |p|) + |lab|..] == v
  {
    PlaceIn2(y, a, b, c, x, p, lab, v);
    Lift(z, a2, b2, c2, y, lab, |a| + |b| + |c| + |p|, |a2| + |b2| + |c2| + (|a| + |b| + |c| + |p|), v);
  }

  lemma PlaceIn4(w: string, a3: string, b3: string, c3: string, z: string,
                 a2: string, b2: string, c2: string, y: string,
                 a: string, b: string, c: string, x: string, p: string, lab: string, v: string)
    requires x == p + (lab + v)
    requires y == a + (b + (c + x))
    requires z == a2 + (b2 + (c2 + y))
    requires w == a3 + (b3 + (c3 + z))
    ensures OccursAt(w, lab, |a3| + |b3| + |c3| + (|a2| + |b2| + |c2| + (|a| + |b| + |c| + |p|)))
    ensures w[|a3| + |b3| + |c3| + (|a2| + |b2| + |c2| + (|a| + |b| + |c| + |p|)) + |lab|..] == v
  {
    PlaceIn3(z, a2, b2, c2, y, a, b, c, x, p, lab, v);
    Lift(w, a3, b3, c3, z, lab, |a2| + |b2| + |c2| + (|a| + |b| + |c| + |p|),
         |a3| + |b3| + |c3| + (|a2| + |b2| + |c2| + (|a| + |b| + |c| + |p|)), v);
  }

  // Positions are stated in the shape the callers use: `s1 := 17 + |name|`,
  // `s2 := s1 + 13 + |category|`, `s3 := s2 + 9 + |unit|`.

  lemma CategoryPlace(f: ChatFields)
    ensures var s1 := 17 + |f.name|;
      && OccursAt(Answer(f), CategoryLabel, s1 + 2)
      && Answer(f)[s1 + 2 + |CategoryLabel|..] == f.category + UnitLine(f)
  {
    PlaceIn2(Answer(f), "- ", NameLabel, f.name, CategoryLine(f), "\n- ", CategoryLabel, f.category + UnitLine(f));
  }

  lemma UnitPlace(f: ChatFields)
    ensures var s2 := 17 + |f.name| + 13 + |f.category|;
      && OccursAt(Answer(f), UnitLabel, s2 + 2)
      && Answer(f)[s2 + 2 + |UnitLabel|..] == f.unit + QuantityLine(f)
  {
    PlaceIn3(Answer(f), "- ", NameLabel, f.name, CategoryLine(f), "\n- ", CategoryLabel, f.category, UnitLine(f),
             "\n- ", UnitLabel, f.unit + QuantityLine(f));
  }

  lemma QuantityPlace(f: ChatFields)
    ensures var s3 := 17 + |f.name| + 13 + |f.category| + 9 + |f.unit|;
      && OccursAt(Answer(f), QuantityLabel, s3 + 2)
      && Answer(f)[s3 + 2 + |QuantityLabel|..] == f.quantity
  {
    PlaceIn4(Answer(f), "- ", NameLabel, f.name, CategoryLine(f), "\n- ", CategoryLabel, f.category, UnitLine(f),
             "\n- ", UnitLabel, f.unit, QuantityLine(f), "\n- ", QuantityLabel, f.quantity);
  }

  /** No category label before the category line, given where the colons
      are. */
  lemma CategoryFirst(t: string, s1: nat)
    requires forall i :: 0 <= i < |t| && i < s1 + 10 && t[i] == ':' ==> i == 14
    requires 14 < s1 + 10 && 6 < |t| && t[6] == 'u'
    ensures forall j :: 0 <= j < s1 + 2 ==> !OccursAt(t, CategoryLabel, j)
  {
    Mismatch(t, CategoryLabel, 6, 0);
    NoOccurrenceBefore(t, CategoryLabel, 8, s1 + 2, 14, 14, 14);
  }

  /** No unit label before the unit line. */
  lemma UnitFirst(t: string, s1: nat, s2: nat)
    requires forall i :: 0 <= i < |t| && i < s2 + 6 && t[i] == ':' ==> i == 14 || i == s1 + 10
    requires 14 < s1 + 10 < s2 + 6
    requires 10 < |t| && t[10] == 'N' && s1 + 6 < |t| && t[s1 + 6] == 'g'
    ensures forall j :: 0 <= j < s2 + 2 ==> !OccursAt(t, UnitLabel, j)
  {
    Mismatch(t, UnitLabel, 10, 0);
    Mismatch(t, UnitLabel, s1 + 6, 0);
    NoOccurrenceBefore(t, UnitLabel, 4, s2 + 2, 14, s1 + 10, s1 + 10);
  }

  /** No quantity label before the quantity line. */
  lemma QuantityFirst(t: string, s1: nat, s2: nat, s3: nat)
    requires forall i :: 0 <= i < |t| && i < s3 + 10 && t[i] == ':' ==> i == 14 || i == s1 + 10 || i == s2 + 6
    requires 14 < s1 + 10 < s2 + 6 < s3 + 10
    requires 6 < |t| && t[6] == 'u' && s1 + 2 < |t| && t[s1 + 2] == 'C' && s2 < |t| && t[s2] == '-'
    ensures forall j :: 0 <= j < s3 + 2 ==> !OccursAt(t, QuantityLabel, j)
  {
    Mismatch(t, QuantityLabel, 6, 0);
    Mismatch(t, QuantityLabel, s1 + 2, 0);
    Mismatch(t, QuantityLabel, s2 - 2, 2);
    assert QuantityLabel[8] == ':';
    NoOccurrenceBefore(t, QuantityLabel, 8, s3 + 2, 14, s1 + 10, s2 + 6);
  }

  /** The field read at a label's first occurrence is the line after it. */
  lemma FieldAtFirst(t: string, marker: string, p: nat, v: string, rest: string)
    requires OccursAt(t, marker, p) && forall j :: 0 <= j < p ==> !OccursAt(t, marker, j)
    requires t[p + |marker|..] == v + rest
    requires '\n' !in v && (rest == [] || rest[0] == '\n')
    ensures Field(t, marker) == Some(v)
  {
    IndexOfIsFirst(t, marker, p);
    TakeLineOf(v, rest);
    assert Field(t, marker) == Some(TakeLine(t[p + |marker|..]));
  }

  /** The same for a label whose line ends the text. */
  lemma FieldAtEnd(t: string, marker: string, p: nat, v: string)
    requires OccursAt(t, marker, p) && forall j :: 0 <= j < p ==> !OccursAt(t, marker, j)
    requires t[p + |marker|..] == v && '\n' !in v
    ensures Field(t, marker) == Some(v)
  {
    IndexOfIsFirst(t, marker, p);
    TakeLineAll(v);
    assert Field(t, marker) == Some(TakeLine(t[p + |marker|..]));
  }

  lemma AnswerName(f: ChatFields)
    requires PlainFields(f)
    ensures Field(Answer(f), NameLabel) == Some(f.name)
  {
    var t := Answer(f);
    LabelPlace("- ", NameLabel, f.name + CategoryLine(f), 2);
    Mismatch(t, NameLabel, 0, 0);
    Mismatch(t, NameLabel, 1, 0);
    assert '\n' !in f.name;
    FieldAtFirst(t, NameLabel, 2, f.name, CategoryLine(f));
  }

  lemma CategoryNotBefore(f: ChatFields)
    requires PlainFields(f)
    ensures forall j :: 0 <= j < 17 + |f.name| + 2 ==> !OccursAt(Answer(f), CategoryLabel, j)
  {
    AnswerColons(f);
    AnswerLetters(f);
    CategoryFirst(Answer(f), 17 + |f.name|);
  }

  lemma AnswerCategory(f: ChatFields)
    requires PlainFields(f)
    ensures Field(Answer(f), CategoryLabel) == Some(f.category)
  {
    var s1 := 17 + |f.name|;
    CategoryPlace(f);
    CategoryNotBefore(f);
    assert '\n' !in f.category;
    FieldAtFirst(Answer(f), CategoryLabel, s1 + 2, f.category, UnitLine(f));
  }

  lemma UnitNotBefore(f: ChatFields)
    requires PlainFields(f)
    ensures forall j :: 0 <= j < 17 + |f.name| + 13 + |f.category| + 2 ==> !OccursAt(Answer(f), UnitLabel, j)
  {
    AnswerColons(f);
    AnswerLetters(f);
    UnitFirst(Answer(f), 17 + |f.name|, 17 + |f.name| + 13 + |f.category|);
  }

  lemma AnswerUnit(f: ChatFields)
    requires PlainFields(f)
    ensures Field(Answer(f), UnitLabel) == Some(f.unit)
  {
    var s2 := 17 + |f.name| + 13 + |f.category|;
    UnitPlace(f);
    UnitNotBefore(f);
    assert '\n' !in f.unit;
    FieldAtFirst(Answer(f), UnitLabel, s2 + 2, f.unit, QuantityLine(f));
  }

  lemma QuantityNotBefore(f: ChatFields)
    requires PlainFields(f)
    ensures forall j :: 0 <= j < 17 + |f.name| + 13 + |f.category| + 9 + |f.unit| + 2 ==>
      !OccursAt(Answer(f), QuantityLabel, j)
  {
    AnswerColons(f);
    AnswerLetters(f);
    QuantityFirst(Answer(f), 17 + |f.name|, 17 + |f.name| + 13 + |f.category|,
                  17 + |f.name| + 13 + |f.category| + 9 + |f.unit|);
  }

  lemma AnswerQuantity(f: ChatFields)
    requires PlainFields(f)
    ensures Field(Answer(f), QuantityLabel) == Some(f.quantity)
  {
    var s3 := 17 + |f.name| + 13 + |f.category| + 9 + |f.unit|;
    QuantityPlace(f);
    QuantityNotBefore(f);
    assert '\n' !in f.quantity;
    FieldAtEnd(Answer(f), QuantityLabel, s3 + 2, f.quantity);
  }

  /** The extraction reads back every field of an answer given in the
      instructed format, as long as no value spans lines or holds a colon. */
  lemma ExtractAnswer(f: ChatFields)
    requires PlainFields(f)
    ensures ExtractFields(Answer(f)) == Some(f)
  {
    AnswerName(f);
    AnswerCategory(f);
    AnswerUnit(f);
    AnswerQuantity(f);
    ExtractIffAllLabels(Answer(f));
  }

  datatype ChatOutcome =
    | NoAction               // the answer is only displayed
    | QuantityError          // `float()` raised; the error is shown
    | Applied(name: string)  // `add_product` was called

  /** Applying an assistant answer: when the four fields are present the
      category is registered first, then the quantity text is converted and
      the product added with no image and a minimum stock level of 0.  A
      quantity `float()` rejects raises before `add_product`, after the
      category was registered. */
  function ChatApply(db: Db, cats: seq<string>, user: Id, text: string,
                     parseFloat: string -> Option<real>, now: Timestamp): (r: (Db, seq<string>, ChatOutcome))
    ensures ExtractFields(text).None? <==> r.2.NoAction?
    ensures ExtractFields(text).None? ==> r.0 == db && r.1 == cats
    ensures ExtractFields(text).Some? ==>
      var f := ExtractFields(text).value;
      && r.1 == AppendCategory(cats, f.category)
      && (r.2.QuantityError? <==> parseFloat(f.quantity).None?)
      && (r.2.QuantityError? ==> r.0 == db)
      && (r.2.Applied? ==>
            r.2.name == f.name && r.0 == AddProduct(db, user, f.name, f.category, parseFloat(f.quantity).value, f.unit, None, Some(0.0), now))
  {
    match ExtractFields(text)
    case None => (db, cats, NoAction)
    case Some(f) =>
      var cats' := AppendCategory(cats, f.category);
      match parseFloat(f.quantity)
      case None => (db, cats', QuantityError)
      case Some(q) =>
        (AddProduct(db, user, f.name, f.category, q, f.unit, None, Some(0.0), now), cats', Applied(f.name))
  }

  /** The category of a rejected answer is still registered. */
  lemma ChatErrorStillRegistersCategory(db: Db, cats: seq<string>, user: Id, text: string,
                                         parseFloat: string -> Option<real>, now: Timestamp)
    requires ExtractFields(text).Some? && ExtractFields(text).value.category !in cats
    requires parseFloat(ExtractFields(text).value.quantity).None?
    ensures var r := ChatApply(db, cats, user, text, parseFloat, now);
      r.0 == db && r.1 == cats + [ExtractFields(text).value.category] && r.2 == QuantityError
  {
  }

  /** Nothing bounds the chat quantity: a negative amount larger than the
      stock leaves the row negative. */
  lemma ChatCanDriveStockNegative(db: Db, cats: seq<string>, user: Id, text: string,
                                  parseFloat: string -> Option<real>, now: Timestamp, k: nat)
    requires ExtractFields(text).Some?
    requires var f := ExtractFields(text).value;
      && parseFloat(f.quantity).Some?
      && KeyIndex(db.items, user, f.name, f.category) == Some(k)
      && db.items[k].quantity + parseFloat(f.quantity).value < 0.0
    ensures ChatApply(db, cats, user, text, parseFloat, now).0.items[k].quantity < 0.0
  {
  }

  // ---------------------------------------------------------------------
  // The Add Product page (add_product_ui)
  // ---------------------------------------------------------------------

  /** What the page's inputs hold when "Add/Update Product" is pressed.
      `currentQuantity` and `change` are the inputs shown for an existing
      product, `quantity` the one shown for a new product; `imagePath` is
      where an uploaded image was saved. */
  datatype AddForm = AddForm(
    name: string,
    category: string,
    unit: string,
    currentQuantity: real,
    change: real,
    quantity: real,
    imagePath: Option<string>)

  datatype AddOutcome =
    | MissingName                        // "Please enter a product name"
    | UpdatedExisting(newQuantity: real) // `update_inventory_quantity` was called
    | AddedNew                           // `add_product` was called

  /** `[p for p in existing if p['product_name'].lower() == name.lower()]`
      is non-empty. */
  predicate MatchesIgnoringCase(inventory: seq<Item>, name: string) {
    exists k :: 0 <= k < |inventory| && Lower(inventory[k].name) == Lower(name)
  }

  function HasNameIgnoringCase(inventory: seq<Item>, name: string): (r: bool)
    ensures r <==> MatchesIgnoringCase(inventory, name)
  {
    FirstIndex(inventory, (it: Item) => Lower(it.name) == Lower(name)).Some?
  }

  /** The "Add/Update Product" button.  An empty name is refused.  A name
      matching an existing product ignoring case overwrites the stock with
      current + change through `update_inventory_quantity`, keyed on the name
      as typed; any other name is added with a minimum stock level of 0.
      Either way the chosen category is registered afterwards. */
  function AddPage(db: Db, cats: seq<string>, user: Id, form: AddForm, now: Timestamp): (r: (Db, seq<string>, AddOutcome))
    ensures r.2.MissingName? <==> form.name == ""
    ensures r.2.MissingName? ==> r.0 == db && r.1 == cats
    ensures !r.2.MissingName? ==> r.1 == AppendCategory(cats, form.category)
    ensures form.name != "" ==>
      (r.2.UpdatedExisting? <==> MatchesIgnoringCase(GetUserInventory(db, user), form.name))
    ensures r.2.UpdatedExisting? ==>
      && r.2.newQuantity == form.currentQuantity + form.change
      && r.0 == UpdateInventoryQuantity(db, user, form.name, r.2.newQuantity, None, now)
    ensures r.2.AddedNew? ==>
      r.0 == AddProduct(db, user, form.name, form.category, form.quantity, form.unit, form.imagePath, Some(0.0), now)
  {
    if form.name == "" then (db, cats, MissingName)
    else
      var cats' := AppendCategory(cats, form.category);
      if HasNameIgnoringCase(GetUserInventory(db, user), form.name) then
        var q := form.currentQuantity + form.change;
        (UpdateInventoryQuantity(db, user, form.name, q, None, now), cats', UpdatedExisting(q))
      else
        (AddProduct(db, user, form.name, form.category, form.quantity, form.unit, form.imagePath, Some(0.0), now),
         cats', AddedNew)
  }

  /** The page matches names ignoring case but the store updates by the exact
      name: typing "milk" for a stored "Milk" reports an update while no row
      changes. */
  lemma AddPageCaseMismatchChangesNothing(db: Db, cats: seq<string>, user: Id, form: AddForm, now: Timestamp)
    requires form.name != "" && MatchesIgnoringCase(GetUserInventory(db, user), form.name)
    requires forall k :: 0 <= k < |db.items| ==> !NameMatch(db.items[k], user, form.name)
    ensures var r := AddPage(db, cats, user, form, now);
      r.2.UpdatedExisting? && r.0.items == db.items && r.0.history == db.history
  {
    var r := AddPage(db, cats, user, form, now);
    UpdateWithoutMatch(db, user, form.name, r.2.newQuantity, now);
  }

  /** An update by a name no row has exactly changes nothing. */
  lemma UpdateWithoutMatch(db: Db, user: Id, name: string, quantity: real, now: Timestamp)
    requires forall k :: 0 <= k < |db.items| ==> !NameMatch(db.items[k], user, name)
    ensures var r := UpdateInventoryQuantity(db, user, name, quantity, None, now);
      r.items == db.items && r.history == db.history
  {
    var r := UpdateInventoryQuantity(db, user, name, quantity, None, now);
    assert forall k :: 0 <= k < |db.items| ==> r.items[k] == db.items[k];
  }

  /** The "Quantity Change" input has no lower bound, so the page can store a
      negative stock. */
  lemma AddPageCanStoreNegative(db: Db, cats: seq<string>, user: Id, form: AddForm, now: Timestamp, k: nat)
    requires form.name != "" && MatchesIgnoringCase(GetUserInventory(db, user), form.name)
    requires k < |db.items| && NameMatch(db.items[k], user, form.name)
    requires form.currentQuantity + form.change < 0.0
    ensures AddPage(db, cats, user, form, now).0.items[k].quantity < 0.0
  {
  }

  // ---------------------------------------------------------------------
  // Inventory table filters (display_inventory_table)
  // ---------------------------------------------------------------------

  /** A row passes the category select box and the "Show only low stock
      items" box.  pandas compares a missing minimum stock level as NaN,
      never low. */
  predicate Shown(it: Item, category: string, lowOnly: bool) {
    (category == "All" || it.category == category) && (!lowOnly || IsLow(it))
  }

  /** The table's rows: every row that passes both boxes, as often as it
      occurs in the input, and no other row. */
  function FilterTable(rows: seq<Item>, category: string, lowOnly: bool): (r: seq<Item>)
    ensures forall k :: 0 <= k < |r| ==> r[k] in rows && Shown(r[k], category, lowOnly)
    ensures forall k :: 0 <= k < |rows| && Shown(rows[k], category, lowOnly) ==> rows[k] in r
    ensures multiset(r) <= multiset(rows)
    ensures forall k :: 0 <= k < |rows| && Shown(rows[k], category, lowOnly) ==>
      multiset(r)[rows[k]] == multiset(rows)[rows[k]]
  {
    var inCategory := (it: Item) => it.category == category;
    var low := (it: Item) => IsLow(it);
    var byCategory := if category != "All" then Filter(rows, inCategory) else rows;
    var r := if lowOnly then Filter(byCategory, low) else byCategory;
    if category != "All" && lowOnly then
      FilterFilter(rows, inCategory, low, (it: Item) => Shown(it, category, lowOnly));
      r
    else r
  }

  /** The table's low-stock filter shows exactly what `get_low_stock_items`
      returns, in the same order. */
  lemma LowStockFilterIsQuery(db: Db, user: Id)
    ensures FilterTable(GetUserInventory(db, user), "All", true) == GetLowStockItems(db, user)
  {
    var own := (it: Item) => it.owner == user;
    var low := (it: Item) => IsLow(it);
    var both := (it: Item) => it.owner == user && IsLow(it);
    assert FilterTable(GetUserInventory(db, user), "All", true) == Filter(Filter(db.items, own), low);
    FilterFilter(db.items, own, low, both);
    assert GetLowStockItems(db, user) == Filter(db.items, both);
  }
}
