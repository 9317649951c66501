# Inventory assistant: the store and its domain rules in Dafny

This project models the deterministic core of a Streamlit inventory
assistant. The model has four parts:

- **The SQLite store** (`database.py`). It is an immutable `Db` value: the
  `users`, `inventory` and `product_usage_history` tables as sequences of rows
  in rowid order, plus the next AUTOINCREMENT value of each table. Every public
  function is a pure query or transition. `fetchone()` is the first matching
  row, SQL `NULL` is `Option`, and the clock is a `now` parameter.
- **The rules `app.py` applies around the store**:
  - the "Use Product" check;
  - applying a product the chat assistant describes;
  - the "Add Product" page's choice between updating and inserting;
  - the append-only category list;
  - the inventory table filters.
- **The parts of `vision_utils.py` that do not call a service**:
  `clean_json_string`, and what `analyze_with_openai` does with the model's
  reply once the call has returned.
- **`chatbot.py`**: keyword dispatch, the inventory summary, and the
  short-circuit in front of the model call.

Python built-ins the code relies on are written out in `Text`:

- `str.isspace`, `str.split`, `' '.join`, `str.strip` and ASCII `str.lower`;
- the leftmost-match behaviour of `re.search` on a literal label.

`float()` on a string, the rendering of a frame cell, and the model call are
function parameters.

Files:

| file | module | contents |
|---|---|---|
| `wrappers.dfy` | `Wrappers` | `Option`, `Result` |
| `seqs.dfy` | `Seqs` | `Filter`, `FirstIndex` and their lemmas |
| `text.dfy` | `Text` | character classes, substring search, line reading, split/join/strip |
| `database.dfy` | `Database` | the store, its invariants, every `database.py` function except the history query |
| `database_facts.dfy` | `DatabaseFacts` | preserved invariants, the additive merge, login facts, ids never reused |
| `usage_history.dfy` | `UsageHistory` | `get_product_usage_history` |
| `delete_facts.dfy` | `DeleteFacts` | what `delete_product` does to the history; the cascading delete |
| `app_rules.dfy` | `AppRules` | the `app.py` rules |
| `vision.dfy` | `Vision` | `clean_json_string`, unit and quantity normalisation, the fallback record |
| `chatbot.dfy` | `Chatbot` | `chatbot.py` |

## Model

| member | source | states |
|---|---|---|
| `Database.AddUser` | database.py:78-90 | Fails exactly when the username is already taken, and then changes nothing. Otherwise it appends one user row with the next id and advances the user counter by one. The other tables and their counters are left alone. |
| `Database.Authenticate` | database.py:92-101 | Returns an id only if the pair matches the predefined credential map exactly and a `users` row has that name; the id is that row's id. It returns `None` exactly when either condition fails. |
| `Database.AddProduct` | database.py:103-154 | Existing (user, name, category) row: the quantity becomes old + q, `date_added` is refreshed, and unit, image, min stock, last use and every other row are unchanged. No such row: exactly one row is appended with the next id and the given fields. Either way exactly one `'add'` history row is appended, recording q against that row's id. That history row takes the next usage id, and the usage counter advances by one. |
| `Database.GetUserInventory` | database.py:156-163 | The result is exactly the user's rows: every result row is the user's, and every row of the user is in the result as often as in the table. The result is a sub-multiset of the table. |
| `DatabaseFacts.QueriesInRowidOrder` | database.py:156-163 | Both inventory queries have no `ORDER BY`, and SQL leaves their order unspecified. The model assumes SQLite's rowid scan, which is what a table with no index on `user_id` gets. Under that assumption the ids of either answer strictly increase. This holds for `get_low_stock_items` (203-213) as well. |
| `Database.UpdateInventoryQuantity` | database.py:165-201 | Every row with that user and name, in any category, gets the new quantity and `last_used`. `min_stock_level` changes only when one is given. Identity, unit, image and `date_added` are kept. All other rows, the users and the history are unchanged, and no sign check is made. |
| `Database.GetLowStockItems` | database.py:203-213 | The result is exactly the user's rows that have a min stock level and whose quantity is at or below it, each as often as in the table; a NULL level is never low. The result is a sub-multiset of the table. |
| `Database.DeleteProduct` | database.py:215-245 | Returns true exactly when the user has a row with that name; otherwise nothing changes. On success every such row is removed and every other row kept, and the history rows removed are exactly those of the first matching row's id. No AUTOINCREMENT counter changes. |
| `DatabaseFacts.EmptyValid` | database.py:28-64 | Freshly created tables satisfy the store invariant: increasing ids below the counters, unique usernames, unique (owner, name, category) keys, and history owned like its product. |
| `DatabaseFacts.AddUserValid` | database.py:78-90 | `add_user` keeps the store invariant, including the UNIQUE username. |
| `DatabaseFacts.AddProductValid` | database.py:103-154 | `add_product` keeps the store invariant; in particular it never creates a second row for a (user, name, category) key. |
| `DatabaseFacts.UpdateInventoryQuantityValid` | database.py:165-201 | `update_inventory_quantity` keeps the store invariant. |
| `DatabaseFacts.DeleteProductValid` | database.py:215-245 | `delete_product` keeps the store invariant. |
| `DatabaseFacts.AddProductAccumulates` | database.py:111-149 | After `add_product` the key has a row whose stock is the old stock (0 for a new row) plus q, and the new history row points at that row. |
| `DatabaseFacts.AddProductKeepsOtherKeys` | database.py:111-124 | `add_product` leaves the row of every other (user, name, category) key exactly as it was. |
| `DatabaseFacts.AddTwiceMerges` | database.py:111-131 | Adding q1 and then q2 under one key, with any image paths and minimum levels, gives a single row holding old + q1 + q2, plus two `'add'` history rows for q1 and q2 that point at it. |
| `DatabaseFacts.AddedUserCannotLogIn` | database.py:92-101 | A user created with `add_user` whose name is not a predefined credential can never log in; the stored password is never consulted. |
| `DatabaseFacts.PredefinedUserLogsIn` | database.py:92-101 | A predefined user whose row exists logs in with the predefined password and gets that row's id. |
| `UsageHistory.SortNewestFirst` | database.py:260 | `ORDER BY usage_date DESC` returns a permutation of its input in which dates never increase. |
| `UsageHistory.Limit` | database.py:261 | `LIMIT` gives a prefix of length min(limit, n); a negative limit means no limit. |
| `UsageHistory.GetProductUsageHistory` | database.py:247-276 | `limit` is a parameter. The source's default is 5, and both calls in `app.py` (150, 399) pass no limit, so they get at most 5 rows. Returns at most `limit` rows, newest first. Every row is a history row of the user whose product still exists (the inner join), and is that product's when a non-empty name is given. The result is a sub-multiset of the join, of length min(limit, join size). No joined row left out is newer than a row kept. |
| `UsageHistory.HistoryIgnoresStock` | database.py:255-272 | The history answer depends only on the history and on the inventory's ids and names, never on stock, dates or minimum levels. |
| `DatabaseFacts.RunKeepsCounters` | database.py:31-57 | No sequence of `add_user`, `add_product`, `update_inventory_quantity` and `delete_product` calls lowers any AUTOINCREMENT counter. |
| `DatabaseFacts.RunKeepsRetired` | database.py:31-57 | An id below its table's counter that no row holds stays unused through any sequence of store calls. |
| `DatabaseFacts.DeletedIdsNeverReused` | database.py:215-245 | After `delete_product` and any later store calls, no inventory row has the id of a deleted row, and no history row has the id of a deleted history row. |
| `DeleteFacts.HistoryNeedsProduct` | database.py:255-259 | A non-empty history answer for a name proves that the user still has a row with that name. |
| `DeleteFacts.DeleteHidesHistory` | database.py:215-272 | After a successful delete, the history query for that product name returns nothing. |
| `DeleteFacts.DeleteLeavesOrphans` | database.py:222-243 | Take a "Milk" filed under two categories in an orphan-free, valid store. The delete returns true and removes both rows, but keeps the second row's history, which now points at no product. |
| `DeleteFacts.DeleteProductCascade` | database.py:215-245 | The delete the function's comment describes. It succeeds exactly when a matching row exists, removes exactly the rows with that name, and keeps exactly the history rows whose product is not one of them. |
| `DeleteFacts.CascadeKeepsNoOrphans` | database.py:235-239 | With the cascading delete, every history row still points at an existing product. |
| `DeleteFacts.AddProductKeepsNoOrphans` | database.py:103-154 | `add_product` never leaves a history row pointing at nothing. |
| `DeleteFacts.UpdateKeepsNoOrphans` | database.py:165-201 | `update_inventory_quantity` never leaves a history row pointing at nothing. |
| `AppRules.DefaultCategoriesDistinct` | app.py:34-37 | The initial category list names each category once. |
| `AppRules.AppendCategory` | app.py:374-375 | The category list keeps its old entries in order and afterwards holds the value. It grows by one entry exactly when the value was absent. |
| `AppRules.AppendCategoryKeepsSet` | app.py:602-603 | Appending keeps the list free of duplicates, and appending the same value twice is the same as appending it once. |
| `AppRules.FirstNamed` | app.py:128 | Returns the first row of the inventory with that exact name: no earlier row has it. It returns `None` exactly when no row has it. |
| `AppRules.UseProduct` | app.py:127-145 | No selected product, and a new quantity below zero, each leave the store untouched. Otherwise `update_inventory_quantity` is called with the first row's stock minus the amount used, which is non-negative. |
| `AppRules.UseKeepsNonNegative` | app.py:137-143 | Using a product never turns a non-negative stock negative. |
| `AppRules.UseOverwritesEveryCategory` | app.py:137-141 | Every row with that name, in whatever category, gets the first row's stock minus the amount used. |
| `AppRules.UseWritesNoHistory` | app.py:141 | Using a product writes no `'remove'` history row, and the history query answers exactly as before. |
| `AppRules.UseCanTriggerLowStock` | app.py:137-143 | A use that takes a row down to its minimum level makes it part of the low-stock answer. |
| `Text.IndexOf` | app.py:367-370 | Finds the leftmost occurrence of a label, or reports that there is none. |
| `Text.TakeLine` | app.py:367-370 | The lazy group before a line feed or the end takes the longest prefix without a line feed, ending at a line feed or at the end of the text. |
| `AppRules.Field` | app.py:367-370 | A label's value exists exactly when the label occurs. It is the text after the leftmost occurrence, up to the first line feed or the end. |
| `AppRules.ExtractFields` | app.py:365-372 | The four fields are returned exactly when "Product Name:" and all four `Label: ` patterns occur, and each is that label's value. |
| `AppRules.ExtractIffAllLabels` | app.py:365-372 | The "Product Name:" test adds nothing: the fields are extracted exactly when all four labels occur. |
| `AppRules.ExtractAnswer` | app.py:365-372 | The extraction reads back all four fields of an answer written in the instructed format, provided no value spans lines or holds a colon. |
| `AppRules.ChatApply` | app.py:365-390 | With no complete set of fields, nothing changes. Otherwise the category is registered. A quantity `float()` rejects leaves the store untouched. Any other quantity calls `add_product` with it, no image and a minimum stock level of 0. |
| `AppRules.ChatErrorStillRegistersCategory` | app.py:374-381 | A new category from an answer whose quantity does not parse is still appended, although no product is stored. |
| `AppRules.ChatCanDriveStockNegative` | app.py:377-385 | Nothing bounds the chat quantity: a negative amount larger than the stock leaves the row negative. |
| `AppRules.HasNameIgnoringCase` | app.py:552 | True exactly when some row's name equals the input once both are lower-cased. |
| `AppRules.AddPage` | app.py:552-607 | An empty name is refused and nothing changes. A case-insensitive match calls `update_inventory_quantity` with current + change, keyed on the name as typed. Any other name calls `add_product` with a minimum stock level of 0. After either call the category is registered. |
| `AppRules.AddPageCaseMismatchChangesNothing` | app.py:590-592 | A name that matches only up to case is reported as an update but changes no row and no history. |
| `AppRules.AddPageCanStoreNegative` | app.py:568-569 | The unbounded change input can store a negative stock. |
| `AppRules.FilterTable` | app.py:213-216 | The result is exactly the rows in the selected category (all of them for "All") that, when the box is checked, are low. Each such row appears as often as in the input, and the result is a sub-multiset of the input. |
| `AppRules.LowStockFilterIsQuery` | app.py:215-216 | With "All" selected and the box checked, the table shows exactly what `get_low_stock_items` returns, in the same order. |
| `Vision.RemoveControls` | vision_utils.py:20 | The result holds no character in the ranges 0x00-0x1f and 0x7f-0x9f, and text without such characters is returned unchanged. |
| `Vision.RemoveControlsCounts` | vision_utils.py:20 | Every control character is gone, and every other character occurs exactly as often as in the input. |
| `Vision.RemoveControlsAppend` | vision_utils.py:20 | The removal works on each part of a concatenation separately, so the kept characters stay in their order. |
| `Vision.RemoveControlsOne` | vision_utils.py:20 | A single character is removed exactly when it is a control character. |
| `Vision.EscapeBackslashN` | vision_utils.py:22 | The first character and the absence of control characters are kept. |
| `Vision.EscapeWithoutPairs` | vision_utils.py:22 | Text with no backslash-n pair is unchanged. |
| `Vision.EscapeAppend` | vision_utils.py:22 | The replacement works on each part of a concatenation separately, unless the seam splits a backslash-n pair. |
| `Vision.EscapeSplice` | vision_utils.py:22 | A backslash-n pair anywhere in the text becomes backslash, backslash, n, and the text on either side is escaped on its own. |
| `Vision.EscapeRoundTrip` | vision_utils.py:22 | The escape loses nothing: dropping the added backslashes gives the input back. |
| `Text.Split` | vision_utils.py:24 | `str.split()` yields non-empty tokens that contain no whitespace. |
| `Text.SplitSeparated` | vision_utils.py:24 | Any whitespace character separates tokens: the text on either side of it is split on its own and the token lists are concatenated. |
| `Text.SplitWord` | vision_utils.py:24 | A run of non-whitespace alone is one token. With `Text.SplitSeparated` and `Text.SplitBlank`, this makes the tokens the maximal runs of non-whitespace. |
| `Text.SplitBlank` | vision_utils.py:24 | Whitespace alone gives no tokens. |
| `Text.SplitInk` | vision_utils.py:24 | The tokens together hold exactly the non-whitespace characters of the input, in order. |
| `Text.SplitJoin` | vision_utils.py:24 | Splitting a space-joined list of tokens gives the tokens back. |
| `Text.JoinSplit` | vision_utils.py:24 | A single-spaced string is the join of its own tokens. |
| `Vision.CleanJsonString` | vision_utils.py:17-25 | The output has no control characters, no leading, trailing or repeated whitespace, and exactly the tokens of the escaped input. |
| `Vision.CleanFixedPoint` | vision_utils.py:17-25 | Clean, single-spaced text with no backslash-n pair comes back unchanged. |
| `Vision.CleanEscapesAgain` | vision_utils.py:22 | Cleaning is not idempotent: each call adds another backslash before a backslash-n pair. |
| `Vision.Normalize` | vision_utils.py:110-121 | A missing unit or quantity raises (`None`). Otherwise the keys are kept, and the unit is in the valid list: kept if it was there (case-sensitive), else `'pcs'`. The quantity is the `float()` value, or 1.0 when that raises. Every other key is unchanged. |
| `Vision.AnalyzeReply` | vision_utils.py:107-133 | A failed call gives `None` and an undecodable reply gives the fallback record. A decoded object gives exactly its normalised form, which is `None` when a key is missing. Any other decoded value gives `None`. Any result has a valid unit and a numeric quantity. |
| `Vision.AnalyzeReplyStable` | vision_utils.py:107-133 | A record the analysis returns comes back unchanged when fed in again as a decoded reply. |
| `Vision.FallbackIsNormal` | vision_utils.py:122-130 | The fallback record already passes the unit and quantity checks unchanged. |
| `Vision.NormalizeIdempotent` | vision_utils.py:110-119 | Normalising a normalised record changes nothing. |
| `Vision.UnitIsCaseSensitive` | vision_utils.py:111-113 | "KG" is not a valid unit and becomes "pcs". |
| `Text.Lower` | chatbot.py:28 | Lower-casing keeps the length and lower-cases each character on its own. |
| `Chatbot.GetInventoryContext` | chatbot.py:16-24 | An empty frame gives exactly "The inventory is currently empty."; this is the only way to get that answer. A frame lacking one of the read columns raises `KeyError` for the first missing one. Any other answer starts with the header line. |
| `Chatbot.ContextLineIsOneLine` | chatbot.py:23 | A row's summary line ends in its only line feed when no rendered cell contains one. |
| `Chatbot.ContextLineCount` | chatbot.py:21-24 | The summary is the header line plus exactly one line per row. |
| `Chatbot.ProcessInventoryCommand` | chatbot.py:26-34 | On the lower-cased command: "add" wins; then "use"; then "status" or "check" gives the inventory summary, or its `KeyError`. The result is `None` exactly when no keyword occurs. |
| `Chatbot.GetChatbotResponse` | chatbot.py:36-68 | A keyword reply is returned as is. Otherwise the stripped model answer to the prompt is returned. Every exception becomes "Error getting chatbot response: " followed by its text. |
| `Text.Strip` | chatbot.py:65 | The answer is the slice of the input left once whitespace is removed from both ends. |
| `Chatbot.KeywordShortCircuits` | chatbot.py:40-42 | Whenever there is a keyword reply, the response is that reply, whatever the model would have said. |
| `Chatbot.AddressMeansAdd` | chatbot.py:28-29 | The keyword test is a substring test: "address" gets the add-page reply. |
| `Chatbot.StoreFrame` | app.py:198-199 | A frame built from the store's rows has one row per inventory row. With no rows it is empty. Otherwise its columns are exactly the `inventory` table's, and every row holds one cell per column, made from the matching inventory row. |
| `Chatbot.StoreFrameHasNoName` | chatbot.py:23 | The store's frame has a `product_name` column but no `name` column, so with any product the summary raises `KeyError('name')`. |
| `Chatbot.StoreFrameAnswersWithError` | chatbot.py:36-68 | With such a frame, every question without "add" or "use" is answered "Error getting chatbot response: 'name'". |

## Left out

- SQLite connections, commits, the schema DDL, `init_db()` and the seeding of predefined users are not modelled. The store is an abstract value, and the credential map is a parameter of `Authenticate`. The declared foreign keys are not modelled as constraints, because `get_db_connection` never sets `PRAGMA foreign_keys` and SQLite does not enforce them; that is why a delete can leave history rows pointing at no product.
- Clock reads are not modelled. Timestamps are integers passed in as `now`, and time zones are ignored.
- `update_inventory_quantity` returns `False` on a database error. That return is not modelled, because the abstract store cannot fail.
- Streamlit rendering, session state, reruns, messages, file upload and image saving are not modelled. The outcome datatypes record which branch was taken, and the saved image path is an input.
- The bulk edit of the inventory table (`app.py` 233-302) is not modelled. Its button calls `update_inventory_quantity` once per row shown in the editor, edited or not, with the row's name, quantity and minimum stock level. Each such call is `Database.UpdateInventoryQuantity`. Rows added or removed in the editor are never inserted or deleted. The separate delete control (304-316) is `Database.DeleteProduct`.
- The OpenAI and Google Vision calls, `get_vision_client`, `process_product_image`, the label/text/object detectors and `generate_inventory_report` are left out. The model's reply is a `Reply` value, and the chat model call is a function parameter.
- Python `float()` on strings and the f-string rendering of frame cells are left out. Both are function parameters.
- Quantities are `real`. IEEE rounding, NaN and infinities, including JSON's `NaN` and `Infinity`, are not modelled.
- Vision.Normalize: a JSON integer too large for a double makes Python's `float()` raise `OverflowError`. `except (ValueError, TypeError)` (vision_utils.py:115-118) does not catch it, so `analyze_with_openai` returns `None` (131-133). The model's `ToFloat` takes any JSON number as is, so `Normalize` and `AnalyzeReply` return a record there. The numeric range of Python floats is not modelled.
- Vision.AnalyzeReply: for the same huge JSON integer it returns the normalised record where the code returns `None`, as stated for `Vision.Normalize`.
- `Text.Lower`: lower-cases ASCII letters only, where Python's `str.lower()` covers all of Unicode.
- `Chatbot.GetInventoryContext`: its contract gives the header and, through `Chatbot.ContextLineCount`, the number of lines. It does not give each line's text, because that depends on the rendering parameter.
- `UsageHistory.GetProductUsageHistory`: the order of rows with equal dates is not stated, because SQLite leaves it unspecified too.
- Concurrent sessions and last-writer-wins races are outside the sequential model.

## Findings

| source | as written | input that shows it | evidently intended | confidence | as-written member | corrected member |
|---|---|---|---|---|---|---|
| database.py:222-243 | Deletes every inventory row of the user with that name, but deletes history only for the product id of the first row `fetchone()` returns | user 1 has "Milk" under "Dairy & Alternatives" (id 1) and under "Frozen Foods" (id 2), one `'add'` row each; deleting "Milk" removes both rows but keeps history row (product 2), which then points at no product. The delete does not fail: `get_db_connection` (database.py:17-21) never sets `PRAGMA foreign_keys`, so SQLite does not enforce the declared `FOREIGN KEY (product_id)` (64) | delete the history of every deleted row, so that no history row is orphaned | not executed | `DeleteFacts.DeleteLeavesOrphans` | `DeleteFacts.CascadeKeepsNoOrphans` |
