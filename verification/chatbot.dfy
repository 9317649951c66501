/** `chatbot.py`: keyword dispatch ahead of the model call, the inventory
    summary handed to the model, and the error text every failure turns
    into.  The model call is a parameter. */
module Chatbot {
  import opened Wrappers
  import opened Text
  import opened Database

  /** A value in a pandas frame. */
  datatype Cell = Str(s: string) | Num(x: real) | Null

  /** A frame built from a list of row dicts: its column labels and rows. */
  datatype Frame = Frame(columns: set<string>, rows: seq<map<string, Cell>>)

  /** `DataFrame.empty`: no rows or no columns. */
  predicate IsEmpty(f: Frame) {
    |f.rows| == 0 || |f.columns| == 0
  }

  const EmptyInventory: string := "The inventory is currently empty."
  const Header: string := "Current inventory status:\n"
  const AddReply: string := "To add items to inventory, please use the 'Add Inventory' page."
  const UseReply: string := "To use items from inventory, please use the 'Use Inventory' page."
  const ErrorPrefix: string := "Error getting chatbot response: "

  /** `row[key]` on a row of a frame that has the column. */
  function CellOf(row: map<string, Cell>, key: string): Cell {
    if key in row then row[key] else Null
  }

  /** The summary line of one row; `show` renders a cell as an f-string
      does. */
  function ContextLine(row: map<string, Cell>, show: Cell -> string): string {
    LineText(row, show) + "\n"
  }

  function LineText(row: map<string, Cell>, show: Cell -> string): string {
    "- " + show(CellOf(row, "name")) + ": " + show(CellOf(row, "quantity"))
    + " units (Category: " + show(CellOf(row, "category")) + ")"
  }

  function ContextLines(rows: seq<map<string, Cell>>, show: Cell -> string): string {
    if |rows| == 0 then [] else ContextLine(rows[0], show) + ContextLines(rows[1..], show)
  }

  /** The first of the columns the summary reads that the frame lacks. */
  function MissingColumn(f: Frame): (r: Option<string>)
    ensures r.None? <==> "name" in f.columns && "quantity" in f.columns && "category" in f.columns
    ensures r.Some? ==> r.value !in f.columns
  {
    if "name" !in f.columns then Some("name")
    else if "quantity" !in f.columns then Some("quantity")
    else if "category" !in f.columns then Some("category")
    else None
  }

  /** `get_inventory_context(df)`.  `Failure(k)` is the `KeyError` raised by
      `row[k]` on the first row when the frame has no column `k`. */
  function GetInventoryContext(f: Frame, show: Cell -> string): (r: Result<string, string>)
    ensures IsEmpty(f) <==> r == Success(EmptyInventory)
    ensures r.Failure? <==> !IsEmpty(f) && MissingColumn(f).Some?
    ensures r.Failure? ==> r.error == MissingColumn(f).value
    ensures r.Success? && !IsEmpty(f) ==> |r.value| >= |Header| && r.value[..|Header|] == Header
  {
    if IsEmpty(f) then Success(EmptyInventory)
    else match MissingColumn(f)
      case Some(k) => Failure(k)
      case None =>
        var r := Header + ContextLines(f.rows, show);
        assert r[..|Header|] == Header;
        assert r[0] == 'C' && EmptyInventory[0] == 'T';
        Success(r)
  }

  /** Occurrences of `c` in `s`. */
  function Count(s: string, c: char): nat {
    if |s| == 0 then 0 else (if s[0] == c then 1 else 0) + Count(s[1..], c)
  }

  lemma {:induction false} CountAppend(a: string, b: string, c: char)
    ensures Count(a + b, c) == Count(a, c) + Count(b, c)
  {
    if |a| > 0 {
      assert (a + b)[1..] == a[1..] + b;
      CountAppend(a[1..], b, c);
    } else {
      assert a + b == b;
    }
  }

  predicate OneLine(s: string) {
    '\n' !in s
  }

  lemma {:induction false} CountNone(s: string, c: char)
    requires c !in s
    ensures Count(s, c) == 0
  {
    if |s| > 0 {
      assert c !in s[1..];
      CountNone(s[1..], c);
    }
  }

  lemma ContextLineIsOneLine(row: map<string, Cell>, show: Cell -> string)
    requires OneLine(show(CellOf(row, "name"))) && OneLine(show(CellOf(row, "quantity")))
    requires OneLine(show(CellOf(row, "category")))
    ensures Count(ContextLine(row, show), '\n') == 1
  {
    assert OneLine(" units (Category: ");
    CountNone(LineText(row, show), '\n');
    CountAppend(LineText(row, show), "\n", '\n');
  }

  /** When no rendered cell spans lines, the summary is the header line
      plus exactly one line per row. */
  lemma {:induction false} ContextLineCount(f: Frame, show: Cell -> string)
    requires !IsEmpty(f) && MissingColumn(f).None?
    requires forall c: Cell :: OneLine(show(c))
    ensures Count(GetInventoryContext(f, show).value, '\n') == |f.rows| + 1
  {
    var lines := ContextLines(f.rows, show);
    assert GetInventoryContext(f, show).value == Header + lines;
    LinesCount(f.rows, show);
    HeaderIsOneLine();
    CountAppend(Header, lines, '\n');
  }

  lemma HeaderIsOneLine()
    ensures Count(Header, '\n') == 1
  {
    var title := "Current inventory status:";
    assert Header == title + "\n";
    assert OneLine(title);
    CountNone(title, '\n');
    CountAppend(title, "\n", '\n');
  }

  lemma {:induction false} LinesCount(rows: seq<map<string, Cell>>, show: Cell -> string)
    requires forall c: Cell :: OneLine(show(c))
    ensures Count(ContextLines(rows, show), '\n') == |rows|
  {
    if |rows| > 0 {
      LinesCount(rows[1..], show);
      ContextLineIsOneLine(rows[0], show);
      CountAppend(ContextLine(rows[0], show), ContextLines(rows[1..], show), '\n');
    }
  }

  /** `process_inventory_command(command, df)`: the first keyword found in
      the lower-cased command, in the order add, use, status/check, picks
      the reply; `Success(None)` when none is present. */
  function ProcessInventoryCommand(command: string, f: Frame, show: Cell -> string): (r: Result<Option<string>, string>)
    ensures var lc := Lower(command);
      && (Contains(lc, "add") ==> r == Success(Some(AddReply)))
      && (!Contains(lc, "add") && Contains(lc, "use") ==> r == Success(Some(UseReply)))
      && (!Contains(lc, "add") && !Contains(lc, "use") && (Contains(lc, "status") || Contains(lc, "check")) ==>
            match GetInventoryContext(f, show)
            case Success(ctx) => r == Success(Some(ctx))
            case Failure(k) => r == Failure(k))
      && (r == Success(None) <==>
            !Contains(lc, "add") && !Contains(lc, "use") && !Contains(lc, "status") && !Contains(lc, "check"))
  {
    var lc := Lower(command);
    if Contains(lc, "add") then Success(Some(AddReply))
    else if Contains(lc, "use") then Success(Some(UseReply))
    else if Contains(lc, "status") || Contains(lc, "check") then
      match GetInventoryContext(f, show)
      case Success(ctx) => Success(Some(ctx))
      case Failure(k) => Failure(k)
    else Success(None)
  }

  /** The prompt sent to the model. */
  const PromptIntro: string := "You are an inventory management assistant. Here is the current inventory status:\n"

  function Prompt(context: string, input: string): string {
    PromptIntro
    + context + "\n\nUser: " + input + "\nAssistant:"
  }

  /** `str(KeyError(k))` for a string key. */
  function KeyErrorText(k: string): string {
    "'" + k + "'"
  }

  /** `get_chatbot_response(user_input, df)`: a keyword reply when there is
      one, otherwise the model's stripped answer to the prompt; any
      exception becomes an error message.  `ask` stands for the model call. */
  function GetChatbotResponse(input: string, f: Frame, show: Cell -> string,
                              ask: string -> Result<string, string>): (r: string)
    ensures match ProcessInventoryCommand(input, f, show)
      case Failure(k) => r == ErrorPrefix + KeyErrorText(k)
      case Success(Some(reply)) => reply != "" ==> r == reply
      case Success(None) =>
        match GetInventoryContext(f, show)
        case Failure(k) => r == ErrorPrefix + KeyErrorText(k)
        case Success(ctx) =>
          match ask(Prompt(ctx, input))
          case Failure(msg) => r == ErrorPrefix + msg
          case Success(text) => r == Strip(text)
  {
    match ProcessInventoryCommand(input, f, show)
    case Failure(k) => ErrorPrefix + KeyErrorText(k)
    case Success(reply) =>
      if reply.Some? && reply.value != "" then reply.value
      else
        match GetInventoryContext(f, show)
        case Failure(k) => ErrorPrefix + KeyErrorText(k)
        case Success(ctx) =>
          match ask(Prompt(ctx, input))
          case Failure(msg) => ErrorPrefix + msg
          case Success(text) => Strip(text)
  }

  /** A keyword reply is returned without consulting the model: the answer
      is the same whatever the model would have said. */
  lemma KeywordShortCircuits(input: string, f: Frame, show: Cell -> string,
                             ask1: string -> Result<string, string>, ask2: string -> Result<string, string>)
    requires ProcessInventoryCommand(input, f, show).Success?
    requires ProcessInventoryCommand(input, f, show).value.Some?
    ensures GetChatbotResponse(input, f, show, ask1) == GetChatbotResponse(input, f, show, ask2)
            == ProcessInventoryCommand(input, f, show).value.value
  {
    var reply := ProcessInventoryCommand(input, f, show).value.value;
    assert reply != "" by {
      var lc := Lower(input);
      if !Contains(lc, "add") && !Contains(lc, "use") {
        match GetInventoryContext(f, show)
        case Success(ctx) =>
          if !IsEmpty(f) {
            assert ctx[0] == Header[0];
          }
        case Failure(k) =>
      }
    }
  }

  /** The keyword test is a substring test: "address" asks for the add
      page. */
  lemma AddressMeansAdd(f: Frame, show: Cell -> string)
    ensures ProcessInventoryCommand("address", f, show) == Success(Some(AddReply))
  {
    assert Lower("address") == "address";
    assert "address"[0..3] == "add";
    assert OccursAt("address", "add", 0);
  }

  // ---------------------------------------------------------------------
  // A frame built from the store's rows
  // ---------------------------------------------------------------------

  /** The `inventory` table's columns. */
  const StoreColumns: set<string> := {
    "id", "user_id", "product_name", "category", "quantity", "unit",
    "date_added", "last_used", "image_path", "min_stock_level"}

  /** `pd.DataFrame([dict(item) for item in get_user_inventory(user)])`, the
      way the inventory table and the reports page build their frames; a list
      with no rows gives a frame with no columns.  Cell values are left to
      `cell`: only the column labels matter here. */
  function StoreFrame(items: seq<Item>, cell: (Item, string) -> Cell): (r: Frame)
    ensures |r.rows| == |items|
    ensures |items| == 0 ==> IsEmpty(r)
    ensures |items| > 0 ==> r.columns == StoreColumns && !IsEmpty(r)
    ensures forall k :: 0 <= k < |r.rows| ==> r.rows[k].Keys == StoreColumns
    ensures forall k, c :: 0 <= k < |r.rows| && c in StoreColumns ==> r.rows[k][c] == cell(items[k], c)
  {
    if |items| == 0 then Frame({}, [])
    else Frame(StoreColumns, seq(|items|, k requires 0 <= k < |items| =>
      map c | c in StoreColumns :: cell(items[k], c)))
  }

  /** The store names its column `product_name`, the summary reads `name`:
      with any product in stock the summary raises `KeyError('name')`. */
  lemma StoreFrameHasNoName(items: seq<Item>, cell: (Item, string) -> Cell, show: Cell -> string)
    requires |items| > 0
    ensures GetInventoryContext(StoreFrame(items, cell), show) == Failure("name")
  {
    assert "name" !in StoreColumns;
    assert "id" in StoreColumns;
  }

  /** So every question without the add or use keyword is answered with the
      error text "Error getting chatbot response: 'name'", and the model is
      never asked. */
  lemma StoreFrameAnswersWithError(input: string, items: seq<Item>, cell: (Item, string) -> Cell,
                                   show: Cell -> string, ask: string -> Result<string, string>)
    requires |items| > 0
    requires !Contains(Lower(input), "add") && !Contains(Lower(input), "use")
    ensures GetChatbotResponse(input, StoreFrame(items, cell), show, ask) == ErrorPrefix + KeyErrorText("name")
  {
    StoreFrameHasNoName(items, cell, show);
  }
}
