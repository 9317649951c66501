/** The deterministic parts of `vision_utils.py`: the JSON-string cleaner,
    and what `analyze_with_openai` does with the model's reply once the call
    has returned (unit and quantity normalisation, the fallback record). */
module Vision {
  import opened Wrappers
  import opened Text

  // ---------------------------------------------------------------------
  // clean_json_string
  // ---------------------------------------------------------------------

  predicate NoControl(s: string) {
    forall k :: 0 <= k < |s| ==> !IsControl(s[k])
  }

  /** `re.sub(r'[\x00-\x1f\x7f-\x9f]', '', s)`: every other character is
      kept as often as it occurs (`RemoveControlsCounts`) and in order
      (`RemoveControlsAppend`). */
  function RemoveControls(s: string): (r: string)
    ensures NoControl(r)
    ensures |r| <= |s|
    ensures NoControl(s) ==> r == s
  {
    if |s| == 0 then []
    else if IsControl(s[0]) then RemoveControls(s[1..])
    else [s[0]] + RemoveControls(s[1..])
  }

  /** Each control character is gone and every other character occurs as
      often as in the input. */
  lemma {:induction false} RemoveControlsCounts(s: string)
    ensures forall c :: multiset(RemoveControls(s))[c] == if IsControl(c) then 0 else multiset(s)[c]
  {
    if |s| > 0 {
      assert s == [s[0]] + s[1..];
      RemoveControlsCounts(s[1..]);
    }
  }

  /** The removal works character by character: a concatenation loses the
      control characters of each part and keeps the parts in order. */
  lemma {:induction false} RemoveControlsAppend(a: string, b: string)
    ensures RemoveControls(a + b) == RemoveControls(a) + RemoveControls(b)
  {
    if |a| == 0 {
      assert a + b == b;
    } else {
      assert (a + b)[0] == a[0];
      assert (a + b)[1..] == a[1..] + b;
      RemoveControlsAppend(a[1..], b);
    }
  }

  /** A single character goes exactly when it is a control character. */
  lemma RemoveControlsOne(c: char)
    ensures RemoveControls([c]) == if IsControl(c) then [] else [c]
  {
    assert [c][1..] == [];
  }

  /** A backslash followed by the letter n starts at `k`. */
  predicate BackslashNAt(s: string, k: int) {
    0 <= k < |s| - 1 && s[k] == '\\' && s[k + 1] == 'n'
  }

  predicate HasBackslashN(s: string) {
    exists k :: 0 <= k < |s| && BackslashNAt(s, k)
  }

  /** `s.replace('\\n', '\\\\n')`: every backslash-n pair, scanned left to
      right, gets one more backslash in front of it. */
  function EscapeBackslashN(s: string): (r: string)
    ensures |s| > 0 ==> |r| > 0 && r[0] == s[0]
    ensures NoControl(s) ==> NoControl(r)
  {
    if |s| == 0 then []
    else if |s| >= 2 && s[0] == '\\' && s[1] == 'n' then
      "\\\\n" + EscapeBackslashN(s[2..])
    else
      [s[0]] + EscapeBackslashN(s[1..])
  }

  /** Text with no backslash-n pair is left exactly as it is. */
  lemma {:induction false} EscapeWithoutPairs(s: string)
    requires !HasBackslashN(s)
    ensures EscapeBackslashN(s) == s
  {
    if |s| > 0 {
      assert !BackslashNAt(s, 0);
      assert !HasBackslashN(s[1..]) by {
        if HasBackslashN(s[1..]) {
          var k :| 0 <= k < |s[1..]| && BackslashNAt(s[1..], k);
          assert BackslashNAt(s, k + 1);
        }
      }
      EscapeWithoutPairs(s[1..]);
    }
  }

  /** The escape works piece by piece wherever the seam does not split a
      backslash-n pair. */
  lemma {:induction false} EscapeAppend(a: string, b: string)
    requires !(|a| > 0 && a[|a| - 1] == '\\' && |b| > 0 && b[0] == 'n')
    ensures EscapeBackslashN(a + b) == EscapeBackslashN(a) + EscapeBackslashN(b)
    decreases |a|, 1
  {
    if |a| == 0 {
      assert a + b == b;
    } else if |a| >= 2 && a[0] == '\\' && a[1] == 'n' {
      EscapeAppendPair(a, b);
    } else {
      EscapeAppendChar(a, b);
    }
  }

  /** `EscapeAppend` when `a` opens with a backslash-n pair. */
  lemma {:induction false} EscapeAppendPair(a: string, b: string)
    requires |a| >= 2 && a[0] == '\\' && a[1] == 'n'
    requires !(a[|a| - 1] == '\\' && |b| > 0 && b[0] == 'n')
    ensures EscapeBackslashN(a + b) == EscapeBackslashN(a) + EscapeBackslashN(b)
    decreases |a|, 0
  {
    var p, t := "\\\\n", a[2..];
    calc {
      EscapeBackslashN(a + b);
    == { EscapeAtPair(a + b); assert (a + b)[2..] == t + b; }
      p + EscapeBackslashN(t + b);
    == { EscapeAppend(t, b); }
      p + (EscapeBackslashN(t) + EscapeBackslashN(b));
    == { PrefixAssoc(p, EscapeBackslashN(t), EscapeBackslashN(b)); }
      (p + EscapeBackslashN(t)) + EscapeBackslashN(b);
    == { EscapeAtPair(a); }
      EscapeBackslashN(a) + EscapeBackslashN(b);
    }
  }

  /** `EscapeAppend` when `a` opens with any other character. */
  lemma {:induction false} EscapeAppendChar(a: string, b: string)
    requires |a| > 0 && !(|a| >= 2 && a[0] == '\\' && a[1] == 'n')
    requires !(a[|a| - 1] == '\\' && |b| > 0 && b[0] == 'n')
    ensures EscapeBackslashN(a + b) == EscapeBackslashN(a) + EscapeBackslashN(b)
    decreases |a|, 0
  {
    var p, t := [a[0]], a[1..];
    calc {
      EscapeBackslashN(a + b);
    == { SeamNoPair(a, b); EscapeAtChar(a + b); assert (a + b)[1..] == t + b; }
      p + EscapeBackslashN(t + b);
    == { EscapeAppend(t, b); }
      p + (EscapeBackslashN(t) + EscapeBackslashN(b));
    == { PrefixAssoc(p, EscapeBackslashN(t), EscapeBackslashN(b)); }
      (p + EscapeBackslashN(t)) + EscapeBackslashN(b);
    == { EscapeAtChar(a); }
      EscapeBackslashN(a) + EscapeBackslashN(b);
    }
  }

  lemma PrefixAssoc(p: string, x: string, y: string)
    ensures p + (x + y) == (p + x) + y
  {
  }

  /** A seam that does not split a pair leaves the head of `a + b` as it is
      in `a`. */
  lemma SeamNoPair(a: string, b: string)
    requires |a| > 0 && !(|a| >= 2 && a[0] == '\\' && a[1] == 'n')
    requires !(|a| > 0 && a[|a| - 1] == '\\' && |b| > 0 && b[0] == 'n')
    ensures !(|a + b| >= 2 && (a + b)[0] == '\\' && (a + b)[1] == 'n')
  {
    if |a| == 1 && |b| > 0 {
      assert (a + b)[1] == b[0];
    } else if |a| >= 2 {
      assert (a + b)[1] == a[1];
    }
  }

  /** One step of the escape at a backslash-n pair, and at any other
      character. */
  lemma EscapeAtPair(s: string)
    requires |s| >= 2 && s[0] == '\\' && s[1] == 'n'
    ensures EscapeBackslashN(s) == "\\\\n" + EscapeBackslashN(s[2..])
  {
  }

  lemma EscapeAtChar(s: string)
    requires |s| > 0 && !(|s| >= 2 && s[0] == '\\' && s[1] == 'n')
    ensures EscapeBackslashN(s) == [s[0]] + EscapeBackslashN(s[1..])
  {
  }

  /** Every backslash-n pair in the text, wherever it stands, comes out with
      one more backslash and the text on either side is escaped on its own. */
  lemma EscapeSplice(a: string, b: string)
    ensures EscapeBackslashN(a + ("\\n" + b)) == EscapeBackslashN(a) + ("\\\\n" + EscapeBackslashN(b))
  {
    var x := "\\n" + b;
    assert x[2..] == b;
    EscapeAppend(a, x);
  }

  /** The inverse of the escape: a backslash directly before a backslash-n
      pair is dropped. */
  function UnescapeBackslashN(r: string): string {
    if |r| == 0 then []
    else if |r| >= 3 && r[0] == '\\' && r[1] == '\\' && r[2] == 'n' then "\\n" + UnescapeBackslashN(r[3..])
    else [r[0]] + UnescapeBackslashN(r[1..])
  }

  /** The escape loses nothing: undoing it gives the input back. */
  lemma {:induction false} EscapeRoundTrip(s: string)
    ensures UnescapeBackslashN(EscapeBackslashN(s)) == s
  {
    if |s| >= 2 && s[0] == '\\' && s[1] == 'n' {
      EscapeRoundTrip(s[2..]);
      var e := EscapeBackslashN(s[2..]);
      assert ("\\\\n" + e)[3..] == e;
      assert s == "\\n" + s[2..];
    } else if |s| > 0 {
      EscapeRoundTrip(s[1..]);
      var e := EscapeBackslashN(s[1..]);
      assert ([s[0]] + e)[1..] == e;
      if |s| >= 2 && s[0] == '\\' {
        assert e[0] == s[1];
        if s[1] == '\\' && |s| >= 3 && s[2] == 'n' {
          assert e[1] == '\\';
        } else if |e| >= 2 {
          assert e[1] == EscapeBackslashN(s[2..])[0];
        }
      }
      assert s == [s[0]] + s[1..];
    }
  }

  predicate AllNoControl(ws: seq<string>) {
    |ws| == 0 || (NoControl(ws[0]) && AllNoControl(ws[1..]))
  }

  lemma {:induction false} SplitNoControl(s: string)
    requires NoControl(s)
    ensures AllNoControl(Split(s))
    decreases |s|
  {
    var t := TrimStart(s);
    if |t| > 0 {
      var w := TakeWord(t);
      SplitNoControl(t[|w|..]);
      assert Split(s)[1..] == Split(t[|w|..]);
    }
  }

  lemma {:induction false} JoinNoControl(ws: seq<string>)
    requires AllNoControl(ws)
    ensures NoControl(Join(ws))
  {
    if |ws| >= 2 {
      JoinNoControl(ws[1..]);
      assert Join(ws) == ws[0] + (" " + Join(ws[1..]));
    }
  }

  /** `clean_json_string(s)`: control characters removed, backslash-n
      escaped, whitespace runs collapsed to single spaces and trimmed.  The
      tokens of the result are exactly the tokens of the escaped text. */
  function CleanJsonString(s: string): (r: string)
    ensures NoControl(r)
    ensures SingleSpaced(r)
    ensures Split(r) == Split(EscapeBackslashN(RemoveControls(s)))
  {
    var escaped := EscapeBackslashN(RemoveControls(s));
    var words := Split(escaped);
    SplitNoControl(escaped);
    JoinNoControl(words);
    JoinSingleSpaced(words);
    SplitJoin(words);
    Join(words)
  }

  /** Text that is already clean and holds no backslash-n pair comes back
      unchanged. */
  lemma CleanFixedPoint(s: string)
    requires NoControl(s) && SingleSpaced(s) && !HasBackslashN(s)
    ensures CleanJsonString(s) == s
  {
    EscapeWithoutPairs(s);
    JoinSplit(s);
  }

  /** Clean text whose escape is already single-spaced cleans to that
      escape. */
  lemma CleanToEscape(s: string)
    requires NoControl(s) && SingleSpaced(EscapeBackslashN(s))
    ensures CleanJsonString(s) == EscapeBackslashN(s)
  {
    JoinSplit(EscapeBackslashN(s));
  }

  /** Printable ASCII text other than the space is clean and single-spaced. */
  lemma Printable(s: string)
    requires forall k :: 0 <= k < |s| ==> '!' <= s[k] <= '~'
    ensures NoControl(s) && SingleSpaced(s)
  {
  }

  /** Cleaning is not idempotent: every call escapes the backslash-n pairs
      once more. */
  lemma CleanEscapesAgain()
    ensures CleanJsonString("\\n") == "\\\\n"
    ensures CleanJsonString(CleanJsonString("\\n")) == "\\\\\\n"
  {
    CleanOnce();
    CleanTwice();
  }

  lemma CleanOnce()
    ensures CleanJsonString("\\n") == "\\\\n"
  {
    var a := "\\n";
    var b := "\\\\n";
    assert EscapeBackslashN(a) == b by {
      assert a[2..] == [];
    }
    Printable(a);
    Printable(b);
    CleanToEscape(a);
  }

  lemma CleanTwice()
    ensures CleanJsonString("\\\\n") == "\\\\\\n"
  {
    var b := "\\\\n";
    var c := "\\\\\\n";
    assert EscapeBackslashN(b) == c by {
      assert b[1..] == "\\n";
      assert EscapeBackslashN(b[1..]) == "\\\\n" by {
        assert b[1..][2..] == [];
      }
    }
    Printable(b);
    Printable(c);
    CleanToEscape(b);
  }

  // ---------------------------------------------------------------------
  // analyze_with_openai, after the call
  // ---------------------------------------------------------------------

  /** A value `json.loads` can produce. */
  datatype Json =
    | JNull
    | JBool(b: bool)
    | JNum(n: real)
    | JStr(s: string)
    | JArr(items: seq<Json>)
    | JObj(fields: map<string, Json>)

  /** What came back from the model call. */
  datatype Reply =
    | CallFailed           // the call itself raised
    | Undecodable          // `json.loads` raised `JSONDecodeError`
    | Decoded(value: Json)

  const ValidUnits: seq<string> := ["kg", "g", "L", "ml", "pcs", "box", "pack"]
  const DefaultUnit: string := "pcs"

  predicate IsValidUnit(v: Json) {
    v.JStr? && v.s in ValidUnits
  }

  /** Python's `float(v)` on a decoded value; `None` where it raises
      `ValueError` or `TypeError`.  `parseFloat` stands for `float()` on a
      string. */
  function ToFloat(v: Json, parseFloat: string -> Option<real>): Option<real> {
    match v
    case JNum(n) => Some(n)
    case JBool(b) => Some(if b then 1.0 else 0.0)
    case JStr(s) => parseFloat(s)
    case _ => None
  }

  /** The unit and quantity checks on a decoded object.  A missing key
      raises `KeyError`, which only the outer handler catches: `None`. */
  function Normalize(m: map<string, Json>, parseFloat: string -> Option<real>): (r: Option<map<string, Json>>)
    ensures r.Some? <==> "unit" in m && "quantity" in m
    ensures r.Some? ==>
      && r.value.Keys == m.Keys
      && IsValidUnit(r.value["unit"]) && r.value["quantity"].JNum?
      && (IsValidUnit(m["unit"]) ==> r.value["unit"] == m["unit"])
      && (!IsValidUnit(m["unit"]) ==> r.value["unit"] == JStr(DefaultUnit))
      && (ToFloat(m["quantity"], parseFloat).Some? ==> r.value["quantity"] == JNum(ToFloat(m["quantity"], parseFloat).value))
      && (ToFloat(m["quantity"], parseFloat).None? ==> r.value["quantity"] == JNum(1.0))
      && (forall k :: k in m && k != "unit" && k != "quantity" ==> r.value[k] == m[k])
  {
    if "unit" !in m then None
    else
      var withUnit := if IsValidUnit(m["unit"]) then m else m["unit" := JStr(DefaultUnit)];
      if "quantity" !in withUnit then None
      else
        var q := match ToFloat(withUnit["quantity"], parseFloat)
          case Some(x) => x
          case None => 1.0;
        Some(withUnit["quantity" := JNum(q)])
  }

  /** The record returned when the reply is not JSON. */
  function Fallback(labels: seq<string>): map<string, Json> {
    map[
      "product_name" := JStr(if |labels| > 0 then labels[0] else "Unknown Product"),
      "category" := JStr("Grocery"),
      "unit" := JStr(DefaultUnit),
      "quantity" := JNum(1.0),
      "notes" := JStr("Could not parse detailed analysis")]
  }

  /** The result of `analyze_with_openai` given the model's reply: the
      normalised object, the fallback record when the reply is not JSON, and
      `None` when the call failed or the decoded value is not an object with
      both a unit and a quantity. */
  function AnalyzeReply(labels: seq<string>, reply: Reply, parseFloat: string -> Option<real>): (r: Option<map<string, Json>>)
    ensures reply.CallFailed? ==> r.None?
    ensures reply.Undecodable? ==> r == Some(Fallback(labels))
    ensures reply.Decoded? ==>
      (r.Some? <==> reply.value.JObj? && "unit" in reply.value.fields && "quantity" in reply.value.fields)
    ensures reply.Decoded? && reply.value.JObj? ==> r == Normalize(reply.value.fields, parseFloat)
    ensures r.Some? ==> "unit" in r.value && IsValidUnit(r.value["unit"])
    ensures r.Some? ==> "quantity" in r.value && r.value["quantity"].JNum?
  {
    match reply
    case CallFailed => None
    case Undecodable => Some(Fallback(labels))
    case Decoded(v) =>
      if v.JObj? then Normalize(v.fields, parseFloat) else None
  }

  /** The fallback record already passes the unit and quantity checks. */
  lemma FallbackIsNormal(labels: seq<string>, parseFloat: string -> Option<real>)
    ensures Normalize(Fallback(labels), parseFloat) == Some(Fallback(labels))
  {
    var m := Fallback(labels);
    assert IsValidUnit(m["unit"]);
    assert m["quantity" := JNum(1.0)] == m;
  }

  /** Normalising twice changes nothing more. */
  lemma NormalizeIdempotent(m: map<string, Json>, parseFloat: string -> Option<real>)
    requires Normalize(m, parseFloat).Some?
    ensures Normalize(Normalize(m, parseFloat).value, parseFloat) == Normalize(m, parseFloat)
  {
    var n := Normalize(m, parseFloat).value;
    assert n["quantity" := JNum(n["quantity"].n)] == n;
  }

  /** Every record `analyze_with_openai` returns is stable: handing it back
      as the model's reply returns it unchanged. */
  lemma AnalyzeReplyStable(labels: seq<string>, reply: Reply, parseFloat: string -> Option<real>)
    requires AnalyzeReply(labels, reply, parseFloat).Some?
    ensures var m := AnalyzeReply(labels, reply, parseFloat).value;
      AnalyzeReply(labels, Decoded(JObj(m)), parseFloat) == Some(m)
  {
    match reply
    case Undecodable => FallbackIsNormal(labels, parseFloat);
    case Decoded(v) => NormalizeIdempotent(v.fields, parseFloat);
  }

  /** The unit check is case-sensitive: "KG" becomes "pcs". */
  lemma UnitIsCaseSensitive(m: map<string, Json>, parseFloat: string -> Option<real>)
    requires "unit" in m && "quantity" in m && m["unit"] == JStr("KG")
    ensures Normalize(m, parseFloat).value["unit"] == JStr("pcs")
  {
    assert "KG" != "kg";
    assert !IsValidUnit(m["unit"]);
  }
}
