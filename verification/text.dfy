/** Character classes and string searches the source gets from Python's
    `str` methods and from the `re` patterns it uses. */
module Text {
  import opened Wrappers

  /** Python's `str.isspace()`: the characters `str.split()` and
      `str.strip()` treat as whitespace. */
  predicate IsSpace(c: char) {
    var n := c as int;
    n == 0x20 || 0x09 <= n <= 0x0d || 0x1c <= n <= 0x1f || n == 0x85 || n == 0xa0
    || n == 0x1680 || 0x2000 <= n <= 0x200a || n == 0x2028 || n == 0x2029
    || n == 0x202f || n == 0x205f || n == 0x3000
  }

  /** The class `[\x00-\x1f\x7f-\x9f]`. */
  predicate IsControl(c: char) {
    c as int <= 0x1f || 0x7f <= c as int <= 0x9f
  }

  predicate IsUpperAscii(c: char) {
    'A' <= c <= 'Z'
  }

  /** ASCII lower-casing of one character. */
  function LowerChar(c: char): (r: char)
    ensures IsUpperAscii(c) ==> r as int == c as int + 32
    ensures !IsUpperAscii(c) ==> r == c
    ensures !IsUpperAscii(r)
  {
    if IsUpperAscii(c) then (c as int + 32) as char else c
  }

  /** `s.lower()`, restricted to ASCII letters. */
  function Lower(s: string): (r: string)
    ensures |r| == |s|
    ensures forall k :: 0 <= k < |s| ==> r[k] == LowerChar(s[k])
  {
    seq(|s|, k requires 0 <= k < |s| => LowerChar(s[k]))
  }

  /** `sub` occurs in `s` starting at position `j`. */
  predicate OccursAt(s: string, sub: string, j: nat) {
    j + |sub| <= |s| && s[j..j + |sub|] == sub
  }

  /** Leftmost occurrence of `sub` in `s` at or after `from`. */
  function IndexFrom(s: string, sub: string, from: nat): (r: Option<nat>)
    ensures r.Some? ==> from <= r.value && OccursAt(s, sub, r.value)
    ensures r.Some? ==> forall j :: from <= j < r.value ==> !OccursAt(s, sub, j)
    ensures r.None? ==> forall j :: from <= j ==> !OccursAt(s, sub, j)
    decreases |s| - from
  {
    if from + |sub| > |s| then None
    else if s[from..from + |sub|] == sub then Some(from)
    else IndexFrom(s, sub, from + 1)
  }

  /** Leftmost occurrence of `sub` in `s`, as `str.find` and `re.search`
      locate a literal. */
  function IndexOf(s: string, sub: string): (r: Option<nat>)
    ensures r.Some? ==> OccursAt(s, sub, r.value)
    ensures r.Some? ==> forall j :: 0 <= j < r.value ==> !OccursAt(s, sub, j)
    ensures r.None? <==> forall j :: 0 <= j ==> !OccursAt(s, sub, j)
  {
    IndexFrom(s, sub, 0)
  }

  /** Python's `sub in s`. */
  predicate Contains(s: string, sub: string) {
    IndexOf(s, sub).Some?
  }

  /** An occurrence with none before it is the one `IndexOf` finds. */
  lemma IndexOfIsFirst(s: string, sub: string, p: nat)
    requires OccursAt(s, sub, p)
    requires forall j :: 0 <= j < p ==> !OccursAt(s, sub, j)
    ensures IndexOf(s, sub) == Some(p)
  {
    var r := IndexOf(s, sub);
    assert r.Some?;
    assert r.value >= p;
  }

  /** An occurrence in `b` is one in `a + b`, shifted by `|a|`. */
  lemma OccursAfter(a: string, b: string, sub: string, k: nat)
    requires OccursAt(b, sub, k)
    ensures OccursAt(a + b, sub, |a| + k)
    ensures (a + b)[|a| + k + |sub|..] == b[k + |sub|..]
  {
    assert (a + b)[|a| + k..|a| + k + |sub|] == b[k..k + |sub|];
  }

  /** One differing character rules an occurrence out. */
  lemma Mismatch(s: string, sub: string, j: nat, o: nat)
    requires o < |sub| && j + o < |s| && s[j + o] != sub[o]
    ensures !OccursAt(s, sub, j)
  {
    if j + |sub| <= |s| {
      assert s[j..j + |sub|][o] == s[j + o];
    }
  }

  /** `sub` cannot occur before `p` when every earlier place holding its
      character at offset `o` is one of the marks `a`, `b`, `c`, and no
      occurrence is aligned on any of those. */
  lemma NoOccurrenceBefore(s: string, sub: string, o: nat, p: nat, a: nat, b: nat, c: nat)
    requires o < |sub| && o <= a && o <= b && o <= c
    requires forall i :: 0 <= i < |s| && i < p + o && s[i] == sub[o] ==> i == a || i == b || i == c
    requires !OccursAt(s, sub, a - o) && !OccursAt(s, sub, b - o) && !OccursAt(s, sub, c - o)
    ensures forall j :: 0 <= j < p ==> !OccursAt(s, sub, j)
  {
    forall j | 0 <= j < p ensures !OccursAt(s, sub, j) {
      if j + o < |s| && j + o != a && j + o != b && j + o != c {
        Mismatch(s, sub, j, o);
      }
    }
  }

  /** The text up to (not including) the first line feed, or all of `s`. */
  function TakeLine(s: string): (r: string)
    ensures |r| <= |s| && r == s[..|r|]
    ensures '\n' !in r
    ensures |r| < |s| ==> s[|r|] == '\n'
  {
    if |s| == 0 || s[0] == '\n' then [] else [s[0]] + TakeLine(s[1..])
  }

  /** The line read from `v + rest` is `v` when `v` holds no line feed and
      `rest` is empty or starts a new line. */
  lemma {:induction false} TakeLineOf(v: string, rest: string)
    requires '\n' !in v && (rest == [] || rest[0] == '\n')
    ensures TakeLine(v + rest) == v
  {
    if |v| > 0 {
      assert (v + rest)[1..] == v[1..] + rest;
      TakeLineOf(v[1..], rest);
    }
  }

  /** A text with no line feed is read whole. */
  lemma {:induction false} TakeLineAll(v: string)
    requires '\n' !in v
    ensures TakeLine(v) == v
  {
    if |v| > 0 {
      assert '\n' !in v[1..];
      TakeLineAll(v[1..]);
    }
  }

  /** `s` with every whitespace character removed: the non-blank content. */
  function Ink(s: string): (r: string)
    ensures |r| <= |s|
    ensures forall k :: 0 <= k < |r| ==> !IsSpace(r[k])
  {
    if |s| == 0 then []
    else if IsSpace(s[0]) then Ink(s[1..])
    else [s[0]] + Ink(s[1..])
  }

  lemma {:induction false} InkAppend(a: string, b: string)
    ensures Ink(a + b) == Ink(a) + Ink(b)
  {
    if |a| > 0 {
      assert (a + b)[1..] == a[1..] + b;
      InkAppend(a[1..], b);
    } else {
      assert a + b == b;
    }
  }

  /** Drops leading whitespace. */
  function TrimStart(s: string): (r: string)
    ensures |r| <= |s| && r == s[|s| - |r|..]
    ensures |r| > 0 ==> !IsSpace(r[0])
    ensures forall k :: 0 <= k < |s| - |r| ==> IsSpace(s[k])
  {
    if |s| > 0 && IsSpace(s[0]) then
      var r := TrimStart(s[1..]);
      BlankBefore(s, r);
      r
    else s
  }

  /** A suffix of `s[1..]` after only whitespace is a suffix of `s` after
      only whitespace when `s[0]` is whitespace too. */
  lemma BlankBefore(s: string, r: string)
    requires |s| > 0 && IsSpace(s[0])
    requires |r| <= |s| - 1 && r == s[1..][|s| - 1 - |r|..]
    requires forall k :: 0 <= k < |s| - 1 - |r| ==> IsSpace(s[1..][k])
    ensures r == s[|s| - |r|..]
    ensures forall k :: 0 <= k < |s| - |r| ==> IsSpace(s[k])
  {
    forall k | 0 <= k < |s| - |r| ensures IsSpace(s[k]) {
      if k > 0 {
        assert s[k] == s[1..][k - 1];
      }
    }
  }

  /** Drops trailing whitespace. */
  function TrimEnd(s: string): (r: string)
    ensures |r| <= |s| && r == s[..|r|]
    ensures |r| > 0 ==> !IsSpace(r[|r| - 1])
    ensures forall k :: |r| <= k < |s| ==> IsSpace(s[k])
  {
    if |s| > 0 && IsSpace(s[|s| - 1]) then TrimEnd(s[..|s| - 1]) else s
  }

  /** `r` is the slice of `s` starting at `a` with only whitespace of `s`
      before and after it. */
  predicate StripsTo(s: string, r: string, a: nat) {
    a + |r| <= |s| && r == s[a..a + |r|]
    && (forall k :: 0 <= k < a ==> IsSpace(s[k]))
    && (forall k :: a + |r| <= k < |s| ==> IsSpace(s[k]))
  }

  /** Python's `s.strip()`: the slice of `s` left once whitespace is removed
      from both ends. */
  function Strip(s: string): (r: string)
    ensures |r| > 0 ==> !IsSpace(r[0]) && !IsSpace(r[|r| - 1])
    ensures exists a: nat :: StripsTo(s, r, a)
  {
    var t := TrimStart(s);
    var r := TrimEnd(t);
    var a := |s| - |t|;
    assert StripsTo(s, r, a);
    r
  }

  // -----------------------------------------------------------------------
  // `str.split()` and `' '.join(...)`
  // -----------------------------------------------------------------------

  /** A token of `str.split()`: non-empty and free of whitespace. */
  predicate IsWord(w: string) {
    |w| > 0 && forall k :: 0 <= k < |w| ==> !IsSpace(w[k])
  }

  /** Every element is a token. */
  predicate AllWords(ws: seq<string>) {
    |ws| == 0 || (IsWord(ws[0]) && AllWords(ws[1..]))
  }

  /** The longest whitespace-free prefix of `s`. */
  function TakeWord(s: string): (r: string)
    ensures |r| <= |s| && r == s[..|r|]
    ensures forall k :: 0 <= k < |r| ==> !IsSpace(r[k])
    ensures |r| < |s| ==> IsSpace(s[|r|])
  {
    if |s| == 0 || IsSpace(s[0]) then [] else [s[0]] + TakeWord(s[1..])
  }

  function Concat(ws: seq<string>): string {
    if |ws| == 0 then [] else ws[0] + Concat(ws[1..])
  }

  lemma InkOfBlank(s: string)
    requires forall k :: 0 <= k < |s| ==> IsSpace(s[k])
    ensures Ink(s) == []
  {
  }

  lemma InkOfWord(w: string)
    requires forall k :: 0 <= k < |w| ==> !IsSpace(w[k])
    ensures Ink(w) == w
  {
  }

  /** Python's `s.split()`: the maximal whitespace-free runs of `s`, in
      order. */
  function Split(s: string): (r: seq<string>)
    ensures AllWords(r)
    decreases |s|
  {
    var t := TrimStart(s);
    if |t| == 0 then []
    else
      var w := TakeWord(t);
      var r := [w] + Split(t[|w|..]);
      assert r[1..] == Split(t[|w|..]);
      r
  }

  lemma InkTrimStart(s: string)
    ensures Ink(TrimStart(s)) == Ink(s)
  {
    var t := TrimStart(s);
    var b := s[..|s| - |t|];
    assert forall k :: 0 <= k < |b| ==> IsSpace(b[k]);
    assert s == b + t;
    InkAfterBlank(b, t);
  }

  /** Leading whitespace adds nothing to the non-blank content. */
  lemma InkAfterBlank(b: string, t: string)
    requires forall k :: 0 <= k < |b| ==> IsSpace(b[k])
    ensures Ink(b + t) == Ink(t)
  {
    InkAppend(b, t);
    InkOfBlank(b);
  }

  lemma InkAfterWord(t: string)
    ensures Ink(t) == TakeWord(t) + Ink(t[|TakeWord(t)|..])
  {
    var w := TakeWord(t);
    assert t == w + t[|w|..];
    InkAppend(w, t[|w|..]);
    InkOfWord(w);
  }

  /** The tokens together hold exactly the non-blank content of `s`. */
  lemma {:induction false} SplitInk(s: string)
    ensures Concat(Split(s)) == Ink(s)
    decreases |s|
  {
    var t := TrimStart(s);
    InkTrimStart(s);
    if |t| > 0 {
      var w := TakeWord(t);
      SplitInk(t[|w|..]);
      InkAfterWord(t);
      var r := Split(s);
      assert r == [w] + Split(t[|w|..]);
      assert r[1..] == Split(t[|w|..]);
    }
  }

  /** Python's `' '.join(ws)`. */
  function Join(ws: seq<string>): (r: string)
    ensures |ws| > 0 && IsWord(ws[0]) ==> |r| > 0 && r[0] == ws[0][0]
  {
    if |ws| == 0 then []
    else if |ws| == 1 then ws[0]
    else ws[0] + (" " + Join(ws[1..]))
  }

  /** Whitespace occurs only as single spaces between non-blank characters:
      none leading, none trailing, no runs. */
  predicate SingleSpaced(s: string) {
    forall k :: 0 <= k < |s| && IsSpace(s[k]) ==>
      s[k] == ' ' && 0 < k < |s| - 1 && !IsSpace(s[k - 1]) && !IsSpace(s[k + 1])
  }

  lemma TakeWordOf(w: string, x: string)
    requires forall k :: 0 <= k < |w| ==> !IsSpace(w[k])
    requires |x| > 0 && IsSpace(x[0])
    ensures TakeWord(w + x) == w
  {
    var r := TakeWord(w + x);
    assert (w + x)[..|w|] == w;
  }

  lemma TakeWordAll(w: string)
    requires forall k :: 0 <= k < |w| ==> !IsSpace(w[k])
    ensures TakeWord(w) == w
  {
  }

  /** Joined tokens are single-spaced. */
  lemma {:induction false} JoinSingleSpaced(ws: seq<string>)
    requires AllWords(ws)
    ensures SingleSpaced(Join(ws))
  {
    if |ws| >= 2 {
      var w := ws[0];
      var j := Join(ws[1..]);
      JoinSingleSpaced(ws[1..]);
      var s := Join(ws);
      assert s == w + (" " + j);
      forall k | 0 <= k < |s| && IsSpace(s[k])
        ensures s[k] == ' ' && 0 < k < |s| - 1 && !IsSpace(s[k - 1]) && !IsSpace(s[k + 1])
      {
        if k > |w| {
          assert s[k] == j[k - |w| - 1];
          assert s[k - 1] == j[k - |w| - 2];
        }
      }
    }
  }

  /** Joining keeps the non-blank content. */
  lemma {:induction false} JoinInk(ws: seq<string>)
    requires AllWords(ws)
    ensures Ink(Join(ws)) == Concat(ws)
  {
    if |ws| == 1 {
      InkOfWord(ws[0]);
      assert ws[0] + [] == ws[0];
    } else if |ws| >= 2 {
      JoinInk(ws[1..]);
      InkAppend(ws[0], " " + Join(ws[1..]));
      InkAppend(" ", Join(ws[1..]));
      InkOfWord(ws[0]);
    }
  }

  lemma SplitAfterWord(w: string, x: string)
    requires IsWord(w) && |x| > 0 && IsSpace(x[0])
    ensures Split(w + x) == [w] + Split(x)
  {
    assert TrimStart(w + x) == w + x;
    TakeWordOf(w, x);
    assert (w + x)[|w|..] == x;
  }

  lemma SplitWord(w: string)
    requires IsWord(w)
    ensures Split(w) == [w]
  {
    assert TrimStart(w) == w;
    TakeWordAll(w);
    assert w[|w|..] == [];
  }

  lemma SplitSpace(x: string)
    ensures Split(" " + x) == Split(x)
  {
    assert (" " + x)[1..] == x;
    assert TrimStart(" " + x) == TrimStart(x);
  }

  /** Leading whitespace of any kind is skipped. */
  lemma SplitLeadingSpace(c: char, x: string)
    requires IsSpace(c)
    ensures Split([c] + x) == Split(x)
  {
    assert ([c] + x)[1..] == x;
    assert TrimStart([c] + x) == TrimStart(x);
  }

  /** Text of whitespace alone has no tokens. */
  lemma SplitBlank(s: string)
    requires forall k :: 0 <= k < |s| ==> IsSpace(s[k])
    ensures Split(s) == []
  {
    var t := TrimStart(s);
    assert |t| == 0;
  }

  /** Any whitespace character separates tokens: what lies on either side
      of it is split on its own.  With `SplitWord` and `SplitBlank` this
      pins `Split` down to the maximal runs of non-whitespace. */
  lemma {:induction false} SplitSeparated(a: string, c: char, b: string)
    requires IsSpace(c)
    ensures Split(a + ([c] + b)) == Split(a) + Split(b)
    decreases |a|, 1
  {
    var y := [c] + b;
    if |a| == 0 {
      calc {
        Split(a + y);
      == { assert a + y == y; SplitSkipSpace(y); assert y[1..] == b; }
        Split(b);
      == { assert Split(a) == []; }
        Split(a) + Split(b);
      }
    } else if IsSpace(a[0]) {
      SeparatedAfterSpace(a, c, b);
    } else if |TakeWord(a)| < |a| {
      SeparatedAfterWord(a, c, b);
    } else {
      SeparatedWholeWord(a, c, b);
    }
  }

  /** `SplitSeparated` when `a` opens with whitespace. */
  lemma {:induction false} SeparatedAfterSpace(a: string, c: char, b: string)
    requires |a| > 0 && IsSpace(a[0]) && IsSpace(c)
    ensures Split(a + ([c] + b)) == Split(a) + Split(b)
    decreases |a|, 0
  {
    var y := [c] + b;
    calc {
      Split(a + y);
    == { assert (a + y)[0] == a[0]; SplitSkipSpace(a + y); assert (a + y)[1..] == a[1..] + y; }
      Split(a[1..] + y);
    == { SplitSeparated(a[1..], c, b); }
      Split(a[1..]) + Split(b);
    == { SplitSkipSpace(a); }
      Split(a) + Split(b);
    }
  }

  /** `SplitSeparated` when `a` opens with a token that ends inside `a`. */
  lemma {:induction false} SeparatedAfterWord(a: string, c: char, b: string)
    requires |a| > 0 && !IsSpace(a[0]) && IsSpace(c) && |TakeWord(a)| < |a|
    ensures Split(a + ([c] + b)) == Split(a) + Split(b)
    decreases |a|, 0
  {
    var y := [c] + b;
    var w := TakeWord(a);
    var x := a[|w|..];
    calc {
      Split(a + y);
    == { assert (a + y)[0] == a[0]; SplitTakeWord(a + y); TakeWordPrefix(a, y); assert (a + y)[|w|..] == x + y; }
      [w] + Split(x + y);
    == { SplitSeparated(x, c, b); }
      [w] + (Split(x) + Split(b));
    == { ConsAssoc(w, Split(x), Split(b)); }
      ([w] + Split(x)) + Split(b);
    == { SplitTakeWord(a); }
      Split(a) + Split(b);
    }
  }

  /** `SplitSeparated` when all of `a` is one token. */
  lemma SeparatedWholeWord(a: string, c: char, b: string)
    requires |a| > 0 && !IsSpace(a[0]) && IsSpace(c) && |TakeWord(a)| == |a|
    ensures Split(a + ([c] + b)) == Split(a) + Split(b)
  {
    var y := [c] + b;
    calc {
      Split(a + y);
    == { assert (a + y)[0] == a[0]; SplitTakeWord(a + y); TakeWordWhole(a, y); assert (a + y)[|a|..] == y; }
      [a] + Split(y);
    == { SplitSkipSpace(y); assert y[1..] == b; }
      [a] + Split(b);
    == { SplitTakeWord(a); assert TakeWord(a) == a[..|a|] == a; assert a[|a|..] == []; }
      Split(a) + Split(b);
    }
  }

  /** One step of `Split` at a whitespace character. */
  lemma SplitSkipSpace(s: string)
    requires |s| > 0 && IsSpace(s[0])
    ensures Split(s) == Split(s[1..])
  {
    assert TrimStart(s) == TrimStart(s[1..]);
  }

  /** One step of `Split` at the start of a token. */
  lemma SplitTakeWord(s: string)
    requires |s| > 0 && !IsSpace(s[0])
    ensures Split(s) == [TakeWord(s)] + Split(s[|TakeWord(s)|..])
  {
    assert TrimStart(s) == s;
  }

  /** A token that ends inside `a` is not changed by what follows `a`. */
  lemma TakeWordPrefix(a: string, y: string)
    requires |TakeWord(a)| < |a|
    ensures TakeWord(a + y) == TakeWord(a)
  {
    var w := TakeWord(a);
    assert a + y == w + (a[|w|..] + y);
    TakeWordOf(w, a[|w|..] + y);
  }

  /** A token that runs to the end of `a` ends there when whitespace
      follows. */
  lemma TakeWordWhole(a: string, y: string)
    requires |TakeWord(a)| == |a| && |y| > 0 && IsSpace(y[0])
    ensures TakeWord(a + y) == a
  {
    assert TakeWord(a) == a[..|a|] == a;
    TakeWordOf(a, y);
  }

  lemma ConsAssoc<T>(x: T, p: seq<T>, q: seq<T>)
    ensures [x] + (p + q) == ([x] + p) + q
  {
  }

  /** Splitting what was joined gives the tokens back. */
  lemma {:induction false} SplitJoin(ws: seq<string>)
    requires AllWords(ws)
    ensures Split(Join(ws)) == ws
  {
    if |ws| == 1 {
      SplitWord(ws[0]);
    } else if |ws| >= 2 {
      var w := ws[0];
      var j := Join(ws[1..]);
      SplitJoin(ws[1..]);
      SplitWordSpace(w, j);
      assert ws == [w] + ws[1..];
    }
  }

  lemma SplitWordSpace(w: string, y: string)
    requires IsWord(w)
    ensures Split(w + (" " + y)) == [w] + Split(y)
  {
    SplitAfterWord(w, " " + y);
    SplitSpace(y);
  }

  lemma JoinCons(w: string, ws: seq<string>)
    requires |ws| > 0
    ensures Join([w] + ws) == w + (" " + Join(ws))
  {
    assert ([w] + ws)[1..] == ws;
  }

  lemma SplitOneWord(s: string)
    requires |s| > 0 && |TakeWord(s)| == |s|
    ensures Join(Split(s)) == s
  {
    assert TakeWord(s) == s;
    SplitWord(s);
  }

  /** The first token of a single-spaced string that has more is followed
      by a single space and a non-blank character. */
  lemma SingleSpacedHead(s: string)
    requires SingleSpaced(s) && |TakeWord(s)| < |s|
    ensures var w := TakeWord(s);
      && IsWord(w) && s[|w|] == ' ' && |w| + 1 < |s| && !IsSpace(s[|w| + 1])
  {
  }

  /** A string is its prefix, a space and what follows. */
  lemma SplitAtSpace(s: string, w: string)
    requires |w| < |s| && w == s[..|w|] && s[|w|] == ' '
    ensures s == w + (" " + s[|w| + 1..])
  {
    assert s[|w|..] == " " + s[|w| + 1..];
    assert s == s[..|w|] + s[|w|..];
  }

  /** What follows a space of a single-spaced string is single-spaced. */
  lemma SingleSpacedAfter(s: string, m: nat)
    requires SingleSpaced(s) && m < |s| && s[m] == ' '
    ensures SingleSpaced(s[m + 1..])
  {
    var x := s[m + 1..];
    forall k | 0 <= k < |x| && IsSpace(x[k])
      ensures x[k] == ' ' && 0 < k < |x| - 1 && !IsSpace(x[k - 1]) && !IsSpace(x[k + 1])
    {
      assert x[k] == s[m + 1 + k];
    }
  }

  /** Text that starts with a non-blank character has a token. */
  lemma SplitStartsWithWord(s: string, n: nat)
    requires n < |s| && !IsSpace(s[n])
    ensures |Split(s[n..])| > 0
  {
    assert TrimStart(s[n..]) == s[n..];
  }

  /** A single-spaced string is the join of its own tokens. */
  lemma {:induction false} JoinSplit(s: string)
    requires SingleSpaced(s)
    ensures Join(Split(s)) == s
    decreases |s|, 1
  {
    if |s| > 0 {
      if |TakeWord(s)| < |s| {
        JoinSplitStep(s);
      } else {
        SplitOneWord(s);
      }
    }
  }

  /** `JoinSplit` when the first token is followed by more text. */
  lemma {:induction false} JoinSplitStep(s: string)
    requires SingleSpaced(s) && |TakeWord(s)| < |s|
    ensures Join(Split(s)) == s
    decreases |s|, 0
  {
    var w := TakeWord(s);
    var x := s[|w| + 1..];
    SingleSpacedHead(s);
    calc {
      Join(Split(s));
    == { SplitAtSpace(s, w); SplitWordSpace(w, x); }
      Join([w] + Split(x));
    == { SplitStartsWithWord(s, |w| + 1); JoinCons(w, Split(x)); }
      w + (" " + Join(Split(x)));
    == { SingleSpacedAfter(s, |w|); JoinSplit(x); }
      w + (" " + x);
    == { SplitAtSpace(s, w); }
      s;
    }
  }

}
