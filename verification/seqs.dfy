/** Sequence helpers used where the source filters rows or takes the first
    row a query returns (`WHERE ...` and `fetchone()`). */
module Seqs {
  import opened Wrappers

  /** The elements of `s` satisfying `f`, in their original order: each
      kept element occurs as often as in `s`, no other element occurs, and
      (`FilterAppend`) the order is that of `s`. */
  function Filter<T>(s: seq<T>, f: T -> bool): (r: seq<T>)
    ensures |r| <= |s|
    ensures forall k :: 0 <= k < |r| ==> r[k] in s && f(r[k])
    ensures forall k :: 0 <= k < |s| && f(s[k]) ==> s[k] in r
    ensures multiset(r) <= multiset(s)
    ensures forall k :: 0 <= k < |s| && f(s[k]) ==> multiset(r)[s[k]] == multiset(s)[s[k]]
  {
    if |s| == 0 then []
    else
      var t := Filter(s[1..], f);
      FilterStep(s, t, f);
      if f(s[0]) then [s[0]] + t else t
  }

  /** One filtering step: what `Filter` promises about `s` follows from what
      it promised about the tail. */
  lemma FilterStep<T>(s: seq<T>, t: seq<T>, f: T -> bool)
    requires |s| > 0 && |t| <= |s[1..]|
    requires forall k :: 0 <= k < |t| ==> t[k] in s[1..] && f(t[k])
    requires forall k :: 0 <= k < |s[1..]| && f(s[1..][k]) ==> s[1..][k] in t
    requires multiset(t) <= multiset(s[1..])
    requires forall k :: 0 <= k < |s[1..]| && f(s[1..][k]) ==> multiset(t)[s[1..][k]] == multiset(s[1..])[s[1..][k]]
    ensures var r := if f(s[0]) then [s[0]] + t else t;
      && |r| <= |s|
      && (forall k :: 0 <= k < |r| ==> r[k] in s && f(r[k]))
      && (forall k :: 0 <= k < |s| && f(s[k]) ==> s[k] in r)
      && multiset(r) <= multiset(s)
      && (forall k :: 0 <= k < |s| && f(s[k]) ==> multiset(r)[s[k]] == multiset(s)[s[k]])
  {
    var r := if f(s[0]) then [s[0]] + t else t;
    assert s == [s[0]] + s[1..];
    assert multiset(s) == multiset{s[0]} + multiset(s[1..]);
    forall k | 0 <= k < |r| ensures r[k] in s && f(r[k]) {
      if f(s[0]) && k > 0 {
        assert r[k] == t[k - 1];
      }
    }
    forall k | 0 <= k < |s| && f(s[k]) ensures s[k] in r && multiset(r)[s[k]] == multiset(s)[s[k]] {
      if k > 0 {
        assert s[k] == s[1..][k - 1];
      }
      if s[k] in s[1..] {
        var j :| 0 <= j < |s[1..]| && s[1..][j] == s[k];
        assert multiset(t)[s[k]] == multiset(s[1..])[s[k]];
      } else {
        assert k == 0;
        assert multiset(s[1..])[s[0]] == 0;
      }
    }
  }

  /** Filtering a concatenation filters each part and keeps them in order;
      with `FilterOne` this fixes the order of the result. */
  lemma {:induction false} FilterAppend<T>(a: seq<T>, b: seq<T>, f: T -> bool)
    ensures Filter(a + b, f) == Filter(a, f) + Filter(b, f)
  {
    if |a| == 0 {
      assert a + b == b;
    } else {
      assert (a + b)[0] == a[0];
      assert (a + b)[1..] == a[1..] + b;
      FilterAppend(a[1..], b, f);
    }
  }

  /** A single element is kept exactly when it satisfies `f`. */
  lemma FilterOne<T>(x: T, f: T -> bool)
    ensures Filter([x], f) == if f(x) then [x] else []
  {
    assert [x][1..] == [];
  }

  /** Position of the first element satisfying `f`, as `fetchone()` returns
      the first row of a scan. */
  function FirstIndex<T>(s: seq<T>, f: T -> bool): (r: Option<nat>)
    ensures r.Some? ==> r.value < |s| && f(s[r.value])
    ensures r.Some? ==> forall j :: 0 <= j < r.value ==> !f(s[j])
    ensures r.None? <==> forall j :: 0 <= j < |s| ==> !f(s[j])
  {
    if |s| == 0 then None
    else if f(s[0]) then Some(0)
    else match FirstIndex(s[1..], f)
      case None => None
      case Some(i) => Some(i + 1)
  }

  /** Filtering by `f` and then by `g` is filtering once by any `h` that
      agrees with their conjunction on the elements. */
  lemma {:induction false} FilterFilter<T>(s: seq<T>, f: T -> bool, g: T -> bool, h: T -> bool)
    requires forall k :: 0 <= k < |s| ==> h(s[k]) == (f(s[k]) && g(s[k]))
    ensures Filter(Filter(s, f), g) == Filter(s, h)
  {
    if |s| > 0 {
      FilterFilter(s[1..], f, g, h);
      if f(s[0]) {
        assert Filter(s, f) == [s[0]] + Filter(s[1..], f);
        assert Filter(s, f)[1..] == Filter(s[1..], f);
      }
    }
  }

  /** `rel` holds between every element and each later one. */
  ghost predicate Pairwise<T>(s: seq<T>, rel: (T, T) -> bool) {
    forall i, j :: 0 <= i < j < |s| ==> rel(s[i], s[j])
  }

  /** A relation that holds pairwise in `s` holds pairwise in its tail. */
  lemma PairwiseTail<T>(s: seq<T>, rel: (T, T) -> bool)
    requires |s| > 0 && Pairwise(s, rel)
    ensures Pairwise(s[1..], rel)
  {
    forall i, j | 0 <= i < j < |s[1..]| ensures rel(s[1..][i], s[1..][j]) {
      assert s[1..][i] == s[i + 1] && s[1..][j] == s[j + 1];
    }
  }

  /** An element related to every element of a pairwise-related `t` may be
      put in front of it. */
  lemma PairwiseCons<T>(x: T, t: seq<T>, rel: (T, T) -> bool)
    requires Pairwise(t, rel) && forall k :: 0 <= k < |t| ==> rel(x, t[k])
    ensures Pairwise([x] + t, rel)
  {
    var r := [x] + t;
    forall i, j | 0 <= i < j < |r| ensures rel(r[i], r[j]) {
      assert r[j] == t[j - 1];
      if i > 0 {
        assert r[i] == t[i - 1];
      }
    }
  }

  /** The head of a pairwise-related `s` is related to every element of any
      sequence drawn from the tail. */
  lemma PairwiseHead<T>(s: seq<T>, t: seq<T>, rel: (T, T) -> bool)
    requires |s| > 0 && Pairwise(s, rel)
    requires forall k :: 0 <= k < |t| ==> t[k] in s[1..]
    ensures forall k :: 0 <= k < |t| ==> rel(s[0], t[k])
  {
    forall k | 0 <= k < |t| ensures rel(s[0], t[k]) {
      var j :| 0 <= j < |s[1..]| && s[1..][j] == t[k];
      assert s[j + 1] == t[k];
    }
  }

  /** Filtering keeps any relation that held between earlier and later
      elements (an order on row ids, the uniqueness of a key). */
  lemma {:induction false} FilterPairwise<T>(s: seq<T>, f: T -> bool, rel: (T, T) -> bool)
    requires Pairwise(s, rel)
    ensures Pairwise(Filter(s, f), rel)
  {
    if |s| > 0 {
      var t := Filter(s[1..], f);
      PairwiseTail(s, rel);
      FilterPairwise(s[1..], f, rel);
      if f(s[0]) {
        PairwiseHead(s, t, rel);
        PairwiseCons(s[0], t, rel);
      }
    }
  }

  /** Appending an element leaves an earlier first match where it was, and
      otherwise makes the new element the first match when it qualifies. */
  lemma {:induction false} FirstIndexAppend<T>(a: seq<T>, x: T, f: T -> bool)
    ensures FirstIndex(a, f).Some? ==> FirstIndex(a + [x], f) == FirstIndex(a, f)
    ensures FirstIndex(a, f).None? && f(x) ==> FirstIndex(a + [x], f) == Some(|a|)
  {
    if |a| == 0 {
      assert a + [x] == [x];
    } else {
      assert (a + [x])[0] == a[0];
      assert (a + [x])[1..] == a[1..] + [x];
      FirstIndexAppend(a[1..], x, f);
    }
  }

  /** Two sequences that agree on `f` everywhere have the same first match. */
  lemma FirstIndexAgree<T>(a: seq<T>, b: seq<T>, f: T -> bool)
    requires |a| == |b|
    requires forall k :: 0 <= k < |a| ==> f(a[k]) == f(b[k])
    ensures FirstIndex(a, f) == FirstIndex(b, f)
  {
    var x, y := FirstIndex(a, f), FirstIndex(b, f);
    if x.Some? {
      assert f(b[x.value]);
      if y.Some? {
        assert f(a[y.value]);
      }
    }
  }
}
