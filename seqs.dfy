/**
 * Generic list operations that stand for JavaScript's `filter` and for SQL's
 * `WHERE` and `ORDER BY`.
 */
module Seqs {
  import opened Wrappers

  /** The elements of `s` that satisfy `p`, in their original order. */
  function Filter<T>(s: seq<T>, p: T -> bool): (r: seq<T>)
    ensures |r| <= |s|
    ensures forall k :: 0 <= k < |r| ==> r[k] in s && p(r[k])
    ensures forall k :: 0 <= k < |s| && p(s[k]) ==> s[k] in r
  {
    if s == [] then []
    else if p(s[0]) then [s[0]] + Filter(s[1..], p)
    else Filter(s[1..], p)
  }

  /** Filtering distributes over concatenation, so relative order is kept. */
  lemma {:induction false} FilterAppend<T>(a: seq<T>, b: seq<T>, p: T -> bool)
    ensures Filter(a + b, p) == Filter(a, p) + Filter(b, p)
  {
    if a == [] {
      assert a + b == b;
    } else {
      assert (a + b)[1..] == a[1..] + b;
      FilterAppend(a[1..], b, p);
    }
  }

  /** Filtering one element keeps it exactly when it passes. */
  lemma FilterSingle<T>(x: T, p: T -> bool)
    ensures Filter([x], p) == if p(x) then [x] else []
  {
    assert [x][1..] == [];
  }

  /** `FilterCount` for the prefix of length `m`. */
  lemma {:induction false} FilterPrefixCount<T>(s: seq<T>, p: T -> bool, m: nat)
    requires m <= |s|
    ensures |Filter(s[..m], p)| == |set k | 0 <= k < m && p(s[k])|
  {
    var all := set k | 0 <= k < m && p(s[k]);
    if m == 0 {
      assert all == {};
    } else {
      FilterPrefixCount(s, p, m - 1);
      assert s[..m] == s[..m - 1] + [s[m - 1]];
      FilterAppend(s[..m - 1], [s[m - 1]], p);
      FilterSingle(s[m - 1], p);
      var before := set k | 0 <= k < m - 1 && p(s[k]);
      if p(s[m - 1]) {
        assert all == before + {m - 1};
      } else {
        assert all == before;
      }
    }
  }

  /** The positions of `s` whose element passes `p`. */
  ghost function Positions<T>(s: seq<T>, p: T -> bool): (ks: set<int>)
    ensures forall k :: k in ks <==> 0 <= k < |s| && p(s[k])
  {
    set k | 0 <= k < |s| && p(s[k])
  }

  /** The number of elements kept is the number of positions whose element passes. */
  lemma FilterCount<T>(s: seq<T>, p: T -> bool)
    ensures |Filter(s, p)| == |Positions(s, p)|
  {
    FilterPrefixCount(s, p, |s|);
    assert s[..|s|] == s;
  }

  /**
   * `idx` lists, in increasing order, exactly the positions of `s` whose
   * element passes `p`, and `r` holds those elements in that order.
   */
  ghost predicate SelectedAt<T>(s: seq<T>, r: seq<T>, p: T -> bool, idx: seq<nat>) {
    |idx| == |r| &&
    (forall k :: 0 <= k < |idx| ==> idx[k] < |s| && r[k] == s[idx[k]] && p(s[idx[k]])) &&
    (forall a, b :: 0 <= a < b < |idx| ==> idx[a] < idx[b]) &&
    (forall i :: 0 <= i < |s| && p(s[i]) ==> i in idx)
  }

  /** `r` is the subsequence of `s` made of the elements that pass `p`, each occurrence once. */
  ghost predicate SelectsInOrder<T>(s: seq<T>, r: seq<T>, p: T -> bool) {
    exists idx: seq<nat> :: SelectedAt(s, r, p, idx)
  }

  /** Appending one element extends a selection by its position when it passes. */
  lemma SelectedAtSnoc<T>(s: seq<T>, r: seq<T>, p: T -> bool, idx: seq<nat>, x: T)
    requires SelectedAt(s, r, p, idx)
    ensures SelectedAt(s + [x], r + (if p(x) then [x] else []), p, if p(x) then idx + [|s|] else idx)
  {
    var t := s + [x];
    if p(x) {
      var idx' := idx + [|s|];
      var r' := r + [x];
      forall k | 0 <= k < |idx'|
        ensures idx'[k] < |t| && r'[k] == t[idx'[k]] && p(t[idx'[k]])
      {
        if k < |idx| {
          assert idx'[k] == idx[k] && r'[k] == r[k];
        }
      }
      forall i | 0 <= i < |t| && p(t[i])
        ensures i in idx'
      {
        if i < |s| {
          assert t[i] == s[i];
          assert i in idx;
        } else {
          assert idx'[|idx|] == i;
        }
      }
    } else {
      forall i | 0 <= i < |t| && p(t[i])
        ensures i in idx
      {
        assert i < |s| && t[i] == s[i];
      }
      assert r + [] == r;
    }
  }

  /** `Filter` keeps every passing occurrence once, in the original order, and nothing else. */
  lemma {:induction false} FilterInOrder<T>(s: seq<T>, p: T -> bool)
    ensures SelectsInOrder(s, Filter(s, p), p)
  {
    if s == [] {
      var idx: seq<nat> := [];
      assert SelectedAt(s, Filter(s, p), p, idx);
    } else {
      var n := |s| - 1;
      var init := s[..n];
      var x := s[n];
      assert s == init + [x];
      FilterAppend(init, [x], p);
      FilterSingle(x, p);
      var r := Filter(init, p);
      assert Filter(s, p) == r + (if p(x) then [x] else []);
      FilterInOrder(init, p);
      var idx :| SelectedAt(init, r, p, idx);
      SelectedAtSnoc(init, r, p, idx, x);
      var idx' := if p(x) then idx + [n] else idx;
      assert SelectedAt(s, Filter(s, p), p, idx');
    }
  }

  /** Nothing is dropped exactly when every element passes. */
  lemma {:induction false} FilterKeepsAll<T>(s: seq<T>, p: T -> bool)
    ensures |Filter(s, p)| == |s| <==> forall k :: 0 <= k < |s| ==> p(s[k])
    ensures (forall k :: 0 <= k < |s| ==> p(s[k])) ==> Filter(s, p) == s
  {
    if s != [] {
      FilterKeepsAll(s[1..], p);
      if !p(s[0]) {
        assert |Filter(s[1..], p)| <= |s[1..]|;
      }
      if forall k :: 0 <= k < |s[1..]| ==> p(s[1..][k]) {
      } else {
        var k :| 0 <= k < |s[1..]| && !p(s[1..][k]);
        assert !p(s[k + 1]);
      }
    }
  }

  /** Nothing is kept when no element passes. */
  lemma FilterKeepsNone<T>(s: seq<T>, p: T -> bool)
    requires forall k :: 0 <= k < |s| ==> !p(s[k])
    ensures Filter(s, p) == []
  {
    var r := Filter(s, p);
    if r != [] {
      var j :| 0 <= j < |s| && s[j] == r[0];
      assert false;
    }
  }

  /** Two tests that agree on every element keep the same elements. */
  lemma {:induction false} FilterCongruent<T>(s: seq<T>, p: T -> bool, q: T -> bool)
    requires forall k :: 0 <= k < |s| ==> p(s[k]) == q(s[k])
    ensures Filter(s, p) == Filter(s, q)
  {
    if s != [] {
      assert forall k :: 0 <= k < |s[1..]| ==> s[1..][k] == s[k + 1];
      FilterCongruent(s[1..], p, q);
    }
  }

  /** Filtering twice keeps what passes both tests, in order. */
  lemma {:induction false} FilterFilter<T>(s: seq<T>, p: T -> bool, q: T -> bool, both: T -> bool)
    requires forall k :: 0 <= k < |s| ==> both(s[k]) == (p(s[k]) && q(s[k]))
    ensures Filter(Filter(s, p), q) == Filter(s, both)
  {
    if s != [] {
      assert forall k :: 0 <= k < |s[1..]| ==> s[1..][k] == s[k + 1];
      FilterFilter(s[1..], p, q, both);
    }
  }

  /** `findIndex`: the position of the first element that passes, if any. */
  function FirstIndex<T>(s: seq<T>, p: T -> bool): (r: Option<nat>)
    ensures r.Some? ==> r.value < |s| && p(s[r.value])
    ensures r.Some? ==> forall k :: 0 <= k < r.value ==> !p(s[k])
    ensures r.None? ==> forall k :: 0 <= k < |s| ==> !p(s[k])
  {
    if s == [] then None
    else if p(s[0]) then Some(0)
    else match FirstIndex(s[1..], p)
      case None => None
      case Some(k) => Some(k + 1)
  }

  /** `find`: the first element that passes, if any. */
  function Find<T>(s: seq<T>, p: T -> bool): (r: Option<T>)
    ensures r.Some? ==> exists k :: 0 <= k < |s| && s[k] == r.value && p(s[k]) &&
                          forall j :: 0 <= j < k ==> !p(s[j])
    ensures r.None? <==> forall k :: 0 <= k < |s| ==> !p(s[k])
  {
    match FirstIndex(s, p)
    case Some(i) => Some(s[i])
    case None => None
  }

  /** A relation that holds between every earlier and later element still holds after filtering. */
  ghost predicate Pairwise<T>(s: seq<T>, rel: (T, T) -> bool) {
    forall i, j :: 0 <= i < j < |s| ==> rel(s[i], s[j])
  }

  lemma {:induction false} FilterPairwise<T>(s: seq<T>, p: T -> bool, rel: (T, T) -> bool)
    requires Pairwise(s, rel)
    ensures Pairwise(Filter(s, p), rel)
  {
    if s != [] {
      assert Pairwise(s[1..], rel);
      FilterPairwise(s[1..], p, rel);
      if p(s[0]) {
        var f := Filter(s[1..], p);
        HeadRelatesToFiltered(s, p, rel);
        assert Filter(s, p) == [s[0]] + f;
        forall i, j | 0 <= i < j < |f| + 1
          ensures rel(([s[0]] + f)[i], ([s[0]] + f)[j])
        {
          if i == 0 {
            assert f[j - 1] in f;
          }
        }
      }
    }
  }

  /** The head of a pairwise-related sequence relates to every element the tail keeps. */
  lemma HeadRelatesToFiltered<T>(s: seq<T>, p: T -> bool, rel: (T, T) -> bool)
    requires s != [] && Pairwise(s, rel)
    ensures forall x :: x in Filter(s[1..], p) ==> rel(s[0], x)
  {
    forall x | x in Filter(s[1..], p)
      ensures rel(s[0], x)
    {
      var k :| 0 <= k < |s[1..]| && s[1..][k] == x;
      assert s[k + 1] == x;
    }
  }

  // ---------------------------------------------------------------------
  // Sorting: a stable insertion sort stands for SQL's ORDER BY.

  /** `le` is a total preorder: any two elements compare, and comparison chains. */
  ghost predicate TotalPreorder<T(!new)>(le: (T, T) -> bool) {
    (forall a, b :: le(a, b) || le(b, a)) &&
    (forall a, b, c :: le(a, b) && le(b, c) ==> le(a, c))
  }

  predicate SortedBy<T>(s: seq<T>, le: (T, T) -> bool) {
    forall i, j :: 0 <= i < j < |s| ==> le(s[i], s[j])
  }

  /** `x` placed before the first element it does not come after. */
  function Insert<T>(x: T, s: seq<T>, le: (T, T) -> bool): (r: seq<T>)
    ensures multiset(r) == multiset(s) + multiset{x}
  {
    if s == [] || le(x, s[0]) then [x] + s
    else
      assert s == [s[0]] + s[1..];
      [s[0]] + Insert(x, s[1..], le)
  }

  /** The elements of `s` rearranged by `le`; equal elements keep their input order. */
  function SortBy<T>(s: seq<T>, le: (T, T) -> bool): (r: seq<T>)
    ensures multiset(r) == multiset(s)
  {
    if s == [] then []
    else
      assert s == [s[0]] + s[1..];
      Insert(s[0], SortBy(s[1..], le), le)
  }

  lemma {:induction false} InsertSorted<T(!new)>(x: T, s: seq<T>, le: (T, T) -> bool)
    requires TotalPreorder(le) && SortedBy(s, le)
    ensures SortedBy(Insert(x, s, le), le)
  {
    if s != [] && !le(x, s[0]) {
      assert SortedBy(s[1..], le);
      InsertSorted(x, s[1..], le);
      var r := Insert(x, s, le);
      var tail := Insert(x, s[1..], le);
      forall j | 0 < j < |r|
        ensures le(r[0], r[j])
      {
        assert r[j] in multiset(tail);
        assert r[j] in multiset(s[1..]) + multiset{x};
        if r[j] == x {
          assert le(s[0], x);
        } else {
          assert r[j] in s[1..];
        }
      }
    }
  }

  lemma {:induction false} SortBySorted<T(!new)>(s: seq<T>, le: (T, T) -> bool)
    requires TotalPreorder(le)
    ensures SortedBy(SortBy(s, le), le)
  {
    if s != [] {
      SortBySorted(s[1..], le);
      InsertSorted(s[0], SortBy(s[1..], le), le);
    }
  }

  /** Membership is what a permutation keeps. */
  lemma SortByMembers<T>(s: seq<T>, le: (T, T) -> bool, x: T)
    ensures x in SortBy(s, le) <==> x in s
  {
    assert x in SortBy(s, le) <==> x in multiset(SortBy(s, le));
  }

  /** `WHERE p ORDER BY le`: sorted, a permutation of the selection, and exactly the rows that pass. */
  lemma SortedSelection<T(!new)>(s: seq<T>, p: T -> bool, le: (T, T) -> bool)
    requires TotalPreorder(le)
    ensures var r := SortBy(Filter(s, p), le);
      SortedBy(r, le) && multiset(r) == multiset(Filter(s, p)) &&
      (forall k :: 0 <= k < |r| ==> r[k] in s && p(r[k])) &&
      (forall k :: 0 <= k < |s| && p(s[k]) ==> s[k] in r)
  {
    var sel := Filter(s, p);
    var r := SortBy(sel, le);
    SortBySorted(sel, le);
    forall k | 0 <= k < |r|
      ensures r[k] in s && p(r[k])
    {
      SortByMembers(sel, le, r[k]);
      var j :| 0 <= j < |sel| && sel[j] == r[k];
    }
    forall k | 0 <= k < |s| && p(s[k])
      ensures s[k] in r
    {
      SortByMembers(sel, le, s[k]);
    }
  }
}
