/**
 * Sorted posting lists: the two-index intersection (boolean_search.intersect),
 * the two-index union (vs_search.merge) and the shortest-list-first ordering of
 * the query terms that both search front ends fold over.
 */
module Postings {
  import opened Wrappers

  /** A posting list as the index builds it: strictly ascending document ids. */
  predicate Ascending(s: seq<int>)
  {
    forall i, j :: 0 <= i < j < |s| ==> s[i] < s[j]
  }

  lemma {:induction false} AscendingCard(s: seq<int>)
    requires Ascending(s)
    ensures |set x | x in s| == |s|
  {
    if s != [] {
      var t := s[1..];
      AscendingCard(t);
      assert (set x | x in s) == {s[0]} + (set x | x in t);
      assert s[0] !in (set x | x in t);
    }
  }

  lemma HeadIsLeast(s: seq<int>, x: int)
    requires Ascending(s) && x in s
    ensures s[0] <= x
  {
    var k :| 0 <= k < |s| && s[k] == x;
    if k > 0 { assert s[0] < s[k]; }
  }

  /** Two ascending lists with the same elements are the same list. */
  lemma {:induction false} AscendingDeterminedByElements(s: seq<int>, t: seq<int>)
    requires Ascending(s) && Ascending(t)
    requires forall x :: x in s <==> x in t
    ensures s == t
  {
    AscendingCard(s);
    AscendingCard(t);
    assert (set x | x in s) == (set x | x in t);
    if s != [] {
      assert s[0] in s && t[0] in t;
      HeadIsLeast(t, s[0]);
      HeadIsLeast(s, t[0]);
      forall x ensures x in s[1..] <==> x in t[1..] {
        if x in s[1..] {
          assert x > s[0];
          assert x in t;
          assert x != t[0];
        }
        if x in t[1..] {
          assert x > t[0];
          assert x in s;
          assert x != s[0];
        }
      }
      AscendingDeterminedByElements(s[1..], t[1..]);
      assert s == [s[0]] + s[1..];
      assert t == [t[0]] + t[1..];
    }
  }

  lemma AppendAscending(s: seq<int>, v: int)
    requires Ascending(s)
    requires forall x :: x in s ==> x < v
    ensures Ascending(s + [v])
  {
    forall i, j | 0 <= i < j < |s + [v]| ensures (s + [v])[i] < (s + [v])[j] {
      if j == |s| { assert s[i] in s; }
    }
  }

  /**
   * boolean_search.intersect: walk both lists with two indices, keep an id when
   * both point at it. Every kept id lies in both inputs and the result is no longer
   * than either input, whatever the inputs; for ascending inputs the result is
   * exactly their common ids, ascending.
   */
  method Intersect(p1: seq<int>, p2: seq<int>) returns (posts: seq<int>)
    ensures |posts| <= |p1| && |posts| <= |p2|
    ensures forall x :: x in posts ==> x in p1 && x in p2
    ensures Ascending(p1) && Ascending(p2) ==>
              Ascending(posts) && forall x :: x in p1 && x in p2 ==> x in posts
  {
    ghost var sorted := Ascending(p1) && Ascending(p2);
    posts := [];
    var i, j := 0, 0;
    while i < |p1| && j < |p2|
      invariant 0 <= i <= |p1| && 0 <= j <= |p2|
      invariant |posts| <= i && |posts| <= j
      invariant forall x :: x in posts ==> x in p1[..i] && x in p2[..j]
      invariant sorted ==> Ascending(posts)
      invariant sorted && i < |p1| ==> forall x :: x in posts ==> x < p1[i]
      invariant sorted && j < |p2| ==> forall x :: x in posts ==> x < p2[j]
      invariant sorted ==> forall x :: x in p1[..i] && x in p2 ==> x in posts
      invariant sorted ==> forall x :: x in p2[..j] && x in p1 ==> x in posts
    {
      if p1[i] == p2[j] {
        if sorted { AppendAscending(posts, p1[i]); }
        posts := posts + [p1[i]];
        i, j := i + 1, j + 1;
      } else if p1[i] < p2[j] {
        i := i + 1;
      } else {
        j := j + 1;
      }
    }
    assert p1[..|p1|] == p1 && p2[..|p2|] == p2;
  }

  /**
   * vs_search.merge: the two-index union. Every id of either input appears in the
   * result and nothing else does, whatever the inputs; for ascending inputs the result
   * is ascending and its length is |p1| + |p2| minus the number of common ids.
   */
  method Merge(p1: seq<int>, p2: seq<int>) returns (posts: seq<int>)
    ensures forall x :: x in posts <==> x in p1 || x in p2
    ensures Ascending(p1) && Ascending(p2) ==>
              Ascending(posts) &&
              |posts| == |p1| + |p2| - |(set x | x in p1) * (set x | x in p2)|
  {
    ghost var sorted := Ascending(p1) && Ascending(p2);
    posts := [];
    var i, j := 0, 0;
    while i < |p1| && j < |p2|
      invariant 0 <= i <= |p1| && 0 <= j <= |p2|
      invariant forall x :: x in posts <==> x in p1[..i] || x in p2[..j]
      invariant sorted ==> Ascending(posts)
      invariant sorted && i < |p1| ==> forall x :: x in posts ==> x < p1[i]
      invariant sorted && j < |p2| ==> forall x :: x in posts ==> x < p2[j]
    {
      if p1[i] == p2[j] {
        if sorted { AppendAscending(posts, p1[i]); }
        posts := posts + [p1[i]];
        i, j := i + 1, j + 1;
      } else if p1[i] < p2[j] {
        if sorted { AppendAscending(posts, p1[i]); }
        posts := posts + [p1[i]];
        i := i + 1;
      } else {
        if sorted { AppendAscending(posts, p2[j]); }
        posts := posts + [p2[j]];
        j := j + 1;
      }
    }
    while i < |p1|
      invariant 0 <= i <= |p1|
      invariant forall x :: x in posts <==> x in p1[..i] || x in p2[..j]
      invariant sorted ==> Ascending(posts)
      invariant sorted && i < |p1| ==> forall x :: x in posts ==> x < p1[i]
    {
      if sorted { AppendAscending(posts, p1[i]); }
      posts := posts + [p1[i]];
      i := i + 1;
    }
    while j < |p2|
      invariant 0 <= j <= |p2|
      invariant forall x :: x in posts <==> x in p1[..i] || x in p2[..j]
      invariant sorted ==> Ascending(posts)
      invariant sorted && j < |p2| ==> forall x :: x in posts ==> x < p2[j]
    {
      if sorted { AppendAscending(posts, p2[j]); }
      posts := posts + [p2[j]];
      j := j + 1;
    }
    assert p1[..|p1|] == p1 && p2[..|p2|] == p2;
    if sorted {
      UnionCard(p1, p2, posts);
    }
  }

  lemma UnionCard(p1: seq<int>, p2: seq<int>, u: seq<int>)
    requires Ascending(p1) && Ascending(p2) && Ascending(u)
    requires forall x :: x in u <==> x in p1 || x in p2
    ensures |u| == |p1| + |p2| - |(set x | x in p1) * (set x | x in p2)|
  {
    var a, b := set x | x in p1, set x | x in p2;
    AscendingCard(p1);
    AscendingCard(p2);
    AscendingCard(u);
    assert (set x | x in u) == a + b;
  }

  /** Position of the first occurrence of `e` in `q`. */
  function FirstIndex(q: seq<string>, e: string): (k: nat)
    requires e in q
    ensures k < |q| && q[k] == e && e !in q[..k]
  {
    if q[0] == e then 0 else 1 + FirstIndex(q[1..], e)
  }

  lemma {:induction false} FirstIndexAt(q: seq<string>, i: nat)
    requires i < |q| && q[i] !in q[..i]
    ensures FirstIndex(q, q[i]) == i
  {
    if i > 0 {
      assert q[0] in q[..i];
      assert q[1..][i - 1] == q[i];
      assert q[1..][..i - 1] == q[1..i];
      assert q[..i] == [q[0]] + q[1..i];
      FirstIndexAt(q[1..], i - 1);
    }
  }

  /**
   * Python's stable `sorted(..., key=len)` step: `x` goes after every element whose
   * list is no longer than its own.
   */
  function InsertByLength(x: string, r: seq<string>, idx: map<string, seq<int>>): (s: seq<string>)
    requires x in idx && forall y :: y in r ==> y in idx
    ensures multiset(s) == multiset(r) + multiset{x}
    ensures forall y :: y in s ==> y == x || y in r
  {
    if r == [] || |idx[x]| < |idx[r[0]]| then [x] + r
    else
      assert r == [r[0]] + r[1..];
      [r[0]] + InsertByLength(x, r[1..], idx)
  }

  function SortByLength(xs: seq<string>, idx: map<string, seq<int>>): (s: seq<string>)
    requires forall y :: y in xs ==> y in idx
    ensures multiset(s) == multiset(xs)
    ensures forall y :: y in s ==> y in xs
  {
    if xs == [] then []
    else
      var init, x := xs[..|xs| - 1], xs[|xs| - 1];
      assert xs == init + [x];
      InsertByLength(x, SortByLength(init, idx), idx)
  }

  /** `a` precedes `b` in fold order: shorter list first, then earlier first occurrence. */
  predicate FoldsBefore(a: string, b: string, q: seq<string>, idx: map<string, seq<int>>)
    requires a in q && b in q && a in idx && b in idx
  {
    |idx[a]| < |idx[b]| || (|idx[a]| == |idx[b]| && FirstIndex(q, a) < FirstIndex(q, b))
  }

  predicate InFoldOrder(r: seq<string>, q: seq<string>, idx: map<string, seq<int>>)
    requires forall y :: y in r ==> y in q && y in idx
  {
    forall i, j :: 0 <= i < j < |r| ==> FoldsBefore(r[i], r[j], q, idx)
  }

  lemma {:induction false} InsertByLengthCorrect(x: string, r: seq<string>, q: seq<string>, idx: map<string, seq<int>>)
    requires x in q && x in idx && forall y :: y in r ==> y in q && y in idx
    requires InFoldOrder(r, q, idx)
    requires forall y :: y in r ==> FirstIndex(q, y) < FirstIndex(q, x)
    ensures var s := InsertByLength(x, r, idx);
              multiset(s) == multiset(r) + multiset{x} &&
              (forall y :: y in s ==> y in q && y in idx) &&
              InFoldOrder(s, q, idx)
  {
    var s := InsertByLength(x, r, idx);
    if r == [] || |idx[x]| < |idx[r[0]]| {
      assert s == [x] + r;
      FoldOrderFront(x, r, q, idx);
    } else {
      var rest := InsertByLength(x, r[1..], idx);
      FoldOrderTail(r, q, idx);
      InsertByLengthCorrect(x, r[1..], q, idx);
      assert s == [r[0]] + rest;
      assert r == [r[0]] + r[1..];
      HeadFoldsBefore(r, rest, x, q, idx);
      ConsFoldOrder(r[0], rest, q, idx);
    }
  }

  /** Dropping the head of a sequence in fold order leaves one in fold order. */
  lemma FoldOrderTail(r: seq<string>, q: seq<string>, idx: map<string, seq<int>>)
    requires r != [] && forall y :: y in r ==> y in q && y in idx
    requires InFoldOrder(r, q, idx)
    ensures InFoldOrder(r[1..], q, idx)
  {
    forall i, j | 0 <= i < j < |r[1..]| ensures FoldsBefore(r[1..][i], r[1..][j], q, idx) {
      assert r[1..][i] == r[i + 1] && r[1..][j] == r[j + 1];
    }
  }

  /** A term whose list is shorter than the head's, and which comes later in the query, may lead. */
  lemma FoldOrderFront(x: string, r: seq<string>, q: seq<string>, idx: map<string, seq<int>>)
    requires x in q && x in idx && forall y :: y in r ==> y in q && y in idx
    requires InFoldOrder(r, q, idx)
    requires forall y :: y in r ==> FirstIndex(q, y) < FirstIndex(q, x)
    requires r == [] || |idx[x]| < |idx[r[0]]|
    ensures InFoldOrder([x] + r, q, idx)
  {
    forall y | y in r ensures FoldsBefore(x, y, q, idx) {
      var k :| 0 <= k < |r| && r[k] == y;
      if k > 0 {
        assert FoldsBefore(r[0], r[k], q, idx);
      }
    }
    ConsFoldOrder(x, r, q, idx);
  }

  /** A head that folds before every later element extends the fold order. */
  lemma ConsFoldOrder(h: string, rest: seq<string>, q: seq<string>, idx: map<string, seq<int>>)
    requires h in q && h in idx && forall y :: y in rest ==> y in q && y in idx
    requires InFoldOrder(rest, q, idx)
    requires forall y :: y in rest ==> FoldsBefore(h, y, q, idx)
    ensures InFoldOrder([h] + rest, q, idx)
  {
    var s := [h] + rest;
    forall i, j | 0 <= i < j < |s| ensures FoldsBefore(s[i], s[j], q, idx) {
      assert s[j] == rest[j - 1];
      if i > 0 {
        assert s[i] == rest[i - 1];
      }
    }
  }

  lemma HeadFoldsBefore(r: seq<string>, rest: seq<string>, x: string, q: seq<string>, idx: map<string, seq<int>>)
    requires r != [] && x in q && x in idx && forall y :: y in r ==> y in q && y in idx
    requires forall y :: y in rest ==> y in q && y in idx
    requires InFoldOrder(r, q, idx)
    requires forall y :: y in rest ==> y == x || y in r[1..]
    requires FirstIndex(q, r[0]) < FirstIndex(q, x) && |idx[r[0]]| <= |idx[x]|
    ensures forall y :: y in rest ==> FoldsBefore(r[0], y, q, idx)
  {
    forall y | y in rest ensures FoldsBefore(r[0], y, q, idx) {
      if y != x {
        var k :| 0 <= k < |r[1..]| && r[1..][k] == y;
        assert r[k + 1] == y;
      }
    }
  }

  lemma {:induction false} SortByLengthCorrect(xs: seq<string>, q: seq<string>, idx: map<string, seq<int>>)
    requires forall y :: y in xs ==> y in q && y in idx
    requires forall i, j :: 0 <= i < j < |xs| ==> FirstIndex(q, xs[i]) < FirstIndex(q, xs[j])
    ensures var s := SortByLength(xs, idx);
              multiset(s) == multiset(xs) &&
              (forall y :: y in s ==> y in q && y in idx) &&
              InFoldOrder(s, q, idx)
  {
    if xs != [] {
      var init, x := xs[..|xs| - 1], xs[|xs| - 1];
      assert xs == init + [x];
      SortByLengthCorrect(init, q, idx);
      var r := SortByLength(init, idx);
      forall y | y in r ensures FirstIndex(q, y) < FirstIndex(q, x) {
        assert y in multiset(init);
        var k :| 0 <= k < |init| && init[k] == y;
      }
      InsertByLengthCorrect(x, r, q, idx);
    }
  }

  lemma DistinctFromMultiset(s: seq<string>, xs: seq<string>)
    requires multiset(s) == multiset(xs)
    requires forall i, j :: 0 <= i < j < |xs| ==> xs[i] != xs[j]
    ensures forall i, j :: 0 <= i < j < |s| ==> s[i] != s[j]
  {
    forall i, j | 0 <= i < j < |s| ensures s[i] != s[j] {
      if s[i] == s[j] {
        var m := multiset(s);
        assert s == s[..i] + [s[i]] + s[i + 1..j] + [s[j]] + s[j + 1..];
        assert multiset(s) == multiset(s[..i]) + multiset{s[i]} + multiset(s[i + 1..j]) + multiset{s[j]} + multiset(s[j + 1..]);
        assert m[s[i]] >= 2;
        CountAtMostOne(xs, s[i]);
      }
    }
  }

  lemma {:induction false} CountAtMostOne(xs: seq<string>, e: string)
    requires forall i, j :: 0 <= i < j < |xs| ==> xs[i] != xs[j]
    ensures multiset(xs)[e] <= 1
  {
    if xs != [] {
      var t := xs[1..];
      assert xs == [xs[0]] + t;
      assert forall i, j :: 0 <= i < j < |t| ==> t[i] != t[j] by {
        forall i, j | 0 <= i < j < |t| ensures t[i] != t[j] { assert t[i] == xs[i + 1] && t[j] == xs[j + 1]; }
      }
      CountAtMostOne(t, e);
      if xs[0] == e {
        assert e !in t;
        assert multiset(t)[e] == 0;
      }
    }
  }

  /** A distinct sequence all of whose entries are one value has at most one entry. */
  lemma {:induction false} DistinctConstant(xs: seq<string>, e: string)
    requires forall i, j :: 0 <= i < j < |xs| ==> xs[i] != xs[j]
    requires forall i :: 0 <= i < |xs| ==> xs[i] == e
    ensures |xs| <= 1
  {
    ConstantCount(xs, e);
    CountAtMostOne(xs, e);
  }

  lemma {:induction false} ConstantCount(xs: seq<string>, e: string)
    requires forall i :: 0 <= i < |xs| ==> xs[i] == e
    ensures multiset(xs)[e] == |xs|
  {
    if xs != [] {
      assert xs == [xs[0]] + xs[1..];
      ConstantCount(xs[1..], e);
    }
  }

  /**
   * Lines 21-24 of boolean_search.search (and 24-27 of vs_search.disjunctive): record
   * each term's posting length in a dict (duplicates collapse, first occurrence keeps its
   * place; a term missing from the index raises KeyError), then sort the dict's items
   * stably by length.
   */
  method OrderByLength(query: seq<string>, idx: map<string, seq<int>>) returns (r: Option<seq<string>>)
    ensures r.None? <==> exists k :: 0 <= k < |query| && query[k] !in idx
    ensures r.Some? ==>
              (forall y :: y in r.value <==> y in query) &&
              (forall i, j :: 0 <= i < j < |r.value| ==> r.value[i] != r.value[j]) &&
              (forall y :: y in r.value ==> y in idx) &&
              InFoldOrder(r.value, query, idx)
  {
    var keys: seq<string> := [];
    var i := 0;
    while i < |query|
      invariant 0 <= i <= |query|
      invariant forall y :: y in keys <==> y in query[..i]
      invariant forall y :: y in keys ==> y in query && y in idx
      invariant forall a, b :: 0 <= a < b < |keys| ==> FirstIndex(query, keys[a]) < FirstIndex(query, keys[b])
      invariant forall y :: y in keys ==> FirstIndex(query, y) < i
    {
      var e := query[i];
      if e !in idx {
        return None;
      }
      if e !in keys {
        assert e !in query[..i];
        FirstIndexAt(query, i);
        keys := keys + [e];
      }
      assert query[..i + 1] == query[..i] + [e];
      i := i + 1;
    }
    assert query[..|query|] == query;
    var sorted := SortByLength(keys, idx);
    SortedKeys(keys, query, idx);
    r := Some(sorted);
  }

  lemma SortedKeys(keys: seq<string>, query: seq<string>, idx: map<string, seq<int>>)
    requires forall y :: y in keys ==> y in query && y in idx
    requires forall a, b :: 0 <= a < b < |keys| ==> FirstIndex(query, keys[a]) < FirstIndex(query, keys[b])
    ensures var sorted := SortByLength(keys, idx);
              (forall y :: y in sorted <==> y in keys) &&
              (forall i, j :: 0 <= i < j < |sorted| ==> sorted[i] != sorted[j]) &&
              InFoldOrder(sorted, query, idx)
  {
    SortByLengthCorrect(keys, query, idx);
    var sorted := SortByLength(keys, idx);
    assert forall a, b :: 0 <= a < b < |keys| ==> keys[a] != keys[b];
    DistinctFromMultiset(sorted, keys);
    forall y ensures y in sorted <==> y in keys {
      assert y in sorted <==> y in multiset(sorted);
      assert y in keys <==> y in multiset(keys);
    }
  }
}
