/**
 * The ranking step of vs_search.search: `heapq.nlargest(len(scores), scores.items(),
 * key=score)` asks for every item, and is then the same as a stable sort of the items by
 * descending score; items of equal score keep their dict order.
 */
module Ranking {
  /** One ranked result: `(doc_id, score)`. */
  datatype Hit = Hit(id: int, score: real)

  predicate NonIncreasing(s: seq<Hit>) {
    forall a, b :: 0 <= a < b < |s| ==> s[a].score >= s[b].score
  }

  predicate UniqueIds(s: seq<Hit>) {
    forall a, b :: 0 <= a < b < |s| ==> s[a].id != s[b].id
  }

  predicate IdsAscending(s: seq<Hit>) {
    forall a, b :: 0 <= a < b < |s| ==> s[a].id < s[b].id
  }

  /** Higher score first; on a tie the smaller id first. */
  predicate RankedBefore(x: Hit, y: Hit) {
    x.score > y.score || (x.score == y.score && x.id < y.id)
  }

  predicate Ranked(s: seq<Hit>) {
    forall a, b :: 0 <= a < b < |s| ==> RankedBefore(s[a], s[b])
  }

  /** Places `x` after every item that scores at least as much: the stable position. */
  function InsertByScore(x: Hit, r: seq<Hit>): (s: seq<Hit>)
    ensures multiset(s) == multiset(r) + multiset{x}
    ensures forall y :: y in s <==> y == x || y in r
  {
    if r == [] || r[0].score < x.score then [x] + r
    else
      assert r == [r[0]] + r[1..];
      [r[0]] + InsertByScore(x, r[1..])
  }

  /** The stable descending sort of the items, by insertion. */
  function SortByScore(items: seq<Hit>): (s: seq<Hit>)
    ensures multiset(s) == multiset(items)
    ensures |s| == |items|
    ensures forall y :: y in s <==> y in items
  {
    if items == [] then []
    else
      var init := items[..|items| - 1];
      assert items == init + [items[|items| - 1]];
      assert forall y :: y in multiset(items) <==> y in items;
      InsertByScore(items[|items| - 1], SortByScore(init))
  }

  lemma {:induction false} InsertNonIncreasing(x: Hit, r: seq<Hit>)
    requires NonIncreasing(r)
    ensures NonIncreasing(InsertByScore(x, r))
  {
    if r != [] && r[0].score >= x.score {
      InsertNonIncreasing(x, r[1..]);
      var rest := InsertByScore(x, r[1..]);
      assert forall y :: y in rest ==> r[0].score >= y.score by {
        forall y | y in r[1..] ensures r[0].score >= y.score {
          var k :| 0 <= k < |r[1..]| && r[1..][k] == y;
          assert r[k + 1] == y;
        }
      }
    }
  }

  lemma {:induction false} InsertUniqueIds(x: Hit, r: seq<Hit>)
    requires UniqueIds(r)
    requires forall y :: y in r ==> y.id != x.id
    ensures UniqueIds(InsertByScore(x, r))
  {
    if r != [] && r[0].score >= x.score {
      InsertUniqueIds(x, r[1..]);
      var rest := InsertByScore(x, r[1..]);
      assert forall y :: y in rest ==> r[0].id != y.id by {
        forall y | y in r[1..] ensures r[0].id != y.id {
          var k :| 0 <= k < |r[1..]| && r[1..][k] == y;
          assert r[k + 1] == y;
        }
      }
    }
  }

  lemma {:induction false} InsertRanked(x: Hit, r: seq<Hit>)
    requires Ranked(r)
    requires forall y :: y in r ==> y.id < x.id
    ensures Ranked(InsertByScore(x, r))
  {
    if r != [] && r[0].score >= x.score {
      InsertRanked(x, r[1..]);
      var rest := InsertByScore(x, r[1..]);
      assert forall y :: y in rest ==> RankedBefore(r[0], y) by {
        forall y | y in r[1..] ensures RankedBefore(r[0], y) {
          var k :| 0 <= k < |r[1..]| && r[1..][k] == y;
          assert r[k + 1] == y;
        }
      }
    }
  }

  /** The sort orders by descending score and keeps every id once. */
  lemma {:induction false} SortByScoreOrdered(items: seq<Hit>)
    requires UniqueIds(items)
    ensures NonIncreasing(SortByScore(items))
    ensures UniqueIds(SortByScore(items))
  {
    if items != [] {
      var init, x := items[..|items| - 1], items[|items| - 1];
      SortByScoreOrdered(init);
      var r := SortByScore(init);
      InsertNonIncreasing(x, r);
      forall y | y in r ensures y.id != x.id {
        var k :| 0 <= k < |init| && init[k] == y;
      }
      InsertUniqueIds(x, r);
    }
  }

  /**
   * Stability: when the items come in ascending id order (the order of merged posting
   * lists), equal scores end up in ascending id order.
   */
  lemma {:induction false} SortByScoreRanked(items: seq<Hit>)
    requires IdsAscending(items)
    ensures Ranked(SortByScore(items))
  {
    if items != [] {
      var init, x := items[..|items| - 1], items[|items| - 1];
      SortByScoreRanked(init);
      var r := SortByScore(init);
      forall y | y in r ensures y.id < x.id {
        var k :| 0 <= k < |init| && init[k] == y;
      }
      InsertRanked(x, r);
    }
  }

  /** Ranked order is strict and total, so it fixes the result from the set of items alone. */
  lemma {:induction false} RankedUnique(s: seq<Hit>, t: seq<Hit>)
    requires Ranked(s) && Ranked(t)
    requires forall y :: y in s <==> y in t
    ensures s == t
  {
    assert s != [] ==> s[0] in t;
    assert t != [] ==> t[0] in s;
    if s != [] && t != [] {
      assert s[0] in t && t[0] in s;
      assert s[0] == t[0];
      forall y ensures y in s[1..] <==> y in t[1..] {
        assert y in s[1..] <==> y in s && y != s[0];
        assert y in t[1..] <==> y in t && y != t[0];
      }
      RankedUnique(s[1..], t[1..]);
      assert s == [s[0]] + s[1..] && t == [t[0]] + t[1..];
    }
  }
}
