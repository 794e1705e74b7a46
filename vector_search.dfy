/**
 * The vector-space searcher (vs_search.py): a disjunctive candidate set, cosine
 * scores over the query terms, ranking by descending score, and the per-result report
 * of which query terms a document lacks.
 *
 * The weight table `w` is read through the query handler as a dict of rows; a row
 * answers 0.0 for a term it lacks and, being a default dict, keeps that 0.0 as a new
 * entry. `search` therefore returns the weight table it leaves behind beside its hits.
 */
module VectorSearch {
  import opened Wrappers
  import opened Normalize
  import opened Postings
  import opened Presentation
  import opened Scoring
  import opened Ranking
  import opened LexOrder

  predicate Distinct<T(==)>(s: seq<T>) {
    forall a, b :: 0 <= a < b < |s| ==> s[a] != s[b]
  }

  /** `x` is posted under some term of the query (listed in its iteration order). */
  predicate InSome(x: int, query: seq<string>, idx: map<string, seq<int>>) {
    exists k :: 0 <= k < |query| && query[k] in idx && x in idx[query[k]]
  }

  /** `x` is posted under some term of the query set. */
  predicate InSomeTerm(x: int, query: set<string>, idx: map<string, seq<int>>) {
    exists t :: t in query && t in idx && x in idx[t]
  }

  /**
   * Iterating a set: every element once, in an order the model leaves open (Python's
   * hash order).
   */
  method Enumerate(s: set<string>) returns (q: seq<string>)
    ensures forall x :: x in q <==> x in s
    ensures Distinct(q)
    ensures |q| == |s|
  {
    q := [];
    var rest := s;
    while rest != {}
      invariant rest <= s
      invariant forall x :: x in q <==> x in s && x !in rest
      invariant Distinct(q)
      invariant |q| + |rest| == |s|
      decreases |rest|
    {
      var x :| x in rest;
      q := q + [x];
      rest := rest - {x};
    }
  }

  /**
   * Lines 28-32 of `disjunctive`: start from the first list of the fold order and
   * merge each further list into the running result.
   */
  method MergeInOrder(ordered: seq<string>, idx: map<string, seq<int>>) returns (results: seq<int>)
    requires ordered != [] && forall t :: t in ordered ==> t in idx
    ensures forall x :: x in results <==> exists t :: t in ordered && x in idx[t]
    ensures (forall t :: t in ordered ==> Ascending(idx[t])) ==> Ascending(results)
  {
    ghost var sorted := forall t :: t in ordered ==> Ascending(idx[t]);
    assert ordered[0] in ordered;
    results := idx[ordered[0]];
    var i := 1;
    while i < |ordered|
      invariant 1 <= i <= |ordered|
      invariant forall x :: x in results <==> exists t :: t in ordered[..i] && x in idx[t]
      invariant sorted ==> Ascending(results)
    {
      assert ordered[i] in ordered;
      assert ordered[..i + 1] == ordered[..i] + [ordered[i]];
      results := Merge(results, idx[ordered[i]]);
      i := i + 1;
    }
    assert ordered[..|ordered|] == ordered;
  }

  /**
   * `disjunctive(query, idx)`: the empty query gives []; a term missing from idx raises
   * KeyError (None); otherwise the lists are merged in fold order. The result holds
   * exactly the ids posted under some query term, and is ascending when the lists are.
   */
  method Disjunctive(query: seq<string>, idx: map<string, seq<int>>) returns (r: Option<seq<int>>)
    ensures query == [] ==> r == Some([])
    ensures r.None? <==> exists k :: 0 <= k < |query| && query[k] !in idx
    ensures r.Some? ==> forall x :: x in r.value <==> InSome(x, query, idx)
    ensures r.Some? && (forall k :: 0 <= k < |query| ==> Ascending(idx[query[k]])) ==> Ascending(r.value)
  {
    if |query| == 0 {
      return Some([]);
    }
    var order := OrderByLength(query, idx);
    if order.None? {
      return None;
    }
    var ordered := order.value;
    assert query[0] in ordered;
    var results := MergeInOrder(ordered, idx);
    forall x ensures x in results <==> InSome(x, query, idx) {
      if x in results {
        var t :| t in ordered && x in idx[t];
        var k :| 0 <= k < |query| && query[k] == t;
      }
      if InSome(x, query, idx) {
        var k :| 0 <= k < |query| && query[k] in idx && x in idx[query[k]];
        assert query[k] in ordered;
      }
    }
    if forall k :: 0 <= k < |query| ==> Ascending(idx[query[k]]) {
      forall t | t in ordered ensures Ascending(idx[t]) {
        var k :| 0 <= k < |query| && query[k] == t;
      }
    }
    r := Some(results);
  }

  /** A row after `w[d][t]` has been read: the term is present, as 0.0 if it was missing. */
  function ReadTerm(row: map<string, real>, t: string): (p: map<string, real>)
    ensures p.Keys == row.Keys + {t}
    ensures Weight(p, t) == Weight(row, t)
  {
    if t in row then row else row[t := 0.0]
  }

  /**
   * The state lines 83-84 of `search` leave after one query term `t` of query weight
   * `wq` has been added for the candidates `docs`, in order: the scores, the key order
   * of the scores dict, and the weight rows the reads `w[d][t]` have padded.
   */
  function AddedScores(scores: map<int, real>, docs: seq<int>, w: map<int, map<string, real>>, t: string, wq: real): map<int, real>
    requires forall d :: d in docs ==> d in w
  {
    if docs == [] then scores
    else
      var d := docs[|docs| - 1];
      var s := AddedScores(scores, docs[..|docs| - 1], w, t, wq);
      s[d := (if d in s then s[d] else 0.0) + Gain(w[d], t, wq)]
  }

  function AddedKeys(order: seq<int>, docs: seq<int>): seq<int> {
    if docs == [] then order
    else
      var d := docs[|docs| - 1];
      var o := AddedKeys(order, docs[..|docs| - 1]);
      if d in o then o else o + [d]
  }

  function PaddedRows(w: map<int, map<string, real>>, docs: seq<int>, t: string): map<int, map<string, real>> {
    map d | d in w :: if d in docs then ReadTerm(w[d], t) else w[d]
  }

  lemma PaddedRowsKeys(w: map<int, map<string, real>>, docs: seq<int>, t: string)
    ensures PaddedRows(w, docs, t).Keys == w.Keys
  {
  }

  lemma PaddedRowsGain(w: map<int, map<string, real>>, docs: seq<int>, t: string, d: int, wq: real)
    ensures d in w ==> Gain(PaddedRows(w, docs, t)[d], t, wq) == Gain(w[d], t, wq)
  {
    if d in w {
      var p := PaddedRows(w, docs, t);
      assert Weight(p[d], t) == Weight(w[d], t);
    }
  }

  /** The scores dict ends up keyed by its old keys and the candidates. */
  lemma {:induction false} AddedScoresKeys(scores: map<int, real>, docs: seq<int>, w: map<int, map<string, real>>, t: string, wq: real)
    requires forall d :: d in docs ==> d in w
    ensures forall x :: x in AddedScores(scores, docs, w, t, wq) <==> x in scores || x in docs
  {
    if docs != [] {
      var init := docs[..|docs| - 1];
      assert docs == init + [docs[|docs| - 1]];
      AddedScoresKeys(scores, init, w, t, wq);
    }
  }

  lemma {:induction false} AddedKeysMembers(order: seq<int>, docs: seq<int>)
    ensures forall x :: x in AddedKeys(order, docs) <==> x in order || x in docs
  {
    if docs != [] {
      var init := docs[..|docs| - 1];
      assert docs == init + [docs[|docs| - 1]];
      AddedKeysMembers(order, init);
    }
  }

  /** Each candidate gains the term's contribution once, when the candidates are distinct. */
  lemma {:induction false} AddedScoresValue(scores: map<int, real>, docs: seq<int>, w: map<int, map<string, real>>, t: string, wq: real)
    requires forall d :: d in docs ==> d in w
    requires Distinct(docs)
    ensures var r := AddedScores(scores, docs, w, t, wq);
            forall x :: x in r ==> r[x] == (if x in scores then scores[x] else 0.0) + (if x in docs then Gain(w[x], t, wq) else 0.0)
  {
    if docs != [] {
      var init, d := docs[..|docs| - 1], docs[|docs| - 1];
      assert docs == init + [d];
      assert d !in init by {
        forall k | 0 <= k < |init| ensures init[k] != d {
          assert init[k] == docs[k];
        }
      }
      AddedScoresValue(scores, init, w, t, wq);
      AddedScoresKeys(scores, init, w, t, wq);
    }
  }

  /** New keys follow the old ones in first-occurrence order; known keys add nothing. */
  lemma {:induction false} AddedKeysOrder(order: seq<int>, docs: seq<int>)
    ensures Distinct(order) ==> Distinct(AddedKeys(order, docs))
    ensures (forall x :: x in docs ==> x in order) ==> AddedKeys(order, docs) == order
    ensures Distinct(docs) && (forall x :: x in docs ==> x !in order) ==> AddedKeys(order, docs) == order + docs
  {
    if docs != [] {
      var init, d := docs[..|docs| - 1], docs[|docs| - 1];
      assert docs == init + [d];
      AddedKeysOrder(order, init);
      assert forall x :: x in init ==> x in docs;
      if Distinct(docs) {
        assert Distinct(init) by {
          forall a, b | 0 <= a < b < |init| ensures init[a] != init[b] {
            assert init[a] == docs[a] && init[b] == docs[b];
          }
        }
        assert d !in init by {
          forall k | 0 <= k < |init| ensures init[k] != d {
            assert init[k] == docs[k];
          }
        }
      }
    }
  }

  lemma KeysMatch(scores: map<int, real>, order: seq<int>, docs: seq<int>, w: map<int, map<string, real>>, t: string, wq: real)
    requires forall x :: x in order <==> x in scores
    requires forall d :: d in docs ==> d in w
    ensures forall x :: x in AddedKeys(order, docs) <==> x in AddedScores(scores, docs, w, t, wq)
  {
    AddedKeysMembers(order, docs);
    AddedScoresKeys(scores, docs, w, t, wq);
  }

  /** One more candidate: how each piece of state grows. */
  lemma NextScores(scores: map<int, real>, docs: seq<int>, j: int, w: map<int, map<string, real>>, t: string, wq: real,
                   rows: map<int, map<string, real>>, before: map<int, real>, after: map<int, real>)
    requires 0 <= j < |docs|
    requires docs[j] in w && forall x :: x in docs[..j] ==> x in w
    requires rows == PaddedRows(w, docs[..j], t)
    requires before == AddedScores(scores, docs[..j], w, t, wq)
    requires docs[j] in rows
    requires after == before[docs[j] := (if docs[j] in before then before[docs[j]] else 0.0) + Gain(rows[docs[j]], t, wq)]
    ensures forall x :: x in docs[..j + 1] ==> x in w
    ensures after == AddedScores(scores, docs[..j + 1], w, t, wq)
  {
    assert docs[..j + 1] == docs[..j] + [docs[j]];
    assert docs[..j + 1][..j] == docs[..j];
    PaddedRowsGain(w, docs[..j], t, docs[j], wq);
  }

  lemma NextKeys(order: seq<int>, docs: seq<int>, j: int)
    requires 0 <= j < |docs|
    ensures var d, o := docs[j], AddedKeys(order, docs[..j]);
            AddedKeys(order, docs[..j + 1]) == if d in o then o else o + [d]
  {
    assert docs[..j + 1][..j] == docs[..j];
  }

  lemma NextRows(docs: seq<int>, j: int, w: map<int, map<string, real>>, t: string)
    requires 0 <= j < |docs|
    requires docs[j] in w && forall x :: x in docs[..j] ==> x in w
    ensures forall x :: x in docs[..j + 1] ==> x in w
    ensures var d, p := docs[j], PaddedRows(w, docs[..j], t);
            d in p && PaddedRows(w, docs[..j + 1], t) == p[d := ReadTerm(p[d], t)]
  {
    assert docs[..j + 1] == docs[..j] + [docs[j]];
    var d, p := docs[j], PaddedRows(w, docs[..j], t);
    assert ReadTerm(p[d], t) == ReadTerm(w[d], t);
  }

  /**
   * Line 84 of `search` for one candidate `d`: `scores[d] += w[d][t] * wq`. A candidate
   * missing from `w` raises KeyError (`ok` false); reading the row pads it with `t`; a
   * key new to `scores` is appended to its key order.
   */
  method AddScore(d: int, t: string, wq: real, scores: map<int, real>, order: seq<int>,
                  w: map<int, map<string, real>>)
    returns (ok: bool, scores': map<int, real>, order': seq<int>, w': map<int, map<string, real>>)
    requires forall x :: x in order <==> x in scores
    ensures ok <==> d in w
    ensures ok ==> scores' == scores[d := (if d in scores then scores[d] else 0.0) + Gain(w[d], t, wq)]
    ensures ok ==> order' == if d in order then order else order + [d]
    ensures ok ==> w' == w[d := ReadTerm(w[d], t)]
  {
    if d !in w {
      return false, scores, order, w;
    }
    var row := w[d];
    w' := w;
    if t !in row {
      row := row[t := 0.0];
      w' := w'[d := row];
    }
    var prev := 0.0;
    order' := order;
    if d in scores {
      prev := scores[d];
    } else {
      order' := order + [d];
    }
    assert row[t] == Weight(w[d], t);
    scores' := scores[d := prev + row[t] * wq];
    assert prev + row[t] * wq == (if d in scores then scores[d] else 0.0) + Gain(w[d], t, wq);
    ok := true;
  }

  /**
   * Lines 83-84 of `search` for one query term `t` of query weight `wq`: every
   * candidate in turn goes through `AddScore`; the first candidate missing from `w`
   * stops the loop (`ok` false).
   */
  method AccumulateTerm(t: string, wq: real, docs: seq<int>, scores: map<int, real>, order: seq<int>,
                        w: map<int, map<string, real>>)
    returns (ok: bool, scores': map<int, real>, order': seq<int>, w': map<int, map<string, real>>)
    requires forall x :: x in order <==> x in scores
    ensures ok <==> forall d :: d in docs ==> d in w
    ensures ok ==> scores' == AddedScores(scores, docs, w, t, wq)
    ensures ok ==> order' == AddedKeys(order, docs)
    ensures ok ==> w' == PaddedRows(w, docs, t)
  {
    ok, scores', order', w' := true, scores, order, w;
    var j := 0;
    while j < |docs|
      invariant 0 <= j <= |docs|
      invariant forall d :: d in docs[..j] ==> d in w
      invariant scores' == AddedScores(scores, docs[..j], w, t, wq)
      invariant order' == AddedKeys(order, docs[..j])
      invariant w' == PaddedRows(w, docs[..j], t)
    {
      var d := docs[j];
      KeysMatch(scores, order, docs[..j], w, t, wq);
      assert docs[..j + 1] == docs[..j] + [d];
      PaddedRowsKeys(w, docs[..j], t);
      ghost var rows, before := w', scores';
      var step;
      step, scores', order', w' := AddScore(d, t, wq, scores', order', w');
      if !step {
        return false, scores', order', w';
      }
      NextScores(scores, docs, j, w, t, wq, rows, before, scores');
      NextKeys(order, docs, j);
      NextRows(docs, j, w, t);
      j := j + 1;
    }
    assert docs[..|docs|] == docs;
  }

  /** `scores.items()`: each key in insertion order with its score. */
  function ScoreItems(order: seq<int>, scores: map<int, real>): (items: seq<Hit>)
    requires forall k :: 0 <= k < |order| ==> order[k] in scores
    ensures |items| == |order|
    ensures forall k :: 0 <= k < |order| ==> items[k] == Hit(order[k], scores[order[k]])
  {
    seq(|order|, k requires 0 <= k < |order| => Hit(order[k], scores[order[k]]))
  }

  /**
   * `heapq.nlargest(len(scores), scores.items(), key=score)`: every item, by
   * descending score; equal scores keep the dict's order, so when the keys were added
   * in ascending order ties come out by ascending id.
   */
  lemma RankScores(order: seq<int>, scores: map<int, real>)
    requires forall x :: x in order <==> x in scores
    requires forall k :: 0 <= k < |order| ==> order[k] in scores
    requires Distinct(order)
    ensures var hits := SortByScore(ScoreItems(order, scores));
            && (forall h :: h in hits <==> h.id in scores && h.score == scores[h.id])
            && UniqueIds(hits)
            && NonIncreasing(hits)
            && (Ascending(order) ==> Ranked(hits))
  {
    var items := ScoreItems(order, scores);
    SortByScoreOrdered(items);
    if Ascending(order) {
      SortByScoreRanked(items);
    }
    forall h ensures h in items <==> h.id in scores && h.score == scores[h.id] {
      if h.id in scores {
        var k :| 0 <= k < |order| && order[k] == h.id;
        assert h.score == scores[h.id] ==> items[k] == h;
      }
    }
  }

  /**
   * The state lines 76-84 of `search` leave once the query terms `ts` have been
   * processed in order: the weight rows as the reads have padded them, the scores, and
   * the key order of the scores dict.
   */
  function RowsAfter(ts: seq<string>, docs: seq<int>, w: map<int, map<string, real>>): (r: map<int, map<string, real>>)
    ensures r.Keys == w.Keys
  {
    if ts == [] then w
    else
      var p := RowsAfter(ts[..|ts| - 1], docs, w);
      PaddedRowsKeys(p, docs, ts[|ts| - 1]);
      PaddedRows(p, docs, ts[|ts| - 1])
  }

  function ScoresAfter(ts: seq<string>, docs: seq<int>, w: map<int, map<string, real>>, idf: map<string, real>): map<int, real>
    requires forall t :: t in ts ==> t in idf
    requires forall d :: d in docs ==> d in w
  {
    if ts == [] then map[]
    else
      var init, t := ts[..|ts| - 1], ts[|ts| - 1];
      AddedScores(ScoresAfter(init, docs, w, idf), docs, RowsAfter(init, docs, w), t, QueryTermWeight * idf[t])
  }

  function KeysAfter(ts: seq<string>, docs: seq<int>): seq<int> {
    if ts == [] then [] else AddedKeys(KeysAfter(ts[..|ts| - 1], docs), docs)
  }

  lemma NextTerm(ts: seq<string>, i: int, docs: seq<int>, w: map<int, map<string, real>>, idf: map<string, real>)
    requires 0 <= i < |ts|
    requires forall t :: t in ts[..i + 1] ==> t in idf
    requires forall d :: d in docs ==> d in w
    ensures forall t :: t in ts[..i] ==> t in idf
    ensures var t := ts[i];
            && ScoresAfter(ts[..i + 1], docs, w, idf) ==
                 AddedScores(ScoresAfter(ts[..i], docs, w, idf), docs, RowsAfter(ts[..i], docs, w), t, QueryTermWeight * idf[t])
            && KeysAfter(ts[..i + 1], docs) == AddedKeys(KeysAfter(ts[..i], docs), docs)
            && RowsAfter(ts[..i + 1], docs, w) == PaddedRows(RowsAfter(ts[..i], docs, w), docs, t)
  {
    assert ts[..i + 1] == ts[..i] + [ts[i]];
    assert ts[..i + 1][..i] == ts[..i];
  }

  lemma {:induction false} KeysAfterMatch(ts: seq<string>, docs: seq<int>, w: map<int, map<string, real>>, idf: map<string, real>)
    requires forall t :: t in ts ==> t in idf
    requires forall d :: d in docs ==> d in w
    ensures forall x :: x in KeysAfter(ts, docs) <==> x in ScoresAfter(ts, docs, w, idf)
    ensures ts != [] ==> forall x :: x in ScoresAfter(ts, docs, w, idf) <==> x in docs
  {
    if ts != [] {
      var init := ts[..|ts| - 1];
      KeysAfterMatch(init, docs, w, idf);
      KeysMatch(ScoresAfter(init, docs, w, idf), KeysAfter(init, docs), docs, RowsAfter(init, docs, w), ts[|ts| - 1], QueryTermWeight * idf[ts[|ts| - 1]]);
      AddedScoresKeys(ScoresAfter(init, docs, w, idf), docs, RowsAfter(init, docs, w), ts[|ts| - 1], QueryTermWeight * idf[ts[|ts| - 1]]);
    }
  }

  /** The score dict's keys: each candidate once, and the candidates themselves when they were distinct. */
  lemma {:induction false} KeysAfterOrder(ts: seq<string>, docs: seq<int>)
    ensures Distinct(KeysAfter(ts, docs))
    ensures ts != [] && Distinct(docs) ==> KeysAfter(ts, docs) == docs
  {
    if ts != [] {
      var init := ts[..|ts| - 1];
      KeysAfterOrder(init, docs);
      AddedKeysOrder(KeysAfter(init, docs), docs);
      if init != [] {
        KeysAfterMembers(init, docs);
      }
    }
  }

  lemma {:induction false} KeysAfterMembers(ts: seq<string>, docs: seq<int>)
    requires ts != []
    ensures forall x :: x in KeysAfter(ts, docs) <==> x in docs
  {
    var init := ts[..|ts| - 1];
    AddedKeysMembers(KeysAfter(init, docs), docs);
    if init != [] {
      KeysAfterMembers(init, docs);
    }
  }

  /** Every candidate row ends up padded with the query terms; no other row changes. */
  lemma {:induction false} RowsAfterValue(ts: seq<string>, docs: seq<int>, w: map<int, map<string, real>>)
    ensures forall d :: d in w ==> RowsAfter(ts, docs, w)[d] == if d in docs then Padded(w[d], Members(ts)) else w[d]
  {
    if ts == [] {
      forall d | d in w ensures Padded(w[d], Members(ts)) == w[d] {
        PaddedNothing(w[d]);
      }
    } else {
      var init, t := ts[..|ts| - 1], ts[|ts| - 1];
      RowsAfterValue(init, docs, w);
      assert ts == init + [t];
      assert Members(ts) == Members(init) + {t};
      forall d | d in w && d in docs ensures ReadTerm(Padded(w[d], Members(init)), t) == Padded(w[d], Members(ts)) {
        PaddedStep(w[d], Members(init), t);
      }
    }
  }

  /** When the candidates are distinct, each one's score is the sum of its term contributions. */
  lemma {:induction false} ScoresAfterValue(ts: seq<string>, docs: seq<int>, w: map<int, map<string, real>>, idf: map<string, real>)
    requires forall t :: t in ts ==> t in idf
    requires forall d :: d in docs ==> d in w
    requires Distinct(docs)
    ensures var s := ScoresAfter(ts, docs, w, idf);
            forall d :: d in s ==> d in w && s[d] == ScoreOver(ts, w[d], idf)
  {
    if ts != [] {
      var init, t := ts[..|ts| - 1], ts[|ts| - 1];
      var wq := QueryTermWeight * idf[t];
      ScoresAfterValue(init, docs, w, idf);
      KeysAfterMatch(init, docs, w, idf);
      var rows := RowsAfter(init, docs, w);
      var prev := ScoresAfter(init, docs, w, idf);
      AddedScoresValue(prev, docs, rows, t, wq);
      AddedScoresKeys(prev, docs, rows, t, wq);
      RowsAfterValue(init, docs, w);
      var s := AddedScores(prev, docs, rows, t, wq);
      assert s == ScoresAfter(ts, docs, w, idf);
      forall d | d in s ensures d in w && s[d] == ScoreOver(ts, w[d], idf) {
        assert d in docs;
        assert (if d in prev then prev[d] else 0.0) == ScoreOver(init, w[d], idf);
        GainPadded(w[d], Members(init), t, wq);
        assert ScoreOver(ts, w[d], idf) == ScoreOver(init, w[d], idf) + Contribution(w[d], t, idf);
      }
    }
  }

  lemma GainPadded(row: map<string, real>, ts: set<string>, t: string, wq: real)
    ensures Gain(Padded(row, ts), t, wq) == Gain(row, t, wq)
  {
    PaddedWeight(row, ts, t);
  }

  /**
   * Lines 76-84 of `search`: for each query term, its query weight (a term missing
   * from idf raises KeyError), then `AccumulateTerm` over the candidates.
   */
  method ScoreCandidates(terms: seq<string>, docs: seq<int>, w: map<int, map<string, real>>, idf: map<string, real>)
    returns (ok: bool, scores: map<int, real>, order: seq<int>, rows: map<int, map<string, real>>)
    requires terms != []
    ensures ok <==> (forall t :: t in terms ==> t in idf) && (forall d :: d in docs ==> d in w)
    ensures ok ==> && scores == ScoresAfter(terms, docs, w, idf)
                   && order == KeysAfter(terms, docs)
                   && rows == RowsAfter(terms, docs, w)
  {
    scores, order, rows := map[], [], w;
    var i := 0;
    while i < |terms|
      invariant 0 <= i <= |terms|
      invariant forall t :: t in terms[..i] ==> t in idf
      invariant i > 0 ==> forall d :: d in docs ==> d in w
      invariant i == 0 ==> scores == map[] && order == [] && rows == w
      invariant i > 0 ==> && scores == ScoresAfter(terms[..i], docs, w, idf)
                          && order == KeysAfter(terms[..i], docs)
                          && rows == RowsAfter(terms[..i], docs, w)
    {
      var step;
      step, scores, order, rows := ScoreTerm(terms, i, docs, w, idf, scores, order, rows);
      if !step {
        return false, scores, order, rows;
      }
      i := i + 1;
    }
    assert terms[..|terms|] == terms;
    ok := true;
  }

  /** One pass of the outer loop: term `terms[i]` added to the state left by the terms before it. */
  method ScoreTerm(terms: seq<string>, i: int, docs: seq<int>, w: map<int, map<string, real>>, idf: map<string, real>,
                   scores: map<int, real>, order: seq<int>, rows: map<int, map<string, real>>)
    returns (ok: bool, scores': map<int, real>, order': seq<int>, rows': map<int, map<string, real>>)
    requires 0 <= i < |terms|
    requires forall t :: t in terms[..i] ==> t in idf
    requires i > 0 ==> forall d :: d in docs ==> d in w
    requires i == 0 ==> scores == map[] && order == [] && rows == w
    requires i > 0 ==> && scores == ScoresAfter(terms[..i], docs, w, idf)
                       && order == KeysAfter(terms[..i], docs)
                       && rows == RowsAfter(terms[..i], docs, w)
    ensures ok <==> terms[i] in idf && forall d :: d in docs ==> d in w
    ensures ok ==> && (forall t :: t in terms[..i + 1] ==> t in idf)
                   && scores' == ScoresAfter(terms[..i + 1], docs, w, idf)
                   && order' == KeysAfter(terms[..i + 1], docs)
                   && rows' == RowsAfter(terms[..i + 1], docs, w)
  {
    var t := terms[i];
    assert terms[..i + 1] == terms[..i] + [t];
    scores', order', rows' := scores, order, rows;
    if t !in idf {
      return false, scores, order, rows;
    }
    var wq := QueryTermWeight * idf[t];
    if i > 0 {
      KeysAfterMatch(terms[..i], docs, w, idf);
    }
    ok, scores', order', rows' := AccumulateTerm(t, wq, docs, scores, order, rows);
    assert rows.Keys == w.Keys;
    if ok {
      NextTerm(terms, i, docs, w, idf);
    }
  }

  /** What `search` yields: the ranked hits and the weight table it leaves behind. */
  datatype SearchResult = SearchResult(hits: seq<Hit>, weights: map<int, map<string, real>>)

  /**
   * `search(query, w, idf, idx)`: the empty query gives [] and touches nothing. A query
   * term missing from idx or idf, or a candidate missing from w, raises KeyError
   * (None). Otherwise every candidate appears once, the hits come by non-increasing
   * score, and every candidate row is padded with 0.0 for the query terms it lacked.
   * When the posting lists are ascending each hit scores the set-sum of its weights
   * times the terms' idf, and ties come by ascending id.
   */
  method Search(query: set<string>, w: map<int, map<string, real>>, idf: map<string, real>,
                idx: map<string, seq<int>>) returns (r: Option<SearchResult>)
    ensures query == {} ==> r == Some(SearchResult([], w))
    ensures r.None? <==>
              query != {} &&
              ((exists t :: t in query && t !in idx) ||
               (exists t :: t in query && t !in idf) ||
               (exists x :: InSomeTerm(x, query, idx) && x !in w))
    ensures r.Some? ==>
              && (forall x :: (exists k :: 0 <= k < |r.value.hits| && r.value.hits[k].id == x) <==> InSomeTerm(x, query, idx))
              && UniqueIds(r.value.hits)
              && NonIncreasing(r.value.hits)
    ensures r.Some? ==>
              && r.value.weights.Keys == w.Keys
              && forall d :: d in w ==> r.value.weights[d] == if InSomeTerm(d, query, idx) then Padded(w[d], query) else w[d]
    ensures r.Some? && query != {} && (forall t :: t in query ==> t in idx && Ascending(idx[t])) ==>
              && Ranked(r.value.hits)
              && query <= idf.Keys
              && forall k :: 0 <= k < |r.value.hits| ==>
                   r.value.hits[k].id in w && r.value.hits[k].score == SetScore(query, w[r.value.hits[k].id], idf)
  {
    if query == {} {
      return Some(SearchResult([], w));
    }
    var terms := Enumerate(query);
    var found := Disjunctive(terms, idx);
    if found.None? {
      return None;
    }
    var docs := found.value;
    CandidatesAreInSome(docs, terms, query, idx);
    if forall t :: t in query ==> t in idx && Ascending(idx[t]) {
      SortedCandidates(docs, terms, query, idx);
    }
    r := ScoreAndRank(query, terms, docs, w, idf, idx);
  }

  /**
   * Lines 71-87 of `search`, once the candidates `docs` are known: score them term by
   * term, then rank the scores.
   */
  method ScoreAndRank(query: set<string>, terms: seq<string>, docs: seq<int>, w: map<int, map<string, real>>,
                      idf: map<string, real>, idx: map<string, seq<int>>) returns (r: Option<SearchResult>)
    requires query != {}
    requires forall t :: t in terms <==> t in query
    requires Distinct(terms)
    requires forall x :: x in docs <==> InSomeTerm(x, query, idx)
    requires (forall t :: t in query ==> t in idx && Ascending(idx[t])) ==> Ascending(docs) && Distinct(docs)
    ensures r.None? <==> (exists t :: t in query && t !in idf) || (exists x :: InSomeTerm(x, query, idx) && x !in w)
    ensures r.Some? ==>
              && (forall x :: (exists k :: 0 <= k < |r.value.hits| && r.value.hits[k].id == x) <==> InSomeTerm(x, query, idx))
              && UniqueIds(r.value.hits)
              && NonIncreasing(r.value.hits)
    ensures r.Some? ==>
              && r.value.weights.Keys == w.Keys
              && forall d :: d in w ==> r.value.weights[d] == if InSomeTerm(d, query, idx) then Padded(w[d], query) else w[d]
    ensures r.Some? && (forall t :: t in query ==> t in idx && Ascending(idx[t])) ==>
              && Ranked(r.value.hits)
              && query <= idf.Keys
              && forall k :: 0 <= k < |r.value.hits| ==>
                   r.value.hits[k].id in w && r.value.hits[k].score == SetScore(query, w[r.value.hits[k].id], idf)
  {
    var ok, scores, order, weights := ScoreQuery(query, terms, docs, w, idf, idx);
    if !ok {
      return None;
    }
    assert Members(terms) == query;
    var hits := SortByScore(ScoreItems(order, scores));
    RankedCandidates(query, terms, w, idf, idx, scores, order);
    r := Some(SearchResult(hits, weights));
  }

  /** The scoring loops of `search`, with what they leave behind stated in terms of the query. */
  method ScoreQuery(query: set<string>, terms: seq<string>, docs: seq<int>, w: map<int, map<string, real>>,
                    idf: map<string, real>, idx: map<string, seq<int>>)
    returns (ok: bool, scores: map<int, real>, order: seq<int>, weights: map<int, map<string, real>>)
    requires query != {}
    requires forall t :: t in terms <==> t in query
    requires forall x :: x in docs <==> InSomeTerm(x, query, idx)
    requires (forall t :: t in query ==> t in idx && Ascending(idx[t])) ==> Ascending(docs) && Distinct(docs)
    ensures ok <==> !((exists t :: t in query && t !in idf) || (exists x :: InSomeTerm(x, query, idx) && x !in w))
    ensures ok ==>
              && (forall t :: t in terms ==> t in idf)
              && (forall x :: x in order <==> x in scores)
              && (forall k :: 0 <= k < |order| ==> order[k] in scores)
              && Distinct(order)
              && (forall x :: x in scores <==> InSomeTerm(x, query, idx))
    ensures ok && (forall t :: t in query ==> t in idx && Ascending(idx[t])) ==>
              && Ascending(order)
              && forall d :: d in scores ==> d in w && scores[d] == ScoreOver(terms, w[d], idf)
    ensures ok ==>
              && weights.Keys == w.Keys
              && forall d :: d in w ==> weights[d] == if InSomeTerm(d, query, idx) then Padded(w[d], query) else w[d]
  {
    assert terms != [] by {
      var t :| t in query;
    }
    ok, scores, order, weights := ScoreCandidates(terms, docs, w, idf);
    ScoringFails(terms, docs, query, idx, w, idf);
    if ok {
      KeysAfterMatch(terms, docs, w, idf);
      KeysAfterOrder(terms, docs);
      WeightsPadded(terms, docs, query, idx, w);
      if forall t :: t in query ==> t in idx && Ascending(idx[t]) {
        ScoresAfterValue(terms, docs, w, idf);
      }
    }
  }

  /** The ranking step of `search` keeps the properties of the score dict it sorts. */
  lemma RankedCandidates(query: set<string>, terms: seq<string>, w: map<int, map<string, real>>,
                         idf: map<string, real>, idx: map<string, seq<int>>, scores: map<int, real>, order: seq<int>)
    requires Distinct(terms) && Members(terms) == query
    requires forall t :: t in terms ==> t in idf
    requires forall x :: x in order <==> x in scores
    requires forall k :: 0 <= k < |order| ==> order[k] in scores
    requires Distinct(order)
    requires forall x :: x in scores <==> InSomeTerm(x, query, idx)
    requires (forall t :: t in query ==> t in idx && Ascending(idx[t])) ==>
               && Ascending(order)
               && forall d :: d in scores ==> d in w && scores[d] == ScoreOver(terms, w[d], idf)
    ensures var hits := SortByScore(ScoreItems(order, scores));
            && (forall x :: (exists k :: 0 <= k < |hits| && hits[k].id == x) <==> InSomeTerm(x, query, idx))
            && UniqueIds(hits)
            && NonIncreasing(hits)
            && ((forall t :: t in query ==> t in idx && Ascending(idx[t])) ==>
                  && Ranked(hits)
                  && query <= idf.Keys
                  && forall k :: 0 <= k < |hits| ==> hits[k].id in w && hits[k].score == SetScore(query, w[hits[k].id], idf))
  {
    var hits := SortByScore(ScoreItems(order, scores));
    RankScores(order, scores);
    HitsCoverCandidates(hits, scores, query, idx);
    if forall t :: t in query ==> t in idx && Ascending(idx[t]) {
      HitScores(hits, scores, terms, query, w, idf);
    }
  }

  lemma WeightsPadded(terms: seq<string>, docs: seq<int>, query: set<string>, idx: map<string, seq<int>>,
                      w: map<int, map<string, real>>)
    requires forall t :: t in terms <==> t in query
    requires forall x :: x in docs <==> InSomeTerm(x, query, idx)
    ensures var weights := RowsAfter(terms, docs, w);
            && weights.Keys == w.Keys
            && forall d :: d in w ==> weights[d] == if InSomeTerm(d, query, idx) then Padded(w[d], query) else w[d]
  {
    RowsAfterValue(terms, docs, w);
    assert Members(terms) == query;
  }

  lemma ScoringFails(terms: seq<string>, docs: seq<int>, query: set<string>, idx: map<string, seq<int>>,
                     w: map<int, map<string, real>>, idf: map<string, real>)
    requires forall t :: t in terms <==> t in query
    requires forall x :: x in docs <==> InSomeTerm(x, query, idx)
    ensures ((forall t :: t in terms ==> t in idf) && (forall d :: d in docs ==> d in w)) <==>
            !((exists t :: t in query && t !in idf) || (exists x :: InSomeTerm(x, query, idx) && x !in w))
  {
  }

  lemma HitsCoverCandidates(hits: seq<Hit>, scores: map<int, real>, query: set<string>, idx: map<string, seq<int>>)
    requires forall h :: h in hits <==> h.id in scores && h.score == scores[h.id]
    requires forall x :: x in scores <==> InSomeTerm(x, query, idx)
    ensures forall x :: (exists k :: 0 <= k < |hits| && hits[k].id == x) <==> InSomeTerm(x, query, idx)
  {
    forall x ensures (exists k :: 0 <= k < |hits| && hits[k].id == x) <==> InSomeTerm(x, query, idx) {
      if x in scores {
        assert Hit(x, scores[x]) in hits;
      }
      if exists k :: 0 <= k < |hits| && hits[k].id == x {
        var k :| 0 <= k < |hits| && hits[k].id == x;
        assert hits[k] in hits;
      }
    }
  }

  lemma HitScores(hits: seq<Hit>, scores: map<int, real>, terms: seq<string>, query: set<string>,
                  w: map<int, map<string, real>>, idf: map<string, real>)
    requires forall h :: h in hits ==> h.id in scores && h.score == scores[h.id]
    requires forall t :: t in terms ==> t in idf
    requires Distinct(terms) && Members(terms) == query
    requires forall d :: d in scores ==> d in w && scores[d] == ScoreOver(terms, w[d], idf)
    ensures query <= idf.Keys
    ensures forall k :: 0 <= k < |hits| ==> hits[k].id in w && hits[k].score == SetScore(query, w[hits[k].id], idf)
  {
    forall k | 0 <= k < |hits| ensures hits[k].id in w && hits[k].score == SetScore(query, w[hits[k].id], idf) {
      assert hits[k] in hits;
      ScoreOverIsSetScore(terms, w[hits[k].id], idf);
    }
  }

  lemma SortedCandidates(docs: seq<int>, terms: seq<string>, query: set<string>, idx: map<string, seq<int>>)
    requires forall t :: t in terms <==> t in query
    requires forall t :: t in query ==> t in idx && Ascending(idx[t])
    requires (forall k :: 0 <= k < |terms| ==> Ascending(idx[terms[k]])) ==> Ascending(docs)
    ensures Ascending(docs) && Distinct(docs)
  {
    assert forall k :: 0 <= k < |terms| ==> terms[k] in query;
  }


  lemma CandidatesAreInSome(docs: seq<int>, terms: seq<string>, query: set<string>, idx: map<string, seq<int>>)
    requires forall x :: x in terms <==> x in query
    requires forall x :: x in docs <==> InSome(x, terms, idx)
    ensures forall x :: x in docs <==> InSomeTerm(x, query, idx)
  {
    forall x ensures InSome(x, terms, idx) <==> InSomeTerm(x, query, idx) {
      if InSomeTerm(x, query, idx) {
        var t :| t in query && t in idx && x in idx[t];
        var k :| 0 <= k < |terms| && terms[k] == t;
      }
    }
  }

  /** `get_movie_snippet(doc, data)` of the vector-space searcher: the snippet and the hit's score. */
  datatype ScoredSnippet = ScoredSnippet(id: int, title: string, text: string, score: real)

  /**
   * `get_movie_snippet(doc, data)`: the hit's id, first title, the text cut to 300
   * characters followed by six dots, and the hit's score; a missing id or empty Title
   * list raises (None).
   */
  function GetScoredSnippet(hit: Hit, data: map<int, Record>): (s: Option<ScoredSnippet>)
    ensures s.None? <==> hit.id !in data || data[hit.id].title == []
    ensures s.Some? ==>
              && s.value.id == hit.id
              && s.value.score == hit.score
              && s.value.title == data[hit.id].title[0]
              && |s.value.text| <= ExcerptLength + |Ellipsis|
              && s.value.text == Excerpt(data[hit.id].text)
  {
    if hit.id !in data || data[hit.id].title == [] then None
    else Some(ScoredSnippet(hit.id, data[hit.id].title[0], Excerpt(data[hit.id].text), hit.score))
  }

  /** What `get_missing_terms` reports: the query terms a document's row lacks and those it has. */
  datatype TermsUsage = TermsUsage(missing: seq<string>, matched: seq<string>)

  /**
   * `get_missing_terms(doc_id, terms, w)`: against the keys of the document's row, the
   * query terms it lacks and those it has, each list sorted; a document missing from
   * `w` raises KeyError (None).
   */
  method GetMissingTerms(docId: int, terms: set<string>, w: map<int, map<string, real>>) returns (r: Option<TermsUsage>)
    ensures r.None? <==> docId !in w
    ensures r.Some? ==>
              && (forall t :: t in r.value.missing <==> t in terms && t !in w[docId])
              && (forall t :: t in r.value.matched <==> t in terms && t in w[docId])
              && StrictlySorted(r.value.missing)
              && StrictlySorted(r.value.matched)
  {
    if docId !in w {
      return None;
    }
    var docSet := w[docId].Keys;
    var matchedSet := terms * docSet;
    var missingList := Enumerate(terms - matchedSet);
    var matchedList := Enumerate(matchedSet);
    var matched := SortStrings(matchedList);
    var missing := SortStrings(missingList);
    SortStringsSorted(matchedList);
    SortStringsSorted(missingList);
    r := Some(TermsUsage(missing, matched));
  }

  /** The report depends only on the sets involved, not on the order a set yields its members in. */
  lemma UsageOrderIndependent(u: TermsUsage, v: TermsUsage)
    requires StrictlySorted(u.missing) && StrictlySorted(v.missing)
    requires StrictlySorted(u.matched) && StrictlySorted(v.matched)
    requires forall t :: t in u.missing <==> t in v.missing
    requires forall t :: t in u.matched <==> t in v.matched
    ensures u == v
  {
    SortedUnique(u.missing, v.missing);
    SortedUnique(u.matched, v.matched);
  }
}
