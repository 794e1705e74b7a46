/**
 * The cosine score of vs_search.search. Every query term has frequency 1, so its
 * query weight is `(1 + log10(1)) * idf[t]`, that is `idf[t]`; a document scores the sum,
 * over the query terms, of its weight for the term times the term's query weight. A
 * document's weight row is a dict that answers 0.0 for a term it lacks.
 */
module Scoring {
  /** `wf_q = 1 + math.log10(1)`: the log-frequency weight of a term that occurs once. */
  const QueryTermWeight: real := 1.0

  /** `w[d][t]` on the document's row: its weight, or 0.0 for a term the row lacks. */
  function Weight(row: map<string, real>, t: string): real {
    if t in row then row[t] else 0.0
  }

  /** The set of the terms listed in `ts`. */
  function Members<T(!new)>(ts: seq<T>): (m: set<T>)
    ensures forall t :: t in m <==> t in ts
  {
    set t | t in ts
  }

  /** `w[d][t] * w_q`: a row's weight for a term times the term's query weight. */
  function Gain(row: map<string, real>, t: string, wq: real): real {
    Weight(row, t) * wq
  }

  /** What one query term adds to a document's score: `w[d][t] * (wf_q * idf[t])`. */
  function Contribution(row: map<string, real>, t: string, idf: map<string, real>): real
    requires t in idf
  {
    Gain(row, t, QueryTermWeight * idf[t])
  }

  /** The score after the terms of `ts` have been added, in that order. */
  function ScoreOver(ts: seq<string>, row: map<string, real>, idf: map<string, real>): real
    requires forall t :: t in ts ==> t in idf
  {
    if ts == [] then 0.0
    else ScoreOver(ts[..|ts| - 1], row, idf) + Contribution(row, ts[|ts| - 1], idf)
  }

  ghost function Pick(s: set<string>): (x: string)
    requires s != {}
    ensures x in s
  {
    var x :| x in s; x
  }

  /** The score as a sum over the query set, independent of any order of its terms. */
  ghost function SetScore(ts: set<string>, row: map<string, real>, idf: map<string, real>): real
    requires ts <= idf.Keys
    decreases |ts|
  {
    if ts == {} then 0.0
    else
      var x := Pick(ts);
      SetScore(ts - {x}, row, idf) + Contribution(row, x, idf)
  }

  /** Any term of the set can be taken out first. */
  lemma {:induction false} SetScoreRemove(ts: set<string>, y: string, row: map<string, real>, idf: map<string, real>)
    requires ts <= idf.Keys && y in ts
    ensures SetScore(ts, row, idf) == SetScore(ts - {y}, row, idf) + Contribution(row, y, idf)
    decreases |ts|
  {
    var x := Pick(ts);
    if x != y {
      SetScoreRemove(ts - {x}, y, row, idf);
      assert ts - {x} - {y} == ts - {y} - {x};
      SetScoreRemove(ts - {y}, x, row, idf);
    }
  }

  /**
   * Adding the terms of the query one by one, in whatever order the set yields them,
   * gives the set-sum score.
   */
  lemma {:induction false} ScoreOverIsSetScore(ts: seq<string>, row: map<string, real>, idf: map<string, real>)
    requires forall t :: t in ts ==> t in idf
    requires forall a, b :: 0 <= a < b < |ts| ==> ts[a] != ts[b]
    ensures ScoreOver(ts, row, idf) == SetScore(Members(ts), row, idf)
  {
    if ts != [] {
      var init, x := ts[..|ts| - 1], ts[|ts| - 1];
      assert forall k :: 0 <= k < |init| ==> init[k] == ts[k];
      forall t | t in init ensures t in idf {
        var k :| 0 <= k < |init| && init[k] == t;
        assert ts[k] in ts;
      }
      TailSet(init, x, ts);
      ScoreOverIsSetScore(init, row, idf);
      SetScoreRemove(Members(ts), x, row, idf);
    }
  }

  lemma TailSet(init: seq<string>, x: string, ts: seq<string>)
    requires ts == init + [x]
    requires forall a, b :: 0 <= a < b < |ts| ==> ts[a] != ts[b]
    ensures forall a, b :: 0 <= a < b < |init| ==> init[a] != init[b]
    ensures Members(ts) - {x} == Members(init)
    ensures x in ts
  {
    assert ts[|ts| - 1] == x;
    assert forall k :: 0 <= k < |init| ==> init[k] == ts[k];
    assert x !in init;
  }

  /** Two orders of the same distinct terms give the same score. */
  lemma ScoreOrderIndependent(ts: seq<string>, us: seq<string>, row: map<string, real>, idf: map<string, real>)
    requires forall t :: t in ts ==> t in idf
    requires forall a, b :: 0 <= a < b < |ts| ==> ts[a] != ts[b]
    requires forall a, b :: 0 <= a < b < |us| ==> us[a] != us[b]
    requires forall t :: t in ts <==> t in us
    ensures ScoreOver(ts, row, idf) == ScoreOver(us, row, idf)
  {
    ScoreOverIsSetScore(ts, row, idf);
    ScoreOverIsSetScore(us, row, idf);
    assert Members(ts) == Members(us);
  }

  /** A document lacking every query term scores 0. */
  lemma {:induction false} ScoreOfUnrelated(ts: seq<string>, row: map<string, real>, idf: map<string, real>)
    requires forall t :: t in ts ==> t in idf && t !in row
    ensures ScoreOver(ts, row, idf) == 0.0
  {
    if ts != [] {
      ScoreOfUnrelated(ts[..|ts| - 1], row, idf);
    }
  }

  /**
   * The row after `w[d][t]` has been read for every term of `ts`: each term it lacked
   * now maps to 0.0, everything else is as before.
   */
  function Padded(row: map<string, real>, ts: set<string>): (p: map<string, real>)
    ensures p.Keys == row.Keys + ts
    ensures forall t :: t in row ==> p[t] == row[t]
    ensures forall t :: t in ts && t !in row ==> p[t] == 0.0
  {
    map t | t in row.Keys + ts :: Weight(row, t)
  }

  /** Padding changes no weight a later read sees. */
  lemma PaddedWeight(row: map<string, real>, ts: set<string>, t: string)
    ensures Weight(Padded(row, ts), t) == Weight(row, t)
  {
  }

  /** Reading one more term pads one more key. */
  lemma PaddedStep(row: map<string, real>, ts: set<string>, t: string)
    ensures var p := Padded(row, ts);
            (if t in p then p else p[t := 0.0]) == Padded(row, ts + {t})
  {
  }

  lemma PaddedNothing(row: map<string, real>)
    ensures Padded(row, {}) == row
  {
  }
}
