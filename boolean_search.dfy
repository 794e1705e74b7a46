/**
 * Conjunctive search over the inverted index (boolean_search.py): intersect the
 * posting lists of the query terms, shortest list first.
 */
module BooleanSearch {
  import opened Wrappers
  import opened Normalize
  import opened Postings
  import opened Presentation

  /** Every id that all the query terms' posting lists share. */
  predicate InAll(x: int, query: seq<string>, idx: map<string, seq<int>>)
    requires forall k :: 0 <= k < |query| ==> query[k] in idx
  {
    forall k :: 0 <= k < |query| ==> x in idx[query[k]]
  }

  /**
   * Lines 25-29 of `search`: start from the first list of the fold order and intersect
   * the running result with each further list.
   */
  method IntersectInOrder(ordered: seq<string>, idx: map<string, seq<int>>) returns (results: seq<int>)
    requires ordered != [] && forall t :: t in ordered ==> t in idx
    ensures forall x :: x in results ==> forall t :: t in ordered ==> x in idx[t]
    ensures forall t :: t in ordered ==> |results| <= |idx[t]|
    ensures (forall t :: t in ordered ==> Ascending(idx[t])) ==>
              Ascending(results) && forall x :: (forall t :: t in ordered ==> x in idx[t]) ==> x in results
    ensures |ordered| == 1 ==> results == idx[ordered[0]]
  {
    ghost var sorted := forall t :: t in ordered ==> Ascending(idx[t]);
    assert ordered[0] in ordered;
    results := idx[ordered[0]];
    var i := 1;
    while i < |ordered|
      invariant 1 <= i <= |ordered|
      invariant i == 1 ==> results == idx[ordered[0]]
      invariant forall x :: x in results ==> forall t :: t in ordered[..i] ==> x in idx[t]
      invariant forall t :: t in ordered[..i] ==> |results| <= |idx[t]|
      invariant sorted ==> Ascending(results)
      invariant sorted ==> forall x :: (forall t :: t in ordered[..i] ==> x in idx[t]) ==> x in results
    {
      assert ordered[i] in ordered;
      assert ordered[..i + 1] == ordered[..i] + [ordered[i]];
      results := Intersect(results, idx[ordered[i]]);
      i := i + 1;
    }
    assert ordered[..|ordered|] == ordered;
  }

  /**
   * `search(query, idx)`: the empty query gives []; a term missing from idx raises
   * KeyError (None); otherwise the lists are intersected in fold order. The result
   * holds only ids common to every term's list and is no longer than any of them; when
   * the lists are ascending it is exactly the ascending intersection, so it does not
   * depend on the fold order. A query of one distinct term returns that term's list.
   */
  method Search(query: seq<string>, idx: map<string, seq<int>>) returns (r: Option<seq<int>>)
    ensures query == [] ==> r == Some([])
    ensures r.None? <==> exists k :: 0 <= k < |query| && query[k] !in idx
    ensures r.Some? ==> forall x :: x in r.value ==> forall k :: 0 <= k < |query| ==> x in idx[query[k]]
    ensures r.Some? ==> forall k :: 0 <= k < |query| ==> |r.value| <= |idx[query[k]]|
    ensures r.Some? && query != [] && (forall k :: 0 <= k < |query| ==> Ascending(idx[query[k]])) ==>
              Ascending(r.value) && forall x :: InAll(x, query, idx) ==> x in r.value
    ensures r.Some? && query != [] && (forall k :: 0 <= k < |query| ==> query[k] == query[0]) ==>
              r.value == idx[query[0]]
  {
    if |query| == 0 {
      return Some([]);
    }
    var order := OrderByLength(query, idx);
    if order.None? {
      return None;
    }
    var ordered := order.value;
    assert query[0] in ordered;
    var results := IntersectInOrder(ordered, idx);
    forall k | 0 <= k < |query| ensures query[k] in ordered {
    }
    if forall k :: 0 <= k < |query| ==> Ascending(idx[query[k]]) {
      forall t | t in ordered ensures Ascending(idx[t]) {
        var k :| 0 <= k < |query| && query[k] == t;
      }
      forall x | InAll(x, query, idx) ensures x in results {
        forall t | t in ordered ensures x in idx[t] {
          var k :| 0 <= k < |query| && query[k] == t;
        }
      }
    }
    if forall k :: 0 <= k < |query| ==> query[k] == query[0] {
      forall m | 0 <= m < |ordered| ensures ordered[m] == query[0] {
        assert ordered[m] in query;
        var k :| 0 <= k < |query| && query[k] == ordered[m];
      }
      DistinctConstant(ordered, query[0]);
    }
    r := Some(results);
  }

  datatype Snippet = Snippet(id: int, title: string, text: string)

  /**
   * `get_movie_snippet(doc_id, data)`: the id, the first title and the text cut to 300
   * characters followed by six dots; a missing id or empty Title list raises (None).
   */
  function GetMovieSnippet(docId: int, data: map<int, Record>): (s: Option<Snippet>)
    ensures s.None? <==> docId !in data || data[docId].title == []
    ensures s.Some? ==>
              var text := data[docId].text;
              && s.value.id == docId
              && s.value.title == data[docId].title[0]
              && |s.value.text| <= ExcerptLength + |Ellipsis|
              && s.value.text == Excerpt(text)
  {
    if docId !in data || data[docId].title == [] then None
    else Some(Snippet(docId, data[docId].title[0], Excerpt(data[docId].text)))
  }
}
