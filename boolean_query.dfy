/**
 * `results()` of boolean_query.py (lines 48-83): split the raw query on single spaces,
 * route every piece to `skipped`, `clean_terms` or `unknown_terms`, run the conjunctive
 * search over the clean terms, and cut the hits into the requested page of 10.
 */
module BooleanQuery {
  import opened Wrappers
  import opened Normalize
  import opened Postings
  import opened Presentation
  import opened QueryText
  import opened BooleanSearch

  /** Lines 57-67: each piece is appended to exactly one of three lists. */
  method RouteTerms(pieces: seq<string>, stop: set<string>, stem: string -> string, vocab: set<string>)
    returns (skipped: seq<string>, unknown: seq<string>, clean: seq<string>)
    ensures skipped == SkippedOf(pieces, stop, stem, vocab)
    ensures unknown == UnknownOf(pieces, stop, stem, vocab)
    ensures clean == CleanOf(pieces, stop, stem, vocab)
  {
    skipped, unknown, clean := [], [], [];
    var i := 0;
    while i < |pieces|
      invariant 0 <= i <= |pieces|
      invariant skipped == SkippedOf(pieces[..i], stop, stem, vocab)
      invariant unknown == UnknownOf(pieces[..i], stop, stem, vocab)
      invariant clean == CleanOf(pieces[..i], stop, stem, vocab)
    {
      var e := pieces[i];
      var term := stem(e);
      assert pieces[..i + 1][..i] == pieces[..i];
      if e in stop {
        skipped := skipped + [e];
      } else if term in vocab {
        clean := clean + [term];
      } else {
        unknown := unknown + [e];
      }
      i := i + 1;
    }
    assert pieces[..i] == pieces;
  }

  /** Line 80: `[get_movie_snippet(e, mdat) for e in movie_ids]`, which raises (None) if one lookup does. */
  function Snippets(ids: seq<int>, data: map<int, Record>): (r: Option<seq<Snippet>>)
    ensures r.None? <==> exists k :: 0 <= k < |ids| && GetMovieSnippet(ids[k], data).None?
    ensures r.Some? ==> |r.value| == |ids| && forall k :: 0 <= k < |ids| ==> GetMovieSnippet(ids[k], data) == Some(r.value[k])
  {
    if ids == [] then Some([])
    else
      match GetMovieSnippet(ids[0], data)
      case None => None
      case Some(s) =>
        match Snippets(ids[1..], data)
        case None =>
          assert forall k :: 0 <= k < |ids| - 1 ==> ids[1..][k] == ids[k + 1];
          None
        case Some(rest) =>
          assert forall k :: 0 <= k < |ids| - 1 ==> ids[1..][k] == ids[k + 1];
          Some([s] + rest)
  }

  /** What `results_page.html` receives. */
  datatype Serp = Serp(query: string, results: seq<Snippet>, page: int, shown: int,
                       skipped: seq<string>, unknown: seq<string>, totalHits: int)

  /**
   * Lines 48-83. The clean terms are all keys of `idx`, so `search` cannot raise here;
   * only a snippet lookup can. `hits` is the full result before the page is cut.
   */
  method Results(query: string, pageNum: int, stop: set<string>, stem: string -> string,
                 idx: map<string, seq<int>>, data: map<int, Record>)
    returns (r: Option<Serp>, hits: seq<int>)
    ensures forall t :: t in CleanOf(Split(query), stop, stem, idx.Keys) ==> t in idx
    ensures var clean := CleanOf(Split(query), stop, stem, idx.Keys);
            && (forall x :: x in hits ==> forall t :: t in clean ==> x in idx[t])
            && (clean == [] ==> hits == [])
            && (clean != [] && (forall t :: t in clean ==> Ascending(idx[t])) ==>
                  Ascending(hits) && forall x :: (forall t :: t in clean ==> x in idx[t]) ==> x in hits)
    ensures r.None? <==> Snippets(Page(hits, pageNum), data).None?
    ensures r.Some? ==>
              var pieces := Split(query);
              r.value == Serp(query, Snippets(Page(hits, pageNum), data).value, pageNum, |Page(hits, pageNum)|,
                              SkippedOf(pieces, stop, stem, idx.Keys), UnknownOf(pieces, stop, stem, idx.Keys), |hits|)
  {
    var queryTerms := Split(query);
    var skipped, unknown, clean := RouteTerms(queryTerms, stop, stem, idx.Keys);
    RoutesMembers(queryTerms, stop, stem, idx.Keys);
    var movieIds := SearchKnown(clean, idx);
    hits := movieIds;
    var numHits := |movieIds|;
    movieIds := Page(movieIds, pageNum);
    var movieResults := Snippets(movieIds, data);
    if movieResults.None? {
      return None, hits;
    }
    r := Some(Serp(query, movieResults.value, pageNum, |movieIds|, skipped, unknown, numHits));
  }

  /**
   * Line 74: `search(clean_terms, idx)` over terms that are all keys of `idx`, so it
   * returns the ids posted under every clean term.
   */
  method SearchKnown(clean: seq<string>, idx: map<string, seq<int>>) returns (hits: seq<int>)
    requires forall t :: t in clean ==> t in idx
    ensures forall x :: x in hits ==> forall t :: t in clean ==> x in idx[t]
    ensures clean == [] ==> hits == []
    ensures clean != [] && (forall t :: t in clean ==> Ascending(idx[t])) ==>
              Ascending(hits) && forall x :: (forall t :: t in clean ==> x in idx[t]) ==> x in hits
  {
    var found := Search(clean, idx);
    hits := found.value;
    CleanHits(clean, idx, hits);
    if clean != [] && (forall t :: t in clean ==> Ascending(idx[t])) {
      forall x | forall t :: t in clean ==> x in idx[t] ensures InAll(x, clean, idx) {
      }
    }
  }

  /** Restates a list membership over indices as one over elements. */
  lemma CleanHits(clean: seq<string>, idx: map<string, seq<int>>, hits: seq<int>)
    requires forall t :: t in clean ==> t in idx
    requires forall x :: x in hits ==> forall k :: 0 <= k < |clean| ==> x in idx[clean[k]]
    ensures forall x :: x in hits ==> forall t :: t in clean ==> x in idx[t]
  {
    forall x, t | x in hits && t in clean ensures x in idx[t] {
      var k :| 0 <= k < |clean| && clean[k] == t;
    }
  }
}
