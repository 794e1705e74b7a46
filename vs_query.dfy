/**
 * `results()` of vs_query.py (lines 51-88): split the raw query, route every piece into
 * one of the sets `skipped`, `clean_terms` or `unknown_terms`, run the ranked search
 * over the clean terms, cut the hits into the requested page of 10, and report for each
 * hit on the page which query terms its document row holds.
 */
module VectorQuery {
  import opened Wrappers
  import opened Normalize
  import opened Postings
  import opened Scoring
  import opened Ranking
  import opened LexOrder
  import opened QueryText
  import opened VectorSearch

  /** Lines 64-74: each piece is added to exactly one of three sets. */
  method RouteTermSets(pieces: seq<string>, stop: set<string>, stem: string -> string, vocab: set<string>)
    returns (skipped: set<string>, unknown: set<string>, clean: set<string>)
    ensures skipped == Members(SkippedOf(pieces, stop, stem, vocab))
    ensures unknown == Members(UnknownOf(pieces, stop, stem, vocab))
    ensures clean == Members(CleanOf(pieces, stop, stem, vocab))
  {
    skipped, unknown, clean := {}, {}, {};
    var i := 0;
    while i < |pieces|
      invariant 0 <= i <= |pieces|
      invariant skipped == Members(SkippedOf(pieces[..i], stop, stem, vocab))
      invariant unknown == Members(UnknownOf(pieces[..i], stop, stem, vocab))
      invariant clean == Members(CleanOf(pieces[..i], stop, stem, vocab))
    {
      var e := pieces[i];
      var term := stem(e);
      assert pieces[..i + 1][..i] == pieces[..i];
      if e in stop {
        skipped := skipped + {e};
      } else if term in vocab {
        clean := clean + {term};
      } else {
        unknown := unknown + {e};
      }
      i := i + 1;
    }
    assert pieces[..i] == pieces;
  }

  /** The sets of the routing: stop words and unknown pieces never mix, and every clean term is a key of `idf`. */
  lemma RouteSetsMeaning(pieces: seq<string>, stop: set<string>, stem: string -> string, vocab: set<string>)
    ensures Members(SkippedOf(pieces, stop, stem, vocab)) == (set e | e in pieces && e in stop)
    ensures Members(UnknownOf(pieces, stop, stem, vocab)) == (set e | e in pieces && e !in stop && stem(e) !in vocab)
    ensures Members(CleanOf(pieces, stop, stem, vocab)) == (set e | e in pieces && e !in stop && stem(e) in vocab :: stem(e))
    ensures Members(CleanOf(pieces, stop, stem, vocab)) <= vocab
    ensures Members(SkippedOf(pieces, stop, stem, vocab)) !! Members(UnknownOf(pieces, stop, stem, vocab))
  {
    RoutesMembers(pieces, stop, stem, vocab);
    var clean := Members(CleanOf(pieces, stop, stem, vocab));
    forall t | t in clean ensures t in (set e | e in pieces && e !in stop && stem(e) in vocab :: stem(e)) {
      var k :| 0 <= k < |pieces| && pieces[k] !in stop && stem(pieces[k]) == t && t in vocab;
      assert pieces[k] in pieces;
    }
    forall e | e in pieces && e !in stop && stem(e) in vocab ensures stem(e) in clean {
      var k :| 0 <= k < |pieces| && pieces[k] == e;
    }
  }

  /** Line 87: `[get_movie_snippet(d, mdat) for d in movie_ids]`, which raises (None) if one lookup does. */
  function ScoredSnippets(hits: seq<Hit>, data: map<int, Record>): (r: Option<seq<ScoredSnippet>>)
    ensures r.None? <==> exists k :: 0 <= k < |hits| && GetScoredSnippet(hits[k], data).None?
    ensures r.Some? ==> |r.value| == |hits| && forall k :: 0 <= k < |hits| ==> GetScoredSnippet(hits[k], data) == Some(r.value[k])
  {
    if hits == [] then Some([])
    else
      match GetScoredSnippet(hits[0], data)
      case None => None
      case Some(s) =>
        match ScoredSnippets(hits[1..], data)
        case None =>
          assert forall k :: 0 <= k < |hits| - 1 ==> hits[1..][k] == hits[k + 1];
          None
        case Some(rest) =>
          assert forall k :: 0 <= k < |hits| - 1 ==> hits[1..][k] == hits[k + 1];
          Some([s] + rest)
  }

  /** `u` is what `get_missing_terms` reports for `terms` against a row with these keys. */
  ghost predicate Reports(u: TermsUsage, terms: set<string>, row: map<string, real>)
  {
    && (forall t :: t in u.missing <==> t in terms && t !in row)
    && (forall t :: t in u.matched <==> t in terms && t in row)
    && StrictlySorted(u.missing)
    && StrictlySorted(u.matched)
  }

  /** Line 88: `[get_missing_terms(d[0], clean_terms, w) for d in movie_ids]`. */
  method PageUsage(hits: seq<Hit>, terms: set<string>, w: map<int, map<string, real>>) returns (usage: seq<TermsUsage>)
    requires forall k :: 0 <= k < |hits| ==> hits[k].id in w
    ensures |usage| == |hits|
    ensures forall k :: 0 <= k < |hits| ==> Reports(usage[k], terms, w[hits[k].id])
  {
    usage := [];
    var i := 0;
    while i < |hits|
      invariant 0 <= i <= |hits|
      invariant |usage| == i
      invariant forall k :: 0 <= k < i ==> Reports(usage[k], terms, w[hits[k].id])
    {
      var u := GetMissingTerms(hits[i].id, terms, w);
      usage := usage + [u.value];
      i := i + 1;
    }
  }

  /** What `results_page.html` receives. */
  datatype VsSerp = VsSerp(query: string, results: seq<ScoredSnippet>, page: int, shown: int,
                           skipped: set<string>, unknown: set<string>, totalHits: int,
                           usage: seq<TermsUsage>, missing: bool)

  /** `search` raises: a clean term has no posting list, or a candidate has no weight row. */
  ghost predicate SearchRaises(clean: set<string>, w: map<int, map<string, real>>, idx: map<string, seq<int>>)
  {
    clean != {} && ((exists t :: t in clean && t !in idx) || (exists x :: InSomeTerm(x, clean, idx) && x !in w))
  }

  /**
   * Lines 51-88 as written. `hits` is the full ranked result before the page is cut and
   * `w'` the weight table afterwards: `search` has padded the row of every candidate
   * with a zero for each clean term it lacked, and line 88 reads those padded rows, so
   * no hit on the page ever has a missing term.
   */
  method Results(query: string, pageNum: int, missing: bool, stop: set<string>, stem: string -> string,
                 w: map<int, map<string, real>>, idf: map<string, real>, idx: map<string, seq<int>>,
                 data: map<int, Record>)
    returns (r: Option<VsSerp>, w': map<int, map<string, real>>, hits: seq<Hit>)
    ensures var clean := Members(CleanOf(Split(query), stop, stem, idf.Keys));
            && clean <= idf.Keys
            && (clean == {} ==> hits == [] && w' == w)
            && (SearchRaises(clean, w, idx) ==> r.None? && w' == w)
    ensures var clean := Members(CleanOf(Split(query), stop, stem, idf.Keys));
            !SearchRaises(clean, w, idx) ==>
              && (forall x :: (exists k :: 0 <= k < |hits| && hits[k].id == x) <==> InSomeTerm(x, clean, idx))
              && UniqueIds(hits)
              && NonIncreasing(hits)
              && w'.Keys == w.Keys
              && (forall d :: d in w ==> w'[d] == if InSomeTerm(d, clean, idx) then Padded(w[d], clean) else w[d])
              && (r.None? <==> ScoredSnippets(Page(hits, pageNum), data).None?)
    ensures var clean := Members(CleanOf(Split(query), stop, stem, idf.Keys));
            !SearchRaises(clean, w, idx) && (forall t :: t in clean ==> t in idx && Ascending(idx[t])) ==>
              && Ranked(hits)
              && forall k :: 0 <= k < |hits| ==> hits[k].id in w && hits[k].score == SetScore(clean, w[hits[k].id], idf)
    ensures r.Some? ==>
              var pieces := Split(query);
              var clean := Members(CleanOf(pieces, stop, stem, idf.Keys));
              var page := Page(hits, pageNum);
              && r.value.results == ScoredSnippets(page, data).value
              && r.value.shown == |page| <= PageSize
              && r.value.totalHits == |hits|
              && r.value.skipped == Members(SkippedOf(pieces, stop, stem, idf.Keys))
              && r.value.unknown == Members(UnknownOf(pieces, stop, stem, idf.Keys))
              && r.value.query == query && r.value.page == pageNum && r.value.missing == missing
              && |r.value.usage| == |page|
              && (forall k :: 0 <= k < |page| ==> page[k].id in w' && Reports(r.value.usage[k], clean, w'[page[k].id]))
              && (forall k, t :: 0 <= k < |page| ==> t !in r.value.usage[k].missing)
  {
    var queryTerms := Split(query);
    var skipped, unknown, clean := RouteTermSets(queryTerms, stop, stem, idf.Keys);
    RouteSetsMeaning(queryTerms, stop, stem, idf.Keys);
    var found := Search(clean, w, idf, idx);
    if found.None? {
      return None, w, [];
    }
    var movieIds := found.value.hits;
    hits := movieIds;
    w' := found.value.weights;
    var numHits := |movieIds|;
    movieIds := Page(movieIds, pageNum);
    PageWindow(hits, pageNum);
    var movieResults := ScoredSnippets(movieIds, data);
    if movieResults.None? {
      return None, w', hits;
    }
    PageHitsPadded(hits, pageNum, clean, w, idx, w');
    var termsUsage := PageUsage(movieIds, clean, w');
    NothingMissing(movieIds, clean, w', termsUsage);
    r := Some(VsSerp(query, movieResults.value, pageNum, |movieIds|, skipped, unknown, numHits, termsUsage, missing));
  }

  /** Every hit on the page is a candidate, so its row in the padded table holds every clean term. */
  lemma PageHitsPadded(hits: seq<Hit>, p: int, clean: set<string>, w: map<int, map<string, real>>,
                       idx: map<string, seq<int>>, w': map<int, map<string, real>>)
    requires forall x :: (exists k :: 0 <= k < |hits| && hits[k].id == x) ==> InSomeTerm(x, clean, idx)
    requires forall x :: InSomeTerm(x, clean, idx) ==> x in w
    requires w'.Keys == w.Keys
    requires forall d :: d in w ==> w'[d] == if InSomeTerm(d, clean, idx) then Padded(w[d], clean) else w[d]
    ensures forall k :: 0 <= k < |Page(hits, p)| ==> Page(hits, p)[k].id in w' && clean <= w'[Page(hits, p)[k].id].Keys
  {
    PageWindow(hits, p);
    var lo := SliceBound((p - 1) * PageSize, |hits|);
    forall k | 0 <= k < |Page(hits, p)| ensures Page(hits, p)[k].id in w' && clean <= w'[Page(hits, p)[k].id].Keys {
      assert Page(hits, p)[k] == hits[lo + k];
      var x := hits[lo + k].id;
      assert InSomeTerm(x, clean, idx);
    }
  }

  /** A report against a row holding every term lists no missing term. */
  lemma NothingMissing(page: seq<Hit>, clean: set<string>, w': map<int, map<string, real>>, usage: seq<TermsUsage>)
    requires |usage| == |page|
    requires forall k :: 0 <= k < |page| ==> page[k].id in w' && clean <= w'[page[k].id].Keys
    requires forall k :: 0 <= k < |page| ==> Reports(usage[k], clean, w'[page[k].id])
    ensures forall k, t :: 0 <= k < |page| ==> t !in usage[k].missing
  {
  }

  /**
   * A query whose two terms are both known, against a table where document 1 is
   * indexed only under the first and document 2 only under the second: the search
   * raises nothing, document 1 is a hit, it lacks the second term, and yet its padded
   * row holds it, so line 88 reports nothing missing.
   */
  lemma PaddingHidesMissingTerm()
    ensures var w := map[1 := map["a" := 0.5], 2 := map["b" := 0.5]];
            var idx := map["a" := [1], "b" := [2]];
            var clean := {"a", "b"};
            && !SearchRaises(clean, w, idx)
            && InSomeTerm(1, clean, idx)
            && "b" in clean && "b" !in w[1]
            && "b" in Padded(w[1], clean)
  {
    var w := map[1 := map["a" := 0.5], 2 := map["b" := 0.5]];
    var idx := map["a" := [1], "b" := [2]];
    var clean := {"a", "b"};
    assert "a" in clean && 1 in idx["a"];
    forall x | InSomeTerm(x, clean, idx) ensures x in w {
      var t :| t in clean && t in idx && x in idx[t];
      assert t == "a" || t == "b";
    }
  }

  /**
   * Lines 51-88 with the padding removed where it happens: line 84 of vs_search.py
   * reads `w[d].get(t, 0.0)`. That read sees the weight the defaultdict read sees
   * (`ReadTerm`), so the search finds the same hits with the same scores, but it writes
   * nothing. The module-level table loaded at line 119 therefore stays as stored
   * across requests, and line 88 reports against those rows: each hit on the page gets
   * exactly the clean terms its document lacks.
   */
  method CorrectedResults(query: string, pageNum: int, missing: bool, stop: set<string>, stem: string -> string,
                          w: map<int, map<string, real>>, idf: map<string, real>, idx: map<string, seq<int>>,
                          data: map<int, Record>)
    returns (r: Option<VsSerp>, w': map<int, map<string, real>>, hits: seq<Hit>)
    ensures w' == w
    ensures var clean := Members(CleanOf(Split(query), stop, stem, idf.Keys));
            && clean <= idf.Keys
            && (r.None? <==> SearchRaises(clean, w, idx) || ScoredSnippets(Page(hits, pageNum), data).None?)
            && (clean == {} ==> hits == [])
    ensures var clean := Members(CleanOf(Split(query), stop, stem, idf.Keys));
            !SearchRaises(clean, w, idx) ==>
              && (forall x :: (exists k :: 0 <= k < |hits| && hits[k].id == x) <==> InSomeTerm(x, clean, idx))
              && UniqueIds(hits)
              && NonIncreasing(hits)
    ensures var clean := Members(CleanOf(Split(query), stop, stem, idf.Keys));
            !SearchRaises(clean, w, idx) && (forall t :: t in clean ==> t in idx && Ascending(idx[t])) ==>
              && Ranked(hits)
              && forall k :: 0 <= k < |hits| ==> hits[k].id in w && hits[k].score == SetScore(clean, w[hits[k].id], idf)
    ensures r.Some? ==>
              var pieces := Split(query);
              var clean := Members(CleanOf(pieces, stop, stem, idf.Keys));
              var page := Page(hits, pageNum);
              && r.value.results == ScoredSnippets(page, data).value
              && r.value.shown == |page| <= PageSize
              && r.value.totalHits == |hits|
              && r.value.skipped == Members(SkippedOf(pieces, stop, stem, idf.Keys))
              && r.value.unknown == Members(UnknownOf(pieces, stop, stem, idf.Keys))
              && r.value.query == query && r.value.page == pageNum && r.value.missing == missing
              && |r.value.usage| == |page|
              && forall k :: 0 <= k < |page| ==> page[k].id in w && Reports(r.value.usage[k], clean, w[page[k].id])
  {
    var padded;
    r, padded, hits := Results(query, pageNum, missing, stop, stem, w, idf, idx, data);
    w' := w;
    if r.Some? {
      var clean := Members(CleanOf(Split(query), stop, stem, idf.Keys));
      var page := Page(hits, pageNum);
      PageHitsStored(hits, pageNum, clean, w, idx);
      var usage := PageUsage(page, clean, w);
      r := Some(r.value.(usage := usage));
    }
  }

  /** Every hit on the page is a candidate, so it has a stored row. */
  lemma PageHitsStored(hits: seq<Hit>, p: int, clean: set<string>, w: map<int, map<string, real>>, idx: map<string, seq<int>>)
    requires forall x :: (exists k :: 0 <= k < |hits| && hits[k].id == x) ==> InSomeTerm(x, clean, idx)
    requires forall x :: InSomeTerm(x, clean, idx) ==> x in w
    ensures forall k :: 0 <= k < |Page(hits, p)| ==> Page(hits, p)[k].id in w
  {
    PageWindow(hits, p);
    var lo := SliceBound((p - 1) * PageSize, |hits|);
    forall k | 0 <= k < |Page(hits, p)| ensures Page(hits, p)[k].id in w {
      assert Page(hits, p)[k] == hits[lo + k];
      assert InSomeTerm(hits[lo + k].id, clean, idx);
    }
  }
}
