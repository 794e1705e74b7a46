/**
 * The boolean inverted index (boolean_index.py): the module-level dict `cache_index`
 * maps a term to its posting list and `index(id)` extends it in place, one document
 * at a time; the driver indexes every document of the corpus in corpus order.
 */
module BooleanIndexing {
  import opened Wrappers
  import opened Normalize
  import opened Postings

  /** No id directly follows an equal id. */
  predicate NoAdjacentDuplicates(p: seq<int>)
  {
    forall k :: 0 < k < |p| ==> p[k - 1] != p[k]
  }

  /** Lines 19-22: the posting list of `t` once the document `id` has mentioned `t`. */
  function Posted(m: map<string, seq<int>>, t: string, id: int): seq<int>
  {
    if t !in m then [id]
    else if m[t] != [] && m[t][|m[t]| - 1] == id then m[t]
    else m[t] + [id]
  }

  /** The ids, in corpus order, of the documents that contain the term `t`. */
  function DocsWith(corpus: seq<Doc>, t: string, stop: set<string>, stem: string -> string): seq<int>
  {
    if corpus == [] then []
    else
      var last := corpus[|corpus| - 1];
      DocsWith(corpus[..|corpus| - 1], t, stop, stem) + (if t in Stems(last.tokens, stop, stem) then [last.id] else [])
  }

  /** Every term of some document of the corpus. */
  predicate Occurs(corpus: seq<Doc>, t: string, stop: set<string>, stem: string -> string)
  {
    exists k :: 0 <= k < |corpus| && t in Stems(corpus[k].tokens, stop, stem)
  }

  predicate IncreasingIds(corpus: seq<Doc>)
  {
    forall i, j :: 0 <= i < j < |corpus| ==> corpus[i].id < corpus[j].id
  }

  lemma {:induction false} DocsWithMembers(corpus: seq<Doc>, t: string, stop: set<string>, stem: string -> string)
    ensures forall x :: x in DocsWith(corpus, t, stop, stem) <==>
              exists k :: 0 <= k < |corpus| && corpus[k].id == x && t in Stems(corpus[k].tokens, stop, stem)
  {
    if corpus != [] {
      var init := corpus[..|corpus| - 1];
      DocsWithMembers(init, t, stop, stem);
      forall x | x in DocsWith(corpus, t, stop, stem)
        ensures exists k :: 0 <= k < |corpus| && corpus[k].id == x && t in Stems(corpus[k].tokens, stop, stem)
      {
        if x in DocsWith(init, t, stop, stem) {
          var k :| 0 <= k < |init| && init[k].id == x && t in Stems(init[k].tokens, stop, stem);
          assert corpus[k] == init[k];
        }
      }
      forall x, k | 0 <= k < |corpus| && corpus[k].id == x && t in Stems(corpus[k].tokens, stop, stem)
        ensures x in DocsWith(corpus, t, stop, stem)
      {
        if k < |init| { assert init[k] == corpus[k]; }
      }
    }
  }

  /** Indexing in strictly ascending id order keeps every posting list strictly ascending. */
  lemma {:induction false} DocsWithAscending(corpus: seq<Doc>, t: string, stop: set<string>, stem: string -> string)
    requires IncreasingIds(corpus)
    ensures Ascending(DocsWith(corpus, t, stop, stem))
  {
    if corpus != [] {
      var init, last := corpus[..|corpus| - 1], corpus[|corpus| - 1];
      var p := DocsWith(init, t, stop, stem);
      DocsWithAscending(init, t, stop, stem);
      if t in Stems(last.tokens, stop, stem) {
        DocsWithMembers(init, t, stop, stem);
        forall x | x in p ensures x < last.id {
          var k :| 0 <= k < |init| && init[k].id == x && t in Stems(init[k].tokens, stop, stem);
          assert corpus[k] == init[k];
        }
        AppendAscending(p, last.id);
      }
    }
  }

  /** A term that occurs in the corpus has a non-empty posting list, and only such terms do. */
  lemma DocsWithNonEmpty(corpus: seq<Doc>, t: string, stop: set<string>, stem: string -> string)
    ensures DocsWith(corpus, t, stop, stem) != [] <==> Occurs(corpus, t, stop, stem)
  {
    DocsWithMembers(corpus, t, stop, stem);
    var p := DocsWith(corpus, t, stop, stem);
    if p != [] {
      assert p[0] in p;
    }
    if Occurs(corpus, t, stop, stem) {
      var k :| 0 <= k < |corpus| && t in Stems(corpus[k].tokens, stop, stem);
      assert corpus[k].id in p;
    }
  }

  predicate MapValid(m: map<string, seq<int>>)
  {
    forall t :: t in m ==> m[t] != [] && NoAdjacentDuplicates(m[t])
  }

  predicate MapBelow(m: map<string, seq<int>>, id: int)
  {
    forall t, k :: t in m && 0 <= k < |m[t]| ==> m[t][k] < id
  }

  predicate MapAscending(m: map<string, seq<int>>)
  {
    forall t :: t in m ==> Ascending(m[t])
  }

  /** `after` is `before` once the document `id` with terms `terms` has been indexed. */
  predicate IndexedAfter(before: map<string, seq<int>>, after: map<string, seq<int>>, terms: seq<string>, id: int)
  {
    && after.Keys == before.Keys + (set t | t in terms)
    && (forall t :: t in before && t !in terms ==> after[t] == before[t])
    && (forall t :: t in terms ==> after[t] == Posted(before, t, id))
  }

  /** `m` is the inverted index of `corpus`. */
  ghost predicate Inverts(m: map<string, seq<int>>, corpus: seq<Doc>, stop: set<string>, stem: string -> string)
  {
    && (forall t :: t in m <==> Occurs(corpus, t, stop, stem))
    && (forall t :: t in m ==> m[t] == DocsWith(corpus, t, stop, stem))
  }

  lemma PostedValid(m: map<string, seq<int>>, t: string, id: int)
    requires MapValid(m)
    ensures MapValid(m[t := Posted(m, t, id)])
  {
    var p := Posted(m, t, id);
    assert p != [] && NoAdjacentDuplicates(p);
  }

  lemma PostedEndsWith(m: map<string, seq<int>>, t: string, id: int)
    ensures var p := Posted(m, t, id); p != [] && p[|p| - 1] == id
  {
  }

  lemma IndexedAfterStep(before: map<string, seq<int>>, c: map<string, seq<int>>, terms: seq<string>, x: string, id: int)
    requires IndexedAfter(before, c, terms, id)
    ensures IndexedAfter(before, c[x := Posted(c, x, id)], terms + [x], id)
  {
    var c' := c[x := Posted(c, x, id)];
    var terms' := terms + [x];
    PostedAgain(before, c, terms, x, id);
    assert (set t | t in terms') == (set t | t in terms) + {x};
    forall t | t in terms' ensures c'[t] == Posted(before, t, id) {
      if t != x { assert t in terms; }
    }
    forall t | t in before && t !in terms' ensures c'[t] == before[t] {
      assert t != x && t !in terms;
    }
  }

  /** Posting the document's id under a term it already posted changes nothing. */
  lemma PostedAgain(before: map<string, seq<int>>, c: map<string, seq<int>>, terms: seq<string>, x: string, id: int)
    requires IndexedAfter(before, c, terms, id)
    ensures Posted(c, x, id) == Posted(before, x, id)
  {
    if x in terms {
      PostedEndsWith(before, x, id);
    }
  }

  /** Every term of the document ends with its id, and a new term's list is just that id. */
  lemma IndexedAfterEnds(before: map<string, seq<int>>, after: map<string, seq<int>>, terms: seq<string>, id: int)
    requires IndexedAfter(before, after, terms, id)
    ensures forall t :: t in terms && t !in before ==> after[t] == [id]
    ensures forall t :: t in terms ==> after[t] != [] && after[t][|after[t]| - 1] == id
  {
    forall t | t in terms ensures after[t] != [] && after[t][|after[t]| - 1] == id {
      PostedEndsWith(before, t, id);
    }
  }

  lemma IndexedAfterAscending(before: map<string, seq<int>>, after: map<string, seq<int>>, terms: seq<string>, id: int)
    requires IndexedAfter(before, after, terms, id)
    requires MapBelow(before, id) && MapAscending(before)
    ensures MapAscending(after)
  {
    forall t | t in after ensures Ascending(after[t]) {
      if t in before && after[t] != before[t] {
        assert t in terms;
        forall x | x in before[t] ensures x < id {
          var i :| 0 <= i < |before[t]| && before[t][i] == x;
        }
        AppendAscending(before[t], id);
      }
    }
  }

  lemma OccursSnoc(c: seq<Doc>, d: Doc, t: string, stop: set<string>, stem: string -> string)
    ensures Occurs(c + [d], t, stop, stem) <==> Occurs(c, t, stop, stem) || t in Stems(d.tokens, stop, stem)
  {
    var c' := c + [d];
    if Occurs(c', t, stop, stem) {
      var i :| 0 <= i < |c'| && t in Stems(c'[i].tokens, stop, stem);
      if i < |c| { assert c'[i] == c[i]; }
    }
    if Occurs(c, t, stop, stem) {
      var i :| 0 <= i < |c| && t in Stems(c[i].tokens, stop, stem);
      assert c'[i] == c[i];
    }
    assert c'[|c|] == d;
  }

  lemma DocsWithSnoc(c: seq<Doc>, d: Doc, t: string, stop: set<string>, stem: string -> string)
    ensures DocsWith(c + [d], t, stop, stem) ==
            DocsWith(c, t, stop, stem) + (if t in Stems(d.tokens, stop, stem) then [d.id] else [])
  {
    assert (c + [d])[..|c|] == c;
  }

  /** The last entry of a term's posting list is the id of an earlier document. */
  lemma LastIsEarlier(c: seq<Doc>, t: string, stop: set<string>, stem: string -> string)
    requires DocsWith(c, t, stop, stem) != []
    ensures var p := DocsWith(c, t, stop, stem);
            exists i :: 0 <= i < |c| && c[i].id == p[|p| - 1]
  {
    var p := DocsWith(c, t, stop, stem);
    DocsWithMembers(c, t, stop, stem);
    assert p[|p| - 1] in p;
  }

  lemma InvertsStepAt(c: seq<Doc>, d: Doc, before: map<string, seq<int>>, after: map<string, seq<int>>,
                      t: string, stop: set<string>, stem: string -> string)
    requires forall i :: 0 <= i < |c| ==> c[i].id != d.id
    requires t in before <==> DocsWith(c, t, stop, stem) != []
    requires t in before ==> before[t] == DocsWith(c, t, stop, stem)
    requires t in after
    requires t in Stems(d.tokens, stop, stem) ==> after[t] == Posted(before, t, d.id)
    requires t !in Stems(d.tokens, stop, stem) ==> t in before && after[t] == before[t]
    ensures after[t] == DocsWith(c + [d], t, stop, stem)
  {
    DocsWithSnoc(c, d, t, stop, stem);
    if t in before {
      LastIsEarlier(c, t, stop, stem);
    }
  }

  /** Indexing one more document extends the index of the documents before it. */
  lemma InvertsSnoc(done: seq<Doc>, d: Doc, before: map<string, seq<int>>, after: map<string, seq<int>>,
                    stop: set<string>, stem: string -> string)
    requires DistinctIds(done + [d])
    requires Inverts(before, done, stop, stem)
    requires IndexedAfter(before, after, Stems(d.tokens, stop, stem), d.id)
    ensures Inverts(after, done + [d], stop, stem)
  {
    var docs := done + [d];
    assert docs[..|done|] == done && docs[|done|] == d;
    InvertsStep(docs, |done|, before, after, stop, stem);
    assert docs[..|done| + 1] == docs;
  }

  lemma InvertsStep(corpus: seq<Doc>, k: nat, before: map<string, seq<int>>, after: map<string, seq<int>>,
                    stop: set<string>, stem: string -> string)
    requires DistinctIds(corpus) && k < |corpus|
    requires Inverts(before, corpus[..k], stop, stem)
    requires IndexedAfter(before, after, Stems(corpus[k].tokens, stop, stem), corpus[k].id)
    ensures Inverts(after, corpus[..k + 1], stop, stem)
  {
    var d, c := corpus[k], corpus[..k];
    assert corpus[..k + 1] == c + [d];
    forall t ensures t in after <==> Occurs(c + [d], t, stop, stem) {
      OccursSnoc(c, d, t, stop, stem);
    }
    forall i | 0 <= i < |c| ensures c[i].id != d.id {
      assert c[i] == corpus[i];
    }
    forall t | t in after ensures after[t] == DocsWith(c + [d], t, stop, stem) {
      DocsWithNonEmpty(c, t, stop, stem);
      InvertsStepAt(c, d, before, after, t, stop, stem);
    }
  }

  class InvertedIndex {
    /** `cache_index`: term to posting list. */
    var cache: map<string, seq<int>>

    ghost predicate Valid()
      reads this
    {
      MapValid(cache)
    }

    /** Line 38: `cache_index = {}`. */
    constructor ()
      ensures cache == map[] && Valid()
    {
      cache := map[];
    }

    /** Lines 19-22: create [id] for a new term, else append id unless it is already last. */
    method AddPosting(term: string, id: int)
      requires Valid()
      modifies this
      ensures Valid()
      ensures cache == old(cache)[term := Posted(old(cache), term, id)]
    {
      PostedValid(cache, term, id);
      if term !in cache {
        cache := cache[term := [id]];
      } else if cache[term][|cache[term]| - 1] != id {
        cache := cache[term := cache[term] + [id]];
      } else {
        assert cache == cache[term := Posted(cache, term, id)];
      }
    }

    /**
     * `index(id)` (lines 14-22): for each token that is not a stop word, its stem's list
     * is created as [id], or gets id appended unless id is already its last entry.
     */
    method Index(d: Doc, stop: set<string>, stem: string -> string)
      requires Valid()
      modifies this
      ensures Valid()
      ensures IndexedAfter(old(cache), cache, Stems(d.tokens, stop, stem), d.id)
      ensures forall t :: t in Stems(d.tokens, stop, stem) && t !in old(cache) ==> cache[t] == [d.id]
      ensures forall t :: t in Stems(d.tokens, stop, stem) ==> cache[t][|cache[t]| - 1] == d.id
      ensures old(MapBelow(cache, d.id)) && old(MapAscending(cache)) ==> MapAscending(cache)
    {
      ghost var before := cache;
      var k := 0;
      while k < |d.tokens|
        invariant 0 <= k <= |d.tokens|
        invariant Valid()
        invariant IndexedAfter(before, cache, Stems(d.tokens[..k], stop, stem), d.id)
      {
        IndexToken(d, k, stop, stem, before);
        k := k + 1;
      }
      assert d.tokens[..|d.tokens|] == d.tokens;
      IndexedAfterEnds(before, cache, Stems(d.tokens, stop, stem), d.id);
      if MapBelow(before, d.id) && MapAscending(before) {
        IndexedAfterAscending(before, cache, Stems(d.tokens, stop, stem), d.id);
      }
    }

    /** One pass of the loop in `index`: token `k` of the document, unless it is a stop word. */
    method IndexToken(d: Doc, k: nat, stop: set<string>, stem: string -> string, ghost before: map<string, seq<int>>)
      requires Valid() && k < |d.tokens|
      requires IndexedAfter(before, cache, Stems(d.tokens[..k], stop, stem), d.id)
      modifies this
      ensures Valid()
      ensures IndexedAfter(before, cache, Stems(d.tokens[..k + 1], stop, stem), d.id)
    {
      var token := d.tokens[k];
      ghost var done := Stems(d.tokens[..k], stop, stem);
      assert d.tokens[..k + 1] == d.tokens[..k] + [token];
      StemsAppend(d.tokens[..k], [token], stop, stem);
      StemsSingle(token, stop, stem);
      if token !in stop {
        var term := stem(token);
        IndexedAfterStep(before, cache, done, term, d.id);
        AddPosting(term, d.id);
      } else {
        assert done + [] == done;
      }
    }

    /**
     * Lines 38-40: start from an empty index and index every record of the corpus dict in
     * key order. Line 15 tokenizes a record when the loop reaches it, and an empty Title
     * list raises IndexError there, ending the script with only the records before it
     * indexed. Otherwise each posting list holds the documents containing its term, in
     * corpus order.
     */
    method IndexCorpus(records: seq<(int, Record)>, tokenize: string -> seq<string>, stop: set<string>,
                       stem: string -> string)
      returns (ok: bool)
      requires DistinctKeys(records)
      modifies this
      ensures Valid()
      ensures ok <==> Tokenized(tokenize, records).Some?
      ensures ok ==> Inverts(cache, Tokenized(tokenize, records).value, stop, stem)
      ensures !ok ==> var done := Tokenized(tokenize, records[..FirstUntitled(records)]);
                      done.Some? && Inverts(cache, done.value, stop, stem)
    {
      cache := map[];
      var k := 0;
      ghost var done: seq<Doc> := [];
      while k < |records|
        invariant 0 <= k <= |records| && k <= FirstUntitled(records)
        invariant Valid()
        invariant Tokenized(tokenize, records[..k]) == Some(done)
        invariant Inverts(cache, done, stop, stem)
      {
        var d := DocTokens(tokenize, records[k].0, records[k].1);
        if d.None? {
          UntitledStops(tokenize, records, k);
          return false;
        }
        ghost var before := cache;
        Index(d.value, stop, stem);
        TokenizedStep(tokenize, records, k, done);
        InvertsSnoc(done, d.value, before, cache, stop, stem);
        done := done + [d.value];
        k := k + 1;
      }
      assert records[..k] == records;
      ok := true;
    }
  }
}
