/**
 * The normalizer shared by both index builders and both query handlers. NLTK's
 * tokenizer, Porter stemmer and English stop-word list are parameters: `tokenize`,
 * `stem` and `stop`.
 */
module Normalize {
  import opened Wrappers

  /** A corpus record as the JSON corpus stores it (Title, Director and Location are lists). */
  datatype Record = Record(title: seq<string>, text: string, director: seq<string>, location: seq<string>)

  /** A document ready for indexing: its id and the tokens of its first title followed by its text. */
  datatype Doc = Doc(id: int, tokens: seq<string>)

  /** The corpus is a dict keyed by id, so no two of its documents share one. */
  predicate DistinctIds(corpus: seq<Doc>)
  {
    forall i, j :: 0 <= i < j < |corpus| ==> corpus[i].id != corpus[j].id
  }

  /**
   * `word_tokenize(Title[0]) + word_tokenize(Text)`; an empty Title list raises
   * IndexError, here None.
   */
  function DocTokens(tokenize: string -> seq<string>, id: int, r: Record): (d: Option<Doc>)
    ensures d.None? <==> r.title == []
    ensures d.Some? ==> d.value.id == id && d.value.tokens == tokenize(r.title[0]) + tokenize(r.text)
  {
    if r.title == [] then None else Some(Doc(id, tokenize(r.title[0]) + tokenize(r.text)))
  }

  /** The corpus dict's entries, in key order: an id and its record; keys are distinct. */
  predicate DistinctKeys(records: seq<(int, Record)>)
  {
    forall i, j :: 0 <= i < j < |records| ==> records[i].0 != records[j].0
  }

  /** Position of the first record whose Title list is empty, or |records| when none is. */
  function FirstUntitled(records: seq<(int, Record)>): (k: nat)
    ensures k <= |records|
    ensures forall j :: 0 <= j < k ==> records[j].1.title != []
    ensures k < |records| ==> records[k].1.title == []
  {
    if records == [] || records[0].1.title == [] then 0
    else
      var k := FirstUntitled(records[1..]);
      assert forall j :: 0 < j <= k ==> records[j] == records[1..][j - 1];
      1 + k
  }

  /**
   * `DocTokens` of every record in key order, as the driver loops reach them: None
   * exactly when some record has an empty Title list.
   */
  function Tokenized(tokenize: string -> seq<string>, records: seq<(int, Record)>): (r: Option<seq<Doc>>)
    ensures r.None? <==> exists k :: 0 <= k < |records| && records[k].1.title == []
    ensures r.Some? ==> |r.value| == |records|
    ensures r.Some? ==> forall k :: 0 <= k < |records| ==> DocTokens(tokenize, records[k].0, records[k].1) == Some(r.value[k])
  {
    if records == [] then Some([])
    else
      var n := |records| - 1;
      var front := Tokenized(tokenize, records[..n]);
      assert forall k :: 0 <= k < n ==> records[..n][k] == records[k];
      var d := DocTokens(tokenize, records[n].0, records[n].1);
      if front.None? || d.None? then None else Some(front.value + [d.value])
  }

  /** The records before the first untitled one all tokenize, and distinct keys give distinct ids. */
  lemma TokenizedPrefix(tokenize: string -> seq<string>, records: seq<(int, Record)>, k: nat)
    requires k <= FirstUntitled(records)
    requires DistinctKeys(records)
    ensures Tokenized(tokenize, records[..k]).Some?
    ensures DistinctIds(Tokenized(tokenize, records[..k]).value)
  {
    assert forall j :: 0 <= j < k ==> records[..k][j] == records[j];
  }

  /**
   * A driver loop that has reached record `k` with every earlier record tokenized: a
   * titled record extends the tokenized prefix by its document, with ids still distinct.
   */
  lemma TokenizedStep(tokenize: string -> seq<string>, records: seq<(int, Record)>, k: nat, done: seq<Doc>)
    requires DistinctKeys(records)
    requires k < |records| && k <= FirstUntitled(records) && Tokenized(tokenize, records[..k]) == Some(done)
    requires records[k].1.title != []
    ensures k + 1 <= FirstUntitled(records)
    ensures Tokenized(tokenize, records[..k + 1]) == Some(done + [DocTokens(tokenize, records[k].0, records[k].1).value])
    ensures DistinctIds(done + [DocTokens(tokenize, records[k].0, records[k].1).value])
  {
    assert records[..k + 1][..k] == records[..k];
    TokenizedPrefix(tokenize, records, k + 1);
  }

  /** An untitled record reached with every earlier record titled is the first one, and the whole corpus fails. */
  lemma UntitledStops(tokenize: string -> seq<string>, records: seq<(int, Record)>, k: nat)
    requires k < |records| && k <= FirstUntitled(records) && records[k].1.title == []
    ensures FirstUntitled(records) == k
    ensures Tokenized(tokenize, records).None?
  {
  }

  /**
   * The terms a token stream contributes: the stem of every token that is not a stop
   * word, in token order. The stop test is on the raw token, before stemming.
   */
  function Stems(tokens: seq<string>, stop: set<string>, stem: string -> string): (r: seq<string>)
    ensures |r| <= |tokens|
    ensures forall t :: t in r <==> exists k :: 0 <= k < |tokens| && tokens[k] !in stop && stem(tokens[k]) == t
  {
    if tokens == [] then []
    else
      var rest := Stems(tokens[1..], stop, stem);
      assert forall k :: 0 < k < |tokens| ==> tokens[k] == tokens[1..][k - 1];
      if tokens[0] in stop then rest else [stem(tokens[0])] + rest
  }

  lemma {:induction false} StemsAppend(a: seq<string>, b: seq<string>, stop: set<string>, stem: string -> string)
    ensures Stems(a + b, stop, stem) == Stems(a, stop, stem) + Stems(b, stop, stem)
  {
    if a != [] {
      assert (a + b)[1..] == a[1..] + b;
      StemsAppend(a[1..], b, stop, stem);
    } else {
      assert a + b == b;
    }
  }

  lemma StemsSingle(w: string, stop: set<string>, stem: string -> string)
    ensures Stems([w], stop, stem) == if w in stop then [] else [stem(w)]
  {
    assert [w][1..] == [];
  }

  /** A stop-word token contributes nothing: adding one anywhere leaves the terms unchanged. */
  lemma StopTokenContributesNothing(a: seq<string>, w: string, b: seq<string>, stop: set<string>, stem: string -> string)
    requires w in stop
    ensures Stems(a + [w] + b, stop, stem) == Stems(a + b, stop, stem)
  {
    StemsAppend(a + [w], b, stop, stem);
    StemsAppend(a, [w], stop, stem);
    StemsAppend(a, b, stop, stem);
    assert Stems([w], stop, stem) == [];
  }
}
