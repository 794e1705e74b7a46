/**
 * The query front end shared by the two `results()` handlers (boolean_query.py and
 * vs_query.py): `query.split(' ')`, the three-way routing of each raw piece, and the
 * page slice `hits[(page_num - 1) * 10 : page_num * 10]` with Python's slice rules.
 */
module QueryText {
  import opened Scoring

  // ---------------------------------------------------------------- splitting

  /** The index of the first space of `s`. */
  function SpaceAt(s: string): (i: nat)
    requires ' ' in s
    ensures i < |s| && s[i] == ' ' && ' ' !in s[..i]
  {
    if s[0] == ' ' then 0
    else
      assert ' ' in s[1..] by {
        var j :| 0 <= j < |s| && s[j] == ' ';
        assert s[1..][j - 1] == ' ';
      }
      var i := 1 + SpaceAt(s[1..]);
      assert s[..i] == [s[0]] + s[1..][..i - 1];
      i
  }

  /** A space with none before it is the first space. */
  lemma {:induction false} SpaceAtIs(s: string, j: nat)
    requires j < |s| && s[j] == ' ' && ' ' !in s[..j]
    ensures SpaceAt(s) == j
  {
    if s[0] != ' ' {
      assert s[1..][j - 1] == ' ';
      assert s[1..][..j - 1] == s[1..j];
      assert forall c :: c in s[1..j] ==> c in s[..j];
      SpaceAtIs(s[1..], j - 1);
    }
  }

  /** `s.split(' ')`: the pieces between single spaces, so two adjacent spaces give an empty piece. */
  function Split(s: string): (pieces: seq<string>)
    ensures |pieces| >= 1
    ensures forall k :: 0 <= k < |pieces| ==> ' ' !in pieces[k]
    decreases |s|
  {
    if ' ' !in s then [s]
    else
      var i := SpaceAt(s);
      [s[..i]] + Split(s[i + 1..])
  }

  /** `' '.join(pieces)`. */
  function Join(pieces: seq<string>): string
    requires |pieces| >= 1
  {
    if |pieces| == 1 then pieces[0] else pieces[0] + " " + Join(pieces[1..])
  }

  /** Joining the pieces with single spaces gives the query back. */
  lemma {:induction false} JoinSplit(s: string)
    ensures Join(Split(s)) == s
    decreases |s|
  {
    if ' ' in s {
      var i := SpaceAt(s);
      JoinSplit(s[i + 1..]);
      assert Split(s)[1..] == Split(s[i + 1..]);
      assert s == s[..i] + " " + s[i + 1..];
    }
  }

  /** Splitting space-free pieces joined by single spaces gives exactly those pieces, empty ones included. */
  lemma {:induction false} SplitJoin(pieces: seq<string>)
    requires |pieces| >= 1
    requires forall k :: 0 <= k < |pieces| ==> ' ' !in pieces[k]
    ensures Split(Join(pieces)) == pieces
  {
    if |pieces| > 1 {
      var head, tail := pieces[0], pieces[1..];
      assert forall k :: 0 <= k < |tail| ==> tail[k] == pieces[k + 1];
      SplitJoin(tail);
      assert Join(pieces) == head + " " + Join(tail);
      SplitCons(head, Join(tail));
      assert pieces == [head] + tail;
    }
  }

  /** A space-free piece, a space, and the rest: the piece is the first of the split. */
  lemma SplitCons(head: string, rest: string)
    requires ' ' !in head
    ensures Split(head + " " + rest) == [head] + Split(rest)
  {
    var s := head + " " + rest;
    assert s[|head|] == ' ';
    assert s[..|head|] == head;
    SpaceAtIs(s, |head|);
    assert s[|head| + 1..] == rest;
  }

  /** Two adjacent spaces put an empty piece between the words around them. */
  lemma DoubleSpace(a: string, b: string)
    requires ' ' !in a && ' ' !in b
    ensures Split(a + "  " + b) == [a, "", b]
  {
    assert [a, "", b][1..] == ["", b] && ["", b][1..] == [b];
    assert Join([b]) == b;
    assert Join(["", b]) == "" + " " + b == " " + b;
    assert Join([a, "", b]) == a + " " + (" " + b) == a + "  " + b;
    SplitJoin([a, "", b]);
  }

  // ---------------------------------------------------------------- routing

  /** Lines 60-67 of boolean_query.py: the routing of one raw piece. */
  datatype Route = Skipped | Clean | Unknown

  /** The stop-word test reads the raw piece; only a piece that passes it has its stem looked up. */
  function RouteOf(e: string, stop: set<string>, stem: string -> string, vocab: set<string>): (r: Route)
    ensures r == Skipped <==> e in stop
    ensures r == Clean <==> e !in stop && stem(e) in vocab
    ensures r == Unknown <==> e !in stop && stem(e) !in vocab
  {
    if e in stop then Skipped else if stem(e) in vocab then Clean else Unknown
  }

  /** `skipped`: the raw pieces that are stop words, in query order. */
  function SkippedOf(pieces: seq<string>, stop: set<string>, stem: string -> string, vocab: set<string>): seq<string>
  {
    if pieces == [] then []
    else
      var init, e := pieces[..|pieces| - 1], pieces[|pieces| - 1];
      SkippedOf(init, stop, stem, vocab) + (if RouteOf(e, stop, stem, vocab) == Skipped then [e] else [])
  }

  /** `clean_terms`: the stems of the pieces the vocabulary knows, in query order. */
  function CleanOf(pieces: seq<string>, stop: set<string>, stem: string -> string, vocab: set<string>): seq<string>
  {
    if pieces == [] then []
    else
      var init, e := pieces[..|pieces| - 1], pieces[|pieces| - 1];
      CleanOf(init, stop, stem, vocab) + (if RouteOf(e, stop, stem, vocab) == Clean then [stem(e)] else [])
  }

  /** `unknown_terms`: the raw pieces that are neither stop words nor known, in query order. */
  function UnknownOf(pieces: seq<string>, stop: set<string>, stem: string -> string, vocab: set<string>): seq<string>
  {
    if pieces == [] then []
    else
      var init, e := pieces[..|pieces| - 1], pieces[|pieces| - 1];
      UnknownOf(init, stop, stem, vocab) + (if RouteOf(e, stop, stem, vocab) == Unknown then [e] else [])
  }

  /** How many pieces take route `r`. */
  function RouteCount(pieces: seq<string>, r: Route, stop: set<string>, stem: string -> string, vocab: set<string>): nat
  {
    if pieces == [] then 0
    else RouteCount(pieces[..|pieces| - 1], r, stop, stem, vocab) + (if RouteOf(pieces[|pieces| - 1], stop, stem, vocab) == r then 1 else 0)
  }

  /**
   * Every piece lands in exactly one list: each list is as long as the number of
   * pieces of its route, and the three lengths add up to the number of pieces.
   */
  lemma {:induction false} RoutesPartition(pieces: seq<string>, stop: set<string>, stem: string -> string, vocab: set<string>)
    ensures |SkippedOf(pieces, stop, stem, vocab)| == RouteCount(pieces, Skipped, stop, stem, vocab)
    ensures |CleanOf(pieces, stop, stem, vocab)| == RouteCount(pieces, Clean, stop, stem, vocab)
    ensures |UnknownOf(pieces, stop, stem, vocab)| == RouteCount(pieces, Unknown, stop, stem, vocab)
    ensures |SkippedOf(pieces, stop, stem, vocab)| + |CleanOf(pieces, stop, stem, vocab)| + |UnknownOf(pieces, stop, stem, vocab)| == |pieces|
  {
    if pieces != [] {
      RoutesPartition(pieces[..|pieces| - 1], stop, stem, vocab);
    }
  }

  /**
   * What each list holds: `skipped` and `unknown_terms` hold raw pieces, `clean_terms`
   * their stems, and every clean term is in the vocabulary.
   */
  lemma {:induction false} RoutesMembers(pieces: seq<string>, stop: set<string>, stem: string -> string, vocab: set<string>)
    ensures forall e :: e in SkippedOf(pieces, stop, stem, vocab) <==> e in pieces && e in stop
    ensures forall e :: e in UnknownOf(pieces, stop, stem, vocab) <==> e in pieces && e !in stop && stem(e) !in vocab
    ensures forall t :: t in CleanOf(pieces, stop, stem, vocab) <==>
              exists k :: 0 <= k < |pieces| && pieces[k] !in stop && stem(pieces[k]) == t && t in vocab
    ensures forall t :: t in CleanOf(pieces, stop, stem, vocab) ==> t in vocab
  {
    if pieces != [] {
      var init, e := pieces[..|pieces| - 1], pieces[|pieces| - 1];
      RoutesMembers(init, stop, stem, vocab);
      assert pieces == init + [e];
      forall t ensures t in CleanOf(pieces, stop, stem, vocab) <==>
                       exists k :: 0 <= k < |pieces| && pieces[k] !in stop && stem(pieces[k]) == t && t in vocab {
        if exists k :: 0 <= k < |init| && init[k] !in stop && stem(init[k]) == t && t in vocab {
          var k :| 0 <= k < |init| && init[k] !in stop && stem(init[k]) == t && t in vocab;
          assert pieces[k] == init[k];
        }
        if exists k :: 0 <= k < |pieces| && pieces[k] !in stop && stem(pieces[k]) == t && t in vocab {
          var k :| 0 <= k < |pieces| && pieces[k] !in stop && stem(pieces[k]) == t && t in vocab;
          if k < |init| {
            assert init[k] == pieces[k];
          }
        }
      }
    }
  }

  // ---------------------------------------------------------------- paging

  const PageSize := 10

  /** Python's reading of a slice bound `i` against a sequence of length `n`: negative counts from the end, then clamped. */
  function SliceBound(i: int, n: nat): (b: nat)
    ensures b <= n
    ensures 0 <= i <= n ==> b == i
    ensures i > n ==> b == n
    ensures i < 0 && i + n >= 0 ==> b == i + n
    ensures i + n < 0 ==> b == 0
  {
    if i < 0 then (if i + n < 0 then 0 else i + n) else if i > n then n else i
  }

  /** `xs[i:j]`. */
  function PySlice<T>(xs: seq<T>, i: int, j: int): seq<T>
  {
    var a, b := SliceBound(i, |xs|), SliceBound(j, |xs|);
    if a < b then xs[a..b] else []
  }

  /** Line 77 of boolean_query.py, line 84 of vs_query.py: `xs[(p - 1) * 10 : p * 10]`. */
  function Page<T>(xs: seq<T>, p: int): seq<T>
  {
    PySlice(xs, (p - 1) * PageSize, p * PageSize)
  }

  /**
   * Whatever the page number, a page is a run of at most 10 consecutive results; from
   * page 1 on it starts at result (p - 1) * 10 and is empty past the last page.
   */
  lemma PageWindow<T>(xs: seq<T>, p: int)
    ensures |Page(xs, p)| <= PageSize
    ensures var lo := SliceBound((p - 1) * PageSize, |xs|);
            lo + |Page(xs, p)| <= |xs| && Page(xs, p) == xs[lo..lo + |Page(xs, p)|]
    ensures p >= 1 && (p - 1) * PageSize < |xs| ==>
              Page(xs, p) == xs[(p - 1) * PageSize..if p * PageSize <= |xs| then p * PageSize else |xs|]
    ensures p >= 1 && (p - 1) * PageSize >= |xs| ==> Page(xs, p) == []
    ensures p == 0 ==> Page(xs, p) == []
  {
  }

  /** Page -1 is the second-to-last block of ten, counted from the end. */
  lemma NegativePage<T>(xs: seq<T>)
    requires |xs| >= 2 * PageSize
    ensures Page(xs, -1) == xs[|xs| - 2 * PageSize..|xs| - PageSize]
  {
  }

  /** Pages 1 to k one after another. */
  function Pages<T>(xs: seq<T>, k: nat): seq<T>
  {
    if k == 0 then [] else Pages(xs, k - 1) + Page(xs, k)
  }

  /** Pages 1..k concatenate to the first 10k results, so pages 1..ceil(n/10) give them all. */
  lemma {:induction false} PagesConcatenate<T>(xs: seq<T>, k: nat)
    ensures Pages(xs, k) == xs[..if k * PageSize <= |xs| then k * PageSize else |xs|]
    ensures k * PageSize >= |xs| ==> Pages(xs, k) == xs
  {
    if k > 0 {
      PagesConcatenate(xs, k - 1);
      PageWindow(xs, k);
    }
  }

  /** The number of pages that holds every result. */
  lemma AllPages<T>(xs: seq<T>)
    ensures Pages(xs, (|xs| + PageSize - 1) / PageSize) == xs
  {
    PagesConcatenate(xs, (|xs| + PageSize - 1) / PageSize);
  }
}
