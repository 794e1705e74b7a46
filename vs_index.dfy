/**
 * The vector-space index builder (vs_index.py, `index()`): a pass over the corpus
 * counting each document's term frequencies, its term set, the log-frequency weights
 * and the document frequencies (kept in `idf` until line 47); then the idf pass; then
 * the tf-idf weights, normalized to unit length. `log10` and `sqrt` are parameters,
 * and the properties that need their laws take those laws as preconditions.
 */
module VectorIndexing {
  import opened Wrappers
  import opened Normalize
  import opened Scoring

  /** For each element of `s`, how many times it occurs: the counter after `+= 1` per element. */
  function Counts(s: seq<string>): map<string, int>
  {
    if s == [] then map[]
    else
      var c := Counts(s[..|s| - 1]);
      c[s[|s| - 1] := Freq(c, s[|s| - 1]) + 1]
  }

  /** `doc_terms[id]`: the stems of the non-stop tokens (lines 30-34). */
  function TermSet(tokens: seq<string>, stop: set<string>, stem: string -> string): set<string>
  {
    Members(Stems(tokens, stop, stem))
  }

  /** `tf[id]`: each stem with its number of occurrences (line 35). */
  function TermFreq(tokens: seq<string>, stop: set<string>, stem: string -> string): map<string, int>
  {
    Counts(Stems(tokens, stop, stem))
  }

  /** The number of non-stop tokens whose stem is `t`, counted directly. */
  function StemCount(tokens: seq<string>, stop: set<string>, stem: string -> string, t: string): nat
  {
    if tokens == [] then 0
    else (if tokens[0] !in stop && stem(tokens[0]) == t then 1 else 0) + StemCount(tokens[1..], stop, stem, t)
  }

  /** Counting one more occurrence of `x`. */
  lemma CountsSnoc(s: seq<string>, x: string)
    ensures var c := Counts(s); Counts(s + [x]) == c[x := Freq(c, x) + 1]
  {
    assert (s + [x])[..|s|] == s;
  }

  /** The counter holds exactly the elements of `s`, each with its multiplicity. */
  lemma {:induction false} CountsMultiplicity(s: seq<string>)
    ensures forall t :: t in Counts(s) <==> t in s
    ensures forall t :: t in Counts(s) ==> Counts(s)[t] == multiset(s)[t]
  {
    if s != [] {
      var init, x := s[..|s| - 1], s[|s| - 1];
      CountsMultiplicity(init);
      assert s == init + [x];
      assert multiset(s) == multiset(init) + multiset{x};
    }
  }

  /**
   * tf[id][t] is the number of non-stop tokens stemming to `t`, and a stem is in
   * doc_terms[id] exactly when tf[id][t] >= 1.
   */
  lemma {:induction false} TermFreqMeaning(tokens: seq<string>, stop: set<string>, stem: string -> string)
    ensures TermFreq(tokens, stop, stem).Keys == TermSet(tokens, stop, stem)
    ensures forall t :: t in TermSet(tokens, stop, stem) <==> StemCount(tokens, stop, stem, t) >= 1
    ensures forall t :: t in TermFreq(tokens, stop, stem) ==>
              TermFreq(tokens, stop, stem)[t] == StemCount(tokens, stop, stem, t) >= 1
  {
    CountsMultiplicity(Stems(tokens, stop, stem));
    forall t ensures multiset(Stems(tokens, stop, stem))[t] == StemCount(tokens, stop, stem, t) {
      StemCountIsMultiplicity(tokens, stop, stem, t);
    }
  }

  lemma {:induction false} StemCountIsMultiplicity(tokens: seq<string>, stop: set<string>, stem: string -> string, t: string)
    ensures multiset(Stems(tokens, stop, stem))[t] == StemCount(tokens, stop, stem, t)
  {
    if tokens != [] {
      StemCountIsMultiplicity(tokens[1..], stop, stem, t);
      assert tokens == [tokens[0]] + tokens[1..];
      StemsAppend([tokens[0]], tokens[1..], stop, stem);
      StemsSingle(tokens[0], stop, stem);
    }
  }

  /** The number of documents of `c` whose term set holds `t`. */
  function DocFreq(c: seq<Doc>, t: string, stop: set<string>, stem: string -> string): nat
  {
    if c == [] then 0
    else DocFreq(c[..|c| - 1], t, stop, stem) + (if t in TermSet(c[|c| - 1].tokens, stop, stem) then 1 else 0)
  }

  /** Lines 39-44 for one document: `idf[t] += 1` on the defaultdict for each term of `ts`. */
  function Tallied(m: map<string, real>, ts: set<string>): map<string, real>
  {
    map t | t in m.Keys + ts :: Weight(m, t) + (if t in ts then 1.0 else 0.0)
  }

  /** `math.log10` on line 41, with the guard kept: `1 + log10(tf)` if tf > 0 else 0. */
  function LogFreq(tf: int, log10: real -> real): real
  {
    if tf > 0 then 1.0 + log10(tf as real) else 0.0
  }

  /** The defaultdict read `tf[id][t]`: the count, or 0 for a term the row lacks. */
  function Freq(row: map<string, int>, t: string): int
  {
    if t in row then row[t] else 0
  }

  /** `wf[id]` once lines 39-41 have run over the terms `ts`. */
  function LogFreqRow(row: map<string, int>, ts: set<string>, log10: real -> real): map<string, real>
  {
    map t | t in ts :: LogFreq(Freq(row, t), log10)
  }

  /** The tables after lines 24-44 have run over the documents of `c`, in order. */
  function TfTable(c: seq<Doc>, stop: set<string>, stem: string -> string): map<int, map<string, int>>
  {
    if c == [] then map[]
    else
      var prev, d := TfTable(c[..|c| - 1], stop, stem), c[|c| - 1];
      if TermSet(d.tokens, stop, stem) == {} then prev else prev[d.id := TermFreq(d.tokens, stop, stem)]
  }

  function TermsTable(c: seq<Doc>, stop: set<string>, stem: string -> string): map<int, set<string>>
  {
    if c == [] then map[]
    else
      var d := c[|c| - 1];
      TermsTable(c[..|c| - 1], stop, stem)[d.id := TermSet(d.tokens, stop, stem)]
  }

  function WfTable(c: seq<Doc>, stop: set<string>, stem: string -> string, log10: real -> real): map<int, map<string, real>>
  {
    if c == [] then map[]
    else
      var prev, d := WfTable(c[..|c| - 1], stop, stem, log10), c[|c| - 1];
      var ts := TermSet(d.tokens, stop, stem);
      if ts == {} then prev else prev[d.id := LogFreqRow(TermFreq(d.tokens, stop, stem), ts, log10)]
  }

  /** `idf` before line 47: the document-frequency counter. */
  function DfTable(c: seq<Doc>, stop: set<string>, stem: string -> string): map<string, real>
  {
    if c == [] then map[]
    else Tallied(DfTable(c[..|c| - 1], stop, stem), TermSet(c[|c| - 1].tokens, stop, stem))
  }

  /** Lines 47-49: `idf[t] = log10(N / df)` with N the number of documents. */
  function IdfTable(df: map<string, real>, n: int, log10: real -> real): map<string, real>
    requires forall t :: t in df ==> df[t] != 0.0
  {
    map t | t in df :: log10(n as real / df[t])
  }

  /** A document frequency is at most N, and at least 1 exactly when some document holds `t`. */
  lemma {:induction false} DocFreqBounds(c: seq<Doc>, t: string, stop: set<string>, stem: string -> string)
    ensures DocFreq(c, t, stop, stem) <= |c|
    ensures DocFreq(c, t, stop, stem) >= 1 <==> exists k :: 0 <= k < |c| && t in TermSet(c[k].tokens, stop, stem)
  {
    if c != [] {
      var init := c[..|c| - 1];
      DocFreqBounds(init, t, stop, stem);
      if exists k :: 0 <= k < |init| && t in TermSet(init[k].tokens, stop, stem) {
        var k :| 0 <= k < |init| && t in TermSet(init[k].tokens, stop, stem);
        assert c[k] == init[k];
      }
      if exists k :: 0 <= k < |c| && t in TermSet(c[k].tokens, stop, stem) {
        var k :| 0 <= k < |c| && t in TermSet(c[k].tokens, stop, stem);
        if k < |init| {
          assert init[k] == c[k];
        }
      }
    }
  }

  /**
   * Before line 47, `idf[t]` is the number of documents containing `t`, and its keys
   * are exactly the terms of some document.
   */
  lemma {:induction false} DfTableCounts(c: seq<Doc>, stop: set<string>, stem: string -> string)
    ensures forall t :: t in DfTable(c, stop, stem) <==> DocFreq(c, t, stop, stem) >= 1
    ensures forall t :: t in DfTable(c, stop, stem) ==> DfTable(c, stop, stem)[t] == DocFreq(c, t, stop, stem) as real
  {
    if c != [] {
      DfTableCounts(c[..|c| - 1], stop, stem);
    }
  }

  /**
   * Lines 47-49 never divide by zero: every df lies between 1 and N, so `N / df` is at
   * least 1; if `log10` is non-negative from 1 on, every idf is non-negative.
   */
  lemma IdfWellDefined(c: seq<Doc>, stop: set<string>, stem: string -> string, log10: real -> real)
    ensures forall t :: t in DfTable(c, stop, stem) ==> 1.0 <= DfTable(c, stop, stem)[t] <= |c| as real
    ensures forall t :: t in DfTable(c, stop, stem) ==> (|c| as real) / DfTable(c, stop, stem)[t] >= 1.0
    ensures (forall x: real :: x >= 1.0 ==> log10(x) >= 0.0) ==>
              var df := DfTable(c, stop, stem);
              forall t :: t in IdfTable(df, |c|, log10) ==> IdfTable(df, |c|, log10)[t] >= 0.0
  {
    DfTableCounts(c, stop, stem);
    var df := DfTable(c, stop, stem);
    forall t | t in df ensures 1.0 <= df[t] <= |c| as real && (|c| as real) / df[t] >= 1.0 {
      DocFreqBounds(c, t, stop, stem);
      QuotientAtLeastOne(|c| as real, df[t]);
    }
  }

  lemma QuotientAtLeastOne(n: real, d: real)
    requires 1.0 <= d <= n
    ensures n / d >= 1.0
  {
  }

  /** The key sets of the tables: every document gets a term set, only those with terms a tf and wf row. */
  lemma {:induction false} TableKeys(c: seq<Doc>, stop: set<string>, stem: string -> string, log10: real -> real)
    ensures forall x :: x in TermsTable(c, stop, stem) <==> exists k :: 0 <= k < |c| && c[k].id == x
    ensures TfTable(c, stop, stem).Keys <= TermsTable(c, stop, stem).Keys
    ensures WfTable(c, stop, stem, log10).Keys == TfTable(c, stop, stem).Keys
  {
    if c != [] {
      var init := c[..|c| - 1];
      TableKeys(init, stop, stem, log10);
      forall x ensures x in TermsTable(c, stop, stem) <==> exists k :: 0 <= k < |c| && c[k].id == x {
        if exists k :: 0 <= k < |init| && init[k].id == x {
          var k :| 0 <= k < |init| && init[k].id == x;
          assert c[k] == init[k];
        }
        if exists k :: 0 <= k < |c| && c[k].id == x {
          var k :| 0 <= k < |c| && c[k].id == x;
          if k < |init| {
            assert init[k] == c[k];
          }
        }
      }
    }
  }

  /** With distinct ids, each document's rows are those computed from its own tokens. */
  lemma {:induction false} DocTables(c: seq<Doc>, k: int, stop: set<string>, stem: string -> string, log10: real -> real)
    requires DistinctIds(c) && 0 <= k < |c|
    ensures var d, ts := c[k], TermSet(c[k].tokens, stop, stem);
            && d.id in TermsTable(c, stop, stem) && TermsTable(c, stop, stem)[d.id] == ts
            && (d.id in TfTable(c, stop, stem) <==> ts != {})
            && (d.id in WfTable(c, stop, stem, log10) <==> ts != {})
            && (ts != {} ==> && TfTable(c, stop, stem)[d.id] == TermFreq(d.tokens, stop, stem)
                             && WfTable(c, stop, stem, log10)[d.id] == LogFreqRow(TermFreq(d.tokens, stop, stem), ts, log10))
  {
    var init := c[..|c| - 1];
    if k < |c| - 1 {
      assert DistinctIds(init) by {
        forall i, j | 0 <= i < j < |init| ensures init[i].id != init[j].id {
          assert init[i] == c[i] && init[j] == c[j];
        }
      }
      assert init[k] == c[k];
      DocTables(init, k, stop, stem, log10);
    } else {
      TableKeys(init, stop, stem, log10);
      assert c[k].id !in TermsTable(init, stop, stem) by {
        forall j | 0 <= j < |init| ensures init[j].id != c[k].id {
          assert init[j] == c[j];
        }
      }
    }
  }

  /** `t` is in doc_terms[id] exactly when tf[id][t] >= 1 (lines 30-37). */
  lemma DocTermsAreCounted(c: seq<Doc>, stop: set<string>, stem: string -> string)
    requires DistinctIds(c)
    ensures var terms, tf := TermsTable(c, stop, stem), TfTable(c, stop, stem);
            forall x, t :: x in terms ==> (t in terms[x] <==> x in tf && Freq(tf[x], t) >= 1)
  {
    var terms, tf := TermsTable(c, stop, stem), TfTable(c, stop, stem);
    // Only the term and tf tables matter here, so any log10 will do.
    var log10 := (x: real) => 0.0;
    TableKeys(c, stop, stem, log10);
    forall x, t | x in terms ensures t in terms[x] <==> x in tf && Freq(tf[x], t) >= 1 {
      var k :| 0 <= k < |c| && c[k].id == x;
      DocTables(c, k, stop, stem, log10);
      TermFreqMeaning(c[k].tokens, stop, stem);
    }
  }

  /**
   * Line 41 always takes its first branch: every term of doc_terms[id] has tf >= 1, so
   * wf[id][t] is `1 + log10(tf[id][t])`.
   */
  lemma WfFirstBranch(c: seq<Doc>, stop: set<string>, stem: string -> string, log10: real -> real)
    requires DistinctIds(c)
    ensures var wf, tf := WfTable(c, stop, stem, log10), TfTable(c, stop, stem);
            && wf.Keys == tf.Keys
            && forall x, t :: x in wf && t in wf[x] ==>
                 t in tf[x] && tf[x][t] >= 1 && wf[x][t] == 1.0 + log10(tf[x][t] as real)
  {
    var wf, tf := WfTable(c, stop, stem, log10), TfTable(c, stop, stem);
    TableKeys(c, stop, stem, log10);
    forall x, t | x in wf && t in wf[x] ensures t in tf[x] && tf[x][t] >= 1 && wf[x][t] == 1.0 + log10(tf[x][t] as real) {
      var k :| 0 <= k < |c| && c[k].id == x;
      DocTables(c, k, stop, stem, log10);
      TermFreqMeaning(c[k].tokens, stop, stem);
    }
  }

  /** One more term tallied. */
  lemma TalliedStep(m: map<string, real>, ts: set<string>, t: string)
    requires t !in ts
    ensures var p := Tallied(m, ts); Tallied(m, ts + {t}) == p[t := Weight(p, t) + 1.0]
  {
    var p := Tallied(m, ts);
    assert Tallied(m, ts + {t}).Keys == p[t := Weight(p, t) + 1.0].Keys;
  }

  /** One more term weighted. */
  lemma LogFreqRowStep(row: map<string, int>, ts: set<string>, t: string, log10: real -> real)
    ensures LogFreqRow(row, ts + {t}, log10) == LogFreqRow(row, ts, log10)[t := LogFreq(Freq(row, t), log10)]
  {
    assert LogFreqRow(row, ts + {t}, log10).Keys == LogFreqRow(row, ts, log10).Keys + {t};
  }

  /** The defaultdict read `tf[id]`: the row, or an empty one. */
  function TfRow(tf: map<int, map<string, int>>, id: int): map<string, int>
  {
    if id in tf then tf[id] else map[]
  }

  /** The terms of one more token. */
  lemma NextStems(tokens: seq<string>, k: int, stop: set<string>, stem: string -> string)
    requires 0 <= k < |tokens|
    ensures Stems(tokens[..k + 1], stop, stem) ==
              Stems(tokens[..k], stop, stem) + (if tokens[k] in stop then [] else [stem(tokens[k])])
  {
    assert tokens[..k + 1] == tokens[..k] + [tokens[k]];
    StemsAppend(tokens[..k], [tokens[k]], stop, stem);
    StemsSingle(tokens[k], stop, stem);
  }

  /** Writing a row twice keeps the last write. */
  lemma Overwrite<V>(m: map<int, V>, id: int, first: Option<V>, second: V)
    ensures (if first.None? then m else m[id := first.value])[id := second] == m[id := second]
  {
  }

  lemma MembersEmpty(s: seq<string>)
    ensures Members(s) == {} <==> s == []
  {
    if s != [] {
      assert s[0] in Members(s);
    }
  }

  /** `math.pow(x, 2)`. */
  function Sq(x: real): real
  {
    x * x
  }

  /** The sum of the squares of `v` over the terms `ts`, in no particular order. */
  ghost function SquareSum(ts: set<string>, v: map<string, real>): real
    requires ts <= v.Keys
    decreases |ts|
  {
    if ts == {} then 0.0
    else
      var x := Pick(ts);
      Sq(v[x]) + SquareSum(ts - {x}, v)
  }

  /** Any term of the set can be summed first. */
  lemma {:induction false} SquareSumRemove(ts: set<string>, y: string, v: map<string, real>)
    requires ts <= v.Keys && y in ts
    ensures SquareSum(ts, v) == Sq(v[y]) + SquareSum(ts - {y}, v)
    decreases |ts|
  {
    var x := Pick(ts);
    if x != y {
      SquareSumRemove(ts - {x}, y, v);
      assert ts - {x} - {y} == ts - {y} - {x};
      SquareSumRemove(ts - {y}, x, v);
    }
  }

  /** The defaultdict read `wf[id]`: the row, or an empty one. */
  function RowOf(m: map<int, map<string, real>>, id: int): map<string, real>
  {
    if id in m then m[id] else map[]
  }

  /** The defaultdict read `doc_terms[id]`: the set, or an empty one. */
  function TermsOf(m: map<int, set<string>>, id: int): set<string>
  {
    if id in m then m[id] else {}
  }

  /** Line 57: `w[id][t] = wf[id][t] * idf[t]` for every term of the document. */
  function RawRow(ts: set<string>, wfRow: map<string, real>, idf: map<string, real>): map<string, real>
  {
    map t | t in ts :: Weight(wfRow, t) * Weight(idf, t)
  }

  /** Lines 64-65: every weight divided by the length. */
  function Scaled(v: map<string, real>, len: real): map<string, real>
    requires len != 0.0
  {
    map t | t in v :: v[t] / len
  }

  /** The weights of the terms in `done`, as the first loop of lines 56-58 has written them. */
  function Restrict(v: map<string, real>, done: set<string>): map<string, real>
    requires done <= v.Keys
  {
    map t | t in done :: v[t]
  }

  /** The row while lines 64-65 run: the terms in `done` divided, the others not yet. */
  function PartScaled(v: map<string, real>, done: set<string>, len: real): map<string, real>
    requires done == {} || len != 0.0
  {
    map t | t in v :: if t in done then v[t] / len else v[t]
  }

  /**
   * `w` after lines 52-65 have run over the documents of `c`, or None once a document
   * with terms has length 0 and `w[id][t] /= length` raises ZeroDivisionError.
   */
  ghost function WeightTable(c: seq<Doc>, terms: map<int, set<string>>, wf: map<int, map<string, real>>,
                             idf: map<string, real>, sqrt: real -> real): Option<map<int, map<string, real>>>
  {
    if c == [] then Some(map[])
    else
      match WeightTable(c[..|c| - 1], terms, wf, idf, sqrt)
      case None => None
      case Some(prev) =>
        var id := c[|c| - 1].id;
        var ts := TermsOf(terms, id);
        var raw := RawRow(ts, RowOf(wf, id), idf);
        var len := sqrt(SquareSum(ts, raw));
        if ts == {} then Some(prev)
        else if len == 0.0 then None
        else Some(prev[id := Scaled(raw, len)])
  }

  /** `math.sqrt` on the non-negative reals: a non-negative square root. */
  ghost predicate SqrtLaw(sqrt: real -> real)
  {
    forall x: real :: x >= 0.0 ==> sqrt(x) >= 0.0 && Sq(sqrt(x)) == x
  }

  lemma {:induction false} SquareSumNonNeg(ts: set<string>, v: map<string, real>)
    requires ts <= v.Keys
    ensures SquareSum(ts, v) >= 0.0
    decreases |ts|
  {
    if ts != {} {
      SquareSumNonNeg(ts - {Pick(ts)}, v);
      SqZero(v[Pick(ts)]);
    }
  }

  /** A sum of squares is zero exactly when every weight is. */
  lemma {:induction false} SquareSumZero(ts: set<string>, v: map<string, real>)
    requires ts <= v.Keys
    ensures SquareSum(ts, v) == 0.0 <==> forall t :: t in ts ==> v[t] == 0.0
    decreases |ts|
  {
    if ts != {} {
      var x := Pick(ts);
      SquareSumZero(ts - {x}, v);
      SquareSumNonNeg(ts - {x}, v);
      SqZero(v[x]);
    }
  }

  /** Dividing every weight by `len` divides the sum of squares by `len * len`. */
  lemma {:induction false} SquareSumScaled(ts: set<string>, v: map<string, real>, len: real)
    requires ts <= v.Keys && len != 0.0
    ensures ts <= Scaled(v, len).Keys
    ensures SquareSum(ts, Scaled(v, len)) == SquareSum(ts, v) / len / len
    decreases |ts|
  {
    if ts != {} {
      var x := Pick(ts);
      SquareSumScaled(ts - {x}, v, len);
      SqOfQuotient(v[x], len);
      var a, b := Sq(v[x]), SquareSum(ts - {x}, v);
      SumOfQuotients(a, b, len);
      SumOfQuotients(a / len, b / len, len);
    }
  }

  /** A square is non-negative, and positive away from zero. */
  lemma SqZero(a: real)
    ensures Sq(a) >= 0.0
    ensures a != 0.0 ==> Sq(a) > 0.0
  {
    if a > 0.0 {
      calc { Sq(a); == a * a; > 0.0 * a; == 0.0; }
    } else if a < 0.0 {
      calc { Sq(a); == (-a) * (-a); > 0.0 * (-a); == 0.0; }
    }
  }

  lemma MulDiv(p: real, d: real)
    requires d != 0.0
    ensures (p / d) * d == p
  {
  }

  lemma DivOf(p: real, d: real, r: real)
    requires d != 0.0 && p == r * d
    ensures p / d == r
  {
  }

  lemma SqOfQuotient(a: real, len: real)
    requires len != 0.0
    ensures Sq(a / len) == Sq(a) / len / len
  {
    var q := a / len;
    MulDiv(a, len);
    assert Sq(a) == (q * len) * (q * len);
    assert (q * len) * (q * len) == (q * q * len) * len;
    DivOf(Sq(a), len, q * q * len);
    DivOf(q * q * len, len, q * q);
  }

  lemma SelfQuotient(s: real, len: real)
    requires len != 0.0 && len * len == s
    ensures s / len / len == 1.0
  {
    DivOf(s, len, len);
    DivOf(len, len, 1.0);
  }

  lemma SumOfQuotients(a: real, b: real, d: real)
    requires d != 0.0
    ensures a / d + b / d == (a + b) / d
  {
  }

  /** Under the square-root law, a row divided by its own non-zero length has length 1. */
  lemma ScaledIsUnit(ts: set<string>, raw: map<string, real>, sqrt: real -> real)
    requires SqrtLaw(sqrt) && raw.Keys == ts
    requires sqrt(SquareSum(ts, raw)) != 0.0
    ensures SquareSum(ts, Scaled(raw, sqrt(SquareSum(ts, raw)))) == 1.0
  {
    var sum := SquareSum(ts, raw);
    var len := sqrt(sum);
    SquareSumNonNeg(ts, raw);
    SquareSumScaled(ts, raw, len);
    assert len * len == sum;
    SelfQuotient(sum, len);
  }

  /** Under the square-root law the length is 0 exactly when every raw weight is. */
  lemma LengthZero(ts: set<string>, raw: map<string, real>, sqrt: real -> real)
    requires SqrtLaw(sqrt) && ts <= raw.Keys
    ensures sqrt(SquareSum(ts, raw)) == 0.0 <==> forall t :: t in ts ==> raw[t] == 0.0
  {
    var sum := SquareSum(ts, raw);
    SquareSumNonNeg(ts, raw);
    SquareSumZero(ts, raw);
    assert sqrt(sum) * sqrt(sum) == sum;
    SqZero(sqrt(sum));
  }

  /** The weight table has a row for exactly the documents with terms, over exactly their terms. */
  lemma {:induction false} WeightKeys(c: seq<Doc>, terms: map<int, set<string>>, wf: map<int, map<string, real>>,
                                      idf: map<string, real>, sqrt: real -> real)
    ensures WeightTable(c, terms, wf, idf, sqrt).Some? ==>
              var w := WeightTable(c, terms, wf, idf, sqrt).value;
              && (forall x :: x in w <==> TermsOf(terms, x) != {} && x in Ids(c))
              && (forall x :: x in w ==> w[x].Keys == TermsOf(terms, x))
  {
    if c != [] {
      var init := c[..|c| - 1];
      WeightKeys(init, terms, wf, idf, sqrt);
    }
  }

  /** Once a document has raised, the whole pass has. */
  lemma {:induction false} FailureExtends(c: seq<Doc>, k: int, terms: map<int, set<string>>, wf: map<int, map<string, real>>,
                                          idf: map<string, real>, sqrt: real -> real)
    requires 0 <= k <= |c| && WeightTable(c[..k], terms, wf, idf, sqrt).None?
    ensures WeightTable(c, terms, wf, idf, sqrt).None?
    decreases |c| - k
  {
    if k == |c| {
      assert c[..k] == c;
    } else {
      assert c[..|c| - 1][..k] == c[..k];
      FailureExtends(c[..|c| - 1], k, terms, wf, idf, sqrt);
    }
  }

  /** Under the square-root law, every row of the weight table has length 1. */
  lemma {:induction false} UnitRows(c: seq<Doc>, terms: map<int, set<string>>, wf: map<int, map<string, real>>,
                                    idf: map<string, real>, sqrt: real -> real)
    requires SqrtLaw(sqrt)
    ensures WeightTable(c, terms, wf, idf, sqrt).Some? ==>
              forall x :: x in WeightTable(c, terms, wf, idf, sqrt).value ==>
                UnitLength(WeightTable(c, terms, wf, idf, sqrt).value[x])
  {
    if c != [] && WeightTable(c, terms, wf, idf, sqrt).Some? {
      UnitRows(c[..|c| - 1], terms, wf, idf, sqrt);
      var id := c[|c| - 1].id;
      var ts := TermsOf(terms, id);
      var raw := RawRow(ts, RowOf(wf, id), idf);
      if ts != {} {
        ScaledIsUnit(ts, raw, sqrt);
        assert Scaled(raw, sqrt(SquareSum(ts, raw))).Keys == ts;
      }
    }
  }

  /** A row whose squared weights sum to 1. */
  ghost predicate UnitLength(row: map<string, real>)
  {
    SquareSum(row.Keys, row) == 1.0
  }

  /**
   * Under the square-root law, lines 52-65 raise exactly when some document has terms
   * but every one of its tf-idf products is 0.
   */
  lemma {:induction false} WeighingFails(c: seq<Doc>, terms: map<int, set<string>>, wf: map<int, map<string, real>>,
                                         idf: map<string, real>, sqrt: real -> real)
    requires SqrtLaw(sqrt)
    ensures WeightTable(c, terms, wf, idf, sqrt).None? <==> exists k :: 0 <= k < |c| && DocFails(c[k], terms, wf, idf)
  {
    if c != [] {
      var init, d := c[..|c| - 1], c[|c| - 1];
      WeighingFails(init, terms, wf, idf, sqrt);
      DocFailsAtZeroLength(d, terms, wf, idf, sqrt);
      SomeDocFails(c, init, terms, wf, idf);
    }
  }

  /** Under the square-root law, one document raises exactly when it has terms and length 0. */
  lemma DocFailsAtZeroLength(d: Doc, terms: map<int, set<string>>, wf: map<int, map<string, real>>,
                             idf: map<string, real>, sqrt: real -> real)
    requires SqrtLaw(sqrt)
    ensures var ts := TermsOf(terms, d.id);
            DocFails(d, terms, wf, idf) <==> ts != {} && sqrt(SquareSum(ts, RawRow(ts, RowOf(wf, d.id), idf))) == 0.0
  {
    var ts := TermsOf(terms, d.id);
    LengthZero(ts, RawRow(ts, RowOf(wf, d.id), idf), sqrt);
  }

  /** Splits "some document fails" into the earlier documents and the last one. */
  lemma SomeDocFails(c: seq<Doc>, init: seq<Doc>, terms: map<int, set<string>>, wf: map<int, map<string, real>>, idf: map<string, real>)
    requires c != [] && init == c[..|c| - 1]
    ensures (exists k :: 0 <= k < |c| && DocFails(c[k], terms, wf, idf)) <==>
            (exists k :: 0 <= k < |init| && DocFails(init[k], terms, wf, idf)) || DocFails(c[|c| - 1], terms, wf, idf)
  {
    if exists k :: 0 <= k < |init| && DocFails(init[k], terms, wf, idf) {
      var k :| 0 <= k < |init| && DocFails(init[k], terms, wf, idf);
      assert c[k] == init[k];
    }
    if exists k :: 0 <= k < |c| && DocFails(c[k], terms, wf, idf) {
      var k :| 0 <= k < |c| && DocFails(c[k], terms, wf, idf);
      if k < |init| {
        assert init[k] == c[k];
      }
    }
  }

  /** A document with terms whose every `wf[id][t] * idf[t]` is 0. */
  predicate DocFails(d: Doc, terms: map<int, set<string>>, wf: map<int, map<string, real>>, idf: map<string, real>)
  {
    var ts, row := TermsOf(terms, d.id), RowOf(wf, d.id);
    ts != {} && forall t :: t in ts ==> Weight(row, t) * Weight(idf, t) == 0.0
  }

  /** The ids of the documents of `c`. */
  function Ids(c: seq<Doc>): set<int>
  {
    if c == [] then {} else Ids(c[..|c| - 1]) + {c[|c| - 1].id}
  }

  lemma {:induction false} IdsMeaning(c: seq<Doc>)
    ensures forall x :: x in Ids(c) <==> exists k :: 0 <= k < |c| && c[k].id == x
  {
    if c != [] {
      var init := c[..|c| - 1];
      IdsMeaning(init);
      forall x ensures x in Ids(c) <==> exists k :: 0 <= k < |c| && c[k].id == x {
        if exists k :: 0 <= k < |init| && init[k].id == x {
          var k :| 0 <= k < |init| && init[k].id == x;
          assert c[k] == init[k];
        }
        if exists k :: 0 <= k < |c| && c[k].id == x {
          var k :| 0 <= k < |c| && c[k].id == x;
          if k < |init| {
            assert init[k] == c[k];
          }
        }
      }
    }
  }

  /** After lines 27-49, every document's terms have a wf row and an idf entry, so line 57 reads no padding. */
  lemma TermsIndexed(c: seq<Doc>, stop: set<string>, stem: string -> string, log10: real -> real)
    requires DistinctIds(c)
    ensures var terms, wf, df := TermsTable(c, stop, stem), WfTable(c, stop, stem, log10), DfTable(c, stop, stem);
            forall x :: x in terms && terms[x] != {} ==> x in wf && terms[x] <= wf[x].Keys && terms[x] <= df.Keys
  {
    var terms, wf, df := TermsTable(c, stop, stem), WfTable(c, stop, stem, log10), DfTable(c, stop, stem);
    TableKeys(c, stop, stem, log10);
    DfTableCounts(c, stop, stem);
    forall x | x in terms && terms[x] != {} ensures x in wf && terms[x] <= wf[x].Keys && terms[x] <= df.Keys {
      var k :| 0 <= k < |c| && c[k].id == x;
      DocTables(c, k, stop, stem, log10);
      forall t | t in terms[x] ensures t in df {
        DocFreqBounds(c, t, stop, stem);
      }
    }
  }

  /**
   * The module-level defaultdicts of vs_index.py (lines 85-95) and the local
   * `doc_terms` of `index()`: `tf[id][t]`, `docTerms[id]`, `wf[id][t]`, `idf[t]`
   * (a document-frequency counter until line 47) and `w[id][t]`.
   */
  class VectorIndex {
    var tf: map<int, map<string, int>>
    var docTerms: map<int, set<string>>
    var wf: map<int, map<string, real>>
    var idf: map<string, real>
    var w: map<int, map<string, real>>

    /** Lines 86-95: every table starts empty. */
    constructor ()
      ensures tf == map[] && docTerms == map[] && wf == map[] && idf == map[] && w == map[]
    {
      tf, docTerms, wf, idf, w := map[], map[], map[], map[], map[];
    }

    /**
     * Lines 27-37 for one document: each non-stop token's stem joins the term set and
     * has its count raised; the tf row exists only once some term has been counted.
     */
    method CountTerms(d: Doc, stop: set<string>, stem: string -> string) returns (terms: set<string>)
      requires d.id !in tf
      modifies this
      ensures terms == TermSet(d.tokens, stop, stem)
      ensures tf == if terms == {} then old(tf) else old(tf)[d.id := TermFreq(d.tokens, stop, stem)]
      ensures docTerms == old(docTerms)[d.id := terms]
      ensures wf == old(wf) && idf == old(idf) && w == old(w)
    {
      terms := {};
      ghost var counted: seq<string> := [];
      var k := 0;
      while k < |d.tokens|
        invariant 0 <= k <= |d.tokens|
        invariant counted == Stems(d.tokens[..k], stop, stem)
        invariant terms == Members(counted)
        invariant tf == if counted == [] then old(tf) else old(tf)[d.id := Counts(counted)]
        invariant docTerms == old(docTerms) && wf == old(wf) && idf == old(idf) && w == old(w)
      {
        terms, counted := CountToken(d, k, stop, stem, terms, counted, old(tf));
        k := k + 1;
      }
      assert d.tokens[..|d.tokens|] == d.tokens;
      MembersEmpty(counted);
      docTerms := docTerms[d.id := terms];
    }

    /** One pass of the token loop (lines 31-35): a non-stop token's stem is added and counted. */
    method CountToken(d: Doc, k: int, stop: set<string>, stem: string -> string, terms: set<string>,
                      ghost counted: seq<string>, ghost before: map<int, map<string, int>>)
      returns (terms': set<string>, ghost counted': seq<string>)
      requires 0 <= k < |d.tokens| && d.id !in before
      requires counted == Stems(d.tokens[..k], stop, stem) && terms == Members(counted)
      requires tf == if counted == [] then before else before[d.id := Counts(counted)]
      modifies this
      ensures counted' == Stems(d.tokens[..k + 1], stop, stem) && terms' == Members(counted')
      ensures tf == if counted' == [] then before else before[d.id := Counts(counted')]
      ensures docTerms == old(docTerms) && wf == old(wf) && idf == old(idf) && w == old(w)
    {
      var token := d.tokens[k];
      NextStems(d.tokens, k, stop, stem);
      terms', counted' := terms, counted;
      if token !in stop {
        var term := stem(token);
        CountsSnoc(counted, term);
        var row := if d.id in tf then tf[d.id] else map[];
        assert row == Counts(counted);
        ghost var next := Counts(counted + [term]);
        assert row[term := Freq(row, term) + 1] == next;
        tf := tf[d.id := row[term := Freq(row, term) + 1]];
        assert tf == before[d.id := next];
        terms' := terms + {term};
        counted' := counted + [term];
        assert |counted'| > 0;
      }
    }

    /**
     * Lines 39-44 for one document, in the set's iteration order: each term's wf
     * weight, and one more document counted for it in `idf`. The caller has counted
     * every term of the set (lines 30-35), so the reads of `tf[id][t]` insert nothing.
     */
    method TallyTerms(id: int, terms: set<string>, log10: real -> real)
      requires terms != {} ==> id in tf && terms <= tf[id].Keys
      requires id !in wf
      modifies this
      ensures wf == if terms == {} then old(wf) else old(wf)[id := LogFreqRow(TfRow(old(tf), id), terms, log10)]
      ensures idf == Tallied(old(idf), terms)
      ensures tf == old(tf) && docTerms == old(docTerms) && w == old(w)
    {
      var rest := terms;
      ghost var done: set<string> := {};
      ghost var row0 := TfRow(tf, id);
      assert Tallied(idf, {}) == idf;
      while rest != {}
        invariant rest <= terms && done == terms - rest
        invariant wf == if done == {} then old(wf) else old(wf)[id := LogFreqRow(row0, done, log10)]
        invariant idf == Tallied(old(idf), done)
        invariant tf == old(tf) && docTerms == old(docTerms) && w == old(w)
        decreases rest
      {
        var t :| t in rest;
        LogFreqRowStep(row0, done, t, log10);
        TalliedStep(old(idf), done, t);
        ghost var row := if id in wf then wf[id] else map[];
        assert row[t := LogFreq(row0[t], log10)] == LogFreqRow(row0, done + {t}, log10);
        Overwrite(old(wf), id, if done == {} then None else Some(LogFreqRow(row0, done, log10)), LogFreqRow(row0, done + {t}, log10));
        TallyTerm(id, t, log10);
        rest := rest - {t};
        done := done + {t};
      }
      assert done == terms;
    }

    /** One pass of the loop on lines 39-44: `wf[id][t]` set, `idf[t] += 1`. */
    method TallyTerm(id: int, t: string, log10: real -> real)
      requires id in tf && t in tf[id]
      modifies this
      ensures tf == old(tf) && docTerms == old(docTerms) && w == old(w)
      ensures var row := if id in old(wf) then old(wf)[id] else map[];
              wf == old(wf)[id := row[t := LogFreq(tf[id][t], log10)]]
      ensures idf == old(idf)[t := Weight(old(idf), t) + 1.0]
    {
      var row := if id in wf then wf[id] else map[];
      wf := wf[id := row[t := if tf[id][t] > 0 then 1.0 + log10(tf[id][t] as real) else 0.0]];
      idf := idf[t := Weight(idf, t) + 1.0];
    }

    /** Lines 24-44: count every document of the corpus, in corpus order. */
    method CountCorpus(corpus: seq<Doc>, stop: set<string>, stem: string -> string, log10: real -> real)
      requires DistinctIds(corpus)
      requires tf == map[] && docTerms == map[] && wf == map[] && idf == map[]
      modifies this
      ensures tf == TfTable(corpus, stop, stem) && docTerms == TermsTable(corpus, stop, stem)
      ensures wf == WfTable(corpus, stop, stem, log10) && idf == DfTable(corpus, stop, stem)
      ensures w == old(w)
    {
      var k := 0;
      while k < |corpus|
        invariant 0 <= k <= |corpus|
        invariant tf == TfTable(corpus[..k], stop, stem) && docTerms == TermsTable(corpus[..k], stop, stem)
        invariant wf == WfTable(corpus[..k], stop, stem, log10) && idf == DfTable(corpus[..k], stop, stem)
        invariant w == old(w)
      {
        var d := corpus[k];
        assert corpus[..k + 1][..k] == corpus[..k];
        NewId(corpus, k, stop, stem, log10);
        var terms := CountTerms(d, stop, stem);
        TermFreqMeaning(d.tokens, stop, stem);
        TallyTerms(d.id, terms, log10);
        k := k + 1;
      }
      assert corpus[..|corpus|] == corpus;
    }

    /** Lines 47-49: every counter becomes `log10(N / df)`, in the dict's key order. */
    method ComputeIdf(n: int, log10: real -> real)
      requires forall t :: t in idf ==> idf[t] != 0.0
      modifies this
      ensures idf == IdfTable(old(idf), n, log10)
      ensures tf == old(tf) && docTerms == old(docTerms) && wf == old(wf) && w == old(w)
    {
      ghost var df := idf;
      var rest := idf.Keys;
      while rest != {}
        invariant rest <= df.Keys && idf.Keys == df.Keys
        invariant forall t :: t in df ==> idf[t] == if t in rest then df[t] else log10(n as real / df[t])
        invariant tf == old(tf) && docTerms == old(docTerms) && wf == old(wf) && w == old(w)
        decreases rest
      {
        var t :| t in rest;
        idf := idf[t := log10(n as real / idf[t])];
        rest := rest - {t};
      }
      assert idf.Keys == IdfTable(df, n, log10).Keys;
    }

    /**
     * Lines 53-65 for one document: its raw weights and their sum of squares in one
     * pass over its terms, then each weight divided by the length in a second pass,
     * which raises (ok false) at its first division when the length is 0. A document
     * without terms gets no row.
     */
    method WeighDoc(id: int, sqrt: real -> real) returns (ok: bool)
      requires id in docTerms && id !in w
      requires docTerms[id] != {} ==> id in wf && docTerms[id] <= wf[id].Keys && docTerms[id] <= idf.Keys
      modifies this
      ensures tf == old(tf) && docTerms == old(docTerms) && wf == old(wf) && idf == old(idf)
      ensures var ts := docTerms[id];
              var raw := RawRow(ts, RowOf(wf, id), idf);
              var len := sqrt(SquareSum(ts, raw));
              && (ok <==> ts == {} || len != 0.0)
              && w == if ts == {} then old(w) else if ok then old(w)[id := Scaled(raw, len)] else old(w)[id := raw]
    {
      var sum := RawWeights(id);
      ok := Normalize(id, sqrt(sum), RawRow(docTerms[id], RowOf(wf, id), idf));
    }

    /** Lines 55-61: the raw weights of one document and the sum of their squares. */
    method RawWeights(id: int) returns (sum: real)
      requires id in docTerms && id !in w
      requires docTerms[id] != {} ==> id in wf && docTerms[id] <= wf[id].Keys && docTerms[id] <= idf.Keys
      modifies this
      ensures tf == old(tf) && docTerms == old(docTerms) && wf == old(wf) && idf == old(idf)
      ensures var raw := RawRow(docTerms[id], RowOf(wf, id), idf);
              && sum == SquareSum(docTerms[id], raw)
              && w == if docTerms[id] == {} then old(w) else old(w)[id := raw]
    {
      var terms := docTerms[id];
      ghost var raw := RawRow(terms, RowOf(wf, id), idf);
      sum := 0.0;
      var rest := terms;
      ghost var done: set<string> := {};
      while rest != {}
        invariant rest <= terms && done == terms - rest
        invariant sum == SquareSum(done, raw)
        invariant w == if done == {} then old(w) else old(w)[id := Restrict(raw, done)]
        invariant tf == old(tf) && docTerms == old(docTerms) && wf == old(wf) && idf == old(idf)
        decreases rest
      {
        var t :| t in rest;
        var x := wf[id][t] * idf[t];
        assert x == raw[t];
        SquareSumRemove(done + {t}, t, raw);
        assert done + {t} - {t} == done;
        assert RowOf(w, id)[t := x] == Restrict(raw, done + {t});
        Overwrite(old(w), id, if done == {} then None else Some(Restrict(raw, done)), Restrict(raw, done + {t}));
        SetWeight(id, t, x);
        sum := sum + Sq(x);
        rest := rest - {t};
        done := done + {t};
      }
      assert done == terms;
      if terms != {} {
        assert Restrict(raw, terms) == raw;
      }
    }

    /**
     * Lines 62-65: every weight of the row divided by the length; the first division
     * raises ZeroDivisionError when the length is 0, leaving the raw row in place.
     */
    method Normalize(id: int, length: real, ghost raw: map<string, real>) returns (ok: bool)
      requires id in docTerms && raw.Keys == docTerms[id]
      requires docTerms[id] != {} ==> id in w && w[id] == raw
      modifies this
      ensures tf == old(tf) && docTerms == old(docTerms) && wf == old(wf) && idf == old(idf)
      ensures ok <==> docTerms[id] == {} || length != 0.0
      ensures w == if ok && docTerms[id] != {} then old(w)[id := Scaled(raw, length)] else old(w)
    {
      var terms := docTerms[id];
      var rest := terms;
      ghost var done: set<string> := {};
      if rest != {} {
        assert PartScaled(raw, {}, length) == raw;
        assert old(w) == old(w)[id := raw];
      }
      while rest != {}
        invariant tf == old(tf) && docTerms == old(docTerms) && wf == old(wf) && idf == old(idf)
        invariant rest <= terms && done == terms - rest
        invariant done != {} ==> length != 0.0
        invariant terms != {} ==> w == old(w)[id := PartScaled(raw, done, length)]
        invariant terms == {} ==> w == old(w)
        decreases rest
      {
        var t :| t in rest;
        if length == 0.0 {
          return false;
        }
        assert w[id][t := w[id][t] / length] == PartScaled(raw, done + {t}, length);
        w := w[id := w[id][t := w[id][t] / length]];
        rest := rest - {t};
        done := done + {t};
      }
      if terms != {} {
        assert done == terms;
        assert PartScaled(raw, terms, length) == Scaled(raw, length);
      }
      ok := true;
    }

    /** Lines 52-65: weigh and normalise every document in corpus order; ok false once one raises. */
    method Weigh(corpus: seq<Doc>, sqrt: real -> real) returns (ok: bool)
      requires DistinctIds(corpus) && w == map[]
      requires forall k :: 0 <= k < |corpus| ==> corpus[k].id in docTerms
      requires forall x :: x in docTerms && docTerms[x] != {} ==> x in wf && docTerms[x] <= wf[x].Keys && docTerms[x] <= idf.Keys
      modifies this
      ensures tf == old(tf) && docTerms == old(docTerms) && wf == old(wf) && idf == old(idf)
      ensures ok <==> WeightTable(corpus, docTerms, wf, idf, sqrt).Some?
      ensures ok ==> w == WeightTable(corpus, docTerms, wf, idf, sqrt).value
    {
      var k := 0;
      while k < |corpus|
        invariant tf == old(tf) && docTerms == old(docTerms) && wf == old(wf) && idf == old(idf)
        invariant 0 <= k <= |corpus|
        invariant WeightTable(corpus[..k], docTerms, wf, idf, sqrt) == Some(w)
      {
        WeightKeys(corpus[..k], docTerms, wf, idf, sqrt);
        IdsMeaning(corpus[..k]);
        assert corpus[k].id !in w by {
          forall j | 0 <= j < k ensures corpus[..k][j].id != corpus[k].id {
            assert corpus[..k][j] == corpus[j];
          }
        }
        assert corpus[..k + 1][..k] == corpus[..k];
        ok := WeighDoc(corpus[k].id, sqrt);
        if !ok {
          FailureExtends(corpus, k + 1, docTerms, wf, idf, sqrt);
          return;
        }
        k := k + 1;
      }
      assert corpus[..k] == corpus;
      ok := true;
    }

    /**
     * index() as the main block runs it, from empty tables, over the corpus dict's
     * records in key order. The first loop tokenizes each record at line 27; a record
     * with an empty Title list raises IndexError there, leaving the tables as counted
     * from the records before it and no idf or w. Otherwise it counts every document,
     * then sets idf over N = |corpus| documents, then weighs.
     */
    method Build(records: seq<(int, Record)>, tokenize: string -> seq<string>, stop: set<string>, stem: string -> string,
                 log10: real -> real, sqrt: real -> real)
      returns (ok: bool)
      requires DistinctKeys(records)
      requires tf == map[] && docTerms == map[] && wf == map[] && idf == map[] && w == map[]
      modifies this
      ensures ok ==> Tokenized(tokenize, records).Some?
      ensures Tokenized(tokenize, records).None? ==>
                var done := Tokenized(tokenize, records[..FirstUntitled(records)]);
                && done.Some?
                && tf == TfTable(done.value, stop, stem) && docTerms == TermsTable(done.value, stop, stem)
                && wf == WfTable(done.value, stop, stem, log10) && idf == DfTable(done.value, stop, stem)
                && w == map[]
      ensures Tokenized(tokenize, records).Some? ==>
                var corpus := Tokenized(tokenize, records).value;
                && (forall t :: t in DfTable(corpus, stop, stem) ==> DfTable(corpus, stop, stem)[t] >= 1.0)
                && tf == TfTable(corpus, stop, stem) && docTerms == TermsTable(corpus, stop, stem)
                && wf == WfTable(corpus, stop, stem, log10) && idf == IdfTable(DfTable(corpus, stop, stem), |corpus|, log10)
                && (ok <==> WeightTable(corpus, docTerms, wf, idf, sqrt).Some?)
                && (ok ==> w == WeightTable(corpus, docTerms, wf, idf, sqrt).value)
    {
      var n := FirstUntitled(records);
      TokenizedPrefix(tokenize, records, n);
      var corpus := Tokenized(tokenize, records[..n]).value;
      CountCorpus(corpus, stop, stem, log10);
      if n < |records| {
        return false;
      }
      assert records[..n] == records;
      IdfWellDefined(corpus, stop, stem, log10);
      ComputeIdf(|corpus|, log10);
      TableKeys(corpus, stop, stem, log10);
      TermsIndexed(corpus, stop, stem, log10);
      ok := Weigh(corpus, sqrt);
    }

    /** `w[id][t] = x` on the defaultdict: the row is created on first write. */
    method SetWeight(id: int, t: string, x: real)
      modifies this
      ensures tf == old(tf) && docTerms == old(docTerms) && wf == old(wf) && idf == old(idf)
      ensures w == old(w)[id := RowOf(old(w), id)[t := x]]
    {
      w := w[id := RowOf(w, id)[t := x]];
    }
  }

  /** A document's id is not yet a key of the tables built from the documents before it. */
  lemma NewId(corpus: seq<Doc>, k: int, stop: set<string>, stem: string -> string, log10: real -> real)
    requires DistinctIds(corpus) && 0 <= k < |corpus|
    ensures corpus[k].id !in TermsTable(corpus[..k], stop, stem)
    ensures corpus[k].id !in TfTable(corpus[..k], stop, stem)
    ensures corpus[k].id !in WfTable(corpus[..k], stop, stem, log10)
  {
    TableKeys(corpus[..k], stop, stem, log10);
    forall j | 0 <= j < k ensures corpus[..k][j].id != corpus[k].id {
      assert corpus[..k][j] == corpus[j];
    }
  }
}
