/**
 * Python's ordering of `str` values, which `list.sort()` uses in
 * vs_search.get_missing_terms: code point by code point, a proper prefix first.
 */
module LexOrder {
  predicate LexLess(a: string, b: string) {
    if a == [] then b != []
    else b != [] && (a[0] < b[0] || (a[0] == b[0] && LexLess(a[1..], b[1..])))
  }

  /** Strictly ascending in string order. */
  predicate StrictlySorted(s: seq<string>) {
    forall i, j :: 0 <= i < j < |s| ==> LexLess(s[i], s[j])
  }

  lemma {:induction false} LexIrreflexive(a: string)
    ensures !LexLess(a, a)
  {
    if a != [] {
      LexIrreflexive(a[1..]);
    }
  }

  lemma {:induction false} LexTransitive(a: string, b: string, c: string)
    requires LexLess(a, b) && LexLess(b, c)
    ensures LexLess(a, c)
  {
    if a != [] && a[0] == b[0] && b[0] == c[0] {
      LexTransitive(a[1..], b[1..], c[1..]);
    }
  }

  lemma {:induction false} LexTotal(a: string, b: string)
    requires a != b
    ensures LexLess(a, b) || LexLess(b, a)
  {
    if a != [] && b != [] && a[0] == b[0] {
      assert a == [a[0]] + a[1..] && b == [b[0]] + b[1..];
      LexTotal(a[1..], b[1..]);
    }
  }

  /** Places `x` before the first element not smaller than it. */
  function InsertLex(x: string, r: seq<string>): (s: seq<string>)
    ensures multiset(s) == multiset(r) + multiset{x}
    ensures forall y :: y in s <==> y == x || y in r
  {
    if r == [] || !LexLess(r[0], x) then [x] + r
    else
      assert r == [r[0]] + r[1..];
      [r[0]] + InsertLex(x, r[1..])
  }

  /** `list.sort()` on a list of strings, as an insertion sort. */
  function SortStrings(xs: seq<string>): (s: seq<string>)
    ensures multiset(s) == multiset(xs)
    ensures forall y :: y in s <==> y in xs
  {
    if xs == [] then []
    else
      var init := xs[..|xs| - 1];
      assert xs == init + [xs[|xs| - 1]];
      assert forall y :: y in multiset(xs) <==> y in xs;
      InsertLex(xs[|xs| - 1], SortStrings(init))
  }

  lemma {:induction false} InsertLexSorted(x: string, r: seq<string>)
    requires StrictlySorted(r) && x !in r
    ensures StrictlySorted(InsertLex(x, r))
  {
    if r != [] {
      LexTotal(x, r[0]);
      if LexLess(r[0], x) {
        InsertLexSorted(x, r[1..]);
        var rest := InsertLex(x, r[1..]);
        assert forall y :: y in rest ==> LexLess(r[0], y) by {
          forall y | y in r[1..] ensures LexLess(r[0], y) {
            var k :| 0 <= k < |r[1..]| && r[1..][k] == y;
            assert r[k + 1] == y;
          }
        }
      } else {
        forall k | 0 <= k < |r| ensures LexLess(x, r[k]) {
          if k > 0 {
            LexTransitive(x, r[0], r[k]);
          }
        }
      }
    }
  }

  /** Sorting distinct strings gives them in strictly ascending order. */
  lemma {:induction false} SortStringsSorted(xs: seq<string>)
    requires forall i, j :: 0 <= i < j < |xs| ==> xs[i] != xs[j]
    ensures StrictlySorted(SortStrings(xs))
  {
    if xs != [] {
      var init, x := xs[..|xs| - 1], xs[|xs| - 1];
      assert forall k :: 0 <= k < |init| ==> init[k] == xs[k];
      SortStringsSorted(init);
      assert x !in init;
      InsertLexSorted(x, SortStrings(init));
    }
  }

  /** A strictly sorted list is fixed by its elements: the order the set yielded them in does not matter. */
  lemma {:induction false} SortedUnique(s: seq<string>, t: seq<string>)
    requires StrictlySorted(s) && StrictlySorted(t)
    requires forall y :: y in s <==> y in t
    ensures s == t
  {
    assert s != [] ==> s[0] in t;
    assert t != [] ==> t[0] in s;
    if s != [] && t != [] {
      LeastFirst(s, t[0]);
      LeastFirst(t, s[0]);
      LexAsymmetric(s[0], t[0]);
      forall y ensures y in s[1..] <==> y in t[1..] {
        assert y in s[1..] <==> y in s && y != s[0] by { LeastFirstTail(s, y); }
        assert y in t[1..] <==> y in t && y != t[0] by { LeastFirstTail(t, y); }
      }
      SortedUnique(s[1..], t[1..]);
      assert s == [s[0]] + s[1..] && t == [t[0]] + t[1..];
    }
  }

  lemma LeastFirst(s: seq<string>, y: string)
    requires StrictlySorted(s) && y in s
    ensures y == s[0] || LexLess(s[0], y)
  {
  }

  lemma LeastFirstTail(s: seq<string>, y: string)
    requires StrictlySorted(s) && s != []
    ensures y in s[1..] <==> y in s && y != s[0]
  {
    if y in s[1..] {
      var k :| 0 <= k < |s[1..]| && s[1..][k] == y;
      assert LexLess(s[0], s[k + 1]);
      LexIrreflexive(s[0]);
    }
    assert s == [s[0]] + s[1..];
  }

  lemma {:induction false} LexAsymmetric(a: string, b: string)
    ensures !(LexLess(a, b) && LexLess(b, a))
  {
    if a != [] && b != [] && a[0] == b[0] {
      LexAsymmetric(a[1..], b[1..]);
    }
  }
}
