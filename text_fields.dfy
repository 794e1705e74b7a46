/**
 * Text helpers shared by the field parsers of wpparser.py, async_building.py and
 * building_corpus.py: decimal digit runs and their values, and the first field of a
 * string split on "<br>" or "|".
 */
module TextFields {

  // ---------------------------------------------------------------- digits

  /** `\d`, restricted to the ASCII digits. */
  predicate IsDigit(c: char) {
    '0' <= c <= '9'
  }

  predicate AllDigits(s: string) {
    forall i :: 0 <= i < |s| ==> IsDigit(s[i])
  }

  function DigitValue(c: char): (v: nat)
    requires IsDigit(c)
    ensures v < 10
  {
    (c as int) - ('0' as int)
  }

  function DigitChar(v: nat): (c: char)
    requires v < 10
    ensures IsDigit(c) && DigitValue(c) == v
  {
    (('0' as int) + v) as char
  }

  /** `int(ds)` for a run of digits. */
  function Value(ds: string): nat
    requires AllDigits(ds)
  {
    if ds == [] then 0 else Value(ds[..|ds| - 1]) * 10 + DigitValue(ds[|ds| - 1])
  }

  /** `str(n)`: the decimal numeral of `n`, without leading zeros. */
  function Show(n: nat): (s: string)
    ensures |s| >= 1 && AllDigits(s)
    ensures |s| > 1 ==> s[0] != '0'
  {
    if n < 10 then [DigitChar(n)] else Show(n / 10) + [DigitChar(n % 10)]
  }

  /** Reading a numeral back gives the number. */
  lemma {:induction false} ValueShow(n: nat)
    ensures Value(Show(n)) == n
  {
    if n >= 10 {
      ValueShow(n / 10);
      var s := Show(n);
      assert s[..|s| - 1] == Show(n / 10);
    }
  }

  /** Numerals of 3 and 4 digits. */
  lemma {:induction false} ShowLength(n: nat)
    ensures n < 10 ==> |Show(n)| == 1
    ensures 10 <= n ==> |Show(n)| == |Show(n / 10)| + 1
    ensures 100 <= n < 1000 ==> |Show(n)| == 3
    ensures 1000 <= n < 10000 ==> |Show(n)| == 4
  {
    if n >= 10 {
      ShowLength(n / 10);
    }
  }

  /** The first digit of a four-digit numeral is its thousands. */
  lemma ShowThousands(n: nat)
    requires 1000 <= n < 10000
    ensures Show(n)[0] == DigitChar(n / 1000)
  {
    ShowHead(n);
    ShowHead(n / 10);
    ShowHead(n / 100);
    assert n / 10 / 10 == n / 100 && n / 100 / 10 == n / 1000;
  }

  /** A numeral starts with the numeral of its number divided by ten. */
  lemma ShowHead(n: nat)
    requires n >= 10
    ensures Show(n)[0] == Show(n / 10)[0]
  {
  }

  /** The maximal run of digits at the start of `s` (`re.match(r'\d+', s)`, or the empty string). */
  function LeadingDigits(s: string): (r: string)
    ensures |r| <= |s| && r == s[..|r|] && AllDigits(r)
    ensures |r| == |s| || !IsDigit(s[|r|])
  {
    if s == [] || !IsDigit(s[0]) then []
    else
      var rest := LeadingDigits(s[1..]);
      assert [s[0]] + rest == s[..|rest| + 1];
      [s[0]] + rest
  }

  /** Digits followed by a non-digit: the run stops exactly there. */
  lemma {:induction false} LeadingDigitsOf(ds: string, rest: string)
    requires AllDigits(ds)
    requires rest == [] || !IsDigit(rest[0])
    ensures LeadingDigits(ds + rest) == ds
  {
    if ds != [] {
      assert (ds + rest)[1..] == ds[1..] + rest;
      LeadingDigitsOf(ds[1..], rest);
    }
  }

  /** `re.findall(r'\d+', s)`: the maximal digit runs of `s`, left to right. */
  function DigitRuns(s: string): (runs: seq<string>)
    ensures forall k :: 0 <= k < |runs| ==> |runs[k]| >= 1 && AllDigits(runs[k])
    ensures runs == [] <==> forall i :: 0 <= i < |s| ==> !IsDigit(s[i])
    decreases |s|
  {
    if s == [] then []
    else if !IsDigit(s[0]) then
      var runs := DigitRuns(s[1..]);
      assert forall i :: 0 < i < |s| ==> s[i] == s[1..][i - 1];
      runs
    else
      var r := LeadingDigits(s);
      [r] + DigitRuns(s[|r|..])
  }

  /** Characters that are not digits contribute no run. */
  lemma {:induction false} DigitRunsSkip(a: string, b: string)
    requires forall i :: 0 <= i < |a| ==> !IsDigit(a[i])
    ensures DigitRuns(a + b) == DigitRuns(b)
  {
    if a != [] {
      assert (a + b)[0] == a[0] && (a + b)[1..] == a[1..] + b;
      DigitRunsSkip(a[1..], b);
    } else {
      assert a + b == b;
    }
  }

  /** A numeral followed by a non-digit is the next run. */
  lemma DigitRunsShow(n: nat, rest: string)
    requires rest == [] || !IsDigit(rest[0])
    ensures DigitRuns(Show(n) + rest) == [Show(n)] + DigitRuns(rest)
  {
    LeadingDigitsOf(Show(n), rest);
    var s := Show(n) + rest;
    assert s[|Show(n)|..] == rest;
  }

  // ---------------------------------------------------------------- fields

  /** "<br>" starts at `i`. */
  predicate BreakAt(s: string, i: int) {
    0 <= i && i + 4 <= |s| && s[i..i + 4] == "<br>"
  }

  /** A separator of `re.split('<br>|\|', s)` starts at `i`. */
  predicate SepAt(s: string, i: int)
    requires 0 <= i < |s|
  {
    s[i] == '|' || BreakAt(s, i)
  }

  /** `re.split('<br>|\|', s)[0]`: the longest prefix in which no separator starts. */
  function FirstField(s: string): (r: string)
    ensures |r| <= |s| && r == s[..|r|]
    ensures forall i :: 0 <= i < |r| ==> !SepAt(s, i)
    ensures |r| == |s| || SepAt(s, |r|)
  {
    if s == [] || SepAt(s, 0) then []
    else
      var rest := FirstField(s[1..]);
      assert forall i :: 0 < i <= |rest| ==> (SepAt(s, i) <==> SepAt(s[1..], i - 1)) by {
        forall i | 0 < i <= |rest| ensures SepAt(s, i) <==> SepAt(s[1..], i - 1) {
          assert i + 4 <= |s| ==> s[i..i + 4] == s[1..][i - 1..i + 3];
        }
      }
      assert [s[0]] + rest == s[..|rest| + 1];
      [s[0]] + rest
  }

  /** The field holds neither separator. */
  lemma FieldClean(s: string)
    ensures '|' !in FirstField(s)
    ensures forall i :: !BreakAt(FirstField(s), i)
  {
    var r := FirstField(s);
    forall i | 0 <= i < |r| ensures r[i] != '|' {
      assert !SepAt(s, i);
    }
    forall i ensures !BreakAt(r, i) {
      if 0 <= i && i + 4 <= |r| {
        assert !SepAt(s, i);
        assert r[i..i + 4] == s[i..i + 4];
      }
    }
  }

  /** A name followed by a separator and anything: the field is the name. */
  lemma FieldBefore(a: string, sep: string, b: string)
    requires sep == "|" || sep == "<br>"
    requires '|' !in a
    requires forall i :: !BreakAt(a, i)
    ensures FirstField(a + sep + b) == a
  {
    var s := a + sep + b;
    var r := FirstField(s);
    assert s[|a|] == sep[0];
    assert s[|a|..|a| + |sep|] == sep;
    assert SepAt(s, |a|);
    forall i | 0 <= i < |a| ensures !SepAt(s, i) {
      assert s[i] == a[i];
      if i + 4 <= |s| {
        if i + 4 <= |a| {
          assert s[i..i + 4] == a[i..i + 4];
          assert !BreakAt(a, i);
        } else {
          assert s[i..i + 4][|a| - i] == sep[0];
        }
      }
    }
    assert s[..|a|] == a;
  }

  /** A string without separators is its own first field. */
  lemma FieldWhole(s: string)
    requires forall i :: 0 <= i < |s| ==> !SepAt(s, i)
    ensures FirstField(s) == s
  {
  }
}
