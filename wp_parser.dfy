/**
 * The two static field parsers of `wpParser` (wpparser.py), which clean the infobox
 * values that wptools returns for a Wikipedia film page.
 */
module WpParser {
  import opened Wrappers
  import opened TextFields

  // ---------------------------------------------------------------- running time

  /**
   * `parse_minutes` (lines 58-66): the digit runs of the string; the first is the
   * result unless it is at most 3 and a second run follows, in which case the two are
   * hours and minutes. A string without digits raises IndexError at `time[0]` (None).
   */
  function ParseMinutes(s: string): (r: Option<nat>)
    ensures r.None? <==> forall i :: 0 <= i < |s| ==> !IsDigit(s[i])
  {
    var runs := DigitRuns(s);
    if runs == [] then None
    else
      var t1 := Value(runs[0]);
      if |runs| > 1 && t1 <= 3 then Some(t1 * 60 + Value(runs[1])) else Some(t1)
  }

  /** "104 minutes": a single number is the running time. */
  lemma MinutesOnly(n: nat, rest: string)
    requires forall i :: 0 <= i < |rest| ==> !IsDigit(rest[i])
    ensures ParseMinutes(Show(n) + rest) == Some(n)
  {
    DigitRunsShow(n, rest);
    ValueShow(n);
  }

  /** "120 min (director's cut 135 min)": a first number above 3 is the running time, whatever follows. */
  lemma MinutesFirst(n: nat, rest: string)
    requires n > 3
    requires rest == [] || !IsDigit(rest[0])
    ensures ParseMinutes(Show(n) + rest) == Some(n)
  {
    DigitRunsShow(n, rest);
    ValueShow(n);
  }

  /** "1 hour 45 min": a first number of at most 3 followed by another is hours and minutes. */
  lemma HoursAndMinutes(h: nat, gap: string, m: nat, rest: string)
    requires h <= 3
    requires gap != [] && forall i :: 0 <= i < |gap| ==> !IsDigit(gap[i])
    requires rest == [] || !IsDigit(rest[0])
    ensures ParseMinutes(Show(h) + gap + Show(m) + rest) == Some(h * 60 + m)
  {
    var s := Show(h) + gap + Show(m) + rest;
    TwoRuns(h, gap, m, rest);
    ValueShow(h);
    ValueShow(m);
    assert ParseMinutes(s) == Some(Value(DigitRuns(s)[0]) * 60 + Value(DigitRuns(s)[1]));
  }

  /** The first two digit runs of "h gap m rest" are the two numerals. */
  lemma TwoRuns(h: nat, gap: string, m: nat, rest: string)
    requires gap != [] && forall i :: 0 <= i < |gap| ==> !IsDigit(gap[i])
    requires rest == [] || !IsDigit(rest[0])
    ensures var runs := DigitRuns(Show(h) + gap + Show(m) + rest);
            |runs| > 1 && runs[0] == Show(h) && runs[1] == Show(m)
  {
    var hs, ms := Show(h), Show(m);
    var after := ms + rest;
    var tail := gap + after;
    assert tail[0] == gap[0];
    Regroup(hs, gap, ms, rest);
    DigitRunsShow(h, tail);
    DigitRunsSkip(gap, after);
    DigitRunsShow(m, rest);
  }

  lemma Regroup(a: string, b: string, c: string, d: string)
    ensures a + b + c + d == a + (b + (c + d))
  {
  }

  /** Text before the first number does not matter. */
  lemma MinutesAfterText(lead: string, s: string)
    requires forall i :: 0 <= i < |lead| ==> !IsDigit(lead[i])
    ensures ParseMinutes(lead + s) == ParseMinutes(s)
  {
    DigitRunsSkip(lead, s);
  }

  // ---------------------------------------------------------------- director

  predicate IsBracket(c: char) {
    c == '[' || c == ']' || c == '{' || c == '}'
  }

  /** "[[", "]]", "{{" or "}}" starts `s`. */
  predicate PairFirst(s: string) {
    |s| >= 2 && s[0] == s[1] && IsBracket(s[0])
  }

  /**
   * `re.sub(r'\[{2}|\]{2}|\{{2}|\}{2}', '', s)`: one left-to-right pass that deletes
   * each doubled bracket or brace it meets and resumes after it, never looking back at
   * what the deletion brought together.
   */
  function StripPairs(s: string): (r: string)
    ensures |r| <= |s|
    ensures (|s| - |r|) % 2 == 0
  {
    if s == [] then []
    else if PairFirst(s) then StripPairs(s[2..])
    else [s[0]] + StripPairs(s[1..])
  }

  /** Text without brackets or braces passes through unchanged, and so does whatever follows. */
  lemma {:induction false} StripPlain(a: string, b: string)
    requires forall i :: 0 <= i < |a| ==> !IsBracket(a[i])
    ensures StripPairs(a + b) == a + StripPairs(b)
  {
    if a == [] {
      assert a + b == b;
    } else {
      assert (a + b)[0] == a[0] && (a + b)[1..] == a[1..] + b;
      StripPlain(a[1..], b);
    }
  }

  /** Deleting a leading pair. */
  lemma StripLeading(c: char, b: string)
    requires IsBracket(c)
    ensures StripPairs([c, c] + b) == StripPairs(b)
  {
    assert ([c, c] + b)[2..] == b;
  }

  /** A pair brought together by a deletion survives: "[{{[" gives "[[". */
  lemma NotRescanned()
    ensures StripPairs("[{{[") == "[["
    ensures StripPairs("{[[{") == "{{"
  {
    assert StripPairs("[") == "[" && StripPairs("{") == "{";
    assert StripPairs("{{[") == StripPairs("[");
    assert StripPairs("[[{") == StripPairs("{");
  }

  /**
   * `parse_director` (line 55): the pairs deleted, then the text before the first
   * "<br>" or "|". `re.split` always yields a first piece, so this never raises.
   */
  function ParseDirector(s: string): (r: string)
    ensures '|' !in r
    ensures forall i :: !BreakAt(r, i)
    ensures |r| <= |StripPairs(s)| && r == StripPairs(s)[..|r|]
    ensures |r| == |StripPairs(s)| || SepAt(StripPairs(s), |r|)
  {
    FieldClean(StripPairs(s));
    FirstField(StripPairs(s))
  }

  /** A plain name carries no separator of its own. */
  ghost predicate PlainName(a: string) {
    && (forall i :: 0 <= i < |a| ==> !IsBracket(a[i]))
    && '|' !in a
    && (forall i :: !BreakAt(a, i))
  }

  /** "[[Name]]": a linked name is the name. */
  lemma LinkedDirector(a: string)
    requires PlainName(a)
    ensures ParseDirector("[[" + a + "]]") == a
  {
    assert "[[" + a + "]]" == ['[', '['] + (a + "]]");
    StripLeading('[', a + "]]");
    StripPlain(a, "]]");
    StripLeading(']', []);
    assert "]]" == [']', ']'] + [];
    assert a + [] == a;
    FieldWhole(a);
  }

  /** "[[First]]<br>[[Second]]" or "[[First]]|…": of several directors only the first is kept. */
  lemma FirstDirector(a: string, sep: string, b: string)
    requires PlainName(a)
    requires sep == "|" || sep == "<br>"
    ensures ParseDirector("[[" + a + "]]" + sep + b) == a
  {
    var rest := sep + b;
    assert forall i :: 0 <= i < |sep| ==> !IsBracket(sep[i]);
    assert "[[" + a + "]]" + sep + b == ['[', '['] + (a + ([']', ']'] + rest));
    StripLeading('[', a + ([']', ']'] + rest));
    StripPlain(a, [']', ']'] + rest);
    StripLeading(']', rest);
    StripPlain(sep, b);
    assert a + (sep + StripPairs(b)) == a + sep + StripPairs(b);
    FieldBefore(a, sep, StripPairs(b));
  }
}
