/**
 * The older field parsers of async_building.py (lines 123-130): `parse_minutes` reads
 * only a leading number, and `parse_director` deletes the doubled brackets and braces
 * with four `str.replace` calls in sequence.
 */
module AsyncBuilding {
  import opened Wrappers
  import opened TextFields
  import WpParser

  /**
   * `parse_minutes` (line 130): `int(re.match(r'\d+', s).group())`. A string that does
   * not start with a digit gives no match, and `.group()` on None raises (None).
   */
  function ParseMinutes(s: string): (r: Option<nat>)
    ensures r.None? <==> s == [] || !IsDigit(s[0])
    ensures r.Some? ==> r.value == Value(LeadingDigits(s))
  {
    var ds := LeadingDigits(s);
    if ds == [] then None else Some(Value(ds))
  }

  /** "120 min": the leading numeral is the running time. */
  lemma MinutesLeading(n: nat, rest: string)
    requires rest == [] || !IsDigit(rest[0])
    ensures ParseMinutes(Show(n) + rest) == Some(n)
  {
    LeadingDigitsOf(Show(n), rest);
    ValueShow(n);
  }

  /** Where the string opens with a number above 3, the two versions read the same running time. */
  lemma VersionsAgree(n: nat, rest: string)
    requires n > 3
    requires rest == [] || !IsDigit(rest[0])
    ensures ParseMinutes(Show(n) + rest) == WpParser.ParseMinutes(Show(n) + rest) == Some(n)
  {
    MinutesLeading(n, rest);
    WpParser.MinutesFirst(n, rest);
  }

  /** "1 h 30 min": the older version reads 1 where wpparser.py reads hours and minutes, 90. */
  lemma HoursDiffer()
    ensures ParseMinutes("1 h 30 min") == Some(1)
    ensures WpParser.ParseMinutes("1 h 30 min") == Some(90)
  {
    var one, thirty := Show(1), Show(30);
    assert one == "1";
    assert thirty == "30" by {
      assert Show(30) == Show(3) + [DigitChar(0)];
    }
    assert "1 h 30 min" == one + " h " + thirty + " min";
    MinutesLeading(1, " h 30 min");
    WpParser.HoursAndMinutes(1, " h ", 30, " min");
  }

  /** "Runtime 95": text before the number fails here but not in wpparser.py. */
  lemma LeadingTextDiffers()
    ensures ParseMinutes("Runtime 95").None?
    ensures WpParser.ParseMinutes("Runtime 95") == Some(95)
  {
    var n := Show(95);
    assert n == "95" by {
      assert Show(95) == Show(9) + [DigitChar(5)];
    }
    assert "Runtime 95" == "Runtime " + (n + "");
    WpParser.MinutesAfterText("Runtime ", n + "");
    WpParser.MinutesOnly(95, "");
  }

  /** `s.replace(cc, '')`: every non-overlapping "cc", left to right, deleted. */
  function ReplacePair(s: string, c: char): (r: string)
    ensures |r| <= |s|
  {
    if s == [] then []
    else if |s| >= 2 && s[0] == c && s[1] == c then ReplacePair(s[2..], c)
    else [s[0]] + ReplacePair(s[1..], c)
  }

  /** The result starts with `c` only where the input did. */
  lemma {:induction false} ReplaceHead(s: string, c: char)
    ensures ReplacePair(s, c) != [] && ReplacePair(s, c)[0] == c ==> s != [] && s[0] == c
  {
    if |s| >= 2 && s[0] == c && s[1] == c {
      ReplaceHead(s[2..], c);
    }
  }

  /** Deleting with a doubled character leaves no doubled `c` behind. */
  lemma {:induction false} NoPairLeft(s: string, c: char)
    ensures forall i :: 0 <= i < |ReplacePair(s, c)| - 1 ==> !(ReplacePair(s, c)[i] == c && ReplacePair(s, c)[i + 1] == c)
  {
    if s == [] {
    } else if |s| >= 2 && s[0] == c && s[1] == c {
      NoPairLeft(s[2..], c);
    } else {
      NoPairLeft(s[1..], c);
      ReplaceHead(s[1..], c);
      var r := ReplacePair(s, c);
      var t := ReplacePair(s[1..], c);
      assert r == [s[0]] + t;
      forall i | 0 <= i < |r| - 1 ensures !(r[i] == c && r[i + 1] == c) {
        if i > 0 {
          assert r[i] == t[i - 1] && r[i + 1] == t[i];
        }
      }
    }
  }

  /** Lines 125-126: "[[", then "]]", then "{{", then "}}", each over the output of the one before. */
  function StripSequential(s: string): string
  {
    ReplacePair(ReplacePair(ReplacePair(ReplacePair(s, '['), ']'), '{'), '}')
  }

  /** The last replacement leaves no "}}". */
  lemma NoClosingBraces(s: string)
    ensures var r := StripSequential(s);
            forall i :: 0 <= i < |r| - 1 ==> !(r[i] == '}' && r[i + 1] == '}')
  {
    NoPairLeft(ReplacePair(ReplacePair(ReplacePair(s, '['), ']'), '{'), '}');
  }

  /**
   * A later replacement sees what an earlier one joined together, which the one-pass
   * regex of wpparser.py does not: "{[[{" loses everything here but keeps "{{" there.
   */
  lemma SequentialVersusOnePass()
    ensures StripSequential("{[[{") == ""
    ensures WpParser.StripPairs("{[[{") == "{{"
  {
    assert ReplacePair("{", '[') == "{" && ReplacePair("[[{", '[') == "{";
    assert ReplacePair("{[[{", '[') == "{{";
    assert ReplacePair("{", ']') == "{" && ReplacePair("{{", ']') == "{{";
    assert ReplacePair("{{", '{') == "";
    assert ReplacePair("", '}') == "";
    WpParser.NotRescanned();
  }

  /**
   * `parse_director` (lines 123-126): the sequential deletions, then the text before the
   * first "<br>" or "|"; like the newer version it never raises.
   */
  function ParseDirector(s: string): (r: string)
    ensures '|' !in r
    ensures forall i :: !BreakAt(r, i)
    ensures |r| <= |StripSequential(s)| && r == StripSequential(s)[..|r|]
    ensures |r| == |StripSequential(s)| || SepAt(StripSequential(s), |r|)
  {
    FieldClean(StripSequential(s));
    FirstField(StripSequential(s))
  }

  /** Text without the character `c` passes through a replacement unchanged. */
  lemma {:induction false} ReplaceAbsent(s: string, c: char)
    requires c !in s
    ensures ReplacePair(s, c) == s
  {
    if s != [] {
      assert c !in s[1..];
      ReplaceAbsent(s[1..], c);
    }
  }

  /** On "[[Name]]|…" the two versions agree: both give the name. */
  lemma FirstDirectorAgrees(a: string, b: string)
    requires WpParser.PlainName(a)
    requires forall i :: 0 <= i < |b| ==> !WpParser.IsBracket(b[i])
    ensures ParseDirector("[[" + a + "]]|" + b) == WpParser.ParseDirector("[[" + a + "]]|" + b) == a
  {
    assert "[[" + a + "]]|" + b == "[[" + a + "]]" + "|" + b;
    WpParser.FirstDirector(a, "|", b);
    SequentialOfLink(a, b);
    FieldBefore(a, "|", b);
  }

  /** The sequential deletions turn "[[Name]]|rest" into "Name|rest". */
  lemma SequentialOfLink(a: string, b: string)
    requires forall i :: 0 <= i < |a| ==> !WpParser.IsBracket(a[i])
    requires forall i :: 0 <= i < |b| ==> !WpParser.IsBracket(b[i])
    ensures StripSequential("[[" + a + "]]|" + b) == a + "|" + b
  {
    var mid := a + "]]|" + b;
    assert "[[" + a + "]]|" + b == ['[', '['] + mid;
    assert '[' !in mid by {
      assert forall i :: 0 <= i < |a| ==> mid[i] == a[i];
      assert forall i :: |a| + 3 <= i < |mid| ==> mid[i] == b[i - |a| - 3];
    }
    ReplaceAbsent(mid, '[');
    var tail := "|" + b;
    assert mid == a + ([']', ']'] + tail);
    assert ']' !in a && ']' !in tail by {
      assert forall i :: 0 < i < |tail| ==> tail[i] == b[i - 1];
    }
    RemovePairAfter(a, tail, ']');
    var t := a + tail;
    assert '{' !in t && '}' !in t by {
      assert forall i :: 0 <= i < |a| ==> t[i] == a[i];
      assert forall i :: |a| < i < |t| ==> t[i] == b[i - |a| - 1];
    }
    ReplaceAbsent(t, '{');
    ReplaceAbsent(t, '}');
    assert t == a + "|" + b;
  }

  /** Plain text, a doubled `c`, then text without `c`: only the pair goes. */
  lemma {:induction false} RemovePairAfter(a: string, tail: string, c: char)
    requires c !in a && c !in tail
    ensures ReplacePair(a + ([c, c] + tail), c) == a + tail
  {
    if a == [] {
      var s := [c, c] + tail;
      assert a + s == s;
      assert s[0] == c && s[1] == c && s[2..] == tail;
      ReplaceAbsent(tail, c);
    } else {
      assert (a + ([c, c] + tail))[0] == a[0];
      assert (a + ([c, c] + tail))[1..] == a[1..] + ([c, c] + tail);
      assert c !in a[1..];
      RemovePairAfter(a[1..], tail, c);
    }
  }
}
