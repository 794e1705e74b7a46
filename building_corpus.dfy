/**
 * The pure and step-by-step parts of building_corpus.py, the script that turns the
 * members of "Category:2018 films" into the JSON corpus: the title cleaner `de_film`,
 * the fields `parse_entry` derives from a page (lines 118-131), the command-line flag
 * loop (228-242), the id assignment (259-267) and the re-sorting by key (275-277).
 */
module BuildingCorpus {
  import opened Wrappers
  import opened TextFields

  predicate StartsWith(s: string, p: string) {
    |p| <= |s| && s[..|p|] == p
  }

  // ---------------------------------------------------------------- de_film

  /** `\s`, restricted to the ASCII whitespace characters. */
  predicate IsSpace(c: char) {
    c == ' ' || c == '\t' || c == '\n' || c == '\r' || c == '\U{B}' || c == '\U{C}'
  }

  /** `[fF]ilm\)` matches at the start of `t`. */
  predicate IsFilmEnd(t: string) {
    |t| >= 5 && (t[..5] == "film)" || t[..5] == "Film)")
  }

  /**
   * Where `.*[fF]ilm\)` lets `[fF]ilm\)` start in `t`: `.*` is greedy and stops at a
   * newline, so this is the LAST start reachable without crossing one.
   */
  function FilmClose(t: string): (r: Option<nat>)
    ensures r.Some? ==> r.value <= |t| && '\n' !in t[..r.value] && IsFilmEnd(t[r.value..])
    ensures r.Some? ==> forall k :: r.value < k <= |t| && '\n' !in t[..k] ==> !IsFilmEnd(t[k..])
    ensures r.None? ==> forall k :: 0 <= k <= |t| && '\n' !in t[..k] ==> !IsFilmEnd(t[k..])
  {
    if t == [] || t[0] == '\n' then
      assert forall k :: 0 < k <= |t| ==> t[0] in t[..k];
      None
    else
      assert forall k :: 1 <= k <= |t| ==> t[k..] == t[1..][k - 1..] && t[..k] == [t[0]] + t[1..][..k - 1];
      match FilmClose(t[1..])
      case Some(j) => Some(j + 1)
      case None => if IsFilmEnd(t) then Some(0) else None
  }

  /** The length of the match of `\s\(.*[fF]ilm\)` at the start of `s`, if there is one. */
  function MatchAt(s: string): (n: Option<nat>)
    ensures n.Some? ==> 7 <= n.value <= |s|
  {
    if |s| >= 2 && IsSpace(s[0]) && s[1] == '(' then
      match FilmClose(s[2..])
      case Some(j) => Some(2 + j + 5)
      case None => None
    else None
  }

  /**
   * `de_film` (line 34): `re.sub(r'\s\(.*[fF]ilm\)', '', s)`, scanning left to right,
   * deleting each match and resuming after it.
   */
  function DeFilm(s: string): (r: string)
    ensures |r| <= |s|
    decreases |s|
  {
    if s == [] then []
    else
      match MatchAt(s)
      case Some(n) => DeFilm(s[n..])
      case None => [s[0]] + DeFilm(s[1..])
  }

  /** A title in which no group starts is unchanged. */
  lemma {:induction false} DeFilmUnchanged(s: string)
    requires forall i :: 0 <= i < |s| ==> MatchAt(s[i..]).None?
    ensures DeFilm(s) == s
  {
    if s != [] {
      assert MatchAt(s[0..]).None? && s[0..] == s;
      forall i | 0 <= i < |s| - 1 ensures MatchAt(s[1..][i..]).None? {
        assert s[1..][i..] == s[i + 1..];
      }
      DeFilmUnchanged(s[1..]);
    }
  }

  /** In "text film)" with no newline in `text`, the close is the final one. */
  lemma FilmCloseAtEnd(mid: string, close: string)
    requires close == "film)" || close == "Film)"
    requires '\n' !in mid
    ensures FilmClose(mid + close) == Some(|mid|)
  {
    var t := mid + close;
    assert t[..|mid|] == mid && t[|mid|..] == close;
    assert IsFilmEnd(t[|mid|..]);
  }

  /**
   * "Halloween (2018 film)" gives "Halloween": a title without "(" loses everything from
   * " (" through the last "film)", so "Up (2009 film) (2018 film)" gives "Up".
   */
  lemma {:induction false} DeFilmGroup(title: string, mid: string, close: string)
    requires close == "film)" || close == "Film)"
    requires '(' !in title && '\n' !in mid
    ensures DeFilm(title + " (" + mid + close) == title
  {
    var s := title + " (" + mid + close;
    if title == [] {
      assert s == " (" + (mid + close);
      assert s[2..] == mid + close;
      FilmCloseAtEnd(mid, close);
      assert MatchAt(s) == Some(|s|);
      assert s[|s|..] == [];
    } else {
      assert s[1] != '(' by {
        if |title| >= 2 {
          assert s[1] == title[1];
        } else {
          assert s[1] == ' ';
        }
      }
      assert s[1..] == title[1..] + " (" + mid + close;
      assert '(' !in title[1..];
      DeFilmGroup(title[1..], mid, close);
    }
  }

  lemma Halloween()
    ensures DeFilm("Halloween (2018 film)") == "Halloween"
  {
    assert "Halloween (2018 film)" == "Halloween" + " (" + "2018 " + "film)";
    DeFilmGroup("Halloween", "2018 ", "film)");
  }

  // ---------------------------------------------------------------- parse_entry

  /**
   * Lines 119-122: `re.match(r'[12]?\d{3}', text)`, or '' without a match: a leading 1
   * or 2 and three digits, else three leading digits.
   */
  function StoryTime(s: string): (r: string)
    ensures |r| <= |s| && r == s[..|r|] && AllDigits(r)
    ensures r == [] <==> !(|s| >= 3 && AllDigits(s[..3]))
    ensures |r| == 4 <==> |s| >= 4 && (s[0] == '1' || s[0] == '2') && AllDigits(s[..4])
    ensures |r| == 0 || |r| == 3 || |r| == 4
  {
    if |s| >= 4 && (s[0] == '1' || s[0] == '2') && AllDigits(s[1..4]) then
      assert AllDigits(s[..4]) by {
        assert forall i :: 1 <= i < 4 ==> s[..4][i] == s[1..4][i - 1];
      }
      s[..4]
    else if |s| >= 3 && AllDigits(s[..3]) then
      s[..3]
    else
      []
  }

  /** A text opening with a year from 1000 to 2999 gives that year. */
  lemma StoryYear(y: nat, rest: string)
    requires 1000 <= y < 3000
    ensures StoryTime(Show(y) + rest) == Show(y)
  {
    ShowLength(y);
    ShowThousands(y);
    var s := Show(y) + rest;
    assert s[..4] == Show(y);
  }

  /** A year from 3000 on gives its first three digits: "3018 …" gives "301". */
  lemma StoryYearBeyond(y: nat, rest: string)
    requires 3000 <= y < 10000
    ensures StoryTime(Show(y) + rest) == Show(y / 10)
  {
    ShowLength(y);
    ShowThousands(y);
    var s := Show(y) + rest;
    assert Show(y) == Show(y / 10) + [DigitChar(y % 10)];
    assert s[..3] == Show(y / 10);
    assert y / 1000 >= 3;
  }

  /** A text opening with a word gives ''. */
  lemma StoryTimeWord(s: string)
    requires s != [] && !IsDigit(s[0])
    ensures StoryTime(s) == []
  {
  }

  /** Line 124: the first country, or '' for an empty list. */
  function StoryLocation(countries: seq<string>): (r: string)
    ensures countries != [] ==> r == countries[0]
    ensures countries == [] ==> r == ""
  {
    if countries != [] then countries[0] else ""
  }

  /** `k[9:]`: the key without its first nine characters, "Category:". */
  function DropPrefix(k: string): string
  {
    if |k| >= 9 then k[9..] else ""
  }

  /** Lines 127-131 (and 109-113 of async_building.py): the kept categories, in key order. */
  function CategoriesOf(keys: seq<string>): seq<string>
  {
    if keys == [] then []
    else
      var k := keys[|keys| - 1];
      CategoriesOf(keys[..|keys| - 1]) + (if StartsWith(k, "Use") then [] else [DropPrefix(k)])
  }

  /** Lines 127-131: the loop over the category keys. */
  method Categories(keys: seq<string>) returns (cats: seq<string>)
    ensures cats == CategoriesOf(keys)
  {
    cats := [];
    for i := 0 to |keys|
      invariant cats == CategoriesOf(keys[..i])
    {
      assert keys[..i + 1][..i] == keys[..i];
      if !StartsWith(keys[i], "Use") {
        cats := cats + [DropPrefix(keys[i])];
      }
    }
    assert keys[..|keys|] == keys;
  }

  /** Every kept category comes from a key not starting with "Use", and every such key gives one. */
  lemma {:induction false} CategoriesMembers(keys: seq<string>)
    ensures |CategoriesOf(keys)| <= |keys|
    ensures forall c :: c in CategoriesOf(keys) <==> exists k :: k in keys && !StartsWith(k, "Use") && DropPrefix(k) == c
  {
    if keys != [] {
      var init := keys[..|keys| - 1];
      CategoriesMembers(init);
      assert keys == init + [keys[|keys| - 1]];
    }
  }

  /** Names listed as "Category:" + name come back as the names. */
  function Prefixed(names: seq<string>): (keys: seq<string>)
    ensures |keys| == |names|
  {
    if names == [] then [] else Prefixed(names[..|names| - 1]) + ["Category:" + names[|names| - 1]]
  }

  lemma {:induction false} CategoriesOfPrefixed(names: seq<string>)
    ensures CategoriesOf(Prefixed(names)) == names
  {
    if names != [] {
      var init, n := names[..|names| - 1], names[|names| - 1];
      CategoriesOfPrefixed(init);
      var keys := Prefixed(names);
      var k := "Category:" + n;
      assert keys[..|keys| - 1] == Prefixed(init) && keys[|keys| - 1] == k;
      assert k[..3] == "Cat";
      assert k[9..] == n;
      assert names == init + [n];
    }
  }

  // ---------------------------------------------------------------- id assignment

  /** The members that are not sub-category pages. */
  function Articles(members: seq<string>): (a: seq<string>)
    ensures |a| <= |members|
  {
    if members == [] then []
    else
      var p := members[|members| - 1];
      Articles(members[..|members| - 1]) + (if StartsWith(p, "Category:") then [] else [p])
  }

  /**
   * How many articles receive an id. `LIMIT` is False (0) unless `-l` set it; only a
   * positive limit can stop the loop, since `index` is at least 2 when it is compared.
   */
  function Taken(articles: nat, limit: int): nat
  {
    if limit >= 1 && limit < articles then limit else articles
  }

  /** The pairs (page, id) of the first `n` articles, numbered from 1. */
  function Numbered(articles: seq<string>, n: nat): set<(string, int)>
    requires n <= |articles|
  {
    set k | 0 <= k < n :: (articles[k], k + 1)
  }

  /** Lines 259-267. */
  method AssignIds(members: seq<string>, limit: int) returns (entries: set<(string, int)>)
    ensures entries == Numbered(Articles(members), Taken(|Articles(members)|, limit))
  {
    entries := {};
    var index := 1;
    var i := 0;
    while i < |members|
      invariant 0 <= i <= |members|
      invariant index == |Articles(members[..i])| + 1
      invariant limit >= 1 ==> index <= limit
      invariant entries == Numbered(Articles(members[..i]), index - 1)
    {
      var page := members[i];
      AssignStep(members, i, entries);
      if !StartsWith(page, "Category:") {
        entries := entries + {(page, index)};
        index := index + 1;
        if index == limit + 1 {
          TakenAtLimit(members, i + 1, limit);
          return;
        }
      }
      i := i + 1;
    }
    assert members[..i] == members;
  }

  /** One member more: an article gets the next id, a category page changes nothing. */
  lemma AssignStep(members: seq<string>, i: nat, entries: set<(string, int)>)
    requires i < |members|
    requires entries == Numbered(Articles(members[..i]), |Articles(members[..i])|)
    ensures var before, after := Articles(members[..i]), Articles(members[..i + 1]);
            if StartsWith(members[i], "Category:") then
              after == before && entries == Numbered(after, |after|)
            else
              after == before + [members[i]] && entries + {(members[i], |before| + 1)} == Numbered(after, |after|)
  {
    assert members[..i + 1][..i] == members[..i];
    var before := Articles(members[..i]);
    if !StartsWith(members[i], "Category:") {
      NumberedNext(before, members[i], |before|, entries);
    }
  }

  /** The articles of a prefix are a prefix of the articles. */
  lemma {:induction false} ArticlesPrefix(members: seq<string>, i: nat)
    requires i <= |members|
    ensures |Articles(members[..i])| <= |Articles(members)|
    ensures Articles(members[..i]) == Articles(members)[..|Articles(members[..i])|]
    decreases |members| - i
  {
    if i < |members| {
      ArticlesPrefix(members, i + 1);
      assert members[..i + 1][..i] == members[..i];
    } else {
      assert members[..i] == members;
    }
  }

  lemma NumberedNext(before: seq<string>, page: string, n: nat, entries: set<(string, int)>)
    requires n == |before|
    requires entries == Numbered(before, n)
    ensures entries + {(page, n + 1)} == Numbered(before + [page], n + 1)
  {
    var after := before + [page];
    assert forall k :: 0 <= k < n ==> after[k] == before[k];
    assert after[n] == page;
  }

  /** Stopping at the limit: the ids handed out are those of the first `limit` articles. */
  lemma TakenAtLimit(members: seq<string>, i: nat, limit: int)
    requires i <= |members|
    requires limit >= 1 && |Articles(members[..i])| == limit
    ensures Numbered(Articles(members[..i]), limit) == Numbered(Articles(members), Taken(|Articles(members)|, limit))
  {
    ArticlesPrefix(members, i);
    var all := Articles(members);
    assert Taken(|all|, limit) == limit;
    NumberedPrefix(all, limit);
  }

  /** Numbering the first `n` articles of a prefix of length `n` is numbering the first `n`. */
  lemma NumberedPrefix(xs: seq<string>, n: nat)
    requires n <= |xs|
    ensures Numbered(xs[..n], n) == Numbered(xs, n)
  {
    forall e | e in Numbered(xs, n) ensures e in Numbered(xs[..n], n) {
      var k :| 0 <= k < n && e == (xs[k], k + 1);
      assert xs[..n][k] == xs[k];
    }
    forall e | e in Numbered(xs[..n], n) ensures e in Numbered(xs, n) {
      var k :| 0 <= k < n && e == (xs[..n][k], k + 1);
      assert xs[..n][k] == xs[k];
    }
  }

  /** The ids are 1, 2, …, n, one page each. */
  lemma ContiguousIds(articles: seq<string>, n: nat)
    requires n <= |articles|
    ensures (set e | e in Numbered(articles, n) :: e.1) == Range(n)
    ensures forall e, f :: e in Numbered(articles, n) && f in Numbered(articles, n) && e.1 == f.1 ==> e == f
  {
    var ids := set e | e in Numbered(articles, n) :: e.1;
    forall i | 1 <= i <= n ensures i in ids {
      assert (articles[i - 1], i) in Numbered(articles, n);
    }
  }

  // ---------------------------------------------------------------- command line

  /** The settings lines 21-24 start from; `LIMIT = False` is 0. */
  datatype Settings = Settings(cores: int, timeout: int, wpOnly: bool, limit: int)

  const Defaults := Settings(6, 10, false, 0)

  /** `int(s)` for an optional sign and decimal digits; anything else raises ValueError (None). */
  function PyInt(s: string): (r: Option<int>)
    ensures r.Some? ==> s != []
  {
    if s == [] then None
    else if (s[0] == '-' || s[0] == '+') && |s| > 1 && AllDigits(s[1..]) then
      var v: int := Value(s[1..]);
      Some(if s[0] == '-' then -v else v)
    else if AllDigits(s) then Some(Value(s))
    else None
  }

  lemma PyIntShow(n: nat)
    ensures PyInt(Show(n)) == Some(n)
    ensures PyInt("-" + Show(n)) == Some(-(n as int))
  {
    ValueShow(n);
    assert ("-" + Show(n))[1..] == Show(n);
  }

  predicate IsFlag(a: string) {
    a == "-p" || a == "-t" || a == "-m" || a == "-l"
  }

  /** What a flag does with the argument after it. */
  function SetFlag(flag: string, value: string, s: Settings): Option<Settings>
    requires IsFlag(flag)
  {
    if flag == "-m" then Some(s.(wpOnly := value != ""))
    else
      match PyInt(value)
      case None => None
      case Some(v) =>
        if flag == "-p" then Some(s.(cores := v))
        else if flag == "-t" then Some(s.(timeout := v))
        else Some(s.(limit := v))
  }

  /**
   * The arguments after the script name, read left to right: a flag consumes the next
   * argument, anything else is skipped; a flag with nothing after it raises IndexError
   * and a flag whose number does not parse raises ValueError (None).
   */
  function ReadFlags(args: seq<string>, s: Settings): Option<Settings>
    decreases |args|
  {
    if args == [] then Some(s)
    else if IsFlag(args[0]) then
      if |args| < 2 then None
      else
        match SetFlag(args[0], args[1], s)
        case None => None
        case Some(s') => ReadFlags(args[2..], s')
    else ReadFlags(args[1..], s)
  }

  /** Lines 228-242. */
  method ParseArgs(argv: seq<string>) returns (r: Option<Settings>)
    ensures argv == [] ==> r == Some(Defaults)
    ensures argv != [] ==> r == ReadFlags(argv[1..], Defaults)
  {
    var s := Defaults;
    var i := 1;
    while i < |argv|
      invariant argv != [] ==> 1 <= i <= |argv| && ReadFlags(argv[1..], Defaults) == ReadFlags(argv[i..], s)
      invariant argv == [] ==> s == Defaults
      decreases |argv| - i
    {
      var a := argv[i];
      if IsFlag(a) {
        if i + 1 >= |argv| {
          return None;
        }
        var next := SetFlag(a, argv[i + 1], s);
        if next.None? {
          return None;
        }
        assert argv[i..][2..] == argv[i + 2..];
        s := next.value;
        i := i + 1;
      } else {
        assert argv[i..][1..] == argv[i + 1..];
      }
      i := i + 1;
    }
    if argv != [] {
      assert argv[i..] == [];
    }
    return Some(s);
  }

  /** Arguments that are not flags change nothing. */
  lemma {:induction false} NoFlags(args: seq<string>, s: Settings)
    requires forall k :: 0 <= k < |args| ==> !IsFlag(args[k])
    ensures ReadFlags(args, s) == Some(s)
  {
    if args != [] {
      NoFlags(args[1..], s);
    }
  }

  /** "-m False" switches to Wikipedia-only mode: any non-empty string is true. */
  lemma ModeFromString()
    ensures ReadFlags(["-m", "False"], Defaults) == Some(Settings(6, 10, true, 0))
    ensures ReadFlags(["-m", ""], Defaults) == Some(Defaults)
  {
  }

  /** "-l n" sets the limit to n. */
  lemma LimitFlag(n: nat, rest: seq<string>, s: Settings)
    ensures ReadFlags(["-l", Show(n)] + rest, s) == ReadFlags(rest, s.(limit := n))
  {
    PyIntShow(n);
    assert SetFlag("-l", Show(n), s) == Some(s.(limit := n));
    assert (["-l", Show(n)] + rest)[2..] == rest;
  }

  /** Of two "-l" flags the later wins. */
  lemma LastLimitWins(n: nat, m: nat, s: Settings)
    ensures ReadFlags(["-l", Show(n), "-l", Show(m)], s) == Some(s.(limit := m))
  {
    LimitFlag(n, ["-l", Show(m)], s);
    LimitFlag(m, [], s.(limit := n));
    assert ["-l", Show(n), "-l", Show(m)] == ["-l", Show(n)] + ["-l", Show(m)];
    assert ["-l", Show(m)] == ["-l", Show(m)] + [];
  }

  /** A flag as the last argument raises, and so does a word where a number belongs. */
  lemma FlagErrors(flag: string)
    requires IsFlag(flag)
    ensures ReadFlags([flag], Defaults).None?
    ensures flag != "-m" ==> ReadFlags([flag, "ten"], Defaults).None?
  {
    assert !AllDigits("ten") by {
      assert !IsDigit("ten"[0]);
    }
  }

  // ---------------------------------------------------------------- json_sorted

  /** The keys 1..n. */
  function Range(n: nat): (r: set<int>)
    ensures |r| == n
    ensures forall i :: i in r <==> 1 <= i <= n
  {
    if n == 0 then {} else Range(n - 1) + {n}
  }

  /** Lines 275-277: `json_sorted[i + 1] = json_data[i + 1]` for i below `len(json_data)`, in that order. */
  method SortByKey<T>(data: map<int, T>) returns (r: Option<seq<(int, T)>>)
    ensures r.None? <==> exists i :: 1 <= i <= |data| && i !in data
    ensures r.Some? ==> |r.value| == |data| && forall k :: 0 <= k < |data| ==> (k + 1) in data && r.value[k] == (k + 1, data[k + 1])
  {
    var sorted: seq<(int, T)> := [];
    for i := 0 to |data|
      invariant forall j :: 1 <= j <= i ==> j in data
      invariant |sorted| == i
      invariant forall k :: 0 <= k < i ==> sorted[k] == (k + 1, data[k + 1])
    {
      if i + 1 !in data {
        return None;
      }
      sorted := sorted + [(i + 1, data[i + 1])];
    }
    return Some(sorted);
  }

  /** The re-sort succeeds exactly when the keys are 1..n, and then it holds every entry once. */
  lemma SortedKeys<T>(data: map<int, T>)
    ensures (forall i :: 1 <= i <= |data| ==> i in data) <==> data.Keys == Range(|data|)
  {
    if forall i :: 1 <= i <= |data| ==> i in data {
      var keys, range := data.Keys, Range(|data|);
      assert range <= keys;
      assert range + (keys - range) == keys;
      assert range * (keys - range) == {};
      assert |keys - range| == 0;
      assert keys - range == {};
    }
  }

  /** Entries stored under the ids handed out by the id assignment re-sort without error. */
  lemma AssignedIdsSort<T>(articles: seq<string>, n: nat, data: map<int, T>)
    requires n <= |articles|
    requires data.Keys == (set e | e in Numbered(articles, n) :: e.1)
    ensures |data| == n
    ensures forall i :: 1 <= i <= |data| ==> i in data
  {
    ContiguousIds(articles, n);
    assert data.Keys == Range(n);
  }
}
