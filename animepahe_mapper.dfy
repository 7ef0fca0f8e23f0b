/**
  The AnimePahe mapper: which AnimePahe search result stands for an AniList entry. The rule
  chain is: a result whose id starts with the AniList id; else, when a year is known and some
  results carry it, the first such result whose title contains or resembles an AniList title,
  or the first such result; else the first result with an exactly equal title; else the most
  similar result above 0.6; else the first result. The search itself is an oracle.
*/
module AnimePaheMapper {
  import opened Wrappers
  import opened Strings
  import opened Titles
  import opened Media
  import opened AnimePahe

  // ------------------------------------------------------------------
  // Title similarity
  // ------------------------------------------------------------------

  /**
    The word overlap of two normalised titles: twice the number of words of the first found
    among the second's words, over the total number of words. Two different normalised
    titles always have a word between them; with none the value is 0, which compares with
    the positive thresholds as JavaScript's NaN would.
  */
  function WordOverlap(norm1: string, norm2: string): (r: real)
    ensures 0.0 <= r
  {
    var words1 := Words(norm1);
    var words2 := Words(norm2);
    var total: nat := |words1| + |words2|;
    var shared: nat := 2 * |CommonWords(words1, words2)|;
    if total == 0 then 0.0
    else shared as real / total as real
  }

  /** The comparison after normalisation: 1 when equal, otherwise the word overlap. */
  function Overlap(norm1: string, norm2: string): (r: real)
    ensures 0.0 <= r
    ensures norm1 == norm2 ==> r == 1.0
  {
    if norm1 == norm2 then 1.0 else WordOverlap(norm1, norm2)
  }

  /**
    `calculateTitleSimilarity`: 0 when either title is empty, 1 when both normalise to the
    same text, otherwise the word overlap of the normalised titles.
  */
  function TitleSimilarity(title1: string, title2: string): (r: real)
    ensures title1 == [] || title2 == [] ==> r == 0.0
    ensures title1 != [] && title2 != [] && Normalize(title1) == Normalize(title2) ==> r == 1.0
    ensures 0.0 <= r
  {
    if title1 == [] || title2 == [] then 0.0 else Overlap(Normalize(title1), Normalize(title2))
  }

  /**
    The similarity as the selection loops compute it, on titles that are already normalised.
    It is `TitleSimilarity` itself on such titles (`SimilarityOfNormalized`).
  */
  function NormalSimilarity(norm1: string, norm2: string): (r: real)
    ensures 0.0 <= r
  {
    if norm1 == [] || norm2 == [] then 0.0 else Overlap(norm1, norm2)
  }

  /** Re-normalising normalised titles inside the similarity changes nothing. */
  lemma SimilarityOfNormalized(norm1: string, norm2: string)
    requires IsNormal(norm1) && IsNormal(norm2)
    ensures TitleSimilarity(norm1, norm2) == NormalSimilarity(norm1, norm2)
  {
    NormalFixed(norm1);
    NormalFixed(norm2);
  }

  /** Titles that share no word have similarity 0 unless they normalise to the same text. */
  lemma SimilarityNoSharedWords(title1: string, title2: string)
    requires Normalize(title1) != Normalize(title2)
    requires forall w :: w in Words(Normalize(title1)) ==> w !in Words(Normalize(title2))
    ensures TitleSimilarity(title1, title2) == 0.0
  {
    if title1 != [] && title2 != [] {
      OverlapNoSharedWords(Normalize(title1), Normalize(title2));
    }
  }

  lemma OverlapNoSharedWords(norm1: string, norm2: string)
    requires forall w :: w in Words(norm1) ==> w !in Words(norm2)
    ensures WordOverlap(norm1, norm2) == 0.0
  {
    var words1 := Words(norm1);
    var words2 := Words(norm2);
    assert CommonWords(words1, words2) == [];
    if |words1| + |words2| != 0 {
      var d := (|words1| + |words2|) as real;
      assert WordOverlap(norm1, norm2) == 0.0 / d;
    }
  }

  function Elements<T>(s: seq<T>): set<T> { set x | x in s }

  lemma {:induction false} ElementsBound<T>(s: seq<T>)
    ensures |Elements(s)| <= |s|
    ensures Distinct(s) ==> |Elements(s)| == |s|
  {
    if s != [] {
      ElementsBound(s[1..]);
      assert Elements(s) == {s[0]} + Elements(s[1..]);
      if Distinct(s) {
        assert Distinct(s[1..]);
        assert s[0] !in Elements(s[1..]);
      }
    }
  }

  /** A repetition-free sequence drawn from `ys` is no longer than `ys`. */
  lemma DistinctWithin<T>(xs: seq<T>, ys: seq<T>)
    requires Distinct(xs) && forall x :: x in xs ==> x in ys
    ensures |xs| <= |ys|
  {
    ElementsBound(xs);
    ElementsBound(ys);
    var a := Elements(xs);
    var b := Elements(ys);
    assert a <= b;
    assert b == a + (b - a);
    assert a * (b - a) == {};
  }

  lemma {:induction false} CommonWordsDistinct(ws: seq<string>, others: seq<string>)
    requires Distinct(ws)
    ensures Distinct(CommonWords(ws, others))
  {
    if ws != [] {
      CommonWordsDistinct(ws[1..], others);
      var rest := CommonWords(ws[1..], others);
      assert ws[0] !in ws[1..];
      assert ws[0] !in rest;
      if ws[0] in others {
        var r := [ws[0]] + rest;
        forall i, j | 0 <= i < j < |r| ensures r[i] != r[j] {
          if i > 0 {
            assert r[i] == rest[i - 1] && r[j] == rest[j - 1];
          } else {
            assert r[j] == rest[j - 1];
          }
        }
      }
    }
  }

  /** When the first title repeats no word, the similarity is at most 1. */
  lemma SimilarityAtMostOne(title1: string, title2: string)
    requires Distinct(Words(Normalize(title1)))
    ensures TitleSimilarity(title1, title2) <= 1.0
  {
    if title1 != [] && title2 != [] && Normalize(title1) != Normalize(title2) {
      OverlapAtMostOne(Normalize(title1), Normalize(title2));
    }
  }

  lemma OverlapAtMostOne(norm1: string, norm2: string)
    requires Distinct(Words(norm1))
    ensures WordOverlap(norm1, norm2) <= 1.0
  {
    var words1 := Words(norm1);
    var words2 := Words(norm2);
    var common := CommonWords(words1, words2);
    CommonWordsDistinct(words1, words2);
    DistinctWithin(common, words2);
    if |words1| + |words2| != 0 {
      RatioInUnit(2 * |common|, |words1| + |words2|);
    }
  }

  /** A repeated word counts once per repetition, so the similarity can exceed 1. */
  lemma SimilarityCanExceedOne()
    ensures TitleSimilarity("a a a", "a") == 1.5
  {
    assert IsNormal("a a a");
    assert IsNormal("a");
    SimilarityOfNormalized("a a a", "a");
    RepeatedWordOverlap();
  }

  lemma RepeatedWordOverlap()
    ensures WordOverlap("a a a", "a") == 1.5
  {
    var s := "a a a";
    SplitAfterChar("a", ' ', "a a");
    SplitAfterChar("a", ' ', "a");
    IncludesChar("a", ' ');
    SplitNoOccurrence("a", " ");
    assert SplitOn(s, " ") == ["a", "a", "a"];
    assert Words(s) == ["a", "a", "a"];
    assert Words("a") == ["a"];
    assert CommonWords(["a", "a", "a"], ["a"]) == ["a", "a", "a"];
    assert WordOverlap(s, "a") == 6.0 / 4.0;
  }

  // ------------------------------------------------------------------
  // Years
  // ------------------------------------------------------------------

  predicate IsOpen(c: char) { c == '(' || c == '[' }

  predicate IsClose(c: char) { c == ')' || c == ']' }

  /** A match of `[\(\[](\d{4})[\)\]]` starting at `i`. */
  predicate YearGroupAt(s: string, i: int) {
    0 <= i && i + 6 <= |s| && IsOpen(s[i]) && AllDigits(s[i + 1..i + 5]) && IsClose(s[i + 5])
  }

  lemma YearGroupShift(s: string, j: nat)
    requires s != []
    ensures YearGroupAt(s[1..], j) <==> YearGroupAt(s, j + 1)
  {
    if j + 7 <= |s| {
      assert s[1..][j + 1..j + 5] == s[j + 2..j + 6];
    }
  }

  /** The position of the first year group, as the regular expression search finds it. */
  function FirstYearGroup(s: string): (r: Option<nat>)
    ensures r.Some? ==> YearGroupAt(s, r.value)
    ensures r.Some? ==> forall j :: 0 <= j < r.value ==> !YearGroupAt(s, j)
    ensures r.None? ==> forall j :: !YearGroupAt(s, j)
  {
    if |s| < 6 then None
    else if YearGroupAt(s, 0) then Some(0)
    else
      var rest := FirstYearGroup(s[1..]);
      assert forall j :: 1 <= j ==> (YearGroupAt(s, j) <==> YearGroupAt(s[1..], j - 1)) by {
        forall j | 1 <= j ensures YearGroupAt(s, j) <==> YearGroupAt(s[1..], j - 1) {
          YearGroupShift(s, j - 1);
        }
      }
      if rest.None? then None else Some(rest.value + 1)
  }

  /**
    `extractYearFromTitle` on a title string: the four digits of the first year group,
    when they lie after 1950 and not after the current year; otherwise nothing.
  */
  function ExtractYear(titleStr: string, currentYear: int): (r: Option<int>)
    ensures r.Some? ==> 1950 < r.value <= currentYear
    ensures r.Some? ==> exists i :: YearGroupAt(titleStr, i) && r.value == DigitsValue(titleStr[i + 1..i + 5])
    ensures (forall i :: !YearGroupAt(titleStr, i)) ==> r.None?
  {
    match FirstYearGroup(titleStr)
    case None => None
    case Some(i) =>
      var year := DigitsValue(titleStr[i + 1..i + 5]);
      if 1950 < year <= currentYear then Some(year) else None
  }

  lemma DecimalFourDigits(n: nat)
    requires 1000 <= n <= 9999
    ensures |DecimalString(n)| == 4
  {
    var n1 := n / 10;
    var n2 := n1 / 10;
    var n3 := n2 / 10;
    assert 1 <= n3 <= 9 && 10 <= n2 <= 99 && 100 <= n1 <= 999;
    assert |DecimalString(n3)| == 1;
    assert |DecimalString(n2)| == 2;
    assert |DecimalString(n1)| == 3;
  }

  /** A year group cannot begin in text that has none of its own and is followed by `(`. */
  lemma NoGroupBefore(a: string, rest: string, j: nat)
    requires (forall i :: !YearGroupAt(a, i)) && j < |a| && rest != [] && rest[0] == '('
    ensures !YearGroupAt(a + rest, j)
  {
    var s := a + rest;
    if j + 6 <= |a| {
      assert s[j + 1..j + 5] == a[j + 1..j + 5];
      assert !YearGroupAt(a, j);
    } else if j + 6 <= |s| {
      assert s[|a|] == '(';
      if |a| == j + 5 {
        assert !IsClose(s[j + 5]);
      } else {
        assert s[j + 1..j + 5][|a| - j - 1] == '(';
        assert !AllDigits(s[j + 1..j + 5]);
      }
    }
  }

  /**
    Only the first year group counts: after text without a year group, a parenthesised
    four-digit year decides the result whatever follows it.
  */
  lemma FirstGroupDecides(a: string, year: nat, b: string, currentYear: int)
    requires forall i :: !YearGroupAt(a, i)
    requires 1000 <= year <= 9999
    ensures ExtractYear(a + "(" + DecimalString(year) + ")" + b, currentYear)
      == if 1950 < year <= currentYear then Some(year) else None
  {
    var digits := DecimalString(year);
    DecimalFourDigits(year);
    var s := a + "(" + digits + ")" + b;
    var rest := "(" + digits + ")" + b;
    assert s == a + rest;
    assert s[|a| + 1..|a| + 5] == digits;
    assert YearGroupAt(s, |a|);
    forall j | 0 <= j < |a| ensures !YearGroupAt(s, j) {
      NoGroupBefore(a, rest, j);
    }
    DigitsOfDecimal(year);
  }

  /** The title `extractYearFromTitle` reads from an AniList record. */
  function AniListYearTitle(t: AniListTitle): string {
    Or(t.userPreferred, Or(t.english, t.romaji))
  }

  /** The AniList year: the start year, else the season year, else one read from the title. */
  function AnimeYear(media: AniListMedia, currentYear: int): (r: Option<int>)
    ensures r.Some? ==> r.value != 0
    ensures media.startYear != 0 ==> r == Some(media.startYear)
  {
    var year := if media.startYear != 0 then media.startYear else media.seasonYear;
    if year != 0 then Some(year) else ExtractYear(AniListYearTitle(media.title), currentYear)
  }

  /** A result's year: its own year field, else one read from its title or name. */
  function ResultYear(result: SearchResult, currentYear: int): Option<int> {
    if result.year != 0 then Some(result.year) else ExtractYear(Or(result.title, result.name), currentYear)
  }

  // ------------------------------------------------------------------
  // Generic title
  // ------------------------------------------------------------------

  predicate DigitRunAt(t: string, i: int) {
    0 <= i && i + 4 <= |t| && AllDigits(t[i..i + 4])
  }

  predicate HasFourDigits(t: string) {
    exists i | 0 <= i <= |t| - 4 :: DigitRunAt(t, i)
  }

  /** The position of the first `c` in `s`, or -1. */
  function CharIndex(s: string, c: char): (r: int)
    ensures -1 <= r < |s|
    ensures r >= 0 ==> s[r] == c && forall j :: 0 <= j < r ==> s[j] != c
    ensures r < 0 ==> c !in s
  {
    if s == [] then -1
    else if s[0] == c then 0
    else
      var k := CharIndex(s[1..], c);
      if k < 0 then -1 else k + 1
  }

  lemma CharIndexAt(s: string, c: char, k: nat)
    requires k < |s| && s[k] == c && forall j :: 0 <= j < k ==> s[j] != c
    ensures CharIndex(s, c) == k
  {
  }

  /**
    `.replace(/\(open[^close]*\d{4}[^close]*close\)/g, '')`: from each `open`, the text up to the
    next `close` is removed when it holds four consecutive digits.
  */
  function RemoveGroups(s: string, open: char, close: char): (r: string)
    requires open != close
    ensures |r| <= |s|
    decreases |s|
  {
    if s == [] then []
    else
      var q := CharIndex(s, close);
      if s[0] == open && 0 < q && HasFourDigits(s[1..q]) then
        RemoveGroups(s[q + 1..], open, close)
      else
        assert s == [s[0]] + s[1..];
        [s[0]] + RemoveGroups(s[1..], open, close)
  }

  /** The first group holding a year is cut out, with its delimiters. */
  lemma RemoveGroupsCuts(a: string, g: string, b: string, open: char, close: char)
    requires open != close && open !in a && close !in g && HasFourDigits(g)
    ensures RemoveGroups(a + [open] + g + [close] + b, open, close) == a + RemoveGroups(b, open, close)
  {
    GroupAssoc(a, open, g, close, b);
    RemoveGroupsPrefix(a, [open] + g + [close] + b, open, close);
    RemoveGroupAtStart(g, b, open, close);
  }

  lemma GroupAssoc(a: string, open: char, g: string, close: char, b: string)
    ensures a + [open] + g + [close] + b == a + ([open] + g + [close] + b)
  {
  }

  /** Text without an opening delimiter passes through unchanged. */
  lemma {:induction false} RemoveGroupsPrefix(a: string, rest: string, open: char, close: char)
    requires open != close && open !in a
    ensures RemoveGroups(a + rest, open, close) == a + RemoveGroups(rest, open, close)
  {
    if a == [] {
      assert a + rest == rest;
    } else {
      var tail := a[1..];
      var r := RemoveGroups(rest, open, close);
      assert a[0] in a;
      RemoveGroupsPrefix(tail, rest, open, close);
      RemoveGroupsCons(a[0], tail + rest, open, close);
      assert a + rest == [a[0]] + (tail + rest);
      assert [a[0]] + (tail + r) == a + r by {
        assert a == [a[0]] + tail;
      }
    }
  }

  lemma RemoveGroupsCons(c: char, t: string, open: char, close: char)
    requires open != close && c != open
    ensures RemoveGroups([c] + t, open, close) == [c] + RemoveGroups(t, open, close)
  {
    assert ([c] + t)[1..] == t;
  }

  lemma RemoveGroupAtStart(g: string, b: string, open: char, close: char)
    requires open != close && close !in g && HasFourDigits(g)
    ensures RemoveGroups([open] + g + [close] + b, open, close) == RemoveGroups(b, open, close)
  {
    var s := [open] + g + [close] + b;
    var q := |g| + 1;
    forall j | 0 <= j < q ensures s[j] != close {
      if j > 0 {
        assert s[j] == g[j - 1];
      }
    }
    CharIndexAt(s, close, q);
    assert s[1..q] == g;
    assert s[q + 1..] == b;
    RemoveGroupsDrops(s, open, close);
  }

  lemma RemoveGroupsDrops(s: string, open: char, close: char)
    requires open != close && s != [] && s[0] == open
    requires 0 < CharIndex(s, close) && HasFourDigits(s[1..CharIndex(s, close)])
    ensures RemoveGroups(s, open, close) == RemoveGroups(s[CharIndex(s, close) + 1..], open, close)
  {
  }

  /**
    `getGenericTitle`: the English, else romaji, else preferred title, with parenthesised and
    then bracketed groups holding a year removed, and trimmed. None when there is no title.
  */
  function GetGenericTitle(t: AniListTitle): (r: Option<string>)
    ensures r.None? <==> Or(t.english, Or(t.romaji, t.userPreferred)) == []
    ensures r.Some? ==> |r.value| <= |Or(t.english, Or(t.romaji, t.userPreferred))|
    ensures r.Some? ==> r.value == [] || (!IsSpace(r.value[0]) && !IsSpace(r.value[|r.value| - 1]))
  {
    var title := Or(t.english, Or(t.romaji, t.userPreferred));
    if title == [] then None
    else
      var stripped := RemoveGroups(RemoveGroups(title, '(', ')'), '[', ']');
      var r := Trim(stripped);
      var a :| MatchAt(stripped, r, a);
      Some(r)
  }

  /** An English title ending in a parenthesised year loses that group. */
  lemma GenericTitleDropsYear(t: AniListTitle, a: string, g: string, b: string)
    requires t.english == a + "(" + g + ")" + b
    requires '(' !in a && '(' !in b && ')' !in g && HasFourDigits(g)
    requires '[' !in a && '[' !in b
    ensures GetGenericTitle(t) == Some(Trim(a + b))
  {
    assert a + "(" + g + ")" + b == a + ['('] + g + [')'] + b;
    RemoveGroupsCuts(a, g, b, '(', ')');
    RemoveGroupsNone(b, '(', ')');
    RemoveGroupsNone(a + b, '[', ']');
  }

  /** Text without the opening delimiter is left as it is. */
  lemma RemoveGroupsNone(s: string, open: char, close: char)
    requires open != close && open !in s
    ensures RemoveGroups(s, open, close) == s
  {
    RemoveGroupsPrefix(s, [], open, close);
    assert s + [] == s;
  }

  // ------------------------------------------------------------------
  // Candidate selection
  // ------------------------------------------------------------------

  /** `[romaji, english, userPreferred].filter(Boolean).map(normalizeTitle)` */
  function AniListTitles(t: AniListTitle): (r: seq<string>)
    ensures |r| <= 3
    ensures forall i :: 0 <= i < |r| ==> IsNormal(r[i])
  {
    var raw := NonEmpty([t.romaji, t.english, t.userPreferred]);
    seq(|raw|, i requires 0 <= i < |raw| => Normalize(raw[i]))
  }

  /** The normalised title of each result, falling back to its name. */
  function ResultTitles(results: seq<SearchResult>): (names: seq<string>)
    ensures |names| == |results|
    ensures forall i :: 0 <= i < |names| ==> IsNormal(names[i])
  {
    seq(|results|, i requires 0 <= i < |results| => Normalize(Or(results[i].title, results[i].name)))
  }

  /** The year of each result. */
  function ResultYears(results: seq<SearchResult>, currentYear: int): (years: seq<Option<int>>)
    ensures |years| == |results|
  {
    seq(|results|, i requires 0 <= i < |results| => ResultYear(results[i], currentYear))
  }

  /** Equal, or one contains the other and the contained one is longer than 7 characters. */
  predicate Contained(name: string, title: string) {
    name == title
    || (Includes(name, title) && |title| > 7)
    || (Includes(title, name) && |name| > 7)
  }

  /** A year-matched result is taken when some non-empty title is contained or similar above 0.5. */
  predicate YearAccepts(titles: seq<string>, name: string) {
    exists j :: 0 <= j < |titles| && titles[j] != []
      && (Contained(name, titles[j]) || NormalSimilarity(titles[j], name) > 0.5)
  }

  /** The two title loops run on one year-matched result. */
  method AcceptsYearMatch(titles: seq<string>, name: string) returns (accepted: bool)
    ensures accepted <==> YearAccepts(titles, name)
  {
    for j := 0 to |titles|
      invariant forall k :: 0 <= k < j && titles[k] != [] ==> !Contained(name, titles[k])
    {
      if titles[j] == [] {
        continue;
      }
      if Contained(name, titles[j]) {
        return true;
      }
    }
    for j := 0 to |titles|
      invariant forall k :: 0 <= k < j && titles[k] != [] ==> NormalSimilarity(titles[k], name) <= 0.5
    {
      if titles[j] == [] {
        continue;
      }
      if NormalSimilarity(titles[j], name) > 0.5 {
        return true;
      }
    }
    return false;
  }

  predicate ExactTitle(titles: seq<string>, name: string) {
    name != [] && name in titles
  }

  /**
    The similarity of every result (row) with every AniList title (column), as
    `findBestSimilarityMatch` computes it; an empty title scores 0.
  */
  function ScoreTable(titles: seq<string>, names: seq<string>): (table: seq<seq<real>>)
    ensures |table| == |names|
    ensures forall i :: 0 <= i < |table| ==> |table[i]| == |titles|
    ensures forall i, l :: 0 <= i < |table| && 0 <= l < |titles| ==> 0.0 <= table[i][l]
    ensures forall i, l :: 0 <= i < |table| && 0 <= l < |titles| && titles[l] == [] ==> table[i][l] == 0.0
  {
    seq(|names|, i requires 0 <= i < |names| =>
      seq(|titles|, l requires 0 <= l < |titles| => NormalSimilarity(titles[l], names[i])))
  }

  /**
    `k` is the row `findBestSimilarityMatch` returns: it holds the highest score of the table,
    that score exceeds 0.6, and no earlier row reaches it.
  */
  predicate BestSimilar(table: seq<seq<real>>, k: int) {
    0 <= k < |table|
    && exists l :: (0 <= l < |table[k]| && table[k][l] > 0.6
      && (forall i, m :: 0 <= i < |table| && 0 <= m < |table[i]| ==> table[i][m] <= table[k][l])
      && (forall i, m :: 0 <= i < k && 0 <= m < |table[i]| ==> table[i][m] < table[k][l]))
  }

  predicate NoneSimilar(table: seq<seq<real>>) {
    forall i, m :: 0 <= i < |table| && 0 <= m < |table[i]| ==> table[i][m] <= 0.6
  }

  /** `findBestSimilarityMatch`, returning the index of the chosen result. */
  method FindBestSimilarityMatch(titles: seq<string>, names: seq<string>) returns (r: Option<nat>)
    ensures r.Some? ==> BestSimilar(ScoreTable(titles, names), r.value)
    ensures r.None? ==> NoneSimilar(ScoreTable(titles, names))
  {
    r := PickHighest(titles, ScoreTable(titles, names));
  }

  /** The two loops of `findBestSimilarityMatch` over the table of similarities. */
  method PickHighest(titles: seq<string>, table: seq<seq<real>>) returns (r: Option<nat>)
    requires forall i :: 0 <= i < |table| ==> |table[i]| == |titles|
    requires forall i, l :: 0 <= i < |table| && 0 <= l < |titles| && titles[l] == [] ==> table[i][l] == 0.0
    ensures r.Some? ==> BestSimilar(table, r.value)
    ensures r.None? ==> NoneSimilar(table)
  {
    var best := -1;
    ghost var bestTitle := 0;
    var highest := 0.0;
    for i := 0 to |table|
      invariant -1 <= best < i
      invariant best == -1 ==> highest == 0.0
      invariant 0.0 <= highest
      invariant best >= 0 ==> bestTitle < |titles| && highest == table[best][bestTitle]
      invariant forall p, m :: 0 <= p < i && 0 <= m < |table[p]| ==> table[p][m] <= highest
      invariant best >= 0 ==> forall p, m :: 0 <= p < best && 0 <= m < |table[p]| ==> table[p][m] < highest
    {
      for j := 0 to |titles|
        invariant -1 <= best <= i
        invariant best == -1 ==> highest == 0.0
        invariant 0.0 <= highest
        invariant best >= 0 ==> bestTitle < |titles| && highest == table[best][bestTitle]
        invariant forall p, m :: 0 <= p < i && 0 <= m < |table[p]| ==> table[p][m] <= highest
        invariant forall m :: 0 <= m < j ==> table[i][m] <= highest
        invariant best >= 0 ==> forall p, m :: 0 <= p < best && 0 <= m < |table[p]| ==> table[p][m] < highest
      {
        if titles[j] == [] {
          continue;
        }
        var similarity := table[i][j];
        if similarity > highest {
          highest := similarity;
          best := i;
          bestTitle := j;
        }
      }
    }
    if highest > 0.6 {
      return Some(best);
    }
    return None;
  }

  /** The year gate applies: the AniList year is known and some result carries it. */
  predicate YearGate(years: seq<Option<int>>, animeYear: Option<int>) {
    animeYear.Some? && exists i :: 0 <= i < |years| && years[i] == animeYear
  }

  /**
    Under the year gate: a year-matched result, the first one accepted by the title tests,
    or the first year-matched result when none is accepted.
  */
  predicate YearChoice(titles: seq<string>, names: seq<string>, years: seq<Option<int>>, animeYear: Option<int>, k: int) {
    0 <= k < |names| == |years| && years[k] == animeYear
    && ((YearAccepts(titles, names[k])
         && forall j :: 0 <= j < k && years[j] == animeYear ==> !YearAccepts(titles, names[j]))
        || ((forall j :: 0 <= j < |names| && years[j] == animeYear ==> !YearAccepts(titles, names[j]))
            && forall j :: 0 <= j < k ==> years[j] != animeYear))
  }

  /** Without the year gate: the first exact title, else the best similar result, else the first. */
  predicate TitleChoice(titles: seq<string>, names: seq<string>, k: int) {
    0 <= k < |names|
    && ((ExactTitle(titles, names[k]) && forall j :: 0 <= j < k ==> !ExactTitle(titles, names[j]))
        || ((forall j :: 0 <= j < |names| ==> !ExactTitle(titles, names[j]))
            && (BestSimilar(ScoreTable(titles, names), k) || (NoneSimilar(ScoreTable(titles, names)) && k == 0))))
  }

  /** The rule chain of `findBestMatchFromResults` after the direct id scan. */
  predicate Chosen(titles: seq<string>, names: seq<string>, years: seq<Option<int>>, animeYear: Option<int>, k: int) {
    if YearGate(years, animeYear) then YearChoice(titles, names, years, animeYear, k)
    else TitleChoice(titles, names, k)
  }

  /** The rule chain picks exactly one result. */
  lemma ChosenUnique(titles: seq<string>, names: seq<string>, years: seq<Option<int>>, animeYear: Option<int>, k1: int, k2: int)
    requires Chosen(titles, names, years, animeYear, k1) && Chosen(titles, names, years, animeYear, k2)
    ensures k1 == k2
  {
  }

  /** The loops of `findBestMatchFromResults` over normalised titles and years. */
  method SelectResult(titles: seq<string>, names: seq<string>, years: seq<Option<int>>, animeYear: Option<int>)
    returns (k: nat)
    requires |names| == |years| > 0
    ensures Chosen(titles, names, years, animeYear, k)
  {
    if animeYear.Some? {
      var firstYearMatch := -1;
      for i := 0 to |names|
        invariant -1 <= firstYearMatch < i
        invariant firstYearMatch == -1 ==> forall j :: 0 <= j < i ==> years[j] != animeYear
        invariant firstYearMatch >= 0 ==> (years[firstYearMatch] == animeYear
          && forall j :: 0 <= j < firstYearMatch ==> years[j] != animeYear)
        invariant forall j :: 0 <= j < i && years[j] == animeYear ==> !YearAccepts(titles, names[j])
      {
        if years[i] == animeYear {
          if firstYearMatch == -1 {
            firstYearMatch := i;
          }
          var accepted := AcceptsYearMatch(titles, names[i]);
          if accepted {
            return i;
          }
        }
      }
      if firstYearMatch >= 0 {
        return firstYearMatch;
      }
    }
    for i := 0 to |names|
      invariant forall j :: 0 <= j < i ==> !ExactTitle(titles, names[j])
    {
      for j := 0 to |titles|
        invariant forall l :: 0 <= l < j && titles[l] != [] ==> names[i] != titles[l]
      {
        if titles[j] == [] {
          continue;
        }
        if names[i] == titles[j] {
          return i;
        }
      }
    }
    var similar := FindBestSimilarityMatch(titles, names);
    if similar.Some? {
      return similar.value;
    }
    return 0;
  }

  /**
    `findBestMatchFromResults`, returning the index of the chosen result: None only for no
    results, otherwise the one result the rule chain picks.
  */
  method FindBestMatchFromResults(media: AniListMedia, results: seq<SearchResult>, currentYear: int)
    returns (r: Option<nat>)
    ensures r.None? <==> results == []
    ensures r.Some? ==> r.value < |results| && Chosen(AniListTitles(media.title), ResultTitles(results),
      ResultYears(results, currentYear), AnimeYear(media, currentYear), r.value)
  {
    if results == [] {
      return None;
    }
    var titles := AniListTitles(media.title);
    var names := ResultTitles(results);
    var years := ResultYears(results, currentYear);
    var k := SelectResult(titles, names, years, AnimeYear(media, currentYear));
    return Some(k);
  }

  /** Result `k` is the one the title rules of `findBestMatchFromResults` pick from `results`. */
  predicate RuleChoice(media: AniListMedia, results: seq<SearchResult>, currentYear: int, k: int) {
    0 <= k < |results| && Chosen(AniListTitles(media.title), ResultTitles(results),
      ResultYears(results, currentYear), AnimeYear(media, currentYear), k)
  }

  /** The part of a result id before its first `-` is the AniList id. */
  predicate IdPrefixMatches(media: AniListMedia, result: SearchResult) {
    var prefix := SplitOn(result.id, "-")[0];
    prefix != [] && prefix == DecimalString(media.id)
  }

  /** A shaped search result passes the id test exactly when its numeric id is the AniList id. */
  lemma ShapedIdMatches(media: AniListMedia, item: SearchItem)
    ensures IdPrefixMatches(media, ShapeResult(item)) <==> item.id == media.id
  {
    if DecimalString(item.id) == DecimalString(media.id) {
      DigitsOfDecimal(item.id);
      DigitsOfDecimal(media.id);
    }
  }

  /** The title searched first: romaji, else English, else the preferred title. */
  function BestTitle(t: AniListTitle): string {
    Or(t.romaji, Or(t.english, t.userPreferred))
  }

  const SearchError: string := "Failed to search AnimePahe"

  /**
    `findAnimePaheMatch`. `search` is `scrapeSearchResults`, None standing for its thrown
    error. `queries` lists the searches made. A result whose id begins with the AniList id
    is taken before any title rule; with no results, one more search is made with the
    generic title when it differs from the first query.
  */
  method FindAnimePaheMatch(media: AniListMedia, search: string -> Option<seq<SearchResult>>, currentYear: int)
    returns (r: Result<Option<SearchResult>, string>, queries: seq<string>)
    ensures 1 <= |queries| <= 2 && queries[0] == BestTitle(media.title)
    ensures search(queries[0]).None? ==> r == Failure(SearchError) && |queries| == 1
    ensures search(queries[0]).Some? && search(queries[0]).value != [] ==>
      |queries| == 1 && r.Success? && r.value.Some? && r.value.value in search(queries[0]).value
    ensures search(queries[0]).Some? && (exists i :: (0 <= i < |search(queries[0]).value|
        && IdPrefixMatches(media, search(queries[0]).value[i]))) ==>
      (exists i :: 0 <= i < |search(queries[0]).value| && r == Success(Some(search(queries[0]).value[i]))
        && IdPrefixMatches(media, search(queries[0]).value[i])
        && forall j :: 0 <= j < i ==> !IdPrefixMatches(media, search(queries[0]).value[j]))
    ensures (search(queries[0]).Some? && search(queries[0]).value != []
        && forall i :: 0 <= i < |search(queries[0]).value| ==> !IdPrefixMatches(media, search(queries[0]).value[i])) ==>
      exists k :: RuleChoice(media, search(queries[0]).value, currentYear, k) && r == Success(Some(search(queries[0]).value[k]))
    ensures search(queries[0]) == Some([]) ==>
      (|queries| == 2 <==> (GetGenericTitle(media.title).Some? && GetGenericTitle(media.title).value != []
        && GetGenericTitle(media.title).value != queries[0]))
    ensures search(queries[0]) == Some([]) && |queries| == 1 ==> r == Success(None)
    ensures |queries| == 2 && search(queries[1]).Some? && search(queries[1]).value != [] ==>
      exists k :: RuleChoice(media, search(queries[1]).value, currentYear, k) && r == Success(Some(search(queries[1]).value[k]))
    ensures |queries| == 2 ==>
      search(queries[0]) == Some([]) && Some(queries[1]) == GetGenericTitle(media.title)
      && queries[1] != [] && queries[1] != queries[0]
      && (search(queries[1]).None? ==> r == Failure(SearchError))
      && (search(queries[1]) == Some([]) ==> r == Success(None))
      && (search(queries[1]).Some? && search(queries[1]).value != [] ==>
            r.Success? && r.value.Some? && r.value.value in search(queries[1]).value)
    ensures r.Success? && r.value.None? ==> search(queries[|queries| - 1]) == Some([])
  {
    var bestTitle := BestTitle(media.title);
    queries := [bestTitle];
    var found := search(bestTitle);
    if found.None? {
      return Failure(SearchError), queries;
    }
    var results := found.value;
    if |results| > 0 {
      var rawId := DecimalString(media.id);
      for i := 0 to |results|
        invariant forall j :: 0 <= j < i ==> !IdPrefixMatches(media, results[j])
      {
        var resultId := SplitOn(results[i].id, "-")[0];
        if resultId != [] && resultId == rawId {
          return Success(Some(results[i])), queries;
        }
      }
      var k := FindBestMatchFromResults(media, results, currentYear);
      assert RuleChoice(media, results, currentYear, k.value);
      return Success(Some(results[k.value])), queries;
    }
    var genericTitle := GetGenericTitle(media.title);
    if genericTitle.Some? && genericTitle.value != [] && genericTitle.value != bestTitle {
      queries := queries + [genericTitle.value];
      var fallback := search(genericTitle.value);
      if fallback.None? {
        return Failure(SearchError), queries;
      }
      if |fallback.value| > 0 {
        var k := FindBestMatchFromResults(media, fallback.value, currentYear);
        assert RuleChoice(media, fallback.value, currentYear, k.value);
        return Success(Some(fallback.value[k.value])), queries;
      }
    }
    return Success(None), queries;
  }
}
