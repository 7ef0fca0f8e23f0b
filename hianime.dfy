/**
  The HiAnime provider: which HiAnime entry stands for an AniList entry, and the episode list
  of that entry. Titles are compared word by word, each word widened to its variations (its
  normalised form, the word without digits, and the synonyms of a fixed replacement table);
  search results are scored, adjusted by type, episode count and year, and a rule chain picks
  one. Fetching pages and reading HTML are outside the model: their results are inputs, and
  the string similarity library is a function parameter.
*/
module HiAnime {
  import opened Wrappers
  import opened Strings
  import opened Titles
  import opened Media
  import StableSort

  // ------------------------------------------------------------------
  // Word variations
  // ------------------------------------------------------------------

  /** `TITLE_REPLACEMENTS`, in its declaration order. */
  const Replacements: seq<(string, seq<string>)> := [
    ("season", ["s", "sz"]),
    ("s", ["season", "sz"]),
    ("sz", ["season", "s"]),
    ("two", ["2", "ii"]),
    ("three", ["3", "iii"]),
    ("four", ["4", "iv"]),
    ("part", ["pt", "p"]),
    ("episode", ["ep"]),
    ("chapters", ["ch"]),
    ("chapter", ["ch"]),
    ("first", ["1", "i"]),
    ("second", ["2", "ii"]),
    ("third", ["3", "iii"]),
    ("fourth", ["4", "iv"])
  ]

  /** `Set.prototype.add` on a set kept in insertion order. */
  function AddNew(vs: seq<string>, v: string): seq<string> {
    if v in vs then vs else vs + [v]
  }

  /** `values.forEach(v => variations.add(v))` */
  function AddAll(vs: seq<string>, ws: seq<string>): seq<string> {
    if ws == [] then vs
    else AddNew(AddAll(vs, ws[..|ws| - 1]), ws[|ws| - 1])
  }

  /** One entry of the table applied to the normalised word. */
  function Step(vs: seq<string>, normalized: string, entry: (string, seq<string>)): seq<string> {
    if normalized == entry.0 then AddAll(vs, entry.1)
    else if normalized in entry.1 then AddAll(AddNew(vs, entry.0), entry.1)
    else vs
  }

  /** The table entries applied in order. */
  function Expand(vs: seq<string>, normalized: string, table: seq<(string, seq<string>)>): seq<string>
    decreases |table|
  {
    if table == [] then vs
    else Expand(Step(vs, normalized, table[0]), normalized, table[1..])
  }

  /** Adding to the set: the old members and the new one, each once. */
  lemma AddNewContents(vs: seq<string>, v: string)
    ensures forall x :: x in AddNew(vs, v) <==> x in vs || x == v
    ensures Distinct(vs) ==> Distinct(AddNew(vs, v))
  {
  }

  lemma {:induction false} AddAllContents(vs: seq<string>, ws: seq<string>)
    ensures forall x :: x in AddAll(vs, ws) <==> x in vs || x in ws
    ensures Distinct(vs) ==> Distinct(AddAll(vs, ws))
  {
    if ws != [] {
      var front := ws[..|ws| - 1];
      AddAllContents(vs, front);
      AddNewContents(AddAll(vs, front), ws[|ws| - 1]);
      assert ws == front + [ws[|ws| - 1]];
    }
  }

  lemma StepContents(vs: seq<string>, normalized: string, entry: (string, seq<string>))
    ensures forall x :: x in vs ==> x in Step(vs, normalized, entry)
    ensures Distinct(vs) ==> Distinct(Step(vs, normalized, entry))
    ensures normalized == entry.0 ==> forall v :: v in entry.1 ==> v in Step(vs, normalized, entry)
    ensures normalized != entry.0 && normalized in entry.1 ==>
      entry.0 in Step(vs, normalized, entry) && forall v :: v in entry.1 ==> v in Step(vs, normalized, entry)
  {
    AddAllContents(vs, entry.1);
    AddNewContents(vs, entry.0);
    AddAllContents(AddNew(vs, entry.0), entry.1);
  }

  /** Expansion only adds, and adds nothing twice. */
  lemma {:induction false} ExpandKeeps(vs: seq<string>, normalized: string, table: seq<(string, seq<string>)>)
    ensures forall x :: x in vs ==> x in Expand(vs, normalized, table)
    ensures Distinct(vs) ==> Distinct(Expand(vs, normalized, table))
    decreases |table|
  {
    if table != [] {
      StepContents(vs, normalized, table[0]);
      ExpandKeeps(Step(vs, normalized, table[0]), normalized, table[1..]);
    }
  }

  /** `s.replace(/\d+/g, '')` */
  function RemoveDigits(s: string): (r: string)
    ensures forall i :: 0 <= i < |r| ==> !IsDigit(r[i])
    ensures AllDigits(s) ==> r == []
  {
    if s == [] then []
    else (if IsDigit(s[0]) then [] else [s[0]]) + RemoveDigits(s[1..])
  }

  /** The variations before the table: the word, its normalised form, and the word without digits if that differs. */
  function StartVariations(word: string, normalized: string): seq<string> {
    var base := AddNew([word], normalized);
    var withoutNumbers := Trim(RemoveDigits(word));
    if withoutNumbers != word then AddNew(base, withoutNumbers) else base
  }

  /** What `getWordVariations` returns for `word`, in the order the set receives its elements. */
  function Variations(word: string): seq<string> {
    var normalized := Normalize(word);
    Expand(StartVariations(word, normalized), normalized, Replacements)
  }

  /** `getWordVariations`: builds the set step by step. */
  method WordVariations(word: string) returns (result: seq<string>)
    ensures result == Variations(word)
  {
    var normalized := Normalize(word);
    result := [word];
    result := AddNew(result, normalized);
    var withoutNumbers := Trim(RemoveDigits(word));
    if withoutNumbers != word {
      result := AddNew(result, withoutNumbers);
    }
    result := ApplyTable(result, normalized, Replacements);
  }

  /** The loop over the entries of the replacement table. */
  method ApplyTable(vs: seq<string>, normalized: string, table: seq<(string, seq<string>)>) returns (result: seq<string>)
    ensures result == Expand(vs, normalized, table)
  {
    result := vs;
    for i := 0 to |table|
      invariant Expand(result, normalized, table[i..]) == Expand(vs, normalized, table)
    {
      var key := table[i].0;
      var values := table[i].1;
      ghost var before := result;
      assert table[i..][1..] == table[i + 1..];
      if normalized == key {
        result := AddValues(result, values);
      } else if normalized in values {
        result := AddNew(result, key);
        result := AddValues(result, values);
      }
      assert result == Step(before, normalized, table[i]);
    }
  }

  /** The `forEach` loop adding a table entry's values. */
  method AddValues(vs: seq<string>, values: seq<string>) returns (result: seq<string>)
    ensures result == AddAll(vs, values)
  {
    result := vs;
    for k := 0 to |values|
      invariant result == AddAll(vs, values[..k])
    {
      assert values[..k + 1][..k] == values[..k];
      result := AddNew(result, values[k]);
    }
    assert values[..|values|] == values;
  }

  /** The variations hold the word and its normalised form, each once. */
  lemma VariationsBasics(word: string)
    ensures word in Variations(word) && Normalize(word) in Variations(word)
    ensures Distinct(Variations(word))
  {
    var normalized := Normalize(word);
    var base := AddNew([word], normalized);
    var withoutNumbers := Trim(RemoveDigits(word));
    AddNewContents([word], normalized);
    AddNewContents(base, withoutNumbers);
    var start := StartVariations(word, normalized);
    assert word in start && normalized in start && Distinct(start);
    ExpandKeeps(start, normalized, Replacements);
  }

  /** A table entry whose key is the normalised word contributes all its values. */
  lemma {:induction false} ExpandKey(vs: seq<string>, normalized: string, table: seq<(string, seq<string>)>, idx: nat)
    requires idx < |table| && normalized == table[idx].0
    ensures forall v :: v in table[idx].1 ==> v in Expand(vs, normalized, table)
    decreases idx
  {
    if idx > 0 {
      ExpandKey(Step(vs, normalized, table[0]), normalized, table[1..], idx - 1);
    } else {
      StepContents(vs, normalized, table[0]);
      ExpandKeeps(Step(vs, normalized, table[0]), normalized, table[1..]);
    }
  }

  /** A table entry whose values hold the normalised word contributes its key and all its values. */
  lemma {:induction false} ExpandValue(vs: seq<string>, normalized: string, table: seq<(string, seq<string>)>, idx: nat)
    requires idx < |table| && normalized != table[idx].0 && normalized in table[idx].1
    ensures table[idx].0 in Expand(vs, normalized, table)
    ensures forall v :: v in table[idx].1 ==> v in Expand(vs, normalized, table)
    decreases idx
  {
    if idx > 0 {
      ExpandValue(Step(vs, normalized, table[0]), normalized, table[1..], idx - 1);
    } else {
      StepContents(vs, normalized, table[0]);
      ExpandKeeps(Step(vs, normalized, table[0]), normalized, table[1..]);
    }
  }

  /** A word that normalises to a key of the table gains that key's values. */
  lemma VariationsOfKey(word: string, idx: nat)
    requires idx < |Replacements| && Normalize(word) == Replacements[idx].0
    ensures forall v :: v in Replacements[idx].1 ==> v in Variations(word)
  {
    ExpandKey(StartVariations(word, Normalize(word)), Normalize(word), Replacements, idx);
  }

  /** A word found among a key's values gains that key and its values. */
  lemma VariationsOfValue(word: string, idx: nat)
    requires idx < |Replacements| && Normalize(word) != Replacements[idx].0
    requires Normalize(word) in Replacements[idx].1
    ensures Replacements[idx].0 in Variations(word)
    ensures forall v :: v in Replacements[idx].1 ==> v in Variations(word)
  {
    ExpandValue(StartVariations(word, Normalize(word)), Normalize(word), Replacements, idx);
  }

  /** A word that normalises to `"2"` (such as `"2"` itself) is widened to `"two"`, `"ii"` and `"second"`. */
  lemma TwoVariations(word: string)
    requires Normalize(word) == "2"
    ensures "two" in Variations(word) && "ii" in Variations(word) && "second" in Variations(word)
  {
    TwoEntry(word, 3);
    TwoEntry(word, 11);
  }

  /** The entries that list `"2"` give their key and values to a word normalising to `"2"`. */
  lemma TwoEntry(word: string, idx: nat)
    requires Normalize(word) == "2" && (idx == 3 || idx == 11)
    ensures Replacements[idx].0 in Variations(word) && "ii" in Variations(word)
    ensures Replacements[idx].0 == (if idx == 3 then "two" else "second")
  {
    var entry := Replacements[idx];
    TableTwo();
    assert |entry.0| > 1 && entry.1[0] == "2" && entry.1[1] == "ii";
    VariationsOfValue(word, idx);
    assert entry.1[1] in entry.1;
  }

  /** `"2"` is already normalised. */
  lemma NormalizeTwo()
    ensures Normalize("2") == "2"
  {
    assert IsNormal("2");
    NormalFixed("2");
  }

  /** The two entries of the table that list `"2"`. */
  lemma TableTwo()
    ensures Replacements[3] == ("two", ["2", "ii"]) && Replacements[11] == ("second", ["2", "ii"])
    ensures "2" in Replacements[3].1 && "2" in Replacements[11].1
  {
  }

  /** A word of digits only gains the empty string as a variation. */
  lemma DigitWordHasEmpty(word: string)
    requires word != [] && AllDigits(word)
    ensures "" in Variations(word)
  {
    var normalized := Normalize(word);
    var base := AddNew([word], normalized);
    assert Trim(RemoveDigits(word)) == [];
    AddNewContents(base, []);
    ExpandKeeps(StartVariations(word, normalized), normalized, Replacements);
  }

  // ------------------------------------------------------------------
  // Title score
  // ------------------------------------------------------------------

  /** A ratio of two lengths, the smaller strictly below the larger, lies in [0, 1). */
  lemma RatioBelowOne(lo: nat, hi: nat)
    requires lo < hi
    ensures 0.0 <= lo as real / hi as real < 1.0
  {
    var q := lo as real / hi as real;
    assert q * (hi as real) == lo as real;
  }

  /** What one pair of variations is worth in the innermost loop of `calculateTitleScore`. */
  function VarScore(a: string, b: string): (r: real)
    ensures 0.0 <= r <= 1.0
    ensures r == 1.0 <==> a == b
  {
    if a == b then 1.0
    else if Includes(a, b) || Includes(b, a) then
      var matchLength := if |a| < |b| then |a| else |b|;
      var maxLength := if |a| < |b| then |b| else |a|;
      assert matchLength < maxLength by {
        if Includes(a, b) { IncludesLength(a, b); } else { IncludesLength(b, a); }
      }
      RatioBelowOne(matchLength, maxLength);
      matchLength as real / maxLength as real
    else 0.0
  }

  /** `Math.max` */
  function Max(a: real, b: real): real {
    if a < b then b else a
  }

  /** The best score of one search variation against the variations of one title word. */
  function RowMax(sv: string, tvs: seq<string>): (r: real)
    ensures 0.0 <= r <= 1.0
    ensures forall m :: 0 <= m < |tvs| ==> VarScore(sv, tvs[m]) <= r
  {
    if tvs == [] then 0.0
    else
      var front := tvs[..|tvs| - 1];
      assert forall m :: 0 <= m < |front| ==> front[m] == tvs[m];
      Max(RowMax(sv, front), VarScore(sv, tvs[|tvs| - 1]))
  }

  /** The best score of any variation of a search word against the variations of one title word. */
  function VarsMax(svs: seq<string>, tvs: seq<string>): (r: real)
    ensures 0.0 <= r <= 1.0
    ensures forall k :: 0 <= k < |svs| ==> RowMax(svs[k], tvs) <= r
  {
    if svs == [] then 0.0
    else
      var front := svs[..|svs| - 1];
      assert forall k :: 0 <= k < |front| ==> front[k] == svs[k];
      Max(VarsMax(front, tvs), RowMax(svs[|svs| - 1], tvs))
  }

  /** `bestWordMatch`: the best score of any variation of a search word against any variation of any title word. */
  function WordMax(svs: seq<string>, tvss: seq<seq<string>>): (r: real)
    ensures 0.0 <= r <= 1.0
    ensures forall j :: 0 <= j < |tvss| ==> VarsMax(svs, tvss[j]) <= r
  {
    if tvss == [] then 0.0
    else
      var front := tvss[..|tvss| - 1];
      assert forall j :: 0 <= j < |front| ==> front[j] == tvss[j];
      Max(WordMax(svs, front), VarsMax(svs, tvss[|tvss| - 1]))
  }

  /** Every pair of variations scores at most the best word match. */
  lemma WordMaxBound(svs: seq<string>, tvss: seq<seq<string>>, j: nat, k: nat, m: nat)
    requires j < |tvss| && k < |svs| && m < |tvss[j]|
    ensures VarScore(svs[k], tvss[j][m]) <= WordMax(svs, tvss)
  {
    assert VarScore(svs[k], tvss[j][m]) <= RowMax(svs[k], tvss[j]);
    assert RowMax(svs[k], tvss[j]) <= VarsMax(svs, tvss[j]);
  }

  /** A variation scores 1 against a word exactly when it is one of the word's variations. */
  lemma {:induction false} RowMaxOne(sv: string, tvs: seq<string>)
    ensures RowMax(sv, tvs) == 1.0 <==> sv in tvs
  {
    if tvs != [] {
      var front := tvs[..|tvs| - 1];
      RowMaxOne(sv, front);
      assert tvs == front + [tvs[|tvs| - 1]];
    }
  }

  lemma {:induction false} VarsMaxOne(svs: seq<string>, tvs: seq<string>)
    ensures VarsMax(svs, tvs) == 1.0 <==> exists k :: 0 <= k < |svs| && svs[k] in tvs
  {
    if svs != [] {
      var front := svs[..|svs| - 1];
      VarsMaxOne(front, tvs);
      RowMaxOne(svs[|svs| - 1], tvs);
      if exists k :: 0 <= k < |svs| && svs[k] in tvs {
        var k :| 0 <= k < |svs| && svs[k] in tvs;
        if k < |svs| - 1 {
          assert front[k] == svs[k];
        }
      }
    }
  }

  /** A search word is a full match (score 1) exactly when one of its variations is a variation of some title word. */
  lemma {:induction false} WordMaxOne(svs: seq<string>, tvss: seq<seq<string>>)
    ensures WordMax(svs, tvss) == 1.0 <==> exists j, k :: 0 <= j < |tvss| && 0 <= k < |svs| && svs[k] in tvss[j]
  {
    if tvss != [] {
      var front := tvss[..|tvss| - 1];
      WordMaxOne(svs, front);
      VarsMaxOne(svs, tvss[|tvss| - 1]);
      if exists j, k :: 0 <= j < |tvss| && 0 <= k < |svs| && svs[k] in tvss[j] {
        var j, k :| 0 <= j < |tvss| && 0 <= k < |svs| && svs[k] in tvss[j];
        if j < |tvss| - 1 {
          assert front[j] == tvss[j];
        }
      }
    }
  }

  /** The best score of a row is the score of one of its pairs, or 0 for an empty row. */
  lemma {:induction false} RowMaxAttained(sv: string, tvs: seq<string>)
    ensures RowMax(sv, tvs) == 0.0 || exists m :: 0 <= m < |tvs| && RowMax(sv, tvs) == VarScore(sv, tvs[m])
  {
    if tvs != [] {
      var front := tvs[..|tvs| - 1];
      RowMaxAttained(sv, front);
      if RowMax(sv, tvs) != VarScore(sv, tvs[|tvs| - 1]) && RowMax(sv, tvs) != 0.0 {
        var m :| 0 <= m < |front| && RowMax(sv, front) == VarScore(sv, front[m]);
        assert front[m] == tvs[m];
      }
    }
  }

  lemma {:induction false} VarsMaxAttained(svs: seq<string>, tvs: seq<string>)
    ensures VarsMax(svs, tvs) == 0.0 || exists k, m :: 0 <= k < |svs| && 0 <= m < |tvs| && VarsMax(svs, tvs) == VarScore(svs[k], tvs[m])
  {
    if svs != [] {
      var front := svs[..|svs| - 1];
      var last := |svs| - 1;
      VarsMaxAttained(front, tvs);
      RowMaxAttained(svs[last], tvs);
      var r := VarsMax(svs, tvs);
      if r != 0.0 {
        if r == RowMax(svs[last], tvs) {
          var m :| 0 <= m < |tvs| && r == VarScore(svs[last], tvs[m]);
        } else {
          var k, m :| 0 <= k < |front| && 0 <= m < |tvs| && r == VarScore(front[k], tvs[m]);
          assert front[k] == svs[k];
        }
      }
    }
  }

  /** The best word match is the score of one pair of variations, or 0 when there is none. */
  lemma {:induction false} WordMaxAttained(svs: seq<string>, tvss: seq<seq<string>>)
    ensures WordMax(svs, tvss) == 0.0 || exists j, k, m :: 0 <= j < |tvss| && 0 <= k < |svs| && 0 <= m < |tvss[j]| && WordMax(svs, tvss) == VarScore(svs[k], tvss[j][m])
  {
    if tvss != [] {
      var front := tvss[..|tvss| - 1];
      var last := |tvss| - 1;
      WordMaxAttained(svs, front);
      VarsMaxAttained(svs, tvss[last]);
      var r := WordMax(svs, tvss);
      if r != 0.0 {
        if r == VarsMax(svs, tvss[last]) {
          var k, m :| 0 <= k < |svs| && 0 <= m < |tvss[last]| && r == VarScore(svs[k], tvss[last][m]);
          assert 0 <= last < |tvss| && 0 <= k < |svs| && 0 <= m < |tvss[last]|;
        } else {
          assert r == WordMax(svs, front);
          var j, k, m :| 0 <= j < |front| && 0 <= k < |svs| && 0 <= m < |front[j]| && r == VarScore(svs[k], front[j][m]);
          assert front[j] == tvss[j];
          assert 0 <= j < |tvss| && 0 <= k < |svs| && 0 <= m < |tvss[j]| && r == VarScore(svs[k], tvss[j][m]);
        }
      }
    }
  }

  /**
    The three nested loops of `calculateTitleScore` for one search word: the running best is
    raised pair by pair, and the loops stop as soon as two variations are equal. Each loop
    level is a method of its own.
  */
  method BestWordMatch(svs: seq<string>, tvss: seq<seq<string>>) returns (best: real)
    ensures best == WordMax(svs, tvss)
  {
    best := 0.0;
    for j := 0 to |tvss|
      invariant best <= WordMax(svs, tvss)
      invariant best == WordMax(svs, tvss[..j])
    {
      assert tvss[..j + 1][..j] == tvss[..j];
      best := ScanTitleWord(svs, tvss[j], best);
      if best == 1.0 {
        break;
      }
    }
    if best != 1.0 {
      assert tvss[..|tvss|] == tvss;
    }
  }

  /** The loop over the variations of the search word, against one title word. */
  method ScanTitleWord(svs: seq<string>, tvs: seq<string>, start: real) returns (best: real)
    requires 0.0 <= start <= 1.0
    ensures best == Max(start, VarsMax(svs, tvs))
  {
    best := start;
    for k := 0 to |svs|
      invariant best <= Max(start, VarsMax(svs, tvs))
      invariant best == Max(start, VarsMax(svs[..k], tvs))
    {
      assert svs[..k + 1][..k] == svs[..k];
      best := ScanVariation(svs[k], tvs, best);
      if best == 1.0 {
        break;
      }
    }
    if best != 1.0 {
      assert svs[..|svs|] == svs;
    }
  }

  /** The innermost loop: one search variation against the variations of one title word. */
  method ScanVariation(sv: string, tvs: seq<string>, start: real) returns (best: real)
    requires 0.0 <= start <= 1.0
    ensures best == Max(start, RowMax(sv, tvs))
  {
    best := start;
    for m := 0 to |tvs|
      invariant best == Max(start, RowMax(sv, tvs[..m]))
    {
      var tv := tvs[m];
      assert tvs[..m + 1][..m] == tvs[..m];
      if sv == tv {
        best := 1.0;
        assert VarScore(sv, tvs[m]) <= RowMax(sv, tvs);
        return;
      }
      if Includes(sv, tv) || Includes(tv, sv) {
        var matchLength := if |sv| < |tv| then |sv| else |tv|;
        var maxLength := if |sv| < |tv| then |tv| else |sv|;
        best := Max(best, matchLength as real / maxLength as real);
      }
    }
    assert tvs[..|tvs|] == tvs;
  }

  /** `searchWords.map(w => getWordVariations(w))` */
  function VarLists(words: seq<string>): (r: seq<seq<string>>)
    ensures |r| == |words|
  {
    seq(|words|, i requires 0 <= i < |words| => Variations(words[i]))
  }

  lemma VarListsAt(words: seq<string>, j: nat)
    requires j < |words|
    ensures VarLists(words)[j] == Variations(words[j])
  {
  }

  /** The `bestWordMatch` of every search word against all title words. */
  function Bests(svss: seq<seq<string>>, tvss: seq<seq<string>>): (r: seq<real>)
    ensures |r| == |svss|
    ensures forall i :: 0 <= i < |svss| ==> r[i] == WordMax(svss[i], tvss)
  {
    seq(|svss|, i requires 0 <= i < |svss| => WordMax(svss[i], tvss))
  }

  /**
    What each search word's best score means: it lies in [0, 1], no pair of the word's and a
    title word's variations scores higher, it is 0 or the score of one such pair, and it is
    1 exactly when one of the word's variations is a variation of some title word.
  */
  lemma BestsMeaning(svss: seq<seq<string>>, tvss: seq<seq<string>>, i: nat)
    requires i < |svss|
    ensures 0.0 <= Bests(svss, tvss)[i] <= 1.0
    ensures forall j, k, m :: 0 <= j < |tvss| && 0 <= k < |svss[i]| && 0 <= m < |tvss[j]| ==>
      VarScore(svss[i][k], tvss[j][m]) <= Bests(svss, tvss)[i]
    ensures Bests(svss, tvss)[i] == 0.0 ||
      exists j, k, m :: 0 <= j < |tvss| && 0 <= k < |svss[i]| && 0 <= m < |tvss[j]|
        && Bests(svss, tvss)[i] == VarScore(svss[i][k], tvss[j][m])
    ensures Bests(svss, tvss)[i] == 1.0 <==> exists j, k :: 0 <= j < |tvss| && 0 <= k < |svss[i]| && svss[i][k] in tvss[j]
  {
    WordMaxOne(svss[i], tvss);
    WordMaxAttained(svss[i], tvss);
    forall j, k, m | 0 <= j < |tvss| && 0 <= k < |svss[i]| && 0 <= m < |tvss[j]|
      ensures VarScore(svss[i][k], tvss[j][m]) <= Bests(svss, tvss)[i]
    {
      WordMaxBound(svss[i], tvss, j, k, m);
    }
  }

  /** `matches`: the number of search words matched fully. */
  function Matches(bests: seq<real>): nat {
    if bests == [] then 0
    else Matches(bests[..|bests| - 1]) + (if bests[|bests| - 1] == 1.0 then 1 else 0)
  }

  /** `partialMatches`: the sum of the partial scores of the other search words. */
  function Partial(bests: seq<real>): real {
    if bests == [] then 0.0
    else
      var b := bests[|bests| - 1];
      Partial(bests[..|bests| - 1]) + (if b != 1.0 && b > 0.0 then b else 0.0)
  }

  /** `wordMatchScore`: a full match counts 1, a partial match half its score, averaged over the search words. */
  function WordMatchScore(bests: seq<real>): real
    requires bests != []
  {
    (Matches(bests) as real + Partial(bests) * 0.5) / |bests| as real
  }

  /** Each search word contributes between 0 and 1 to the sum. */
  lemma {:induction false} MatchSumBounds(bests: seq<real>)
    requires forall i :: 0 <= i < |bests| ==> 0.0 <= bests[i] <= 1.0
    ensures 0.0 <= Partial(bests)
    ensures Matches(bests) as real + Partial(bests) <= |bests| as real
  {
    if bests != [] {
      MatchSumBounds(bests[..|bests| - 1]);
    }
  }

  /** The word match score lies in [0, 1]. */
  lemma WordMatchBounds(bests: seq<real>)
    requires bests != []
    requires forall i :: 0 <= i < |bests| ==> 0.0 <= bests[i] <= 1.0
    ensures 0.0 <= WordMatchScore(bests) <= 1.0
  {
    MatchSumBounds(bests);
    QuotientInUnit(Matches(bests) as real + Partial(bests) * 0.5, |bests| as real);
  }

  lemma QuotientInUnit(a: real, b: real)
    requires 0.0 < b && 0.0 <= a <= b
    ensures 0.0 <= a / b <= 1.0
  {
    var q := a / b;
    assert q * b == a;
  }

  /**
    `calculateTitleScore`: 1 when the normalised titles are equal, otherwise 0.7 times the word
    match score plus 0.3 times the string similarity of the normalised titles. The similarity
    library is the parameter `sim`.
  */
  function TitleScore(searchTitle: string, hianimeTitle: string, sim: (string, string) -> real): real {
    NormalTitleScore(Normalize(searchTitle), Normalize(hianimeTitle), sim)
  }

  /** The title score once both titles are normalised. */
  function NormalTitleScore(normalizedSearch: string, normalizedTitle: string, sim: (string, string) -> real): real {
    if normalizedSearch == normalizedTitle then 1.0
    else
      var searchWords := SplitOn(normalizedSearch, " ");
      var titleWords := SplitOn(normalizedTitle, " ");
      var bests := Bests(VarLists(searchWords), VarLists(titleWords));
      WordMatchScore(bests) * 0.7 + sim(normalizedSearch, normalizedTitle) * 0.3
  }

  /** `calculateTitleScore` as the source runs it. */
  method CalculateTitleScore(searchTitle: string, hianimeTitle: string, sim: (string, string) -> real) returns (score: real)
    ensures score == TitleScore(searchTitle, hianimeTitle, sim)
  {
    var normalizedSearch := Normalize(searchTitle);
    var normalizedTitle := Normalize(hianimeTitle);
    score := ScoreNormalized(normalizedSearch, normalizedTitle, sim);
  }

  /** The body of `calculateTitleScore` after normalisation. */
  method ScoreNormalized(normalizedSearch: string, normalizedTitle: string, sim: (string, string) -> real) returns (score: real)
    ensures score == NormalTitleScore(normalizedSearch, normalizedTitle, sim)
  {
    if normalizedSearch == normalizedTitle {
      return 1.0;
    }
    var searchWords := SplitOn(normalizedSearch, " ");
    var titleWords := SplitOn(normalizedTitle, " ");
    var searchVariations := VarLists(searchWords);
    var titleVariations := VarLists(titleWords);
    var wordMatchScore := WordMatch(searchVariations, titleVariations);
    var similarity := sim(normalizedSearch, normalizedTitle);
    score := wordMatchScore * 0.7 + similarity * 0.3;
  }

  /** The loop over the search words, counting full and partial matches. */
  method WordMatch(svss: seq<seq<string>>, tvss: seq<seq<string>>) returns (wordMatchScore: real)
    requires svss != []
    ensures wordMatchScore == WordMatchScore(Bests(svss, tvss))
  {
    ghost var bests := Bests(svss, tvss);
    var matches := 0;
    var partialMatches := 0.0;
    for i := 0 to |svss|
      invariant matches == Matches(bests[..i])
      invariant partialMatches == Partial(bests[..i])
    {
      var bestWordMatch := BestWordMatch(svss[i], tvss);
      assert bests[..i + 1][..i] == bests[..i];
      if bestWordMatch == 1.0 {
        matches := matches + 1;
      } else if bestWordMatch > 0.0 {
        partialMatches := partialMatches + bestWordMatch;
      }
    }
    assert bests[..|svss|] == bests;
    wordMatchScore := (matches as real + partialMatches * 0.5) / |svss| as real;
  }

  /** The title score lies in [0, 1] whenever the similarity does, and is 1 on equal normalised titles. */
  lemma TitleScoreBounds(searchTitle: string, hianimeTitle: string, sim: (string, string) -> real)
    requires 0.0 <= sim(Normalize(searchTitle), Normalize(hianimeTitle)) <= 1.0
    ensures 0.0 <= TitleScore(searchTitle, hianimeTitle, sim) <= 1.0
    ensures Normalize(searchTitle) == Normalize(hianimeTitle) ==> TitleScore(searchTitle, hianimeTitle, sim) == 1.0
  {
    var normalizedSearch := Normalize(searchTitle);
    var normalizedTitle := Normalize(hianimeTitle);
    if normalizedSearch != normalizedTitle {
      var bests := Bests(VarLists(SplitOn(normalizedSearch, " ")), VarLists(SplitOn(normalizedTitle, " ")));
      WordMatchBounds(bests);
    }
  }

  /** A search word that is also a title word is a full match. */
  lemma SharedWordMatches(searchWords: seq<string>, titleWords: seq<string>, i: nat, j: nat)
    requires i < |searchWords| && j < |titleWords| && searchWords[i] == titleWords[j]
    ensures Bests(VarLists(searchWords), VarLists(titleWords))[i] == 1.0
  {
    var svs := Variations(searchWords[i]);
    var tvss := VarLists(titleWords);
    VarListsAt(searchWords, i);
    VarListsAt(titleWords, j);
    VariationsBasics(searchWords[i]);
    var k :| 0 <= k < |svs| && svs[k] == searchWords[i];
    assert svs[k] in tvss[j];
    WordMaxOne(svs, tvss);
  }

  /** Two words made of digits only are a full match, through their shared empty variation. */
  lemma NumericWordsMatch(searchWords: seq<string>, titleWords: seq<string>, i: nat, j: nat)
    requires i < |searchWords| && j < |titleWords|
    requires searchWords[i] != [] && AllDigits(searchWords[i])
    requires titleWords[j] != [] && AllDigits(titleWords[j])
    ensures Bests(VarLists(searchWords), VarLists(titleWords))[i] == 1.0
  {
    var svs := Variations(searchWords[i]);
    var tvss := VarLists(titleWords);
    VarListsAt(searchWords, i);
    VarListsAt(titleWords, j);
    DigitWordHasEmpty(searchWords[i]);
    DigitWordHasEmpty(titleWords[j]);
    var k :| 0 <= k < |svs| && svs[k] == "";
    assert svs[k] in tvss[j];
    WordMaxOne(svs, tvss);
  }

  /** A search word none of whose variations overlaps any title variation contributes nothing. */
  lemma UnrelatedWordScoresZero(svs: seq<string>, tvss: seq<seq<string>>)
    requires forall j, k, m :: 0 <= j < |tvss| && 0 <= k < |svs| && 0 <= m < |tvss[j]| ==>
      !Includes(svs[k], tvss[j][m]) && !Includes(tvss[j][m], svs[k])
    ensures WordMax(svs, tvss) == 0.0
  {
    WordMaxAttained(svs, tvss);
  }

  // ------------------------------------------------------------------
  // Anime info and titles to try
  // ------------------------------------------------------------------

  /** What `getAnimeInfo` returns; a missing episode count is 0. */
  datatype AnimeInfo = AnimeInfo(id: nat, title: AniListTitle, episodes: int, synonyms: seq<string>)

  /** A character of the CJK Unified Ideographs block, `[\u4E00-\u9FFF]`. */
  predicate IsCjk(c: char) { '\U{4E00}' <= c <= '\U{9FFF}' }

  predicate HasCjk(t: string) { exists i :: 0 <= i < |t| && IsCjk(t[i]) }

  /** `.filter(t => !(/[\u4E00-\u9FFF]/.test(t)))` */
  function DropCjk(ts: seq<string>): (r: seq<string>)
    ensures forall t :: t in r <==> t in ts && !HasCjk(t)
  {
    if ts == [] then []
    else (if HasCjk(ts[0]) then [] else [ts[0]]) + DropCjk(ts[1..])
  }

  /** `[...new Set(ts)]`: the distinct elements in order of first occurrence. */
  function Dedup(ts: seq<string>): seq<string> {
    AddAll([], ts)
  }

  /** `.filter((t, i, arr) => arr.indexOf(t) === i)`: keep an element only where it first occurs. */
  function KeepFirst(ts: seq<string>): seq<string> {
    if ts == [] then []
    else
      var front := ts[..|ts| - 1];
      KeepFirst(front) + (if ts[|ts| - 1] in front then [] else [ts[|ts| - 1]])
  }

  /** The `indexOf` filter and a `Set` give the same list. */
  lemma {:induction false} KeepFirstIsDedup(ts: seq<string>)
    ensures KeepFirst(ts) == Dedup(ts)
  {
    if ts != [] {
      var front := ts[..|ts| - 1];
      KeepFirstIsDedup(front);
      AddAllContents([], front);
    }
  }

  /** The synonyms of `getAnimeInfo`: synonyms, English and romaji titles, without empty or Chinese titles, each once. */
  function InfoSynonyms(media: AniListMedia): seq<string> {
    Dedup(DropCjk(NonEmpty(media.synonyms + [media.title.english, media.title.romaji])))
  }

  /** `getAnimeInfo` once the AniList response is in hand; no media gives null. */
  function GetAnimeInfo(media: Option<AniListMedia>): (r: Option<AnimeInfo>)
    ensures r.Some? <==> media.Some?
    ensures r.Some? ==> r.value.id == media.value.id && r.value.title == media.value.title && r.value.episodes == media.value.episodes
  {
    match media
    case None => None
    case Some(m) => Some(AnimeInfo(m.id, m.title, m.episodes, InfoSynonyms(m)))
  }

  /** The synonyms are distinct, non-empty and free of Chinese characters, and every such title of the media is among them. */
  lemma InfoSynonymsContents(media: AniListMedia)
    ensures Distinct(InfoSynonyms(media))
    ensures forall t :: t in InfoSynonyms(media) <==>
      (t in media.synonyms || t == media.title.english || t == media.title.romaji) && t != [] && !HasCjk(t)
  {
    var all := media.synonyms + [media.title.english, media.title.romaji];
    AddAllContents([], DropCjk(NonEmpty(all)));
  }

  /** `titlesToTry`: English title, romaji title, then the synonyms, without empty titles, each at its first occurrence. */
  function TitlesToTry(info: AnimeInfo): seq<string> {
    KeepFirst(NonEmpty([info.title.english, info.title.romaji] + info.synonyms))
  }

  /** Every non-empty title of the info is tried, once; a non-empty English title is tried first. */
  lemma TitlesToTryContents(info: AnimeInfo)
    ensures Distinct(TitlesToTry(info))
    ensures forall t :: t in TitlesToTry(info) <==>
      (t == info.title.english || t == info.title.romaji || t in info.synonyms) && t != []
    ensures info.title.english != [] ==> TitlesToTry(info) != [] && TitlesToTry(info)[0] == info.title.english
  {
    var all := [info.title.english, info.title.romaji] + info.synonyms;
    var kept := NonEmpty(all);
    KeepFirstIsDedup(kept);
    AddAllContents([], kept);
    if info.title.english != [] {
      assert all[0] == info.title.english;
      NonEmptyHead(all);
      DedupHead(kept);
    }
  }

  lemma NonEmptyHead(parts: seq<string>)
    requires parts != [] && parts[0] != []
    ensures NonEmpty(parts) != [] && NonEmpty(parts)[0] == parts[0]
  {
  }

  lemma {:induction false} DedupHead(ts: seq<string>)
    requires ts != []
    ensures Dedup(ts) != [] && Dedup(ts)[0] == ts[0]
  {
    var front := ts[..|ts| - 1];
    assert Dedup(ts) == AddNew(Dedup(front), ts[|ts| - 1]);
    if |ts| > 1 {
      DedupHead(front);
      assert front[0] == ts[0];
    } else {
      assert front == [];
    }
  }

  // ------------------------------------------------------------------
  // Scoring search results
  // ------------------------------------------------------------------

  /** One `.flw-item` of a search page: anchor text, `href`, `data-jname`, the first info item's text and the episode count. */
  datatype HiItem = HiItem(title: string, href: Option<string>, jname: string, kind: string, episodes: int)

  /** `href?.split('/').pop()?.split('?')[0]`; no `href` gives the empty id, which is skipped. */
  function ItemId(href: Option<string>): string {
    match href
    case None => []
    case Some(h) =>
      var segments := SplitOn(h, "/");
      SplitOn(segments[|segments| - 1], "?")[0]
  }

  /** An entry of `seriesMatches`; a missing `data-jname` is the empty string. */
  datatype Match = Match(title: string, id: string, score: real, isMovie: bool, isTV: bool, episodes: int, jname: string)

  /** `year`: the four digits of the first `(dddd)` in the title. */
  predicate YearAt(s: string, i: nat) {
    i + 6 <= |s| && s[i] == '(' && AllDigits(s[i + 1..i + 5]) && s[i + 5] == ')'
  }

  function YearFrom(s: string, i: nat): (r: Option<string>)
    ensures r.None? ==> forall j :: i <= j ==> !YearAt(s, j)
    ensures r.Some? ==> exists k :: i <= k && YearAt(s, k) && r.value == s[k + 1..k + 5] && forall j :: i <= j < k ==> !YearAt(s, j)
    decreases |s| - i
  {
    if i + 6 > |s| then None
    else if YearAt(s, i) then Some(s[i + 1..i + 5])
    else YearFrom(s, i + 1)
  }

  function ParenYear(title: string): (r: Option<string>)
    ensures r.Some? ==> |r.value| == 4 && AllDigits(r.value)
  {
    YearFrom(title, 0)
  }

  /** The boosts and the penalty applied to a title score. */
  function Adjusted(base: real, item: HiItem, episodes: int, year: Option<string>): (r: real)
    ensures base - 0.3 <= r <= base + 0.6
    ensures r > base + 0.3 ==> year.Some? && Includes(item.jname, year.value)
    ensures r < base ==> item.kind == "Movie" && episodes > 1
  {
    var s1 := if item.kind == "TV" && episodes > 12 then base + 0.1 else base;
    var s2 := if episodes != 0 && item.episodes == episodes then s1 + 0.2 else s1;
    var s3 := if year.Some? && item.jname != [] && Includes(item.jname, year.value) then s2 + 0.3 else s2;
    if item.kind == "Movie" && episodes > 1 then s3 - 0.3 else s3
  }

  /** The record of one scored search result. */
  function MatchOf(searchTitle: string, item: HiItem, info: AnimeInfo, year: Option<string>, sim: (string, string) -> real): Match {
    var score := Adjusted(TitleScore(searchTitle, item.title, sim), item, info.episodes, year);
    Match(item.title, ItemId(item.href), score, item.kind == "Movie", item.kind == "TV", item.episodes, item.jname)
  }

  /** The scored results of one search page, skipping results without an id. */
  function Scored(searchTitle: string, items: seq<HiItem>, info: AnimeInfo, year: Option<string>, sim: (string, string) -> real): (r: seq<Match>)
    ensures forall m :: m in r ==> m.id != []
  {
    if items == [] then []
    else
      var item := items[|items| - 1];
      Scored(searchTitle, items[..|items| - 1], info, year, sim)
        + (if ItemId(item.href) != [] then [MatchOf(searchTitle, item, info, year, sim)] else [])
  }

  /** `bestMatch` after the given results: replaced only by a strictly higher score. */
  function BestOf(best: (real, string), ms: seq<Match>): (r: (real, string))
    ensures best.0 <= r.0
    ensures forall i :: 0 <= i < |ms| ==> ms[i].score <= r.0
    ensures r == best || exists i :: 0 <= i < |ms| && r == (ms[i].score, ms[i].id)
  {
    if ms == [] then best
    else
      var b := BestOf(best, ms[..|ms| - 1]);
      var m := ms[|ms| - 1];
      if m.score > b.0 then (m.score, m.id) else b
  }

  /** The results that enter `seriesMatches`. */
  function Keep(ms: seq<Match>): (r: seq<Match>)
    ensures forall m :: m in r <==> m in ms && m.score > 0.5
  {
    if ms == [] then []
    else Keep(ms[..|ms| - 1]) + (if ms[|ms| - 1].score > 0.5 then [ms[|ms| - 1]] else [])
  }

  // ------------------------------------------------------------------
  // Choosing among the matches
  // ------------------------------------------------------------------

  /** `.filter(p)` */
  function Filter(ms: seq<Match>, p: Match -> bool): (r: seq<Match>)
    ensures forall m :: m in r <==> m in ms && p(m)
  {
    if ms == [] then []
    else (if p(ms[0]) then [ms[0]] else []) + Filter(ms[1..], p)
  }

  /** Nothing passes the filter when no element passes the test. */
  lemma {:induction false} FilterNone(ms: seq<Match>, p: Match -> bool)
    requires forall m :: m in ms ==> !p(m)
    ensures Filter(ms, p) == []
  {
    if ms != [] {
      assert ms[0] in ms;
      FilterNone(ms[1..], p);
    }
  }

  /** The first element of a filtered list is the first element of the list that passes. */
  lemma {:induction false} FilterFirst(ms: seq<Match>, p: Match -> bool)
    requires Filter(ms, p) != []
    ensures exists i :: 0 <= i < |ms| && ms[i] == Filter(ms, p)[0] && p(ms[i]) && forall j :: 0 <= j < i ==> !p(ms[j])
  {
    if !p(ms[0]) {
      FilterFirst(ms[1..], p);
      var i :| 0 <= i < |ms[1..]| && ms[1..][i] == Filter(ms[1..], p)[0] && p(ms[1..][i]) && forall j :: 0 <= j < i ==> !p(ms[1..][j]);
      assert ms[i + 1] == Filter(ms, p)[0];
      forall j | 0 <= j < i + 1 ensures !p(ms[j]) {
        if j > 0 {
          assert ms[j] == ms[1..][j - 1];
        }
      }
    } else {
      assert ms[0] == Filter(ms, p)[0];
    }
  }

  /** The sort key of `(a, b) => b.score - a.score`: descending by score. */
  function NegScore(m: Match): real { -m.score }

  /** `list.sort((a, b) => b.score - a.score)` */
  function ByScore(ms: seq<Match>): (r: seq<Match>)
    ensures |r| == |ms|
  {
    StableSort.Sort(ms, NegScore)
  }

  /** Sorting keeps the matches. */
  lemma ByScoreMembers(ms: seq<Match>)
    ensures forall m :: m in ByScore(ms) <==> m in ms
  {
    var sorted := ByScore(ms);
    forall m ensures m in sorted <==> m in ms {
      assert m in sorted <==> m in multiset(sorted);
      assert m in ms <==> m in multiset(ms);
    }
  }

  /** The sorted list is in descending order of score. */
  lemma ByScoreOrder(ms: seq<Match>, i: int, j: int)
    requires 0 <= i <= j < |ms|
    ensures ByScore(ms)[j].score <= ByScore(ms)[i].score
  {
    StableSort.SortSorted(ms, NegScore);
    if i < j {
      assert NegScore(ByScore(ms)[i]) <= NegScore(ByScore(ms)[j]);
    }
  }

  /** The head of the sorted list is a match with the highest score. */
  lemma ByScoreHead(ms: seq<Match>)
    requires ms != []
    ensures ByScore(ms)[0] in ms
    ensures forall m :: m in ms ==> m.score <= ByScore(ms)[0].score
  {
    var sorted := ByScore(ms);
    ByScoreMembers(ms);
    assert sorted[0] in sorted;
    forall m | m in ms ensures m.score <= sorted[0].score {
      var j :| 0 <= j < |sorted| && sorted[j] == m;
      ByScoreOrder(ms, 0, j);
    }
  }

  /** The Hunter x Hunter (2011) test. */
  predicate IsHxH(m: Match) {
    m.isTV && m.episodes >= 100 && (Includes(m.jname, "2011") || Includes(Lower(m.title), "hunter x hunter"))
  }

  predicate IsExactEpisode(m: Match, episodes: int) {
    m.isTV && episodes != 0 && m.episodes == episodes
  }

  /**
    The rule chain after all titles were tried: the Hunter x Hunter (2011) rule, then a TV match
    with the AniList episode count, then a TV match within 0.2 of the top, then the top match;
    with no match kept, the best id when its score is above 0.4.
  */
  function Select(matches: seq<Match>, best: (real, string), episodes: int, year: Option<string>): Option<string> {
    var hxh := Filter(matches, IsHxH);
    if |hxh| > 0 && year == Some("2011") then Some(ByScore(hxh)[0].id)
    else if matches != [] then
      var exact := Filter(matches, (m: Match) => IsExactEpisode(m, episodes));
      if |exact| > 0 then Some(ByScore(exact)[0].id)
      else Some(TopOrTV(matches))
    else if best.0 > 0.4 then Some(best.1)
    else None
  }

  /** The top match, or the best TV match when it is within 0.2 of the top. */
  function TopOrTV(matches: seq<Match>): string
    requires matches != []
  {
    var sorted := ByScore(matches);
    var tvs := Filter(sorted, (m: Match) => m.isTV);
    if |tvs| > 0 && sorted[0].score - tvs[0].score < 0.2 then tvs[0].id
    else sorted[0].id
  }

  /** The first TV entry of the sorted list is a TV match with the highest score among the TV matches. */
  lemma FirstTV(matches: seq<Match>)
    requires Filter(ByScore(matches), (m: Match) => m.isTV) != []
    ensures var tv := Filter(ByScore(matches), (m: Match) => m.isTV)[0];
      tv in matches && tv.isTV && forall n :: n in matches && n.isTV ==> n.score <= tv.score
  {
    var sorted := ByScore(matches);
    var isTV := (m: Match) => m.isTV;
    var tvs := Filter(sorted, isTV);
    FilterFirst(sorted, isTV);
    var i :| 0 <= i < |sorted| && sorted[i] == tvs[0] && sorted[i].isTV && forall j :: 0 <= j < i ==> !sorted[j].isTV;
    ByScoreMembers(matches);
    assert sorted[i] in sorted;
    forall n | n in matches && n.isTV ensures n.score <= tvs[0].score {
      var j :| 0 <= j < |sorted| && sorted[j] == n;
      if i <= j {
        ByScoreOrder(matches, i, j);
      }
    }
  }

  /** The TV rule: the chosen match is a TV match within 0.2 of the top and best among TV matches, or the top match with every TV match at least 0.2 behind. */
  lemma TopOrTVRule(matches: seq<Match>)
    requires matches != []
    ensures exists m :: (m in matches && TopOrTV(matches) == m.id && (
                           (m.isTV && (forall n :: n in matches ==> n.score < m.score + 0.2) && (forall n :: n in matches && n.isTV ==> n.score <= m.score))
                           || (!m.isTV && forall n :: n in matches ==> n.score <= m.score && (n.isTV ==> m.score - n.score >= 0.2))))
  {
    var sorted := ByScore(matches);
    var top := sorted[0];
    ByScoreHead(matches);
    var tvs := Filter(sorted, (m: Match) => m.isTV);
    if |tvs| > 0 {
      FirstTV(matches);
      if top.isTV {
        assert top in tvs;
        assert top.score <= tvs[0].score;
      }
      if sorted[0].score - tvs[0].score < 0.2 {
        assert TopOrTV(matches) == tvs[0].id;
      } else {
        assert TopOrTV(matches) == top.id;
      }
    } else {
      assert forall n :: n in matches && n.isTV ==> n in tvs by {
        ByScoreMembers(matches);
      }
      assert TopOrTV(matches) == top.id;
    }
  }

  /** Null comes only from an empty match list and a best score of at most 0.4. */
  lemma SelectNone(matches: seq<Match>, best: (real, string), episodes: int, year: Option<string>)
    ensures Select(matches, best, episodes, year).None? <==> matches == [] && best.0 <= 0.4
    ensures matches == [] && best.0 > 0.4 ==> Select(matches, best, episodes, year) == Some(best.1)
  {
    if matches == [] {
      assert Filter(matches, IsHxH) == [];
    } else {
      var sorted := ByScore(matches);
      assert sorted != [];
    }
  }

  /** With a non-empty match list the answer is the id of one of the matches. */
  lemma SelectFromMatches(matches: seq<Match>, best: (real, string), episodes: int, year: Option<string>)
    requires matches != []
    ensures exists m :: m in matches && Select(matches, best, episodes, year) == Some(m.id)
  {
    var hxh := Filter(matches, IsHxH);
    var exact := Filter(matches, (m: Match) => IsExactEpisode(m, episodes));
    if |hxh| > 0 && year == Some("2011") {
      ByScoreHead(hxh);
    } else if |exact| > 0 {
      ByScoreHead(exact);
    } else {
      TopOrTVRule(matches);
    }
  }

  /** For the 2011 title, a Hunter x Hunter candidate wins, and it is one with the highest score among them. */
  lemma SelectHxH(matches: seq<Match>, best: (real, string), episodes: int, year: Option<string>, h: Match)
    requires year == Some("2011") && h in matches && IsHxH(h)
    ensures exists m :: (m in matches && IsHxH(m) && Select(matches, best, episodes, year) == Some(m.id)
                         && forall n :: n in matches && IsHxH(n) ==> n.score <= m.score)
  {
    var hxh := Filter(matches, IsHxH);
    assert h in hxh;
    ByScoreHead(hxh);
  }

  /** Otherwise a TV candidate with exactly the AniList episode count wins, one with the highest score among them. */
  lemma SelectExactEpisode(matches: seq<Match>, best: (real, string), episodes: int, year: Option<string>, e: Match)
    requires !(year == Some("2011") && exists h :: h in matches && IsHxH(h))
    requires e in matches && IsExactEpisode(e, episodes)
    ensures exists m :: (m in matches && IsExactEpisode(m, episodes) && Select(matches, best, episodes, year) == Some(m.id)
                         && forall n :: n in matches && IsExactEpisode(n, episodes) ==> n.score <= m.score)
  {
    var hxh := Filter(matches, IsHxH);
    if |hxh| > 0 {
      assert hxh[0] in matches && IsHxH(hxh[0]);
    }
    var exact := Filter(matches, (m: Match) => IsExactEpisode(m, episodes));
    assert e in exact;
    ByScoreHead(exact);
  }

  /**
    Otherwise the best TV candidate wins when it is within 0.2 of the top score, and the top
    candidate wins when it is not a TV entry and every TV candidate is at least 0.2 behind.
  */
  lemma SelectPrefersTV(matches: seq<Match>, best: (real, string), episodes: int, year: Option<string>)
    requires matches != []
    requires !(year == Some("2011") && exists h :: h in matches && IsHxH(h))
    requires forall e :: e in matches ==> !IsExactEpisode(e, episodes)
    ensures Select(matches, best, episodes, year) == Some(TopOrTV(matches))
  {
    var hxh := Filter(matches, IsHxH);
    assert !(|hxh| > 0 && year == Some("2011")) by {
      if |hxh| > 0 {
        assert hxh[0] in matches && IsHxH(hxh[0]);
      }
    }
    var exact := Filter(matches, (m: Match) => IsExactEpisode(m, episodes));
    FilterNone(matches, (m: Match) => IsExactEpisode(m, episodes));
  }

  // ------------------------------------------------------------------
  // searchAnime
  // ------------------------------------------------------------------

  /**
    The search from the `i`-th title on, with the best match and the kept matches so far. A
    failed fetch is the `catch` that returns null; a best score above 0.85 after a page stops
    the search.
  */
  function SearchFrom(titles: seq<string>, i: nat, best: (real, string), matches: seq<Match>,
                      fetch: string -> Option<seq<HiItem>>, info: AnimeInfo, year: Option<string>,
                      sim: (string, string) -> real): Option<string>
    requires i <= |titles|
    decreases |titles| - i
  {
    if i == |titles| then Select(matches, best, info.episodes, year)
    else
      match fetch(titles[i])
      case None => None
      case Some(items) =>
        var scored := Scored(titles[i], items, info, year, sim);
        var next := BestOf(best, scored);
        if next.0 > 0.85 then Some(next.1)
        else SearchFrom(titles, i + 1, next, matches + Keep(scored), fetch, info, year, sim)
  }

  /** `searchAnime(title, animeInfo)`; `fetch` gives the results of a search page, or None when the request fails. */
  function Search(title: string, info: AnimeInfo, fetch: string -> Option<seq<HiItem>>, sim: (string, string) -> real): Option<string> {
    SearchFrom(TitlesToTry(info), 0, (0.0, []), [], fetch, info, ParenYear(title), sim)
  }

  /** `id` is the id of a scored result on one of the pages fetched for the first `i` titles. */
  ghost predicate FoundIn(titles: seq<string>, i: nat, fetch: string -> Option<seq<HiItem>>, info: AnimeInfo,
                          year: Option<string>, sim: (string, string) -> real, id: string)
    requires i <= |titles|
  {
    exists j :: 0 <= j < i && fetch(titles[j]).Some?
      && exists m :: m in Scored(titles[j], fetch(titles[j]).value, info, year, sim) && m.id == id
  }

  lemma FoundInMore(titles: seq<string>, i: nat, fetch: string -> Option<seq<HiItem>>, info: AnimeInfo,
                    year: Option<string>, sim: (string, string) -> real, id: string)
    requires i < |titles| && FoundIn(titles, i, fetch, info, year, sim, id)
    ensures FoundIn(titles, i + 1, fetch, info, year, sim, id)
  {
    var j :| 0 <= j < i && fetch(titles[j]).Some?
      && exists m :: m in Scored(titles[j], fetch(titles[j]).value, info, year, sim) && m.id == id;
  }

  /** Every id the search gives is the id of a result on a page it fetched. */
  lemma {:induction false} SearchFromFound(titles: seq<string>, i: nat, best: (real, string), matches: seq<Match>,
                                           fetch: string -> Option<seq<HiItem>>, info: AnimeInfo, year: Option<string>,
                                           sim: (string, string) -> real)
    requires i <= |titles|
    requires best.0 > 0.4 ==> FoundIn(titles, i, fetch, info, year, sim, best.1)
    requires forall m :: m in matches ==> FoundIn(titles, i, fetch, info, year, sim, m.id)
    requires SearchFrom(titles, i, best, matches, fetch, info, year, sim).Some?
    ensures FoundIn(titles, |titles|, fetch, info, year, sim, SearchFrom(titles, i, best, matches, fetch, info, year, sim).value)
    decreases |titles| - i
  {
    if i == |titles| {
      SelectFound(titles, best, matches, fetch, info, year, sim);
    } else {
      SearchFromFetched(titles, i, best, matches, fetch, info, year, sim);
      var scored := Scored(titles[i], fetch(titles[i]).value, info, year, sim);
      var next := BestOf(best, scored);
      ScoredFound(titles, i, fetch, info, year, sim);
      SearchFromStep(titles, i, best, matches, fetch, info, year, sim);
      if next.0 > 0.85 {
        BestFound(titles, i, best, scored, fetch, info, year, sim);
        FoundInUpTo(titles, i + 1, fetch, info, year, sim, next.1);
      } else {
        if next.0 > 0.4 {
          BestFound(titles, i, best, scored, fetch, info, year, sim);
        }
        KeptFound(titles, i, matches, scored, fetch, info, year, sim);
        SearchFromFound(titles, i + 1, next, matches + Keep(scored), fetch, info, year, sim);
      }
    }
  }

  /** A search that gives an id fetched the page of each title it reached. */
  lemma SearchFromFetched(titles: seq<string>, i: nat, best: (real, string), matches: seq<Match>,
                          fetch: string -> Option<seq<HiItem>>, info: AnimeInfo, year: Option<string>,
                          sim: (string, string) -> real)
    requires i < |titles| && SearchFrom(titles, i, best, matches, fetch, info, year, sim).Some?
    ensures fetch(titles[i]).Some?
  {
  }

  /** One page of the search: stop above 0.85, otherwise go on with the next title. */
  lemma SearchFromStep(titles: seq<string>, i: nat, best: (real, string), matches: seq<Match>,
                       fetch: string -> Option<seq<HiItem>>, info: AnimeInfo, year: Option<string>,
                       sim: (string, string) -> real)
    requires i < |titles| && fetch(titles[i]).Some?
    ensures var scored := Scored(titles[i], fetch(titles[i]).value, info, year, sim);
      var next := BestOf(best, scored);
      SearchFrom(titles, i, best, matches, fetch, info, year, sim)
        == if next.0 > 0.85 then Some(next.1)
           else SearchFrom(titles, i + 1, next, matches + Keep(scored), fetch, info, year, sim)
  {
  }

  lemma FoundInUpTo(titles: seq<string>, i: nat, fetch: string -> Option<seq<HiItem>>, info: AnimeInfo,
                    year: Option<string>, sim: (string, string) -> real, id: string)
    requires i <= |titles| && FoundIn(titles, i, fetch, info, year, sim, id)
    ensures FoundIn(titles, |titles|, fetch, info, year, sim, id)
  {
    var j :| 0 <= j < i && fetch(titles[j]).Some?
      && exists m :: m in Scored(titles[j], fetch(titles[j]).value, info, year, sim) && m.id == id;
  }

  /** After the last title, the rule chain picks an id found earlier. */
  lemma SelectFound(titles: seq<string>, best: (real, string), matches: seq<Match>,
                    fetch: string -> Option<seq<HiItem>>, info: AnimeInfo, year: Option<string>,
                    sim: (string, string) -> real)
    requires best.0 > 0.4 ==> FoundIn(titles, |titles|, fetch, info, year, sim, best.1)
    requires forall m :: m in matches ==> FoundIn(titles, |titles|, fetch, info, year, sim, m.id)
    requires Select(matches, best, info.episodes, year).Some?
    ensures FoundIn(titles, |titles|, fetch, info, year, sim, Select(matches, best, info.episodes, year).value)
  {
    SelectNone(matches, best, info.episodes, year);
    if matches != [] {
      SelectFromMatches(matches, best, info.episodes, year);
    }
  }

  /** Every scored result of the `i`-th page is found by the search up to it. */
  lemma ScoredFound(titles: seq<string>, i: nat, fetch: string -> Option<seq<HiItem>>, info: AnimeInfo,
                    year: Option<string>, sim: (string, string) -> real)
    requires i < |titles| && fetch(titles[i]).Some?
    ensures forall m :: m in Scored(titles[i], fetch(titles[i]).value, info, year, sim) ==>
      FoundIn(titles, i + 1, fetch, info, year, sim, m.id)
  {
    var scored := Scored(titles[i], fetch(titles[i]).value, info, year, sim);
    forall m | m in scored ensures FoundIn(titles, i + 1, fetch, info, year, sim, m.id) {
      assert fetch(titles[i]).Some? && m in Scored(titles[i], fetch(titles[i]).value, info, year, sim);
    }
  }

  /** A best match above 0.4 after the `i`-th page is found by the search up to it. */
  lemma BestFound(titles: seq<string>, i: nat, best: (real, string), scored: seq<Match>,
                  fetch: string -> Option<seq<HiItem>>, info: AnimeInfo, year: Option<string>,
                  sim: (string, string) -> real)
    requires i < |titles|
    requires best.0 > 0.4 ==> FoundIn(titles, i, fetch, info, year, sim, best.1)
    requires forall m :: m in scored ==> FoundIn(titles, i + 1, fetch, info, year, sim, m.id)
    requires BestOf(best, scored).0 > 0.4
    ensures FoundIn(titles, i + 1, fetch, info, year, sim, BestOf(best, scored).1)
  {
    var next := BestOf(best, scored);
    if next == best {
      FoundInMore(titles, i, fetch, info, year, sim, best.1);
    } else {
      var k :| 0 <= k < |scored| && next == (scored[k].score, scored[k].id);
      assert scored[k] in scored;
    }
  }

  /** The kept matches after the `i`-th page are found by the search up to it. */
  lemma KeptFound(titles: seq<string>, i: nat, matches: seq<Match>, scored: seq<Match>,
                  fetch: string -> Option<seq<HiItem>>, info: AnimeInfo, year: Option<string>,
                  sim: (string, string) -> real)
    requires i < |titles|
    requires forall m :: m in matches ==> FoundIn(titles, i, fetch, info, year, sim, m.id)
    requires forall m :: m in scored ==> FoundIn(titles, i + 1, fetch, info, year, sim, m.id)
    ensures forall m :: m in matches + Keep(scored) ==> FoundIn(titles, i + 1, fetch, info, year, sim, m.id)
  {
    forall m | m in matches + Keep(scored) ensures FoundIn(titles, i + 1, fetch, info, year, sim, m.id) {
      if m in matches {
        FoundInMore(titles, i, fetch, info, year, sim, m.id);
      }
    }
  }

  /** Every score on the page is at most 0.4. */
  predicate AllLow(ms: seq<Match>) {
    forall m :: m in ms ==> m.score <= 0.4
  }

  /** Once a candidate is above 0.4 or a match is kept, the search no longer gives null unless a request fails. */
  lemma {:induction false} SearchFromSome(titles: seq<string>, i: nat, best: (real, string), matches: seq<Match>,
                                          fetch: string -> Option<seq<HiItem>>, info: AnimeInfo, year: Option<string>,
                                          sim: (string, string) -> real)
    requires i <= |titles|
    requires forall j :: i <= j < |titles| ==> fetch(titles[j]).Some?
    requires best.0 > 0.4 || matches != []
    ensures SearchFrom(titles, i, best, matches, fetch, info, year, sim).Some?
    decreases |titles| - i
  {
    if i == |titles| {
      SelectNone(matches, best, info.episodes, year);
    } else {
      var scored := Scored(titles[i], fetch(titles[i]).value, info, year, sim);
      var next := BestOf(best, scored);
      if next.0 <= 0.85 {
        assert matches != [] ==> (matches + Keep(scored))[0] == matches[0];
        SearchFromSome(titles, i + 1, next, matches + Keep(scored), fetch, info, year, sim);
      }
    }
  }

  /** From a state with nothing above 0.4, the search gives null exactly when every later result scores at most 0.4. */
  lemma {:induction false} SearchFromNone(titles: seq<string>, i: nat, best: (real, string),
                                          fetch: string -> Option<seq<HiItem>>, info: AnimeInfo, year: Option<string>,
                                          sim: (string, string) -> real)
    requires i <= |titles|
    requires forall j :: i <= j < |titles| ==> fetch(titles[j]).Some?
    requires best.0 <= 0.4
    ensures SearchFrom(titles, i, best, [], fetch, info, year, sim).None? <==> PagesLow(titles, i, fetch, info, year, sim)
    decreases |titles| - i
  {
    if i == |titles| {
      SelectNone([], best, info.episodes, year);
    } else {
      var scored := Scored(titles[i], fetch(titles[i]).value, info, year, sim);
      var next := BestOf(best, scored);
      PageScores(best, scored);
      PagesLowStep(titles, i, fetch, info, year, sim);
      if AllLow(scored) {
        assert [] + Keep(scored) == [];
        SearchFromNone(titles, i + 1, next, fetch, info, year, sim);
      } else if next.0 <= 0.85 {
        SearchFromSome(titles, i + 1, next, [] + Keep(scored), fetch, info, year, sim);
      }
    }
  }

  /** Every result on the pages of the titles from the `i`-th on scores at most 0.4. */
  ghost predicate PagesLow(titles: seq<string>, i: nat, fetch: string -> Option<seq<HiItem>>, info: AnimeInfo,
                           year: Option<string>, sim: (string, string) -> real)
    requires i <= |titles|
    requires forall j :: i <= j < |titles| ==> fetch(titles[j]).Some?
  {
    forall j :: i <= j < |titles| ==> AllLow(Scored(titles[j], fetch(titles[j]).value, info, year, sim))
  }

  lemma PagesLowStep(titles: seq<string>, i: nat, fetch: string -> Option<seq<HiItem>>, info: AnimeInfo,
                     year: Option<string>, sim: (string, string) -> real)
    requires i < |titles|
    requires forall j :: i <= j < |titles| ==> fetch(titles[j]).Some?
    ensures PagesLow(titles, i, fetch, info, year, sim)
        <==> AllLow(Scored(titles[i], fetch(titles[i]).value, info, year, sim)) && PagesLow(titles, i + 1, fetch, info, year, sim)
  {
  }

  /** A page with every score at most 0.4 keeps nothing and leaves a low best score low; any other page lifts it above 0.4. */
  lemma PageScores(best: (real, string), scored: seq<Match>)
    ensures AllLow(scored) && best.0 <= 0.4 ==> BestOf(best, scored).0 <= 0.4 && Keep(scored) == []
    ensures !AllLow(scored) ==> BestOf(best, scored).0 > 0.4
  {
    var next := BestOf(best, scored);
    if AllLow(scored) {
      if next != best {
        var k :| 0 <= k < |scored| && next == (scored[k].score, scored[k].id);
        assert scored[k] in scored;
      }
      var kept := Keep(scored);
      if kept != [] {
        assert kept[0] in kept;
      }
    } else {
      var m :| m in scored && m.score > 0.4;
      var k :| 0 <= k < |scored| && scored[k] == m;
    }
  }

  /**
    When every request succeeds, `searchAnime` gives null exactly when no result of any page
    scores above 0.4; and any id it gives is that of a result on a page it fetched.
  */
  lemma SearchResult(title: string, info: AnimeInfo, fetch: string -> Option<seq<HiItem>>, sim: (string, string) -> real)
    ensures var titles := TitlesToTry(info);
      Search(title, info, fetch, sim).Some? ==> FoundIn(titles, |titles|, fetch, info, ParenYear(title), sim, Search(title, info, fetch, sim).value)
    ensures var titles := TitlesToTry(info);
      (forall j :: 0 <= j < |titles| ==> fetch(titles[j]).Some?) ==>
      (Search(title, info, fetch, sim).None? <==> PagesLow(titles, 0, fetch, info, ParenYear(title), sim))
  {
    var titles := TitlesToTry(info);
    if Search(title, info, fetch, sim).Some? {
      SearchFromFound(titles, 0, (0.0, []), [], fetch, info, ParenYear(title), sim);
    }
    if forall j :: 0 <= j < |titles| ==> fetch(titles[j]).Some? {
      SearchFromNone(titles, 0, (0.0, []), fetch, info, ParenYear(title), sim);
    }
  }

  /** `searchAnime` as the source runs it. */
  method SearchAnime(title: string, info: AnimeInfo, fetch: string -> Option<seq<HiItem>>, sim: (string, string) -> real)
    returns (r: Option<string>)
    ensures r == Search(title, info, fetch, sim)
  {
    var year := ParenYear(title);
    var titlesToTry := TitlesToTry(info);
    var bestMatch: (real, string) := (0.0, []);
    var seriesMatches: seq<Match> := [];
    for i := 0 to |titlesToTry|
      invariant SearchFrom(titlesToTry, i, bestMatch, seriesMatches, fetch, info, year, sim) == Search(title, info, fetch, sim)
    {
      var response := fetch(titlesToTry[i]);
      if response.None? {
        return None;
      }
      bestMatch, seriesMatches := ScorePage(titlesToTry[i], response.value, info, year, sim, bestMatch, seriesMatches);
      if bestMatch.0 > 0.85 {
        return Some(bestMatch.1);
      }
    }
    r := Select(seriesMatches, bestMatch, info.episodes, year);
  }

  /** The `.each` over the results of one search page. */
  method ScorePage(searchTitle: string, items: seq<HiItem>, info: AnimeInfo, year: Option<string>,
                   sim: (string, string) -> real, best0: (real, string), matches0: seq<Match>)
    returns (best: (real, string), matches: seq<Match>)
    ensures best == BestOf(best0, Scored(searchTitle, items, info, year, sim))
    ensures matches == matches0 + Keep(Scored(searchTitle, items, info, year, sim))
  {
    best := best0;
    matches := matches0;
    for k := 0 to |items|
      invariant best == BestOf(best0, Scored(searchTitle, items[..k], info, year, sim))
      invariant matches == matches0 + Keep(Scored(searchTitle, items[..k], info, year, sim))
    {
      best, matches := ScoreNext(searchTitle, items, k, info, year, sim, best0, matches0, best, matches);
    }
    assert items[..|items|] == items;
  }

  /** One turn of the `.each` over a page: the `k`-th result is folded in. */
  method ScoreNext(searchTitle: string, items: seq<HiItem>, k: nat, info: AnimeInfo, year: Option<string>,
                   sim: (string, string) -> real, best0: (real, string), matches0: seq<Match>,
                   best: (real, string), matches: seq<Match>)
    returns (best': (real, string), matches': seq<Match>)
    requires k < |items|
    requires best == BestOf(best0, Scored(searchTitle, items[..k], info, year, sim))
    requires matches == matches0 + Keep(Scored(searchTitle, items[..k], info, year, sim))
    ensures best' == BestOf(best0, Scored(searchTitle, items[..k + 1], info, year, sim))
    ensures matches' == matches0 + Keep(Scored(searchTitle, items[..k + 1], info, year, sim))
  {
    ghost var scored := Scored(searchTitle, items[..k], info, year, sim);
    ghost var one := Scored(searchTitle, [items[k]], info, year, sim);
    best', matches' := TakeResult(searchTitle, items[k], info, year, sim, best, matches);
    assert best' == BestOf(best0, Scored(searchTitle, items[..k + 1], info, year, sim)) by {
      ScoredStep(searchTitle, items, k, info, year, sim);
      BestOfConcat(best0, scored, one);
    }
    assert matches' == matches0 + Keep(Scored(searchTitle, items[..k + 1], info, year, sim)) by {
      ScoredStep(searchTitle, items, k, info, year, sim);
      KeepConcat(scored, one);
      AppendAssoc(matches0, Keep(scored), Keep(one));
    }
  }

  /** The `.each` callback: one search result folded into the best match and the kept matches. */
  method TakeResult(searchTitle: string, item: HiItem, info: AnimeInfo, year: Option<string>,
                    sim: (string, string) -> real, best0: (real, string), matches0: seq<Match>)
    returns (best: (real, string), matches: seq<Match>)
    ensures best == BestOf(best0, Scored(searchTitle, [item], info, year, sim))
    ensures matches == matches0 + Keep(Scored(searchTitle, [item], info, year, sim))
  {
    best := best0;
    matches := matches0;
    ghost var one := Scored(searchTitle, [item], info, year, sim);
    var hianimeId := ItemId(item.href);
    if hianimeId != [] {
      var m := ScoreItem(searchTitle, item, info, year, sim);
      if m.score > 0.5 {
        matches := matches + [m];
      }
      if m.score > best.0 {
        best := (m.score, m.id);
      }
      assert one == [m] by {
        ScoredOne(searchTitle, item, info, year, sim);
      }
      SingleMatch(best0, matches0, m);
    } else {
      assert best == BestOf(best0, one) && matches == matches0 + Keep(one) by {
        ScoredOne(searchTitle, item, info, year, sim);
        assert matches0 + [] == matches0;
      }
    }
  }

  /** Folding in one match. */
  lemma SingleMatch(best: (real, string), matches: seq<Match>, m: Match)
    ensures BestOf(best, [m]) == if m.score > best.0 then (m.score, m.id) else best
    ensures matches + Keep([m]) == if m.score > 0.5 then matches + [m] else matches
  {
    assert [m][..0] == [];
    assert matches + [] == matches;
  }

  lemma ScoredOne(searchTitle: string, item: HiItem, info: AnimeInfo, year: Option<string>, sim: (string, string) -> real)
    ensures Scored(searchTitle, [item], info, year, sim)
         == if ItemId(item.href) != [] then [MatchOf(searchTitle, item, info, year, sim)] else []
  {
    assert [item][..0] == [];
  }

  /** A page is scored result by result. */
  lemma ScoredStep(searchTitle: string, items: seq<HiItem>, k: nat, info: AnimeInfo, year: Option<string>, sim: (string, string) -> real)
    requires k < |items|
    ensures Scored(searchTitle, items[..k + 1], info, year, sim)
         == Scored(searchTitle, items[..k], info, year, sim) + Scored(searchTitle, [items[k]], info, year, sim)
  {
    var prefix := items[..k + 1];
    assert prefix[..k] == items[..k] && prefix[k] == items[k];
    ScoredOne(searchTitle, items[k], info, year, sim);
  }

  lemma AppendAssoc(a: seq<Match>, b: seq<Match>, c: seq<Match>)
    ensures (a + b) + c == a + (b + c)
  {
  }

  /** Folding the best match over two lists one after the other. */
  lemma {:induction false} BestOfConcat(best: (real, string), xs: seq<Match>, ys: seq<Match>)
    ensures BestOf(best, xs + ys) == BestOf(BestOf(best, xs), ys)
    decreases |ys|
  {
    if ys == [] {
      assert xs + ys == xs;
    } else {
      var front := ys[..|ys| - 1];
      assert (xs + ys)[..|xs + ys| - 1] == xs + front;
      BestOfConcat(best, xs, front);
    }
  }

  /** Keeping distributes over concatenation. */
  lemma {:induction false} KeepConcat(xs: seq<Match>, ys: seq<Match>)
    ensures Keep(xs + ys) == Keep(xs) + Keep(ys)
    decreases |ys|
  {
    if ys == [] {
      assert xs + ys == xs;
    } else {
      var front := ys[..|ys| - 1];
      assert (xs + ys)[..|xs + ys| - 1] == xs + front;
      KeepConcat(xs, front);
    }
  }

  /** The body of the `.each` callback for a result with an id: the title score and its adjustments. */
  method ScoreItem(searchTitle: string, item: HiItem, info: AnimeInfo, year: Option<string>, sim: (string, string) -> real)
    returns (m: Match)
    ensures m == MatchOf(searchTitle, item, info, year, sim)
  {
    var score := CalculateTitleScore(searchTitle, item.title, sim);
    ghost var base := score;
    if item.kind == "TV" && info.episodes > 12 {
      score := score + 0.1;
    }
    if info.episodes != 0 && item.episodes == info.episodes {
      score := score + 0.2;
    }
    if year.Some? {
      if item.jname != [] && Includes(item.jname, year.value) {
        score := score + 0.3;
      }
    }
    var isMovie := item.kind == "Movie";
    if isMovie && info.episodes > 1 {
      score := score - 0.3;
    }
    assert score == Adjusted(base, item, info.episodes, year);
    m := Match(item.title, ItemId(item.href), score, isMovie, item.kind == "TV", item.episodes, item.jname);
  }

  // ------------------------------------------------------------------
  // getEpisodeIds
  // ------------------------------------------------------------------

  /** One anchor of the episode list: its `href` and `title` attributes; a missing title is the empty string. */
  datatype Anchor = Anchor(href: Option<string>, title: string)

  /** An ani.zip episode record; a missing string is the empty string and a missing runtime is 0. */
  datatype AniZipEpisode = AniZipEpisode(titleEn: string, image: string, overview: string, airDate: string, runtime: int)

  /** An episode of the HiAnime list; `None` is null. */
  datatype HiEpisode = HiEpisode(
    episodeId: string, title: string, number: nat,
    image: Option<string>, overview: Option<string>, airDate: Option<string>, runtime: Option<int>)

  datatype EpisodeList = EpisodeList(totalEpisodes: nat, episodes: seq<HiEpisode>)

  /** `value || null` for a string. */
  function NullIfEmpty(s: string): (r: Option<string>)
    ensures r.None? <==> s == []
    ensures r.Some? ==> r.value == s
  {
    if s == [] then None else Some(s)
  }

  /** `href.split('/').pop()` */
  function FullPath(href: string): string {
    var segments := SplitOn(href, "/");
    segments[|segments| - 1]
  }

  /** `fullPath.split('?ep=')[1]` in a template string: "undefined" when there is no `?ep=`. */
  function EpParam(fullPath: string): string {
    var parts := SplitOn(fullPath, "?ep=");
    if |parts| > 1 then parts[1] else "undefined"
  }

  /** An anchor that gives an episode: it has a non-empty `href` whose last path segment is not empty. */
  predicate Usable(a: Anchor) {
    a.href.Some? && a.href.value != [] && FullPath(a.href.value) != []
  }

  /** The episode of a usable anchor with 1-based position `number`, enriched from ani.zip when it has that number. */
  function EpisodeOf(animeId: string, a: Anchor, number: nat, anizip: map<nat, AniZipEpisode>): (e: HiEpisode)
    requires Usable(a)
    ensures e.number == number
    ensures e.episodeId == animeId + "?ep=" + EpParam(FullPath(a.href.value))
    ensures number in anizip ==> e.title == Or(anizip[number].titleEn, a.title)
    ensures number !in anizip ==> e.title == a.title && e.image.None? && e.overview.None? && e.airDate.None? && e.runtime.None?
  {
    var id := animeId + "?ep=" + EpParam(FullPath(a.href.value));
    if number in anizip then
      var z := anizip[number];
      HiEpisode(id, Or(z.titleEn, a.title), number, NullIfEmpty(z.image), NullIfEmpty(z.overview),
                NullIfEmpty(z.airDate), if z.runtime == 0 then None else Some(z.runtime))
    else
      HiEpisode(id, a.title, number, None, None, None, None)
  }

  /** The episodes of the anchors, in order; the anchor at index `i` has number `i + 1`, unusable anchors are skipped. */
  function EpisodesOf(animeId: string, anchors: seq<Anchor>, anizip: map<nat, AniZipEpisode>): seq<HiEpisode> {
    if anchors == [] then []
    else
      var a := anchors[|anchors| - 1];
      EpisodesOf(animeId, anchors[..|anchors| - 1], anizip)
        + (if Usable(a) then [EpisodeOf(animeId, a, |anchors|, anizip)] else [])
  }

  /**
    `getEpisodeIds` once both requests are answered: `anchors` is None when the episode list has no
    HTML, and a failed request is None in either argument. Both give an empty list.
  */
  function EpisodeIds(animeId: string, anchors: Option<seq<Anchor>>, anizip: Option<map<nat, AniZipEpisode>>): EpisodeList {
    if anchors.None? || anizip.None? then EpisodeList(0, [])
    else
      var episodes := EpisodesOf(animeId, anchors.value, anizip.value);
      EpisodeList(|episodes|, episodes)
  }

  /** `getEpisodeIds` as the source runs it, with the `.each` over the anchors as a loop. */
  method GetEpisodeIds(animeId: string, anchors: Option<seq<Anchor>>, anizip: Option<map<nat, AniZipEpisode>>)
    returns (r: EpisodeList)
    ensures r == EpisodeIds(animeId, anchors, anizip)
  {
    if anchors.None? || anizip.None? {
      return EpisodeList(0, []);
    }
    var list := anchors.value;
    var episodes: seq<HiEpisode> := [];
    for i := 0 to |list|
      invariant episodes == EpisodesOf(animeId, list[..i], anizip.value)
    {
      assert list[..i + 1][..i] == list[..i];
      var a := list[i];
      if a.href.None? || a.href.value == [] {
        continue;
      }
      var fullPath := FullPath(a.href.value);
      var episodeNumber := i + 1;
      if fullPath != [] {
        episodes := episodes + [EpisodeOf(animeId, a, episodeNumber, anizip.value)];
      }
    }
    assert list[..|list|] == list;
    r := EpisodeList(|episodes|, episodes);
  }

  /** Every episode comes from a usable anchor, carries its 1-based position and is the episode of that anchor. */
  lemma {:induction false} EpisodesOfSource(animeId: string, anchors: seq<Anchor>, anizip: map<nat, AniZipEpisode>)
    ensures var eps := EpisodesOf(animeId, anchors, anizip);
      |eps| <= |anchors|
      && forall i :: 0 <= i < |eps| ==>
           (1 <= eps[i].number <= |anchors| && Usable(anchors[eps[i].number - 1])
            && eps[i] == EpisodeOf(animeId, anchors[eps[i].number - 1], eps[i].number, anizip))
  {
    if anchors != [] {
      var front := anchors[..|anchors| - 1];
      EpisodesOfSource(animeId, front, anizip);
      var prev := EpisodesOf(animeId, front, anizip);
      var eps := EpisodesOf(animeId, anchors, anizip);
      forall i | 0 <= i < |prev|
        ensures eps[i] == prev[i] && anchors[prev[i].number - 1] == front[prev[i].number - 1]
      {
      }
    }
  }

  /** The episode numbers ascend strictly. */
  lemma {:induction false} EpisodesOfAscending(animeId: string, anchors: seq<Anchor>, anizip: map<nat, AniZipEpisode>)
    ensures var eps := EpisodesOf(animeId, anchors, anizip);
      forall i, j :: 0 <= i < j < |eps| ==> eps[i].number < eps[j].number
  {
    if anchors != [] {
      var front := anchors[..|anchors| - 1];
      EpisodesOfAscending(animeId, front, anizip);
      EpisodesOfSource(animeId, front, anizip);
      var prev := EpisodesOf(animeId, front, anizip);
      var eps := EpisodesOf(animeId, anchors, anizip);
      assert forall i :: 0 <= i < |prev| ==> eps[i] == prev[i];
      if |eps| > |prev| {
        assert eps[|prev|].number == |anchors|;
      }
    }
  }

  /** Every usable anchor gives an episode, numbered by its position. */
  lemma {:induction false} EpisodesOfComplete(animeId: string, anchors: seq<Anchor>, anizip: map<nat, AniZipEpisode>, k: nat)
    requires k < |anchors| && Usable(anchors[k])
    ensures exists i :: 0 <= i < |EpisodesOf(animeId, anchors, anizip)| && EpisodesOf(animeId, anchors, anizip)[i].number == k + 1
  {
    var front := anchors[..|anchors| - 1];
    var prev := EpisodesOf(animeId, front, anizip);
    var eps := EpisodesOf(animeId, anchors, anizip);
    if k < |front| {
      assert front[k] == anchors[k];
      EpisodesOfComplete(animeId, front, anizip, k);
      var i :| 0 <= i < |prev| && prev[i].number == k + 1;
      assert eps == prev + (if Usable(anchors[|anchors| - 1]) then [EpisodeOf(animeId, anchors[|anchors| - 1], |anchors|, anizip)] else []);
      assert eps[i] == prev[i];
      assert 0 <= i < |eps| && eps[i].number == k + 1;
    } else {
      assert eps == prev + [EpisodeOf(animeId, anchors[k], |anchors|, anizip)];
      assert 0 <= |prev| < |eps| && eps[|prev|].number == k + 1;
    }
  }

  /** The list `getEpisodeIds` returns counts its episodes, and is empty without HTML or ani.zip data. */
  lemma EpisodeIdsTotal(animeId: string, anchors: Option<seq<Anchor>>, anizip: Option<map<nat, AniZipEpisode>>)
    ensures EpisodeIds(animeId, anchors, anizip).totalEpisodes == |EpisodeIds(animeId, anchors, anizip).episodes|
    ensures anchors.None? || anizip.None? ==> EpisodeIds(animeId, anchors, anizip).episodes == []
    ensures anchors.Some? && anizip.Some? && (exists k :: 0 <= k < |anchors.value| && Usable(anchors.value[k]))
      ==> EpisodeIds(animeId, anchors, anizip).totalEpisodes > 0
  {
    if anchors.Some? && anizip.Some? && exists k :: 0 <= k < |anchors.value| && Usable(anchors.value[k]) {
      var k :| 0 <= k < |anchors.value| && Usable(anchors.value[k]);
      EpisodesOfComplete(animeId, anchors.value, anizip.value, k);
    }
  }

  // ------------------------------------------------------------------
  // getEpisodesForAnime
  // ------------------------------------------------------------------

  datatype AnimeEpisodes = AnimeEpisodes(anilistId: nat, hianimeId: string, title: string, totalEpisodes: nat, episodes: seq<HiEpisode>)

  /**
    `getEpisodesForAnime`: AniList info, the search title (English, else romaji), the search,
    then the episode list; each step that comes back empty is the error it throws.
  */
  function EpisodesForAnime(anilistId: nat, media: Option<AniListMedia>, fetch: string -> Option<seq<HiItem>>,
                            sim: (string, string) -> real, episodePage: string -> Option<seq<Anchor>>,
                            anizip: Option<map<nat, AniZipEpisode>>): Result<AnimeEpisodes, string>
  {
    var info := GetAnimeInfo(media);
    if info.None? then Failure("Could not fetch anime info from Anilist")
    else
      var title := Or(info.value.title.english, info.value.title.romaji);
      if title == [] then Failure("No English or romaji title found")
      else
        var hianimeId := Search(title, info.value, fetch, sim);
        if hianimeId.None? || hianimeId.value == [] then Failure("Could not find anime on Hianime")
        else
          var list := EpisodeIds(hianimeId.value, episodePage(hianimeId.value), anizip);
          if list.totalEpisodes == 0 then Failure("Could not fetch episodes")
          else Success(AnimeEpisodes(anilistId, hianimeId.value, title, list.totalEpisodes, list.episodes))
  }

  /**
    A successful answer has a non-empty title that is the English title or, without one, the
    romaji title; the id of a result on a fetched search page; and a non-empty episode list
    whose count is its length.
  */
  lemma EpisodesForAnimeSuccess(anilistId: nat, media: Option<AniListMedia>, fetch: string -> Option<seq<HiItem>>,
                                sim: (string, string) -> real, episodePage: string -> Option<seq<Anchor>>,
                                anizip: Option<map<nat, AniZipEpisode>>)
    requires EpisodesForAnime(anilistId, media, fetch, sim, episodePage, anizip).Success?
    ensures var r := EpisodesForAnime(anilistId, media, fetch, sim, episodePage, anizip).value;
      media.Some? && r.anilistId == anilistId && r.title != []
      && r.title == (if media.value.title.english != [] then media.value.title.english else media.value.title.romaji)
      && r.totalEpisodes == |r.episodes| > 0
      && r.hianimeId != []
      && var info := GetAnimeInfo(media).value;
         FoundIn(TitlesToTry(info), |TitlesToTry(info)|, fetch, info, ParenYear(r.title), sim, r.hianimeId)
  {
    var info := GetAnimeInfo(media).value;
    var title := Or(info.title.english, info.title.romaji);
    SearchResult(title, info, fetch, sim);
    var hianimeId := Search(title, info, fetch, sim).value;
    EpisodeIdsTotal(hianimeId, episodePage(hianimeId), anizip);
  }
}
