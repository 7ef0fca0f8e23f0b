/**
  Title normalisation. Every matcher in the system compares titles after the same
  transformation: lower-case, drop every character that is neither a word character nor
  white space, collapse each run of white space into one space, and trim.
*/
module Titles {
  import opened Strings

  /** A character that can survive normalisation. */
  predicate NormalChar(c: char) {
    IsLowerLetter(c) || IsDigit(c) || c == '_' || c == ' '
  }

  predicate NoDoubleSpace(s: string) {
    forall i :: 0 <= i < |s| - 1 ==> !(s[i] == ' ' && s[i + 1] == ' ')
  }

  /** The shape of every normalised title. */
  predicate IsNormal(s: string) {
    (forall i :: 0 <= i < |s| ==> NormalChar(s[i]))
    && NoDoubleSpace(s)
    && (s == [] || (s[0] != ' ' && s[|s| - 1] != ' '))
  }

  /** `.replace(/[^\w\s]/g, '')` */
  function StripNonWord(s: string): (r: string)
    ensures forall i :: 0 <= i < |r| ==> IsWordChar(r[i]) || IsSpace(r[i])
  {
    if s == [] then []
    else (if IsWordChar(s[0]) || IsSpace(s[0]) then [s[0]] else []) + StripNonWord(s[1..])
  }

  /** Lower-casing and stripping in one pass: what is kept is a lower-case word character or white space. */
  function StripLower(s: string): (r: string)
    ensures forall i :: 0 <= i < |r| ==> NormalChar(r[i]) || IsSpace(r[i])
  {
    if s == [] then []
    else (if IsWordChar(s[0]) || IsSpace(s[0]) then [LowerChar(s[0])] else []) + StripLower(s[1..])
  }

  /** The single pass is `.toLowerCase().replace(/[^\w\s]/g, '')`. */
  lemma {:induction false} StripLowerChain(s: string)
    ensures StripLower(s) == StripNonWord(Lower(s))
  {
    if s != [] {
      StripLowerChain(s[1..]);
      assert Lower(s)[1..] == Lower(s[1..]);
      assert Lower(s)[0] == LowerChar(s[0]);
    }
  }

  /** `.replace(/\s+/g, ' ')`; `inRun` says whether the character before `s` was white space. */
  function CollapseSpaces(s: string, inRun: bool): (r: string)
    ensures inRun ==> r == [] || r[0] != ' '
    ensures NoDoubleSpace(r)
    ensures forall i :: 0 <= i < |r| ==> r[i] == ' ' || !IsSpace(r[i])
    ensures (forall i :: 0 <= i < |s| ==> NormalChar(s[i]) || IsSpace(s[i])) ==>
      forall i :: 0 <= i < |r| ==> NormalChar(r[i])
  {
    if s == [] then []
    else if IsSpace(s[0]) then
      (if inRun then [] else [' ']) + CollapseSpaces(s[1..], true)
    else
      assert forall i :: 0 <= i < |s| - 1 ==> s[1..][i] == s[i + 1];
      [s[0]] + CollapseSpaces(s[1..], false)
  }

  /**
    `t.toLowerCase().replace(/[^\w\s]/g, '').replace(/\s+/g, ' ').trim()`: the result holds
    only lower-case ASCII letters, digits, `_` and single inner spaces.
  */
  function Normalize(s: string): (r: string)
    ensures IsNormal(r)
  {
    var collapsed := CollapseSpaces(StripLower(s), false);
    TrimKeepsShape(collapsed);
    Trim(collapsed)
  }

  /** Normalisation is the chain of JavaScript string operations it stands for. */
  lemma NormalizeChain(s: string)
    ensures Normalize(s) == Trim(CollapseSpaces(StripNonWord(Lower(s)), false))
  {
    StripLowerChain(s);
  }

  lemma TrimKeepsShape(c: string)
    requires forall i :: 0 <= i < |c| ==> NormalChar(c[i])
    requires NoDoubleSpace(c)
    ensures IsNormal(Trim(c))
  {
    var r := Trim(c);
    var a :| MatchAt(c, r, a);
    assert r == c[a..][..|r|];
    forall i | 0 <= i < |r| ensures NormalChar(r[i]) {
      assert r[i] == c[a + i];
    }
    forall i | 0 <= i < |r| - 1 ensures !(r[i] == ' ' && r[i + 1] == ' ') {
      assert r[i] == c[a + i] && r[i + 1] == c[a + i + 1];
    }
  }

  lemma {:induction false} StripIdentity(s: string)
    requires forall i :: 0 <= i < |s| ==> IsWordChar(s[i]) || IsSpace(s[i])
    ensures StripNonWord(s) == s
  {
    if s != [] {
      StripIdentity(s[1..]);
      assert s == [s[0]] + s[1..];
    }
  }

  lemma {:induction false} CollapseIdentity(s: string, inRun: bool)
    requires NoDoubleSpace(s)
    requires forall i :: 0 <= i < |s| ==> IsSpace(s[i]) ==> s[i] == ' '
    requires inRun ==> s == [] || s[0] != ' '
    ensures CollapseSpaces(s, inRun) == s
  {
    if s != [] {
      CollapseIdentity(s[1..], s[0] == ' ');
      assert s == [s[0]] + s[1..];
    }
  }

  /** A normalised title is left unchanged by normalisation. */
  lemma NormalFixed(s: string)
    requires IsNormal(s)
    ensures Normalize(s) == s
  {
    NormalizeChain(s);
    LowerIdentity(s);
    StripIdentity(s);
    CollapseIdentity(s, false);
    TrimIdentity(s);
  }

  /** Normalisation is idempotent. */
  lemma NormalizeIdempotent(s: string)
    ensures Normalize(Normalize(s)) == Normalize(s)
  {
    NormalFixed(Normalize(s));
  }

  /** No element occurs twice. */
  predicate Distinct<T(==)>(s: seq<T>) {
    forall i, j :: 0 <= i < j < |s| ==> s[i] != s[j]
  }

  /** `.filter(Boolean)` on strings: drop the empty ones. */
  function NonEmpty(parts: seq<string>): (r: seq<string>)
    ensures |r| <= |parts|
    ensures forall w :: w in r <==> w in parts && w != []
  {
    if parts == [] then []
    else (if parts[0] == [] then [] else [parts[0]]) + NonEmpty(parts[1..])
  }

  /** `norm.split(' ').filter(Boolean)` */
  function Words(s: string): seq<string> {
    NonEmpty(SplitOn(s, " "))
  }

  /** A non-empty normalised title has at least one word. */
  lemma NormalHasWords(s: string)
    requires IsNormal(s) && s != []
    ensures |Words(s)| >= 1
  {
    assert s[0] != ' ';
    assert !IsPrefix(" ", s);
    var parts := SplitOn(s, " ");
    assert parts[0] != [] && parts[0] in parts;
  }

  /** `ws.filter(w => others.includes(w))`: the words of `ws`, repeats included, found in `others`. */
  function CommonWords(ws: seq<string>, others: seq<string>): (r: seq<string>)
    ensures |r| <= |ws|
    ensures forall w :: w in r ==> w in ws && w in others
    ensures (forall w :: w in ws ==> w !in others) ==> r == []
  {
    if ws == [] then []
    else (if ws[0] in others then [ws[0]] else []) + CommonWords(ws[1..], others)
  }

  /** A ratio of two counts, the smaller over the larger, lies in [0, 1]. */
  lemma RatioInUnit(a: nat, b: nat)
    requires 0 < b && a <= b
    ensures 0.0 <= a as real / b as real <= 1.0
  {
    var q := a as real / b as real;
    assert q * (b as real) == a as real;
  }
}
