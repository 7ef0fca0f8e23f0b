/**
  The JavaScript string primitives the core relies on: the `\s`, `\w` and `\d` character
  classes, `toLowerCase` (on ASCII letters), `trim`, `indexOf` / `includes`, `split` with a
  string separator, `Number.prototype.toString` on non-negative integers and `Number(...)` on
  a digit string.
*/
module Strings {
  import opened Wrappers

  // ------------------------------------------------------------------
  // Character classes
  // ------------------------------------------------------------------

  /** `\s` of a JavaScript regular expression; `String.prototype.trim` strips the same set. */
  predicate IsSpace(c: char) {
    var n := c as int;
    n == 0x20 || (0x09 <= n <= 0x0D) || n == 0xA0 || n == 0x1680
    || (0x2000 <= n <= 0x200A) || n == 0x2028 || n == 0x2029 || n == 0x202F
    || n == 0x205F || n == 0x3000 || n == 0xFEFF
  }

  /** `\d` (ASCII digits only, as in a regular expression without the `u` flag). */
  predicate IsDigit(c: char) { '0' <= c <= '9' }

  predicate IsUpper(c: char) { 'A' <= c <= 'Z' }

  predicate IsLowerLetter(c: char) { 'a' <= c <= 'z' }

  /** `[a-zA-Z0-9]` */
  predicate IsAlnum(c: char) { IsDigit(c) || IsUpper(c) || IsLowerLetter(c) }

  /** `\w` */
  predicate IsWordChar(c: char) { IsAlnum(c) || c == '_' }

  predicate AllDigits(s: string) { forall i :: 0 <= i < |s| ==> IsDigit(s[i]) }

  predicate AllAlnum(s: string) { forall i :: 0 <= i < |s| ==> IsAlnum(s[i]) }

  // ------------------------------------------------------------------
  // toLowerCase
  // ------------------------------------------------------------------

  function LowerChar(c: char): (d: char)
    ensures !IsUpper(d)
    ensures !IsUpper(c) ==> d == c
    ensures IsWordChar(d) <==> IsWordChar(c)
    ensures IsSpace(d) <==> IsSpace(c)
  {
    if IsUpper(c) then (c as int - 'A' as int + 'a' as int) as char else c
  }

  /** `s.toLowerCase()`, mapping the ASCII letters only. */
  function Lower(s: string): string {
    seq(|s|, i requires 0 <= i < |s| => LowerChar(s[i]))
  }

  lemma LowerIdentity(s: string)
    requires forall i :: 0 <= i < |s| ==> !IsUpper(s[i])
    ensures Lower(s) == s
  {
  }

  // ------------------------------------------------------------------
  // trim
  // ------------------------------------------------------------------

  /** The first index at or after `i` whose character is not white space, or `|s|`. */
  function SkipSpaces(s: string, i: nat): (k: nat)
    requires i <= |s|
    ensures i <= k <= |s|
    ensures k < |s| ==> !IsSpace(s[k])
    decreases |s| - i
  {
    if i < |s| && IsSpace(s[i]) then SkipSpaces(s, i + 1) else i
  }

  /** One past the last index below `j` and at or after `lo` whose character is not white space, or `lo`. */
  function SkipSpacesBack(s: string, lo: nat, j: nat): (k: nat)
    requires lo <= j <= |s|
    ensures lo <= k <= j
    ensures k > lo ==> !IsSpace(s[k - 1])
    decreases j
  {
    if j > lo && IsSpace(s[j - 1]) then SkipSpacesBack(s, lo, j - 1) else j
  }

  /** `s.trim()`: the slice of `s` between its leading and its trailing white space. */
  function Trim(s: string): (r: string)
    ensures r == [] || (!IsSpace(r[0]) && !IsSpace(r[|r| - 1]))
    ensures exists a :: MatchAt(s, r, a)
  {
    var lo := SkipSpaces(s, 0);
    var hi := SkipSpacesBack(s, lo, |s|);
    assert MatchAt(s, s[lo..hi], lo);
    s[lo..hi]
  }

  /** Everything `Trim` removes is white space: a string with a character that is not becomes non-empty. */
  lemma TrimKeepsNonSpace(s: string, i: nat)
    requires i < |s| && !IsSpace(s[i])
    ensures Trim(s) != []
  {
    SkipSpacesReaches(s, 0, i);
  }

  lemma {:induction false} SkipSpacesReaches(s: string, j: nat, i: nat)
    requires j <= i < |s| && !IsSpace(s[i])
    ensures SkipSpaces(s, j) <= i
    ensures SkipSpacesBack(s, SkipSpaces(s, j), |s|) > SkipSpaces(s, j)
    decreases i - j
  {
    if IsSpace(s[j]) {
      SkipSpacesReaches(s, j + 1, i);
    } else {
      SkipSpacesBackReaches(s, j, |s|, i);
    }
  }

  lemma {:induction false} SkipSpacesBackReaches(s: string, lo: nat, j: nat, i: nat)
    requires lo <= i < j <= |s| && !IsSpace(s[i])
    ensures SkipSpacesBack(s, lo, j) > i
    decreases j
  {
    if IsSpace(s[j - 1]) {
      SkipSpacesBackReaches(s, lo, j - 1, i);
    }
  }

  /** Trimming a lowered string leaves it lowered. */
  lemma TrimLower(s: string)
    ensures Lower(Trim(Lower(s))) == Trim(Lower(s))
  {
    var t := Lower(s);
    var lo := SkipSpaces(t, 0);
    var hi := SkipSpacesBack(t, lo, |t|);
    assert Trim(t) == t[lo..hi];
    LowerIdentity(t[lo..hi]);
  }

  lemma TrimIdentity(s: string)
    requires s == [] || (!IsSpace(s[0]) && !IsSpace(s[|s| - 1]))
    ensures Trim(s) == s
  {
  }

  // ------------------------------------------------------------------
  // indexOf and includes
  // ------------------------------------------------------------------

  predicate IsPrefix(p: string, s: string) {
    |p| <= |s| && s[..|p|] == p
  }

  /** `sub` occurs in `s` at position `i`. */
  predicate MatchAt(s: string, sub: string, i: int) {
    0 <= i <= |s| && IsPrefix(sub, s[i..])
  }

  /** A match of `sub` at `i` ends inside `s`. */
  lemma MatchAtLength(s: string, sub: string, i: int)
    ensures MatchAt(s, sub, i) ==> 0 <= i && i + |sub| <= |s|
  {
  }

  lemma MatchAtShift(s: string, sub: string, j: int)
    requires s != [] && 0 <= j
    ensures MatchAt(s[1..], sub, j) <==> MatchAt(s, sub, j + 1)
  {
    if j <= |s| - 1 {
      assert s[1..][j..] == s[j + 1..];
    }
  }

  /** `s.indexOf(sub)`: the first position where `sub` occurs, or -1. */
  function IndexOf(s: string, sub: string): (r: int)
    ensures -1 <= r <= |s|
    ensures r >= 0 ==> MatchAt(s, sub, r)
    ensures forall j :: 0 <= j && (r < 0 || j < r) ==> !MatchAt(s, sub, j)
    decreases |s|
  {
    assert s[0..] == s;
    if IsPrefix(sub, s) then 0
    else if s == [] then -1
    else
      var k := IndexOf(s[1..], sub);
      assert forall j :: 0 <= j ==> (MatchAt(s[1..], sub, j) <==> MatchAt(s, sub, j + 1)) by {
        forall j | 0 <= j ensures MatchAt(s[1..], sub, j) <==> MatchAt(s, sub, j + 1) {
          MatchAtShift(s, sub, j);
        }
      }
      assert forall j :: 1 <= j ==> (MatchAt(s[1..], sub, j - 1) <==> MatchAt(s, sub, j));
      if k < 0 then -1 else k + 1
  }

  /** `a || b` on strings: the empty string is falsy. */
  function Or(a: string, b: string): string { if a != [] then a else b }

  /** `s.includes(sub)` */
  predicate Includes(s: string, sub: string) {
    IndexOf(s, sub) >= 0
  }

  lemma IncludesIff(s: string, sub: string)
    ensures Includes(s, sub) <==> exists i :: MatchAt(s, sub, i)
  {
  }

  /** Every string includes the empty string. */
  lemma IncludesEmpty(s: string)
    ensures Includes(s, [])
  {
    assert MatchAt(s, [], 0);
  }

  lemma IncludesSelf(s: string)
    ensures Includes(s, s)
  {
    assert MatchAt(s, s, 0);
  }

  /** An included string is no longer than the string, and of equal length only when equal. */
  lemma IncludesLength(s: string, sub: string)
    requires Includes(s, sub)
    ensures |sub| <= |s|
    ensures |sub| == |s| ==> sub == s
  {
    var i := IndexOf(s, sub);
    assert MatchAt(s, sub, i);
  }

  // ------------------------------------------------------------------
  // split and join
  // ------------------------------------------------------------------

  /** `s.split(sep)` for a non-empty separator: occurrences are consumed left to right. */
  function SplitOn(s: string, sep: string): (parts: seq<string>)
    requires sep != []
    ensures |parts| >= 1
    decreases |s|
  {
    if IsPrefix(sep, s) then [[]] + SplitOn(s[|sep|..], sep)
    else if s == [] then [[]]
    else
      var rest := SplitOn(s[1..], sep);
      [[s[0]] + rest[0]] + rest[1..]
  }

  /** `parts.join(sep)` */
  function JoinWith(parts: seq<string>, sep: string): string
    requires |parts| >= 1
  {
    if |parts| == 1 then parts[0] else parts[0] + sep + JoinWith(parts[1..], sep)
  }

  /** Splitting and joining back with the same separator gives the original string. */
  lemma {:induction false} JoinSplit(s: string, sep: string)
    requires sep != []
    ensures JoinWith(SplitOn(s, sep), sep) == s
    decreases |s|
  {
    if IsPrefix(sep, s) {
      JoinSplit(s[|sep|..], sep);
      SplitPrefix(s, sep);
      JoinEmptyHead(SplitOn(s, sep), sep);
      assert s == sep + s[|sep|..];
    } else if s != [] {
      var rest := SplitOn(s[1..], sep);
      JoinSplit(s[1..], sep);
      assert SplitOn(s, sep) == [[s[0]] + rest[0]] + rest[1..];
      JoinCons(s[0], rest, sep);
      assert s == [s[0]] + s[1..];
    }
  }

  /** Joining after an empty first piece starts with the separator. */
  lemma JoinEmptyHead(parts: seq<string>, sep: string)
    requires |parts| >= 2 && parts[0] == []
    ensures JoinWith(parts, sep) == sep + JoinWith(parts[1..], sep)
  {
    assert [] + sep == sep;
  }

  /** A character put in front of the first piece comes out in front of the join. */
  lemma JoinCons(c: char, parts: seq<string>, sep: string)
    requires |parts| >= 1
    ensures JoinWith([[c] + parts[0]] + parts[1..], sep) == [c] + JoinWith(parts, sep)
  {
    var joined := [[c] + parts[0]] + parts[1..];
    if |parts| > 1 {
      assert joined[1..] == parts[1..];
      assert ([c] + parts[0]) + sep + JoinWith(parts[1..], sep) == [c] + (parts[0] + sep + JoinWith(parts[1..], sep));
    }
  }

  /**
    The first piece of a split is the text before the first occurrence of the separator,
    and the remaining pieces are the split of what follows that occurrence.
  */
  lemma SplitAtFirst(s: string, sep: string)
    requires sep != [] && Includes(s, sep)
    ensures var i := IndexOf(s, sep);
      SplitOn(s, sep)[0] == s[..i] && SplitOn(s, sep)[1..] == SplitOn(s[i + |sep|..], sep)
  {
    SplitAt(s, sep, IndexOf(s, sep));
  }

  /** Cutting at the first match `i`: the text before it, then the split of what follows it. */
  lemma {:induction false} SplitAt(s: string, sep: string, i: int)
    requires sep != [] && MatchAt(s, sep, i)
    requires forall j :: 0 <= j < i ==> !MatchAt(s, sep, j)
    ensures SplitOn(s, sep)[0] == s[..i] && SplitOn(s, sep)[1..] == SplitOn(s[i + |sep|..], sep)
    decreases i
  {
    assert s[0..] == s;
    if i == 0 {
      SplitPrefix(s, sep);
    } else {
      assert !IsPrefix(sep, s) by { assert !MatchAt(s, sep, 0); }
      MatchAtShift(s, sep, i - 1);
      forall j | 0 <= j < i - 1 ensures !MatchAt(s[1..], sep, j) {
        MatchAtShift(s, sep, j);
      }
      SplitAt(s[1..], sep, i - 1);
      SplitCons(s, sep, i);
    }
  }

  /** A split that starts with the separator starts with an empty piece. */
  lemma SplitPrefix(s: string, sep: string)
    requires sep != [] && IsPrefix(sep, s)
    ensures SplitOn(s, sep)[0] == [] && SplitOn(s, sep)[1..] == SplitOn(s[|sep|..], sep)
  {
    var rest := SplitOn(s[|sep|..], sep);
    assert SplitOn(s, sep) == [[]] + rest;
    assert ([[]] + rest)[1..] == rest;
  }

  /** Without the separator in front, the first character joins the tail's first piece. */
  lemma SplitCons(s: string, sep: string, i: int)
    requires sep != [] && s != [] && !IsPrefix(sep, s) && 1 <= i && i + |sep| <= |s|
    requires SplitOn(s[1..], sep)[0] == s[1..][..i - 1]
    requires SplitOn(s[1..], sep)[1..] == SplitOn(s[1..][i - 1 + |sep|..], sep)
    ensures SplitOn(s, sep)[0] == s[..i] && SplitOn(s, sep)[1..] == SplitOn(s[i + |sep|..], sep)
  {
    var rest := SplitOn(s[1..], sep);
    var whole := SplitOn(s, sep);
    SplitOnStep(s, sep);
    assert whole[0] == [s[0]] + rest[0];
    assert whole[1..] == rest[1..];
    assert s[1..][i - 1 + |sep|..] == s[i + |sep|..];
    assert s[..i] == [s[0]] + s[1..][..i - 1];
  }

  /** Away from the separator, the first character joins the first piece of the tail's split. */
  lemma SplitOnStep(s: string, sep: string)
    requires sep != [] && s != [] && !IsPrefix(sep, s)
    ensures SplitOn(s, sep) == [[s[0]] + SplitOn(s[1..], sep)[0]] + SplitOn(s[1..], sep)[1..]
  {
  }

  /** Without an occurrence of the separator, the split is the string alone. */
  lemma {:induction false} SplitNoOccurrence(s: string, sep: string)
    requires sep != [] && !Includes(s, sep)
    ensures SplitOn(s, sep) == [s]
    decreases |s|
  {
    assert s[0..] == s;
    if s != [] {
      assert !MatchAt(s, sep, 0);
      assert !IsPrefix(sep, s);
      var k := IndexOf(s[1..], sep);
      if k >= 0 {
        MatchAtShift(s, sep, k);
        assert false;
      }
      SplitNoOccurrence(s[1..], sep);
      assert s == [s[0]] + s[1..];
    }
  }

  /** A single-character string is included exactly when the character occurs. */
  lemma IncludesChar(s: string, c: char)
    ensures Includes(s, [c]) <==> c in s
  {
    if c in s {
      var i :| 0 <= i < |s| && s[i] == c;
      assert s[i..][..1] == [c];
      assert MatchAt(s, [c], i);
    }
    if Includes(s, [c]) {
      var i := IndexOf(s, [c]);
      assert s[i..][..1] == [c];
      assert s[i] == c;
    }
  }

  /** Splitting on a character cuts at its first occurrence. */
  lemma {:induction false} SplitAfterChar(a: string, d: char, b: string)
    requires d !in a
    ensures SplitOn(a + [d] + b, [d]) == [a] + SplitOn(b, [d])
    decreases |a|
  {
    var s := a + [d] + b;
    if a == [] {
      assert IsPrefix([d], s);
      assert s[1..] == b;
    } else {
      assert s[0] == a[0] && a[0] != d;
      assert !IsPrefix([d], s);
      assert s[1..] == a[1..] + [d] + b;
      SplitAfterChar(a[1..], d, b);
      assert a == [a[0]] + a[1..];
    }
  }

  /** Splitting on a character that does not occur after its last occurrence ends with the text after it. */
  lemma {:induction false} SplitLastAfter(a: string, d: char, b: string)
    requires d !in b
    ensures var parts := SplitOn(a + [d] + b, [d]);
      |parts| >= 2 && parts[|parts| - 1] == b
    decreases |a|
  {
    var s := a + [d] + b;
    if IsPrefix([d], s) {
      if a == [] {
        assert s[1..] == b;
        IncludesChar(b, d);
        SplitNoOccurrence(b, [d]);
      } else {
        assert s[1..] == a[1..] + [d] + b;
        SplitLastAfter(a[1..], d, b);
      }
    } else {
      assert s[1..] == a[1..] + [d] + b;
      SplitLastAfter(a[1..], d, b);
    }
  }

  // ------------------------------------------------------------------
  // Decimal numbers
  // ------------------------------------------------------------------

  function DigitChar(d: nat): (c: char)
    requires d < 10
    ensures IsDigit(c)
  {
    ('0' as int + d) as char
  }

  function DigitValue(c: char): nat
    requires IsDigit(c)
  {
    c as int - '0' as int
  }

  /** `String(n)` for a non-negative integer. */
  function DecimalString(n: nat): (s: string)
    ensures s != [] && AllDigits(s)
  {
    if n < 10 then [DigitChar(n)] else DecimalString(n / 10) + [DigitChar(n % 10)]
  }

  /** The value of a string of decimal digits. */
  function DigitsValue(s: string): nat
    requires AllDigits(s)
  {
    if s == [] then 0 else DigitsValue(s[..|s| - 1]) * 10 + DigitValue(s[|s| - 1])
  }

  /** Reading back the decimal form of a number gives the number. */
  lemma {:induction false} DigitsOfDecimal(n: nat)
    ensures DigitsValue(DecimalString(n)) == n
  {
    if n >= 10 {
      var s := DecimalString(n);
      assert s[..|s| - 1] == DecimalString(n / 10);
      DigitsOfDecimal(n / 10);
    }
  }

  /**
    `Number(s)` for the inputs this core meets: after trimming, the empty string is 0 and a
    run of decimal digits is its value; anything else is NaN, written None.
  */
  function JsNumber(s: string): (r: Option<int>)
    ensures r.Some? ==> r.value >= 0
    ensures Trim(s) == [] ==> r == Some(0)
  {
    var t := Trim(s);
    if t == [] then Some(0)
    else if AllDigits(t) then Some(DigitsValue(t))
    else None
  }
}
