/**
 * Character classes and the few Python string operations the parser is
 * built from: the regex classes `\s`, `\d` and `\w`, `str.lower`,
 * `str.title`, `str.isupper`, `str.strip`, the `in` test on strings and
 * `str.join`.
 *
 * Cased letters are the ASCII letters together with 'â' and 'Â'. The
 * character 'â' is the only cased character outside A-Z that a country
 * heading may contain, so with this choice title-casing is exact on every
 * country heading.
 */
module Chars {

  /** Python's `\s` in Unicode mode, which is also what `str.isspace()` accepts. */
  predicate IsSpace(c: char) {
    || c == ' '
    || '\t' <= c <= '\r'
    || '\U{1C}' <= c <= '\U{1F}'
    || c == '\U{85}' || c == '\U{A0}' || c == '\U{1680}'
    || '\U{2000}' <= c <= '\U{200A}'
    || c == '\U{2028}' || c == '\U{2029}' || c == '\U{202F}'
    || c == '\U{205F}' || c == '\U{3000}'
  }

  predicate IsDigit(c: char) { '0' <= c <= '9' }

  predicate IsAsciiUpper(c: char) { 'A' <= c <= 'Z' }

  predicate IsAsciiLower(c: char) { 'a' <= c <= 'z' }

  /** The regex class `[A-Za-z]`. */
  predicate IsAsciiLetter(c: char) { IsAsciiUpper(c) || IsAsciiLower(c) }

  predicate IsUpperCased(c: char) { IsAsciiUpper(c) || c == 'Â' }

  predicate IsLowerCased(c: char) { IsAsciiLower(c) || c == 'â' }

  predicate IsCased(c: char) { IsUpperCased(c) || IsLowerCased(c) }

  /** The regex class `\w`: letters, digits and the underscore. */
  predicate IsWordChar(c: char) { IsCased(c) || IsDigit(c) || c == '_' }

  function LowerChar(c: char): (d: char)
    ensures IsCased(d) <==> IsCased(c)
    ensures IsCased(c) ==> IsLowerCased(d)
    ensures !IsCased(c) ==> d == c
    ensures IsLowerCased(c) ==> d == c
  {
    if IsAsciiUpper(c) then (c as int + 32) as char
    else if c == 'Â' then 'â'
    else c
  }

  function UpperChar(c: char): (d: char)
    ensures IsCased(d) <==> IsCased(c)
    ensures IsCased(c) ==> IsUpperCased(d)
    ensures !IsCased(c) ==> d == c
    ensures LowerChar(d) == LowerChar(c)
  {
    if IsAsciiLower(c) then (c as int - 32) as char
    else if c == 'â' then 'Â'
    else c
  }

  /** `str.lower()`. */
  function Lower(s: string): (r: string)
    ensures |r| == |s|
    ensures forall i :: 0 <= i < |s| ==> r[i] == LowerChar(s[i])
  {
    if s == [] then [] else [LowerChar(s[0])] + Lower(s[1..])
  }

  /** Title case decision for position `i` of `s`, where `afterCased` says whether the character before `s` is cased. */
  function TitleCharAt(s: string, i: nat, afterCased: bool): char
    requires i < |s|
  {
    if !IsCased(s[i]) then s[i]
    else if (if i == 0 then afterCased else IsCased(s[i - 1])) then LowerChar(s[i])
    else UpperChar(s[i])
  }

  /**
   * `str.title()`: a cased character becomes upper case when the character
   * before it is not cased and lower case when it is; every other
   * character is kept.
   */
  function Title(s: string): (r: string)
    ensures |r| == |s|
    ensures forall i :: 0 <= i < |s| ==>
      r[i] == (if !IsCased(s[i]) then s[i]
               else if i > 0 && IsCased(s[i - 1]) then LowerChar(s[i])
               else UpperChar(s[i]))
    ensures Lower(r) == Lower(s)
  {
    var r := TitleAfter(s, false);
    TitleAfterAt(s, false);
    assert forall i | 0 <= i < |s| :: r[i] == TitleCharAt(s, i, false);
    assert forall i | 0 <= i < |s| :: Lower(r)[i] == Lower(s)[i];
    r
  }

  function TitleAfter(s: string, afterCased: bool): (r: string)
    ensures |r| == |s|
  {
    if s == [] then []
    else
      var rest := TitleAfter(s[1..], IsCased(s[0]));
      [TitleCharAt(s, 0, afterCased)] + rest
  }

  lemma {:induction false} TitleAfterAt(s: string, afterCased: bool)
    ensures forall i :: 0 <= i < |s| ==> TitleAfter(s, afterCased)[i] == TitleCharAt(s, i, afterCased)
    decreases |s|
  {
    if s != [] {
      TitleAfterAt(s[1..], IsCased(s[0]));
      forall i | 1 <= i < |s|
        ensures TitleAfter(s, afterCased)[i] == TitleCharAt(s, i, afterCased)
      {
        assert TitleAfter(s, afterCased)[i] == TitleAfter(s[1..], IsCased(s[0]))[i - 1];
        assert s[1..][i - 1] == s[i];
        if i >= 2 {
          assert s[1..][i - 2] == s[i - 1];
        }
      }
    }
  }

  /**
   * `str.isupper()`: there is at least one cased character and every cased
   * character is upper case.
   */
  predicate IsUpperText(s: string) {
    && (exists i :: 0 <= i < |s| && IsCased(s[i]))
    && (forall i :: 0 <= i < |s| && IsCased(s[i]) ==> IsUpperCased(s[i]))
  }

  /** `w in s` for strings: `w` occurs in `s` as a contiguous piece. */
  predicate Contains(s: string, w: string)
    decreases |s|
  {
    w <= s || (|s| > 0 && Contains(s[1..], w))
  }

  /** `w` occurs in `s` starting at position `i`. */
  predicate OccursAt(s: string, w: string, i: int) {
    0 <= i <= |s| - |w| && s[i..i + |w|] == w
  }

  lemma {:induction false} ContainsAt(s: string, w: string)
    ensures Contains(s, w) <==> exists i :: OccursAt(s, w, i)
    decreases |s|
  {
    if w <= s {
      assert OccursAt(s, w, 0);
    } else if |s| > 0 {
      ContainsAt(s[1..], w);
      if Contains(s[1..], w) {
        var i :| OccursAt(s[1..], w, i);
        assert OccursAt(s, w, i + 1);
      }
      if i :| OccursAt(s, w, i) {
        assert i != 0;
        assert OccursAt(s[1..], w, i - 1);
      }
    }
  }

  /**
   * The first position at or after `i` where `keep` fails: the end of the
   * run of `keep` characters that starts at `i`.
   */
  function SkipWhile(s: string, i: nat, keep: char -> bool): (j: nat)
    requires i <= |s|
    ensures i <= j <= |s|
    ensures forall k :: i <= k < j ==> keep(s[k])
    ensures j == |s| || !keep(s[j])
    decreases |s| - i
  {
    if i == |s| || !keep(s[i]) then i else SkipWhile(s, i + 1, keep)
  }

  /** Two run ends are equal when the run characterisation fixes them. */
  lemma SkipWhileUnique(s: string, i: nat, j: nat, keep: char -> bool)
    requires i <= j <= |s|
    requires forall k :: i <= k < j ==> keep(s[k])
    requires j == |s| || !keep(s[j])
    ensures SkipWhile(s, i, keep) == j
  {
  }

  /**
   * `str.strip(chars)`: removes the leading and the trailing characters
   * that `drop` accepts.
   */
  function Strip(s: string, drop: char -> bool): (r: string)
    ensures |r| <= |s|
    ensures r == [] || (!drop(r[0]) && !drop(r[|r| - 1]))
    ensures StrippedAt(s, r, SkipWhile(s, 0, drop), drop)
  {
    var a := SkipWhile(s, 0, drop);
    var b := TrimEnd(s, a, |s|, drop);
    assert StrippedAt(s, s[a..b], a, drop);
    s[a..b]
  }

  /** `r` is the piece of `s` at `a` and every character of `s` outside it is a `drop` character. */
  predicate StrippedAt(s: string, r: string, a: int, drop: char -> bool) {
    && 0 <= a <= |s| - |r|
    && r == s[a..a + |r|]
    && (forall k :: 0 <= k < a ==> drop(s[k]))
    && (forall k :: a + |r| <= k < |s| ==> drop(s[k]))
  }

  /** The end of `s[a..b]` once its trailing `drop` characters are removed. */
  function TrimEnd(s: string, a: nat, b: nat, drop: char -> bool): (e: nat)
    requires a <= b <= |s|
    ensures a <= e <= b
    ensures forall k :: e <= k < b ==> drop(s[k])
    ensures e == a || !drop(s[e - 1])
    decreases b - a
  {
    if b == a || !drop(s[b - 1]) then b else TrimEnd(s, a, b - 1, drop)
  }

  /** Stripping a string that neither starts nor ends with a `drop` character changes nothing. */
  lemma StripStripped(s: string, drop: char -> bool)
    requires s == [] || (!drop(s[0]) && !drop(s[|s| - 1]))
    ensures Strip(s, drop) == s
  {
  }

  lemma StripIdempotent(s: string, drop: char -> bool)
    ensures Strip(Strip(s, drop), drop) == Strip(s, drop)
  {
    StripStripped(Strip(s, drop), drop);
  }

  /** The summed lengths of the strings of `xs`. */
  function TotalLength(xs: seq<string>): nat {
    if xs == [] then 0 else |xs[0]| + TotalLength(xs[1..])
  }

  /**
   * `sep.join(xs)`: every item once, with one separator between two
   * neighbours, so `|xs| - 1` separators in all, and the first item first.
   */
  function Join(sep: string, xs: seq<string>): (r: string)
    ensures |xs| > 0 ==> |r| == TotalLength(xs) + (|xs| - 1) * |sep|
    ensures |xs| > 0 ==> r[..|xs[0]|] == xs[0]
  {
    if xs == [] then "" else if |xs| == 1 then xs[0] else xs[0] + sep + Join(sep, xs[1..])
  }
}
