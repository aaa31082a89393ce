/**
 * The identification number and year of a site: `RE_ID_YEAR` searched in
 * the look-ahead text, and `parse_year` applied to its `year` group.
 *
 * `RE_ID_YEAR` is
 * `(?P<id>\d+)\s+(?P<year>(?:rev\s*)?(?:\d{4}(?:-\d{4})*(?:\s*\(Note.*?\))?))`
 * under `re.I`. None of its greedy parts can give characters back to a
 * later part (digits and whitespace never overlap, and the trailing note
 * is optional), so a match at a position is found by reading each part as
 * far as it goes, as `MatchAt` does.
 */
module IdYear {
  import opened Chars
  import opened Wrappers

  /** `\d{4}` at position `k`. */
  predicate FourDigitsAt(s: string, k: nat) {
    k + 4 <= |s| && forall d :: k <= d < k + 4 ==> IsDigit(s[d])
  }

  /** The lower-case word `w` at position `k`, matched under `re.I`. */
  predicate LowerWordAt(s: string, k: nat, w: string) {
    k + |w| <= |s| && forall d :: 0 <= d < |w| ==> LowerChar(s[k + d]) == w[d]
  }

  /** `rev` under `re.I` at position `k`. */
  predicate RevAt(s: string, k: nat) {
    LowerWordAt(s, k, "rev")
  }

  /** `(?:-\d{4})*` from `e`: every further `-` and four digits. */
  function RangesEnd(s: string, e: nat): (f: nat)
    requires 0 < e <= |s| && IsDigit(s[e - 1])
    ensures e <= f <= |s| && IsDigit(s[f - 1])
    ensures f == |s| || s[f] != '-' || !FourDigitsAt(s, f + 1)
    ensures forall k :: e <= k < f ==> IsDigit(s[k]) || s[k] == '-'
    decreases |s| - e
  {
    if e < |s| && s[e] == '-' && FourDigitsAt(s, e + 1) then RangesEnd(s, e + 5) else e
  }

  /** `.` stops at a line feed; the lazy `.*?` stops at the first `)`. */
  predicate InNote(c: char) { c != ')' && c != '\n' }

  /**
   * `(?:\s*\(Note.*?\))?` from `e`: the end of the note when one follows,
   * and `e` itself otherwise. The note is there when, after optional
   * whitespace, `(note` in any case is closed by a `)` on the same line.
   */
  function NoteEnd(s: string, e: nat): (f: nat)
    requires e <= |s|
    ensures e <= f <= |s|
    ensures f > e ==> s[f - 1] == ')'
  {
    var q := SkipWhile(s, e, IsSpace);
    if q < |s| && s[q] == '(' && LowerWordAt(s, q + 1, "note") then
      var c := SkipWhile(s, q + 5, InNote);
      if c < |s| && s[c] == ')' then c + 1 else e
    else e
  }

  /**
   * The `year` group read from position `q`: an optional `rev` and
   * whitespace, four digits, further ranges and an optional note. The end
   * of the group, or None when no four digits follow.
   */
  function YearEnd(s: string, q: nat): (e: Option<nat>)
    requires q <= |s|
    ensures e.Some? ==> q < e.value <= |s| && YearShape(s[q..e.value])
  {
    var r := if RevAt(s, q) then SkipWhile(s, q + 3, IsSpace) else q;
    if !FourDigitsAt(s, r) then None
    else
      var e0 := RangesEnd(s, r + 4);
      var e := NoteEnd(s, e0);
      assert r == q || (RevAt(s, q) && q + 3 <= r);
      assert r + 4 <= e0 <= e <= |s|;
      assert IsDigit(s[e0 - 1]);
      assert e == e0 || s[e - 1] == ')';
      GroupShape(s, q, r, e0, e);
      Some(e)
  }

  /**
   * `RE_ID_YEAR` tried at position `p`: where its `year` group starts and
   * where the match ends.
   */
  function MatchAt(s: string, p: nat): (m: Option<(nat, nat)>)
    requires p <= |s|
    ensures m.Some? ==> p < m.value.0 < m.value.1 <= |s|
    ensures m.Some? ==> IsDigit(s[p]) && IsSpace(s[m.value.0 - 1])
    ensures m.Some? ==> forall k :: p <= k < m.value.0 ==> IsDigit(s[k]) || IsSpace(s[k])
    ensures m.Some? ==> YearShape(s[m.value.0..m.value.1])
  {
    var k := SkipWhile(s, p, IsDigit);
    if k == p then None
    else
      var q := SkipWhile(s, k, IsSpace);
      if q == k then None
      else match YearEnd(s, q)
        case None => None
        case Some(e) => Some((q, e))
  }

  lemma GroupShape(s: string, q: nat, r: nat, e0: nat, e: nat)
    requires q <= r && r + 4 <= e0 <= e <= |s| && FourDigitsAt(s, r)
    requires r == q || (RevAt(s, q) && q + 3 <= r)
    requires IsDigit(s[e0 - 1]) && (e == e0 || s[e - 1] == ')')
    ensures YearShape(s[q..e])
  {
    var g := s[q..e];
    assert g[|g| - 1] == s[e - 1];
    if r == q {
      assert forall d :: 0 <= d < 4 ==> g[d] == s[q + d];
    } else {
      assert g[..3] == s[q..q + 3];
    }
  }

  /**
   * What the `year` group looks like: it opens with `rev` or with four
   * digits and closes with a digit or the `)` of a note, so it has no
   * surrounding whitespace.
   */
  predicate YearShape(g: string) {
    && |g| >= 4
    && (RevStart(g) || FourDigitsAt(g, 0))
    && (IsDigit(g[|g| - 1]) || g[|g| - 1] == ')')
  }

  predicate RevStart(g: string) {
    RevAt(g, 0)
  }

  /** `.strip()` leaves the `year` group as it is. */
  lemma YearGroupStripped(g: string)
    requires YearShape(g)
    ensures Strip(g, IsSpace) == g
  {
    if RevStart(g) {
      assert LowerChar(g[0]) == "rev"[0];
    }
    StripStripped(g, IsSpace);
  }

  /** `RE_ID_YEAR` matches at `p` and at no earlier position. */
  predicate FirstMatch(s: string, p: nat) {
    && p <= |s| && MatchAt(s, p).Some?
    && forall p' :: 0 <= p' < p ==> MatchAt(s, p').None?
  }

  /** The `year` group of the match at `p`. */
  function GroupAt(s: string, p: nat): string
    requires p <= |s| && MatchAt(s, p).Some?
  {
    s[MatchAt(s, p).value.0..MatchAt(s, p).value.1]
  }

  /** `RE_ID_YEAR` matches at `p'` and nowhere in `[p, p')`. */
  predicate FirstFrom(s: string, p: nat, p': nat) {
    && p <= p' <= |s| && MatchAt(s, p').Some?
    && forall p'' :: p <= p'' < p' ==> MatchAt(s, p'').None?
  }

  /** `RE_ID_YEAR.search(s)` from position `p`, reporting the `year` group. */
  function SearchFrom(s: string, p: nat): (r: Option<string>)
    requires p <= |s|
    ensures r.None? ==> forall p' :: p <= p' <= |s| ==> MatchAt(s, p').None?
    ensures r.Some? ==> exists p' :: FirstFrom(s, p, p') && r.value == GroupAt(s, p')
    decreases |s| - p
  {
    if MatchAt(s, p).Some? then
      assert FirstFrom(s, p, p);
      Some(GroupAt(s, p))
    else if p == |s| then None
    else
      var r := SearchFrom(s, p + 1);
      FirstFromEarlier(s, p, r);
      r
  }

  lemma FirstFromEarlier(s: string, p: nat, r: Option<string>)
    requires p < |s| && MatchAt(s, p).None?
    requires r.Some? ==> exists p' :: FirstFrom(s, p + 1, p') && r.value == GroupAt(s, p')
    requires r.None? ==> forall p' :: p + 1 <= p' <= |s| ==> MatchAt(s, p').None?
    ensures r.Some? ==> exists p' :: FirstFrom(s, p, p') && r.value == GroupAt(s, p')
    ensures r.None? ==> forall p' :: p <= p' <= |s| ==> MatchAt(s, p').None?
  {
    if r.Some? {
      var p' :| FirstFrom(s, p + 1, p') && r.value == GroupAt(s, p');
      assert FirstFrom(s, p, p');
    }
  }

  /** `RE_ID_YEAR.search(s).group("year")`, None when there is no match. */
  function FindIdYear(s: string): (r: Option<string>)
    ensures r.None? <==> forall p :: 0 <= p <= |s| ==> MatchAt(s, p).None?
    ensures r.Some? ==> exists p :: FirstMatch(s, p) && r.value == GroupAt(s, p)
    ensures r.Some? ==> YearShape(r.value)
  {
    var r := SearchFrom(s, 0);
    assert r.Some? ==> exists p :: FirstMatch(s, p) && r.value == GroupAt(s, p) by {
      if r.Some? {
        var p :| FirstFrom(s, 0, p) && r.value == GroupAt(s, p);
        assert FirstMatch(s, p);
      }
    }
    r
  }

  // ----- parse_year -----

  /** A four-digit year of the 1900s or 2000s. */
  predicate IsYear(t: string) {
    && |t| == 4
    && (forall d :: 0 <= d < 4 ==> IsDigit(t[d]))
    && ((t[0] == '1' && t[1] == '9') || (t[0] == '2' && t[1] == '0'))
  }

  /** `\b((?:19|20)\d{2})\b` matches at `k`. */
  predicate YearTokenAt(s: string, k: nat) {
    && k + 4 <= |s|
    && IsYear(s[k..k + 4])
    && (k == 0 || !IsWordChar(s[k - 1]))
    && (k + 4 == |s| || !IsWordChar(s[k + 4]))
  }

  /** `re.findall` of the year pattern from `k`: every match, left to right, each search resuming after the last. */
  function YearTokens(s: string, k: nat): (ts: seq<string>)
    requires k <= |s|
    ensures forall i :: 0 <= i < |ts| ==> IsYear(ts[i])
    decreases |s| - k
  {
    if k == |s| then []
    else if YearTokenAt(s, k) then [s[k..k + 4]] + YearTokens(s, k + 4)
    else YearTokens(s, k + 1)
  }

  /** Two matches of the year pattern never overlap: a match ends a run of word characters. */
  lemma TokensApart(s: string, k: nat, k': nat)
    requires YearTokenAt(s, k) && k < k' < k + 4
    ensures !YearTokenAt(s, k')
  {
    assert IsDigit(s[k..k + 4][k' - 1 - k]);
  }

  /** `findall` reports exactly the strings at the positions where the year pattern matches. */
  lemma {:induction false} YearTokensComplete(s: string, k: nat, t: string)
    requires k <= |s|
    ensures t in YearTokens(s, k) <==> exists i :: k <= i && YearTokenAt(s, i) && s[i..i + 4] == t
    decreases |s| - k, 1
  {
    if k < |s| {
      if YearTokenAt(s, k) {
        TokenTaken(s, k, t);
      } else {
        TokenSkipped(s, k, t);
      }
    }
  }

  /** A position where the pattern does not match adds nothing and moves the search on by one. */
  lemma {:induction false} TokenSkipped(s: string, k: nat, t: string)
    requires k < |s| && !YearTokenAt(s, k)
    ensures t in YearTokens(s, k) <==> exists i :: k <= i && YearTokenAt(s, i) && s[i..i + 4] == t
    decreases |s| - k, 0
  {
    assert YearTokens(s, k) == YearTokens(s, k + 1);
    YearTokensComplete(s, k + 1, t);
    if i :| k <= i && YearTokenAt(s, i) && s[i..i + 4] == t {
      assert k + 1 <= i;
    }
  }

  /** A match at `k` is reported and the search resumes after it; no match starts inside it. */
  lemma {:induction false} TokenTaken(s: string, k: nat, t: string)
    requires YearTokenAt(s, k)
    ensures t in YearTokens(s, k) <==> exists i :: k <= i && YearTokenAt(s, i) && s[i..i + 4] == t
    decreases |s| - k, 0
  {
    assert YearTokens(s, k) == [s[k..k + 4]] + YearTokens(s, k + 4);
    YearTokensComplete(s, k + 4, t);
    if i :| k <= i && YearTokenAt(s, i) && s[i..i + 4] == t {
      if k < i < k + 4 {
        TokensApart(s, k, i);
      }
    }
  }

  /** Python's `a < b` on strings: code point by code point, a proper prefix first. */
  predicate StrLess(a: string, b: string) {
    if a == [] then b != []
    else b != [] && (a[0] < b[0] || (a[0] == b[0] && StrLess(a[1..], b[1..])))
  }

  lemma {:induction false} StrLessTrans(a: string, b: string, c: string)
    requires StrLess(a, b) && StrLess(b, c)
    ensures StrLess(a, c)
  {
    if a != [] && a[0] == b[0] && b[0] == c[0] {
      StrLessTrans(a[1..], b[1..], c[1..]);
    }
  }

  /**
   * Python's `min`: the running minimum starts at the first item and is
   * replaced by each later item that is smaller.
   */
  function MinFrom(cur: string, rest: seq<string>): (m: string)
    ensures m == cur || m in rest
    ensures !StrLess(cur, m)
    ensures forall i :: 0 <= i < |rest| ==> !StrLess(rest[i], m)
    decreases |rest|
  {
    if rest == [] then StrLessIrreflexive(cur); cur
    else
      var m := MinFrom(if StrLess(rest[0], cur) then rest[0] else cur, rest[1..]);
      LessThanMin(cur, rest, m);
      m
  }

  lemma LessThanMin(cur: string, rest: seq<string>, m: string)
    requires rest != []
    requires var c := if StrLess(rest[0], cur) then rest[0] else cur;
      !StrLess(c, m) && forall i :: 0 <= i < |rest[1..]| ==> !StrLess(rest[1..][i], m)
    ensures !StrLess(cur, m)
    ensures forall i :: 0 <= i < |rest| ==> !StrLess(rest[i], m)
  {
    if StrLess(cur, m) && StrLess(rest[0], cur) {
      StrLessTrans(rest[0], cur, m);
    }
    if StrLess(rest[0], m) && !StrLess(rest[0], cur) {
      StrLessTotal(rest[0], cur);
      if StrLess(cur, rest[0]) {
        StrLessTrans(cur, rest[0], m);
      }
    }
    forall i | 1 <= i < |rest|
      ensures !StrLess(rest[i], m)
    {
      assert rest[i] == rest[1..][i - 1];
    }
  }

  lemma {:induction false} StrLessIrreflexive(a: string)
    ensures !StrLess(a, a)
  {
    if a != [] {
      StrLessIrreflexive(a[1..]);
    }
  }

  /** Of two strings, one is smaller or they are equal. */
  lemma {:induction false} StrLessTotal(a: string, b: string)
    ensures StrLess(a, b) || StrLess(b, a) || a == b
  {
    if a != [] && b != [] && a[0] == b[0] {
      StrLessTotal(a[1..], b[1..]);
      if a[1..] == b[1..] {
        assert a == [a[0]] + a[1..];
        assert b == [b[0]] + b[1..];
      }
    }
  }

  /**
   * `parse_year`: the smallest of the years found, or the empty string when
   * there is none.
   */
  function ParseYear(raw: string): (r: string)
    ensures r == "" <==> YearTokens(raw, 0) == []
    ensures r != "" ==> IsYear(r) && r in YearTokens(raw, 0)
    ensures forall i :: 0 <= i < |YearTokens(raw, 0)| ==> !StrLess(YearTokens(raw, 0)[i], r)
  {
    var ts := YearTokens(raw, 0);
    if ts == [] then "" else MinFrom(ts[0], ts[1..])
  }

  // ----- The smallest string is the earliest year -----

  function DigitValue(c: char): (d: nat)
    requires IsDigit(c)
    ensures d <= 9
  {
    c as int - '0' as int
  }

  function Pow10(n: nat): (p: nat)
    ensures p >= 1
  {
    if n == 0 then 1 else 10 * Pow10(n - 1)
  }

  predicate AllDigits(t: string) {
    forall d :: 0 <= d < |t| ==> IsDigit(t[d])
  }

  /** The number a string of decimal digits denotes. */
  function Value(t: string): (v: nat)
    requires AllDigits(t)
    ensures v < Pow10(|t|)
  {
    if t == [] then 0
    else
      var rest := Value(t[1..]);
      var d := DigitValue(t[0]);
      var p := Pow10(|t| - 1);
      DigitBound(d, p, rest);
      d * p + rest
  }

  lemma DigitBound(d: nat, p: nat, rest: nat)
    requires d <= 9 && rest < p
    ensures d * p + rest < 10 * p
  {
  }

  lemma DigitOrder(a: nat, b: nat, p: nat, ra: nat, rb: nat)
    requires a < b <= 9 && ra < p
    ensures a * p + ra < b * p + rb
  {
    assert (a + 1) * p <= b * p;
  }

  /** On digit strings of one length, Python's string order is the order of the numbers. */
  lemma {:induction false} StrLessIsNumeric(a: string, b: string)
    requires |a| == |b| && AllDigits(a) && AllDigits(b)
    ensures StrLess(a, b) <==> Value(a) < Value(b)
  {
    if a != [] {
      var p := Pow10(|a| - 1);
      StrLessIsNumeric(a[1..], b[1..]);
      if a[0] < b[0] {
        DigitOrder(DigitValue(a[0]), DigitValue(b[0]), p, Value(a[1..]), Value(b[1..]));
      } else if b[0] < a[0] {
        DigitOrder(DigitValue(b[0]), DigitValue(a[0]), p, Value(b[1..]), Value(a[1..]));
      }
    }
  }

  /** `parse_year` returns the earliest year named in its argument, as its docstring says. */
  lemma EarliestYear(raw: string)
    requires ParseYear(raw) != ""
    ensures forall t :: t in YearTokens(raw, 0) ==> Value(ParseYear(raw)) <= Value(t)
  {
    var r := ParseYear(raw);
    var ts := YearTokens(raw, 0);
    forall t | t in ts
      ensures Value(r) <= Value(t)
    {
      var i :| 0 <= i < |ts| && ts[i] == t;
      StrLessIsNumeric(t, r);
    }
  }
}
