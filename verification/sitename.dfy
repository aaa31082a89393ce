/**
 * The site name of a row: the candidate line with its standalone numbers
 * removed (`re.sub(r"\b\d{4}\b", "", name)`, then `re.sub(r"\b\d+\b", "",
 * ...)`), stripped of `" ,;.-"`, and the two tests a name must pass.
 */
module SiteName {
  import opened Chars

  /**
   * One `re.sub` pass removing standalone digit runs, read from the front of
   * `s`; `afterWord` says whether the character before `s` in the whole
   * string is a word character. A match needs `\b` on both sides of the
   * digits: a run is removed when it starts after a non-word character (or
   * at the start) and ends before one (or at the end). With `onlyFour` the
   * run must also be exactly four digits long (`\d{4}`). A run that starts
   * after a word character has no `\b` anywhere inside it, and `\d+` cannot
   * stop early before another digit, so such runs are always kept whole.
   */
  function DropNumbers(s: string, afterWord: bool, onlyFour: bool): (r: string)
    ensures |r| <= |s|
    ensures NonDigits(r) == NonDigits(s)
    decreases |s|
  {
    if s == [] then []
    else if IsDigit(s[0]) && !afterWord then
      var m := SkipWhile(s, 0, IsDigit);
      DigitsVanish(s, m);
      if (m == |s| || !IsWordChar(s[m])) && (!onlyFour || m == 4) then DropNumbers(s[m..], true, onlyFour)
      else
        DigitsVanish(s[..m], m);
        NonDigitsAppend(s[..m], DropNumbers(s[m..], true, onlyFour));
        s[..m] + DropNumbers(s[m..], true, onlyFour)
    else
      NonDigitsAppend([s[0]], s[1..]);
      NonDigitsAppend([s[0]], DropNumbers(s[1..], IsWordChar(s[0]), onlyFour));
      [s[0]] + DropNumbers(s[1..], IsWordChar(s[0]), onlyFour)
  }

  /** The characters of `s` that are not digits, in order. */
  function NonDigits(s: string): string {
    if s == [] then [] else (if IsDigit(s[0]) then [] else [s[0]]) + NonDigits(s[1..])
  }

  lemma {:induction false} NonDigitsAppend(a: string, b: string)
    ensures NonDigits(a + b) == NonDigits(a) + NonDigits(b)
  {
    if a == [] {
      assert a + b == b;
    } else {
      assert (a + b)[0] == a[0];
      assert (a + b)[1..] == a[1..] + b;
      NonDigitsAppend(a[1..], b);
    }
  }

  /** A leading run of `m` digits contributes nothing to `NonDigits`. */
  lemma {:induction false} DigitsVanish(s: string, m: nat)
    requires m <= |s| && forall k :: 0 <= k < m ==> IsDigit(s[k])
    ensures NonDigits(s) == NonDigits(s[m..])
  {
    if m > 0 {
      DigitsVanish(s[1..], m - 1);
      assert s[1..][m - 1..] == s[m..];
    }
  }

  /** The digit run `s[i..m]` stands alone: word boundaries on both sides. */
  predicate Standalone(s: string, i: int, m: int, afterWord: bool) {
    && 0 <= i < m <= |s|
    && (forall k :: i <= k < m ==> IsDigit(s[k]))
    && (if i == 0 then !afterWord else !IsWordChar(s[i - 1]))
    && (m == |s| || !IsWordChar(s[m]))
  }

  /** No digit run of `s` is bounded by `\b` on both sides: `\b\d+\b` does not occur. */
  predicate NoBareNumber(s: string) {
    forall i, m :: 0 <= i < m <= |s| ==> !Standalone(s, i, m, false)
  }

  /** A string the number pass leaves unchanged has no standalone digit run. */
  lemma {:induction false} FixedHasNoBareNumber(s: string, afterWord: bool)
    requires DropNumbers(s, afterWord, false) == s
    ensures forall i, m :: !Standalone(s, i, m, afterWord)
    decreases |s|
  {
    if s != [] {
      if IsDigit(s[0]) && !afterWord {
        var m0 := SkipWhile(s, 0, IsDigit);
        if m0 == |s| || !IsWordChar(s[m0]) {
          assert false;
        }
        assert s[..m0] + DropNumbers(s[m0..], true, false) == s;
        assert DropNumbers(s[m0..], true, false) == s[m0..];
        FixedHasNoBareNumber(s[m0..], true);
        forall i, m
          ensures !Standalone(s, i, m, afterWord)
        {
          if i > m0 {
            ShiftStandalone(s, m0, i, m, afterWord, true);
          } else {
            LeadRunNotStandalone(s, m0, i, m, afterWord);
          }
        }
      } else {
        var t := s[1..];
        assert [s[0]] + DropNumbers(t, IsWordChar(s[0]), false) == s;
        assert DropNumbers(t, IsWordChar(s[0]), false) == t;
        FixedHasNoBareNumber(t, IsWordChar(s[0]));
        forall i, m | i > 0
          ensures !Standalone(s, i, m, afterWord)
        {
          ShiftStandalone(s, 1, i, m, afterWord, IsWordChar(s[0]));
        }
      }
    }
  }

  /** A run that does not start the string stands alone in the suffix from any position up to its start. */
  lemma ShiftStandalone(s: string, d: int, i: int, m: int, afterWord: bool, afterWord': bool)
    requires 0 < d <= i && d <= |s| && afterWord' == IsWordChar(s[d - 1])
    ensures Standalone(s, i, m, afterWord) ==> Standalone(s[d..], i - d, m - d, afterWord')
  {
    if Standalone(s, i, m, afterWord) {
      if d < i {
        assert s[d..][i - d - 1] == s[i - 1];
      }
      assert m < |s| ==> s[d..][m - d] == s[m];
    }
  }

  /** The leading digit run of a string is not standalone when a word character ends it. */
  lemma LeadRunNotStandalone(s: string, m0: nat, i: int, m: int, afterWord: bool)
    requires m0 == SkipWhile(s, 0, IsDigit) && m0 < |s| && IsWordChar(s[m0]) && i <= m0
    ensures !Standalone(s, i, m, afterWord)
  {
    assert forall k :: 0 <= k < m0 ==> IsWordChar(s[k]);
  }

  /** When the next character cannot start a digit run, where the piece sits does not matter. */
  lemma DropIgnoresContext(s: string, onlyFour: bool)
    requires s == [] || !IsDigit(s[0])
    ensures DropNumbers(s, true, onlyFour) == DropNumbers(s, false, onlyFour)
  {
  }

  /** Removing standalone numbers a second time removes nothing more. */
  lemma {:induction false} DropNumbersIdempotent(s: string, afterWord: bool)
    ensures DropNumbers(DropNumbers(s, afterWord, false), afterWord, false) == DropNumbers(s, afterWord, false)
    decreases |s|
  {
    if s != [] {
      if IsDigit(s[0]) && !afterWord {
        var m := SkipWhile(s, 0, IsDigit);
        var u := s[m..];
        if m == |s| || !IsWordChar(s[m]) {
          DropIgnoresContext(u, false);
          DropNumbersIdempotent(u, false);
        } else {
          var d := DropNumbers(s[m + 1..], true, false);
          assert u[1..] == s[m + 1..];
          assert DropNumbers(u, true, false) == [s[m]] + d;
          DropNumbersIdempotent(s[m + 1..], true);
          var x := s[..m] + ([s[m]] + d);
          assert x == DropNumbers(s, afterWord, false);
          SkipWhileUnique(x, 0, m, IsDigit);
          assert x[..m] == s[..m];
          assert x[m..] == [s[m]] + d;
          assert x[m..][1..] == d;
        }
      } else {
        DropNumbersIdempotent(s[1..], IsWordChar(s[0]));
        var x := DropNumbers(s, afterWord, false);
        assert x[1..] == DropNumbers(s[1..], IsWordChar(s[0]), false);
      }
    }
  }

  // ----- The pass stated through its matches -----

  /** `s[i..m]` is a match of the pass: a standalone digit run, four digits long under `onlyFour`. */
  predicate Removed(s: string, i: int, m: int, afterWord: bool, onlyFour: bool) {
    Standalone(s, i, m, afterWord) && (!onlyFour || m - i == 4)
  }

  /** Position `k` lies inside a match of the pass. */
  ghost predicate Dropped(s: string, k: int, afterWord: bool, onlyFour: bool) {
    exists i, m :: i <= k < m && Removed(s, i, m, afterWord, onlyFour)
  }

  /** The characters of `s` from position `k` on that lie in no match, in order. */
  ghost function Survivors(s: string, afterWord: bool, onlyFour: bool, k: nat): string
    requires k <= |s|
    decreases |s| - k
  {
    if k == |s| then []
    else (if Dropped(s, k, afterWord, onlyFour) then [] else [s[k]]) + Survivors(s, afterWord, onlyFour, k + 1)
  }

  /** The pass removes exactly the characters that lie in a match and keeps the rest in order. */
  lemma DropNumbersByMatches(s: string, afterWord: bool, onlyFour: bool)
    ensures DropNumbers(s, afterWord, onlyFour) == Survivors(s, afterWord, onlyFour, 0)
  {
    DropFrom(s, afterWord, onlyFour, 0);
    assert s[0..] == s;
  }

  /** Whether the character before position `k` is a word character. */
  function Before(s: string, afterWord: bool, k: nat): bool
    requires k <= |s|
  {
    if k == 0 then afterWord else IsWordChar(s[k - 1])
  }

  /** No match starts before `k` and ends after it. */
  ghost predicate NoStraddle(s: string, afterWord: bool, onlyFour: bool, k: int) {
    forall i, m :: i < k < m ==> !Removed(s, i, m, afterWord, onlyFour)
  }

  lemma {:induction false} DropFrom(s: string, afterWord: bool, onlyFour: bool, k: nat)
    requires k <= |s| && NoStraddle(s, afterWord, onlyFour, k)
    ensures DropNumbers(s[k..], Before(s, afterWord, k), onlyFour) == Survivors(s, afterWord, onlyFour, k)
    decreases |s| - k, 1
  {
    if k < |s| {
      if IsDigit(s[k]) && !Before(s, afterWord, k) {
        DropRunFrom(s, afterWord, onlyFour, k);
      } else {
        NotDropped(s, afterWord, onlyFour, k);
        CharStep(s, afterWord, onlyFour, k);
        DropFrom(s, afterWord, onlyFour, k + 1);
      }
    }
  }

  /** The case of `DropFrom` where a digit run with a boundary before it starts at `k`. */
  lemma {:induction false} DropRunFrom(s: string, afterWord: bool, onlyFour: bool, k: nat)
    requires k < |s| && IsDigit(s[k]) && !Before(s, afterWord, k)
    ensures DropNumbers(s[k..], Before(s, afterWord, k), onlyFour) == Survivors(s, afterWord, onlyFour, k)
    decreases |s| - k, 0
  {
    var m := SkipWhile(s, k, IsDigit);
    RunStep(s, afterWord, onlyFour, k, m);
    RunEndNoStraddle(s, afterWord, onlyFour, m);
    DropFrom(s, afterWord, onlyFour, m);
    if Removed(s, k, m, afterWord, onlyFour) {
      SurvivorsSkip(s, afterWord, onlyFour, k, m);
    } else {
      RunKept(s, afterWord, onlyFour, k, m);
      SurvivorsCopy(s, afterWord, onlyFour, k, m);
    }
  }

  /** The pass at a maximal digit run with a boundary before it: the run goes exactly when it is a match. */
  lemma RunStep(s: string, afterWord: bool, onlyFour: bool, k: nat, m: nat)
    requires k < |s| && IsDigit(s[k]) && !Before(s, afterWord, k) && m == SkipWhile(s, k, IsDigit)
    ensures k < m && Before(s, afterWord, m)
    ensures DropNumbers(s[k..], Before(s, afterWord, k), onlyFour)
      == (if Removed(s, k, m, afterWord, onlyFour) then [] else s[k..m]) + DropNumbers(s[m..], true, onlyFour)
  {
    var t := s[k..];
    SkipWhileUnique(t, 0, m - k, IsDigit);
    assert t[m - k..] == s[m..];
    assert t[..m - k] == s[k..m];
  }

  /** The pass at any other position copies one character. */
  lemma CharStep(s: string, afterWord: bool, onlyFour: bool, k: nat)
    requires k < |s| && (!IsDigit(s[k]) || Before(s, afterWord, k))
    ensures DropNumbers(s[k..], Before(s, afterWord, k), onlyFour)
      == [s[k]] + DropNumbers(s[k + 1..], Before(s, afterWord, k + 1), onlyFour)
  {
    assert s[k..][1..] == s[k + 1..];
  }

  /** A match that meets a maximal digit run with a boundary before it is that run. */
  lemma RunMatches(s: string, afterWord: bool, onlyFour: bool, k: nat, m: nat, i: int, m2: int)
    requires k < |s| && IsDigit(s[k]) && !Before(s, afterWord, k) && m == SkipWhile(s, k, IsDigit)
    requires Removed(s, i, m2, afterWord, onlyFour) && i < m && k < m2
    ensures i == k && m2 == m
  {
  }

  /** A run that is not a match has no dropped position. */
  lemma RunKept(s: string, afterWord: bool, onlyFour: bool, k: nat, m: nat)
    requires k < |s| && IsDigit(s[k]) && !Before(s, afterWord, k) && m == SkipWhile(s, k, IsDigit)
    requires !Removed(s, k, m, afterWord, onlyFour)
    ensures forall j :: k <= j < m ==> !Dropped(s, j, afterWord, onlyFour)
  {
    forall j | k <= j < m
      ensures !Dropped(s, j, afterWord, onlyFour)
    {
      forall i, m2 | i <= j < m2 && Removed(s, i, m2, afterWord, onlyFour)
        ensures false
      {
        RunMatches(s, afterWord, onlyFour, k, m, i, m2);
      }
    }
  }

  /** No match runs across the end of a digit run. */
  lemma RunEndNoStraddle(s: string, afterWord: bool, onlyFour: bool, m: nat)
    requires m <= |s| && (m == |s| || !IsDigit(s[m]))
    ensures NoStraddle(s, afterWord, onlyFour, m)
  {
  }

  /** A character that cannot start a match is kept, and no match runs across the next position. */
  lemma NotDropped(s: string, afterWord: bool, onlyFour: bool, k: nat)
    requires k < |s| && NoStraddle(s, afterWord, onlyFour, k)
    requires !IsDigit(s[k]) || Before(s, afterWord, k)
    ensures !Dropped(s, k, afterWord, onlyFour)
    ensures NoStraddle(s, afterWord, onlyFour, k + 1)
  {
  }

  /** The characters of a match are all dropped. */
  lemma SurvivorsSkip(s: string, afterWord: bool, onlyFour: bool, k: nat, m: nat)
    requires k <= m <= |s| && Removed(s, k, m, afterWord, onlyFour)
    ensures Survivors(s, afterWord, onlyFour, k) == Survivors(s, afterWord, onlyFour, m)
  {
    SurvivorsSkipFrom(s, afterWord, onlyFour, k, k, m);
  }

  /** Every position in `[j, m)` of the match `s[k..m]` is dropped. */
  lemma {:induction false} SurvivorsSkipFrom(s: string, afterWord: bool, onlyFour: bool, k: nat, j: nat, m: nat)
    requires k <= j <= m <= |s| && Removed(s, k, m, afterWord, onlyFour)
    ensures Survivors(s, afterWord, onlyFour, j) == Survivors(s, afterWord, onlyFour, m)
    decreases m - j
  {
    if j < m {
      assert Dropped(s, j, afterWord, onlyFour);
      SurvivorsSkipFrom(s, afterWord, onlyFour, k, j + 1, m);
    }
  }

  lemma {:induction false} SurvivorsCopy(s: string, afterWord: bool, onlyFour: bool, k: nat, m: nat)
    requires k <= m <= |s|
    requires forall j :: k <= j < m ==> !Dropped(s, j, afterWord, onlyFour)
    ensures Survivors(s, afterWord, onlyFour, k) == s[k..m] + Survivors(s, afterWord, onlyFour, m)
    decreases m - k
  {
    if k < m {
      SurvivorsCopy(s, afterWord, onlyFour, k + 1, m);
      assert [s[k]] + s[k + 1..m] == s[k..m];
    }
  }

  /** The characters `site_name.strip(" ,;.-")` removes. */
  predicate IsNamePunct(c: char) { c == ' ' || c == ',' || c == ';' || c == '.' || c == '-' }

  /** The cleanup of `get_pdf` turning a candidate line into a site name. */
  function CleanName(name: string): (r: string)
    ensures |r| <= |name|
    ensures r == [] || (!IsNamePunct(r[0]) && !IsNamePunct(r[|r| - 1]))
    ensures NoBareNumber(r)
  {
    var y := DropNumbers(DropNumbers(name, false, true), false, false);
    DropNumbersIdempotent(DropNumbers(name, false, true), false);
    FixedHasNoBareNumber(y, false);
    StripKeepsNoBareNumber(y);
    Strip(y, IsNamePunct)
  }

  /** The cleanup stated through the matches of its two passes. */
  lemma CleanNameByMatches(name: string)
    ensures CleanName(name) == Strip(Survivors(Survivors(name, false, true, 0), false, false, 0), IsNamePunct)
  {
    DropNumbersByMatches(name, false, true);
    DropNumbersByMatches(DropNumbers(name, false, true), false, false);
  }

  /**
   * Apart from digits, the cleaned name is the candidate line with only
   * surrounding punctuation removed: no letter or inner character is lost.
   */
  lemma CleanNameKeepsText(name: string)
    ensures exists a :: StrippedAt(NonDigits(name), NonDigits(CleanName(name)), a, IsNamePunct)
  {
    var y := DropNumbers(DropNumbers(name, false, true), false, false);
    assert NonDigits(y) == NonDigits(name);
    assert CleanName(name) == Strip(y, IsNamePunct);
    StripKeepsNonDigits(y);
  }

  /** Stripping punctuation removes no digit and leaves the rest of the text in place. */
  lemma StripKeepsNonDigits(y: string)
    ensures StrippedAt(NonDigits(y), NonDigits(Strip(y, IsNamePunct)), SkipWhile(y, 0, IsNamePunct), IsNamePunct)
  {
    var r := Strip(y, IsNamePunct);
    var a := SkipWhile(y, 0, IsNamePunct);
    var e := a + |r|;
    var front, back := y[..a], y[e..];
    assert y == front + r + back;
    NonDigitsAppend(front + r, back);
    NonDigitsAppend(front, r);
    PunctHasNoDigit(front);
    PunctHasNoDigit(back);
    StrippedJoin(front, NonDigits(r), back);
  }

  lemma {:induction false} PunctHasNoDigit(w: string)
    requires forall i :: 0 <= i < |w| ==> IsNamePunct(w[i])
    ensures NonDigits(w) == w
  {
    if w != [] {
      PunctHasNoDigit(w[1..]);
    }
  }

  lemma StrippedJoin(front: string, r: string, back: string)
    requires forall i :: 0 <= i < |front| ==> IsNamePunct(front[i])
    requires forall i :: 0 <= i < |back| ==> IsNamePunct(back[i])
    ensures StrippedAt(front + r + back, r, |front|, IsNamePunct)
  {
    var s := front + r + back;
    assert s[|front|..|front| + |r|] == r;
    assert forall k :: |front| + |r| <= k < |s| ==> s[k] == back[k - |front| - |r|];
  }

  /** Stripping punctuation cannot expose a number: every removed character was a boundary already. */
  lemma StripKeepsNoBareNumber(y: string)
    requires NoBareNumber(y)
    ensures NoBareNumber(Strip(y, IsNamePunct))
  {
    var r := Strip(y, IsNamePunct);
    var a := SkipWhile(y, 0, IsNamePunct);
    forall i, m | 0 <= i < m <= |r|
      ensures !Standalone(r, i, m, false)
    {
      if Standalone(r, i, m, false) {
        StandaloneInside(y, r, a, i, m);
      }
    }
  }

  lemma StandaloneInside(y: string, r: string, a: int, i: int, m: int)
    requires StrippedAt(y, r, a, IsNamePunct) && Standalone(r, i, m, false)
    ensures Standalone(y, a + i, a + m, false)
  {
    forall k | a + i <= k < a + m
      ensures IsDigit(y[k])
    {
      assert y[k] == r[k - a];
    }
    if i > 0 {
      assert y[a + i - 1] == r[i - 1];
    }
    if m < |r| {
      assert y[a + m] == r[m];
    }
  }

  /** `re.search(r"[A-Za-z].*[A-Za-z]", s)`: two ASCII letters with no line feed between them. */
  predicate HasTwoLetters(s: string) {
    exists i, j :: 0 <= i < j < |s| && LetterPair(s, i, j)
  }

  predicate LetterPair(s: string, i: int, j: int) {
    && 0 <= i < j < |s|
    && IsAsciiLetter(s[i]) && IsAsciiLetter(s[j])
    && forall k :: i < k < j ==> s[k] != '\n'
  }

  /** `[CN]\s*\([ivx]` at `i`, matched case-sensitively. */
  predicate TypeMarkerAt(s: string, i: int) {
    && 0 <= i < |s|
    && (s[i] == 'C' || s[i] == 'N')
    && var j := SkipWhile(s, i + 1, IsSpace);
       j + 1 < |s| && s[j] == '(' && (s[j + 1] == 'i' || s[j + 1] == 'v' || s[j + 1] == 'x')
  }

  /** `re.search(r"[CN]\s*\([ivx]", s)`. */
  predicate HasTypeMarker(s: string) {
    exists i :: 0 <= i < |s| && TypeMarkerAt(s, i)
  }

  /** A site name `get_pdf` accepts. */
  predicate AcceptedName(s: string) {
    HasTwoLetters(s) && !HasTypeMarker(s)
  }

  /** An accepted name has at least two characters, so the emptiness test that follows never fails on it. */
  lemma AcceptedNotEmpty(s: string)
    ensures AcceptedName(s) ==> |s| >= 2
  {
  }
}
