/**
 * The line normaliser `squash_repeats`, applied to every extracted line
 * before it is classified.
 */
module Normalise {
  import opened Chars

  /** Length of the run of copies of `s[0]` that starts `s`. */
  function LeadRun(s: string): (n: nat)
    requires |s| > 0
    ensures 1 <= n <= |s|
    ensures forall i :: 0 <= i < n ==> s[i] == s[0]
    ensures n < |s| ==> s[n] != s[0]
  {
    if |s| == 1 || s[1] != s[0] then 1 else 1 + LeadRun(s[1..])
  }

  /**
   * `re.sub(r'([A-Za-z])\1{2,}', r'\1', s)`. The pattern matches at a
   * position holding an ASCII letter followed by two more copies of it
   * (the backreference is case-sensitive); `{2,}` is greedy, so the match
   * takes the rest of the run and the run is replaced by one copy.
   * Anywhere else one character is kept and the search moves on.
   */
  function SquashLetters(s: string): (r: string)
    ensures |r| <= |s|
    ensures |s| > 0 ==> |r| > 0 && r[0] == s[0]
    decreases |s|
  {
    if |s| >= 3 && IsAsciiLetter(s[0]) && s[1] == s[0] && s[2] == s[0] then
      [s[0]] + SquashLetters(s[LeadRun(s)..])
    else if s == [] then []
    else [s[0]] + SquashLetters(s[1..])
  }

  /**
   * The same rewriting stated run by run: a maximal run of three or more
   * copies of one ASCII letter becomes a single copy, and every other run
   * (shorter letter runs, runs of any other character) is kept.
   */
  function CollapseRuns(s: string): string
    decreases |s|
  {
    if s == [] then []
    else
      var n := LeadRun(s);
      (if IsAsciiLetter(s[0]) && n >= 3 then [s[0]] else s[..n]) + CollapseRuns(s[n..])
  }

  /** Inside a run the regex does not rewrite, the scan copies the run one character at a time. */
  lemma {:induction false} KeepRun(s: string, k: nat)
    requires |s| > 0
    requires 1 <= k <= LeadRun(s)
    requires !IsAsciiLetter(s[0]) || LeadRun(s) < 3
    ensures SquashLetters(s) == s[..k] + SquashLetters(s[k..])
    decreases k
  {
    CopyStep(s);
    if k == 1 {
      assert s[..1] == [s[0]];
    } else {
      var t := s[1..];
      assert LeadRun(s) == 1 + LeadRun(t);
      KeepRun(t, k - 1);
      assert t[..k - 1] == s[1..k];
      assert t[k - 1..] == s[k..];
      ConsAppend(s[0], s[1..k], SquashLetters(s[k..]));
      assert [s[0]] + s[1..k] == s[..k];
    }
  }

  /** Where no triple of a letter starts, the scan copies one character. */
  lemma CopyStep(s: string)
    requires |s| > 0 && !(|s| >= 3 && IsAsciiLetter(s[0]) && s[1] == s[0] && s[2] == s[0])
    ensures SquashLetters(s) == [s[0]] + SquashLetters(s[1..])
  {
  }

  lemma ConsAppend<T>(c: T, a: seq<T>, b: seq<T>)
    ensures [c] + (a + b) == ([c] + a) + b
  {
  }

  /** The regex scan and the run-by-run statement agree on every string. */
  lemma {:induction false} SquashLettersCollapsesRuns(s: string)
    ensures SquashLetters(s) == CollapseRuns(s)
    decreases |s|
  {
    if s != [] {
      var n := LeadRun(s);
      SquashLettersCollapsesRuns(s[n..]);
      if !(IsAsciiLetter(s[0]) && n >= 3) {
        KeepRun(s, n);
      }
    }
  }

  /** No ASCII letter appears three times in a row. */
  predicate NoLetterTriple(s: string) {
    forall i :: 0 <= i < |s| - 2 && IsAsciiLetter(s[i]) ==> !(s[i + 1] == s[i] && s[i + 2] == s[i])
  }

  /** No two whitespace characters are adjacent. */
  predicate NoDoubleSpace(s: string) {
    forall i :: 0 <= i < |s| - 1 ==> !(IsSpace(s[i]) && IsSpace(s[i + 1]))
  }

  lemma {:induction false} SquashLettersLeavesNoTriple(s: string)
    ensures NoLetterTriple(SquashLetters(s))
    decreases |s|
  {
    if |s| >= 3 && IsAsciiLetter(s[0]) && s[1] == s[0] && s[2] == s[0] {
      var n := LeadRun(s);
      var t := SquashLetters(s[n..]);
      SquashLettersLeavesNoTriple(s[n..]);
      assert t == [] || t[0] == s[n];
      NoTripleCons(s[0], t);
    } else if s != [] {
      var t := SquashLetters(s[1..]);
      SquashLettersLeavesNoTriple(s[1..]);
      CopyStep(s);
      if |s| >= 3 && s[1] == s[0] && IsAsciiLetter(s[0]) {
        CopyStep(s[1..]);
        assert t[1] == s[1..][1..][0];
      }
      NoTripleCons(s[0], t);
    }
  }

  /** A character put in front of a text without letter triples starts none unless the text begins with two copies of it. */
  lemma NoTripleCons(c: char, t: string)
    requires NoLetterTriple(t)
    requires |t| < 2 || !IsAsciiLetter(c) || t[0] != c || t[1] != c
    ensures NoLetterTriple([c] + t)
  {
    var r := [c] + t;
    forall i | 1 <= i < |r| - 2
      ensures IsAsciiLetter(r[i]) ==> !(r[i + 1] == r[i] && r[i + 2] == r[i])
    {
      assert r[i] == t[i - 1] && r[i + 1] == t[i] && r[i + 2] == t[i + 1];
    }
  }

  lemma {:induction false} SquashLettersFixed(s: string)
    requires NoLetterTriple(s)
    ensures SquashLetters(s) == s
    decreases |s|
  {
    if s != [] {
      assert NoLetterTriple(s[1..]);
      SquashLettersFixed(s[1..]);
    }
  }

  /**
   * `re.sub(r'\s{2,}', ' ', s)`: a run of two or more whitespace
   * characters, taken whole since `{2,}` is greedy, becomes one space; a
   * lone whitespace character is kept as it is.
   */
  function SquashSpaces(s: string): (r: string)
    ensures |r| <= |s|
    ensures |s| > 0 ==> |r| > 0 && (IsSpace(r[0]) <==> IsSpace(s[0]))
    ensures |s| > 0 && !IsSpace(s[0]) ==> r[0] == s[0]
    decreases |s|
  {
    if |s| >= 2 && IsSpace(s[0]) && IsSpace(s[1]) then
      " " + SquashSpaces(s[SkipWhile(s, 0, IsSpace)..])
    else if s == [] then []
    else [s[0]] + SquashSpaces(s[1..])
  }

  /**
   * The whitespace rewriting stated run by run: a maximal run of two or
   * more whitespace characters becomes one space, a run of one whitespace
   * character is kept, and every other character is kept.
   */
  function CollapseSpaceRuns(s: string): string
    decreases |s|
  {
    if s == [] then []
    else if !IsSpace(s[0]) then [s[0]] + CollapseSpaceRuns(s[1..])
    else
      var n := SkipWhile(s, 0, IsSpace);
      (if n >= 2 then " " else s[..n]) + CollapseSpaceRuns(s[n..])
  }

  /** The regex scan and the run-by-run statement agree on every string. */
  lemma {:induction false} SquashSpacesCollapsesRuns(s: string)
    ensures SquashSpaces(s) == CollapseSpaceRuns(s)
    decreases |s|
  {
    if s != [] {
      if !IsSpace(s[0]) {
        SquashSpacesCollapsesRuns(s[1..]);
      } else {
        var n := SkipWhile(s, 0, IsSpace);
        SquashSpacesCollapsesRuns(s[n..]);
        if n == 1 {
          assert s[..1] == [s[0]];
        }
      }
    }
  }

  /** The characters of `s` other than whitespace, in order. */
  function Visible(s: string): string
    decreases |s|
  {
    if s == [] then [] else (if IsSpace(s[0]) then [] else [s[0]]) + Visible(s[1..])
  }

  lemma {:induction false} VisibleAppend(a: string, b: string)
    ensures Visible(a + b) == Visible(a) + Visible(b)
    decreases |a|
  {
    if a == [] {
      assert a + b == b;
    } else {
      assert (a + b)[1..] == a[1..] + b;
      VisibleAppend(a[1..], b);
    }
  }

  lemma {:induction false} VisibleOfSpaces(s: string, n: nat)
    requires n <= |s|
    requires forall i :: 0 <= i < n ==> IsSpace(s[i])
    ensures Visible(s) == Visible(s[n..])
    decreases n
  {
    if n > 0 {
      assert s[1..][n - 1..] == s[n..];
      VisibleOfSpaces(s[1..], n - 1);
    }
  }

  /** Squashing whitespace never adds, drops or reorders a visible character. */
  lemma {:induction false} SquashSpacesKeepsVisible(s: string)
    ensures Visible(SquashSpaces(s)) == Visible(s)
    decreases |s|
  {
    if |s| >= 2 && IsSpace(s[0]) && IsSpace(s[1]) {
      var m := SkipWhile(s, 0, IsSpace);
      SquashSpacesKeepsVisible(s[m..]);
      VisibleAppend(" ", SquashSpaces(s[m..]));
      VisibleOfSpaces(s, m);
    } else if s != [] {
      SquashSpacesKeepsVisible(s[1..]);
      VisibleAppend([s[0]], SquashSpaces(s[1..]));
    }
  }

  lemma {:induction false} SquashSpacesLeavesNoDouble(s: string)
    ensures NoDoubleSpace(SquashSpaces(s))
    decreases |s|
  {
    if |s| >= 2 && IsSpace(s[0]) && IsSpace(s[1]) {
      var m := SkipWhile(s, 0, IsSpace);
      SquashSpacesLeavesNoDouble(s[m..]);
    } else if s != [] {
      SquashSpacesLeavesNoDouble(s[1..]);
    }
  }

  lemma {:induction false} SquashSpacesFixed(s: string)
    requires NoDoubleSpace(s)
    ensures SquashSpaces(s) == s
    decreases |s|
  {
    if s != [] {
      assert NoDoubleSpace(s[1..]);
      SquashSpacesFixed(s[1..]);
    }
  }

  lemma {:induction false} SquashSpacesKeepsNoTriple(s: string)
    requires NoLetterTriple(s)
    ensures NoLetterTriple(SquashSpaces(s))
    decreases |s|, 1
  {
    if |s| >= 2 && IsSpace(s[0]) && IsSpace(s[1]) {
      var m := SkipWhile(s, 0, IsSpace);
      SliceKeepsShape(s, m, |s|);
      assert s[m..|s|] == s[m..];
      SquashSpacesKeepsNoTriple(s[m..]);
      NoTripleCons(' ', SquashSpaces(s[m..]));
    } else if s != [] {
      CopyKeepsNoTriple(s);
    }
  }

  /** The case of `SquashSpacesKeepsNoTriple` where the first character is copied. */
  lemma {:induction false} CopyKeepsNoTriple(s: string)
    requires NoLetterTriple(s) && s != [] && !(|s| >= 2 && IsSpace(s[0]) && IsSpace(s[1]))
    ensures NoLetterTriple(SquashSpaces(s))
    decreases |s|, 0
  {
    var t := SquashSpaces(s[1..]);
    SliceKeepsShape(s, 1, |s|);
    assert s[1..|s|] == s[1..];
    SquashSpacesKeepsNoTriple(s[1..]);
    SpaceCopyStep(s);
    if IsAsciiLetter(s[0]) && |t| >= 2 && t[0] == s[0] {
      assert !IsSpace(s[1]) && s[1] == s[0];
      SpaceCopyStep(s[1..]);
      assert s[1..][1..] == s[2..];
      assert t[1] == SquashSpaces(s[2..])[0];
      assert s[2] != s[0];
    }
    NoTripleCons(s[0], t);
  }

  /** Where no two whitespace characters start, the rewriting copies one character. */
  lemma SpaceCopyStep(s: string)
    requires |s| > 0 && !(|s| >= 2 && IsSpace(s[0]) && IsSpace(s[1]))
    ensures SquashSpaces(s) == [s[0]] + SquashSpaces(s[1..])
  {
  }

  lemma SliceKeepsShape(s: string, a: nat, b: nat)
    requires a <= b <= |s|
    ensures NoLetterTriple(s) ==> NoLetterTriple(s[a..b])
    ensures NoDoubleSpace(s) ==> NoDoubleSpace(s[a..b])
  {
    var t := s[a..b];
    assert forall i | 0 <= i < |t| :: t[i] == s[a + i];
  }

  /**
   * `squash_repeats`: collapse letter runs, then whitespace runs, then
   * strip surrounding whitespace.
   */
  function SquashRepeats(s: string): (r: string)
    ensures |r| <= |s|
    ensures r == [] || (!IsSpace(r[0]) && !IsSpace(r[|r| - 1]))
    ensures NoLetterTriple(r)
    ensures NoDoubleSpace(r)
  {
    NormalShape(s);
    Strip(SquashSpaces(SquashLetters(s)), IsSpace)
  }

  lemma NormalShape(s: string)
    ensures var r := Strip(SquashSpaces(SquashLetters(s)), IsSpace);
      NoLetterTriple(r) && NoDoubleSpace(r)
  {
    var a := SquashLetters(s);
    var b := SquashSpaces(a);
    var r := Strip(b, IsSpace);
    SquashLettersLeavesNoTriple(s);
    SquashSpacesKeepsNoTriple(a);
    SquashSpacesLeavesNoDouble(a);
    StripKeepsShape(b);
  }

  lemma StripKeepsShape(b: string)
    requires NoLetterTriple(b) && NoDoubleSpace(b)
    ensures NoLetterTriple(Strip(b, IsSpace)) && NoDoubleSpace(Strip(b, IsSpace))
  {
    PieceKeepsShape(b, Strip(b, IsSpace), SkipWhile(b, 0, IsSpace));
  }

  lemma PieceKeepsShape(s: string, r: string, a: nat)
    requires a + |r| <= |s| && r == s[a..a + |r|]
    ensures NoLetterTriple(s) ==> NoLetterTriple(r)
    ensures NoDoubleSpace(s) ==> NoDoubleSpace(r)
  {
    assert forall i | 0 <= i < |r| :: r[i] == s[a + i];
  }

  /**
   * `squash_repeats` as the composition of its three passes, each stated
   * run by run: letter runs, then whitespace runs, then the strip.
   */
  lemma SquashRepeatsByRuns(s: string)
    ensures SquashRepeats(s) == Strip(CollapseSpaceRuns(CollapseRuns(s)), IsSpace)
  {
    SquashLettersCollapsesRuns(s);
    SquashSpacesCollapsesRuns(SquashLetters(s));
  }

  /**
   * Normalising keeps every visible character the letter collapsing
   * keeps, in order: only whitespace is squashed or stripped.
   */
  lemma SquashRepeatsVisible(s: string)
    ensures Visible(SquashRepeats(s)) == Visible(CollapseRuns(s))
  {
    var a := SquashLetters(s);
    SquashLettersCollapsesRuns(s);
    SquashSpacesKeepsVisible(a);
    VisibleStrip(SquashSpaces(a));
  }

  /** Stripping whitespace drops no visible character. */
  lemma VisibleStrip(b: string)
    ensures Visible(Strip(b, IsSpace)) == Visible(b)
  {
    var a := SkipWhile(b, 0, IsSpace);
    var r := Strip(b, IsSpace);
    var e := a + |r|;
    assert b == b[..a] + r + b[e..];
    VisibleAppend(b[..a] + r, b[e..]);
    VisibleAppend(b[..a], r);
    VisibleAllSpaces(b[..a]);
    VisibleAllSpaces(b[e..]);
  }

  lemma VisibleAllSpaces(w: string)
    requires forall i :: 0 <= i < |w| ==> IsSpace(w[i])
    ensures Visible(w) == []
  {
    VisibleOfSpaces(w, |w|);
  }

  /** Normalising a normalised line changes nothing. */
  lemma SquashRepeatsIdempotent(s: string)
    ensures SquashRepeats(SquashRepeats(s)) == SquashRepeats(s)
  {
    var r := SquashRepeats(s);
    SquashLettersFixed(r);
    SquashSpacesFixed(r);
    StripStripped(r, IsSpace);
  }

  /** One step of the letter scan: the first `n` characters give way to one. */
  lemma SquashStep(s: string, n: nat, rest: string)
    requires 1 <= n <= |s| && s[n..] == rest
    requires n == 1 ==> !(|s| >= 3 && s[1] == s[0] && s[2] == s[0])
    requires n > 1 ==> IsAsciiLetter(s[0]) && n >= 3 && LeadRun(s) == n
    ensures SquashLetters(s) == [s[0]] + SquashLetters(rest)
  {
  }

  /** Three copies of a letter and the end of their run: the scan keeps one. */
  lemma TripleStep(c: char, rest: string)
    requires IsAsciiLetter(c) && (rest == [] || rest[0] != c)
    ensures SquashLetters([c, c, c] + rest) == [c] + SquashLetters(rest)
  {
    var s := [c, c, c] + rest;
    assert s[2..] == [c] + rest;
    assert LeadRun(s[2..]) == 1;
    assert s[1..][1..] == s[2..];
    assert LeadRun(s[1..]) == 2;
    SquashStep(s, 3, rest);
  }

  /** A character not followed by two copies of itself is copied. */
  lemma SingleStep(c: char, rest: string)
    requires |rest| < 2 || rest[0] != c || rest[1] != c
    ensures SquashLetters([c] + rest) == [c] + SquashLetters(rest)
  {
    var s := [c] + rest;
    assert s[1..] == rest;
    SquashStep(s, 1, rest);
  }

  /**
   * The docstring of `squash_repeats` says "Wwwwooorrrllddd" becomes
   * "World"; the pattern says otherwise in two places. The backreference
   * is case-sensitive, so a capital followed by a run of its lower-case
   * form keeps both letters ("Wwww" gives "Ww")...
   */
  lemma CaseSensitive(W: char, w: char, t: string)
    requires IsAsciiLetter(w) && W != w && (t == [] || t[0] != w)
    ensures SquashLetters([W] + ([w, w, w] + t)) == [W, w] + SquashLetters(t)
  {
    TripleStep(w, t);
    SingleStep(W, [w, w, w] + t);
    ConsCons(W, w, SquashLetters(t));
  }

  /** ...and a run of only two letters is kept whole ("ll" stays "ll"). */
  lemma PairKept(l: char, t: string)
    requires t == [] || t[0] != l
    ensures SquashLetters([l] + ([l] + t)) == [l, l] + SquashLetters(t)
  {
    SingleStep(l, t);
    SingleStep(l, [l] + t);
    ConsCons(l, l, SquashLetters(t));
  }

  lemma ConsCons(a: char, b: char, x: string)
    ensures [a] + ([b] + x) == [a, b] + x
  {
  }
}
