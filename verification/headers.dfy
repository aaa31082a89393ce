/**
 * The header and footer filter: `HEADER_PATTERNS` and `is_header_footer`.
 * Every pattern is a chain of literal words joined by `\s+`, `\s*` or a
 * single optional character, so each is written as a list of pieces and
 * matched by a small scanner.
 */
module Headers {
  import opened Chars

  datatype Piece =
    | Word(text: string)        // literal text
    | Spaces(atLeastOne: bool)  // `\s+` when true, `\s*` when false
    | Optional(c: char)         // `c?`

  type Pattern = seq<Piece>

  const WorldHeritageCentre: Pattern := [Word("world"), Spaces(true), Word("heritage"), Spaces(true), Word("centre")]
  const ConventionWord: Pattern := [Word("convention")]
  const NameOfProperty: Pattern := [Word("name"), Spaces(true), Word("of"), Spaces(true), Word("property")]
  const CriteriaForInclusion: Pattern :=
    [Word("criteria"), Spaces(true), Word("for"), Spaces(true), Word("the"), Spaces(true), Word("inclusion")]
  const NotesColon: Pattern := [Word("note"), Optional('s'), Word(":")]
  const CommitteeSessions: Pattern :=
    [Word("sessions"), Spaces(true), Word("of"), Spaces(true), Word("the"), Spaces(true), Word("world"),
     Spaces(true), Word("heritage"), Spaces(true), Word("committee")]
  const NaturalProperty: Pattern := [Word("n:"), Spaces(false), Word("natural"), Spaces(true), Word("property")]
  const CulturalProperty: Pattern := [Word("c:"), Spaces(false), Word("cultural"), Spaces(true), Word("property")]
  const StateParty: Pattern := [Word("contracting"), Spaces(true), Word("state"), Spaces(true), Word("party")]
  const IdNo: Pattern := [Word("id"), Optional('.'), Spaces(false), Word("no.")]
  const YearOfInscription: Pattern := [Word("year"), Spaces(true), Word("of"), Spaces(true), Word("inscription")]

  /** `HEADER_PATTERNS`, in the source's order; they are matched against the lower-cased line. */
  const HeaderPatterns: seq<Pattern> := [
    WorldHeritageCentre, ConventionWord, NameOfProperty, CriteriaForInclusion, NotesColon, CommitteeSessions,
    NaturalProperty, CulturalProperty, StateParty, IdNo, YearOfInscription
  ]

  /** Pattern `p` matches some prefix of `s`. */
  predicate MatchesPrefix(p: Pattern, s: string)
    decreases |p| + |s|
  {
    if p == [] then true
    else match p[0]
      case Word(w) => w <= s && MatchesPrefix(p[1..], s[|w|..])
      case Spaces(one) =>
        || (!one && MatchesPrefix(p[1..], s))
        || (|s| > 0 && IsSpace(s[0]) && MatchesPrefix([Spaces(false)] + p[1..], s[1..]))
      case Optional(c) =>
        || MatchesPrefix(p[1..], s)
        || (|s| > 0 && s[0] == c && MatchesPrefix(p[1..], s[1..]))
  }

  /** `re.search(p, s)` succeeds: the pattern matches at some position. */
  predicate Search(p: Pattern, s: string)
    decreases |s|
  {
    MatchesPrefix(p, s) || (|s| > 0 && Search(p, s[1..]))
  }

  /** `is_header_footer`: some header pattern occurs in the lower-cased line. */
  predicate IsHeaderFooter(line: string) {
    exists k :: 0 <= k < |HeaderPatterns| && Search(HeaderPatterns[k], Lower(line))
  }

  /** The plainest text a pattern accepts: words joined by one space, optional characters left out. */
  function Phrase(p: Pattern): string
    decreases |p|
  {
    if p == [] then ""
    else (match p[0]
          case Word(w) => w
          case Spaces(one) => if one then " " else ""
          case Optional(_) => "") + Phrase(p[1..])
  }

  lemma {:induction false} PhraseMatches(p: Pattern, rest: string)
    ensures MatchesPrefix(p, Phrase(p) + rest)
    decreases |p|
  {
    if p != [] {
      PhraseMatches(p[1..], rest);
      var tail := Phrase(p[1..]) + rest;
      match p[0]
      case Word(w) =>
        assert Phrase(p) + rest == w + tail;
        WordMatches(p, w, tail);
      case Spaces(one) =>
        if one {
          assert Phrase(p) + rest == " " + tail;
          SpaceMatches(p, tail);
        } else {
          assert Phrase(p) + rest == tail;
        }
      case Optional(_) =>
        assert Phrase(p) + rest == tail;
    }
  }

  lemma WordMatches(p: Pattern, w: string, tail: string)
    requires p != [] && p[0] == Word(w) && MatchesPrefix(p[1..], tail)
    ensures MatchesPrefix(p, w + tail)
  {
    assert (w + tail)[|w|..] == tail;
  }

  lemma SpaceMatches(p: Pattern, tail: string)
    requires p != [] && p[0] == Spaces(true) && MatchesPrefix(p[1..], tail)
    ensures MatchesPrefix(p, " " + tail)
  {
    var q := [Spaces(false)] + p[1..];
    assert q[1..] == p[1..];
    assert MatchesPrefix(q, tail);
    assert (" " + tail)[1..] == tail;
  }

  lemma {:induction false} SearchFindsOccurrence(p: Pattern, s: string, i: nat)
    requires i <= |s|
    requires MatchesPrefix(p, s[i..])
    ensures Search(p, s)
    decreases i
  {
    if i > 0 {
      assert s[1..][i - 1..] == s[i..];
      SearchFindsOccurrence(p, s[1..], i - 1);
    }
  }

  /** A text that contains the phrase of a pattern is found by the search for it. */
  lemma PhraseIsFound(p: Pattern, s: string)
    requires Contains(s, Phrase(p))
    ensures Search(p, s)
  {
    var w := Phrase(p);
    ContainsAt(s, w);
    var i :| OccursAt(s, w, i);
    assert s[i..] == w + s[i + |w|..];
    PhraseMatches(p, s[i + |w|..]);
    SearchFindsOccurrence(p, s, i);
  }

  /**
   * Case does not matter: a line that contains the phrase of some header
   * pattern in any mix of upper and lower case is a header line.
   */
  lemma HeaderPhraseIsHeader(line: string, k: nat)
    requires k < |HeaderPatterns|
    requires Contains(Lower(line), Phrase(HeaderPatterns[k]))
    ensures IsHeaderFooter(line)
  {
    PhraseIsFound(HeaderPatterns[k], Lower(line));
  }

  /** Lines that agree up to case are filtered alike. */
  lemma HeaderIgnoresCase(a: string, b: string)
    requires Lower(a) == Lower(b)
    ensures IsHeaderFooter(a) <==> IsHeaderFooter(b)
  {
  }
}
