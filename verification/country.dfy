/** Country headings: `RE_COUNTRY`, `BAD_TOKENS_IN_COUNTRY` and `is_country_line`. */
module Country {
  import opened Chars

  /**
   * The characters `RE_COUNTRY` accepts after the first: A-Z, space, `-`,
   * the three characters of "â€™", `'`, `&`, `/` and `.`.
   */
  predicate IsCountryChar(c: char) {
    IsAsciiUpper(c) || c in {' ', '-', 'â', '€', '™', '\'', '&', '/', '.'}
  }

  /** `BAD_TOKENS_IN_COUNTRY`. */
  const BadTokens: seq<string> :=
    ["HERITAGE", "CONVENTION", "CENTRE", "PROPERTY", "NOTES", "CRITERIA", "SESSION", "ID", "YEAR"]

  /** Every character of `s` from position `i` on is a country character. */
  predicate CountryCharsFrom(s: string, i: nat)
    decreases |s| - i
  {
    i >= |s| || (IsCountryChar(s[i]) && CountryCharsFrom(s, i + 1))
  }

  lemma {:induction false} CountryCharsFromAll(s: string, i: nat)
    ensures CountryCharsFrom(s, i) <==> forall k :: i <= k < |s| ==> IsCountryChar(s[k])
    decreases |s| - i
  {
    if i < |s| {
      CountryCharsFromAll(s, i + 1);
    }
  }

  /** `^[A-Z][...]+` reaching the end of `s`. */
  predicate CountryBody(s: string) {
    |s| >= 2 && IsAsciiUpper(s[0]) && CountryCharsFrom(s, 1)
  }

  /**
   * `RE_COUNTRY.match(line)`; Python's `$` also matches just before a
   * newline that ends the string.
   */
  predicate MatchesCountryPattern(s: string) {
    || CountryBody(s)
    || (|s| > 0 && s[|s| - 1] == '\n' && CountryBody(s[..|s| - 1]))
  }

  /** `is_country_line`. */
  function IsCountryLine(line: string): (b: bool)
    ensures b <==>
      && |line| >= 2
      && IsAsciiUpper(line[0])
      && (forall i :: 1 <= i < |line| ==>
            IsCountryChar(line[i]) || (i == |line| - 1 && line[i] == '\n' && |line| >= 3))
      && (forall k, j :: 0 <= k < |BadTokens| ==> !OccursAt(line, BadTokens[k], j))
  {
    CountryLineIff(line);
    MatchesCountryPattern(line) && forall k :: 0 <= k < |BadTokens| ==> !Contains(line, BadTokens[k])
  }

  /** Only letters, the allowed characters and possibly one final newline. */
  predicate CountryShape(line: string) {
    && |line| >= 2
    && IsAsciiUpper(line[0])
    && (forall i :: 1 <= i < |line| ==>
          IsCountryChar(line[i]) || (i == |line| - 1 && line[i] == '\n' && |line| >= 3))
  }

  lemma PatternIsShape(line: string)
    ensures MatchesCountryPattern(line) <==> CountryShape(line)
  {
    CountryCharsFromAll(line, 1);
    if |line| > 0 {
      var body := line[..|line| - 1];
      CountryCharsFromAll(body, 1);
      if CountryShape(line) && !CountryBody(line) {
        assert line[|line| - 1] == '\n';
        assert CountryBody(body);
      }
    }
  }

  lemma CountryLineIff(line: string)
    ensures (MatchesCountryPattern(line) && forall k :: 0 <= k < |BadTokens| ==> !Contains(line, BadTokens[k]))
      <==>
      && CountryShape(line)
      && (forall k, j :: 0 <= k < |BadTokens| ==> !OccursAt(line, BadTokens[k], j))
  {
    PatternIsShape(line);
    forall k | 0 <= k < |BadTokens| {
      ContainsAt(line, BadTokens[k]);
    }
  }

  /** The stored country name is never empty and differs from the heading only in case. */
  lemma CountryTitle(line: string)
    requires IsCountryLine(line)
    ensures Title(line) != []
    ensures Lower(Title(line)) == Lower(line)
    ensures IsUpperCased(Title(line)[0])
  {
  }
}
