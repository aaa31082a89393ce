/**
 * Criteria blocks: `RE_TYPE_BLOCK`, `RE_CRITS`, `norm_criteria` and the
 * choice of heritage type from the two buckets.
 *
 * `RE_TYPE_BLOCK` is `(?:(?P<t>[CN])\s*\((?P<crit>[ivx]+(?:\)\(|\)))+)`
 * under `re.I`: a marker letter, optional whitespace, an opening
 * parenthesis, then one or more groups, each a run of numeral letters
 * closed by `)(` (tried first) or `)`. A group needs no `(` of its own, so
 * after a lone `)` the match may go on with another run ("(i)v)" is one
 * match); `RE_CRITS` later reports only the runs that a `(` opened.
 */
module Criteria {
  import opened Chars
  import opened Wrappers

  /** `[CN]` under `re.I`. */
  predicate IsMarker(c: char) { c == 'C' || c == 'c' || c == 'N' || c == 'n' }

  /** `[ivx]` under `re.I`. */
  predicate IsRoman(c: char) { c == 'i' || c == 'v' || c == 'x' || c == 'I' || c == 'V' || c == 'X' }

  /** A criterion as `RE_CRITS` captures it: one or more numeral letters. */
  predicate IsNumeral(c: string) {
    |c| > 0 && forall i :: 0 <= i < |c| ==> IsRoman(c[i])
  }

  /** A criterion as `norm_criteria` stores it: lower-case numeral letters. */
  predicate IsLowerNumeral(c: string) {
    |c| > 0 && forall i :: 0 <= i < |c| ==> c[i] in "ivx"
  }

  /**
   * One iteration of the `crit` group: the run of numeral letters it read,
   * and whether a `(` stands right before that run. Only such runs are
   * reported by `RE_CRITS` later.
   */
  datatype Group = Group(numerals: string, afterParen: bool)

  /**
   * The repeated `crit` group from position `i`, where `afterParen` says
   * whether a `(` precedes `i`: the groups read and the end of the match,
   * or None when not even one group matches. A group is a numeral run
   * closed by `)(` (tried first) or by `)` alone; in both cases the
   * repetition goes on, after the `(` or right after the `)`. Nothing
   * follows the repetition in the pattern, so the engine never gives an
   * iteration back: when no further group matches, the match ends after
   * the last one.
   */
  function Groups(s: string, i: nat, afterParen: bool): (g: Option<(seq<Group>, nat)>)
    requires i <= |s|
    ensures g.Some? ==> i < g.value.1 <= |s| && |g.value.0| > 0 && g.value.0[0].afterParen == afterParen
    ensures g.Some? ==> forall k :: 0 <= k < |g.value.0| ==> IsNumeral(g.value.0[k].numerals)
    decreases |s| - i
  {
    var j := SkipWhile(s, i, IsRoman);
    if j == i || j == |s| || s[j] != ')' then None
    else
      var k := if j + 1 < |s| && s[j + 1] == '(' then j + 2 else j + 1;
      match Groups(s, k, k == j + 2)
      case Some((more, e)) => Some(([Group(s[i..j], afterParen)] + more, e))
      case None => Some(([Group(s[i..j], afterParen)], k))
  }

  /** The runs of the groups that a `(` opened, in order: what `RE_CRITS` can see of them. */
  function Opened(gs: seq<Group>): (cs: seq<string>)
    ensures |cs| <= |gs|
    ensures gs != [] && gs[0].afterParen ==> cs != [] && cs[0] == gs[0].numerals
  {
    if gs == [] then [] else (if gs[0].afterParen then [gs[0].numerals] else []) + Opened(gs[1..])
  }

  /** A match of `RE_TYPE_BLOCK`: its marker letter, the groups it read and where it ends. */
  datatype Block = Block(marker: char, groups: seq<Group>, end: nat)

  /** `RE_TYPE_BLOCK` tried at position `p`. */
  function BlockAt(s: string, p: nat): (b: Option<Block>)
    requires p <= |s|
    ensures b.Some? ==> p < |s| && IsMarker(s[p]) && b.value.marker == s[p]
    ensures b.Some? ==> p < b.value.end <= |s| && |b.value.groups| > 0 && b.value.groups[0].afterParen
    ensures b.Some? ==> forall k :: p < k < b.value.end ==> !IsMarker(s[k])
  {
    if p == |s| || !IsMarker(s[p]) then None
    else
      var q := SkipWhile(s, p + 1, IsSpace);
      if q == |s| || s[q] != '(' then None
      else match Groups(s, q + 1, true)
        case Some((g, e)) => MatchHasNoMarker(s, p, q); Some(Block(s[p], g, e))
        case None => None
  }

  /** Past its marker, a match holds blanks, parentheses and numeral letters only. */
  lemma MatchHasNoMarker(s: string, p: nat, q: nat)
    requires p < |s| && q == SkipWhile(s, p + 1, IsSpace) && q < |s| && s[q] == '('
    requires Groups(s, q + 1, true).Some?
    ensures forall k :: p < k < Groups(s, q + 1, true).value.1 ==> !IsMarker(s[k])
  {
    GroupsChars(s, q + 1, true);
  }

  /** A run of groups is made of numeral letters and parentheses only. */
  lemma {:induction false} GroupsChars(s: string, i: nat, afterParen: bool)
    requires i <= |s| && Groups(s, i, afterParen).Some?
    ensures forall k :: i <= k < Groups(s, i, afterParen).value.1 ==> IsRoman(s[k]) || s[k] == '(' || s[k] == ')'
    decreases |s| - i
  {
    var j := SkipWhile(s, i, IsRoman);
    var k := if j + 1 < |s| && s[j + 1] == '(' then j + 2 else j + 1;
    if Groups(s, k, k == j + 2).Some? {
      GroupsChars(s, k, k == j + 2);
    }
  }

  /**
   * `RE_CRITS.findall(t)` from position `j`: every `(`, run of numeral
   * letters, `)` in turn, reporting the run.
   */
  function FindCrits(t: string, j: nat): (cs: seq<string>)
    requires j <= |t|
    ensures forall k :: 0 <= k < |cs| ==> IsNumeral(cs[k])
    decreases |t| - j
  {
    if j == |t| then []
    else if t[j] == '(' then
      var k := SkipWhile(t, j + 1, IsRoman);
      if k > j + 1 && k < |t| && t[k] == ')' then [t[j + 1..k]] + FindCrits(t, k + 1)
      else FindCrits(t, j + 1)
    else FindCrits(t, j + 1)
  }

  /** `c.lower() for c in crits`. */
  function LowerAll(cs: seq<string>): (r: seq<string>)
    requires forall k :: 0 <= k < |cs| ==> IsNumeral(cs[k])
    ensures |r| == |cs|
    ensures forall k :: 0 <= k < |r| ==> IsLowerNumeral(r[k]) && r[k] == Lower(cs[k])
  {
    if cs == [] then [] else LowerNumeral(cs[0]); [Lower(cs[0])] + LowerAll(cs[1..])
  }

  lemma LowerNumeral(c: string)
    requires IsNumeral(c)
    ensures IsLowerNumeral(Lower(c))
  {
    forall i | 0 <= i < |c|
      ensures Lower(c)[i] in "ivx"
    {
      assert IsRoman(c[i]);
      assert Lower(c)[i] == LowerChar(c[i]);
    }
  }

  /** The two lists `norm_criteria` fills, keyed "C" and "N" in the source. */
  datatype Buckets = Buckets(cultural: seq<string>, natural: seq<string>)

  predicate WellFormed(b: Buckets) {
    && (forall k :: 0 <= k < |b.cultural| ==> IsLowerNumeral(b.cultural[k]))
    && (forall k :: 0 <= k < |b.natural| ==> IsLowerNumeral(b.natural[k]))
  }

  /**
   * `RE_TYPE_BLOCK.finditer` from position `p`, filling the buckets: a
   * match adds the lower-cased criteria of its text to the bucket of its
   * upper-cased marker, and the search resumes where the match ended.
   */
  function Collect(s: string, p: nat): (r: Buckets)
    requires p <= |s|
    ensures WellFormed(r)
    decreases |s| - p
  {
    if p == |s| then Buckets([], [])
    else match BlockAt(s, p)
      case None => Collect(s, p + 1)
      case Some(b) =>
        var found := LowerAll(FindCrits(s[p..b.end], 0));
        var rest := Collect(s, b.end);
        if UpperChar(b.marker) == 'C' then Buckets(found + rest.cultural, rest.natural)
        else Buckets(rest.cultural, found + rest.natural)
  }

  /** `norm_criteria`. */
  function NormCriteria(block: string): (r: Buckets)
    ensures WellFormed(r)
  {
    Collect(block, 0)
  }

  datatype SiteType = Cultural | Natural | Mixed

  /** The type chosen from the buckets; None stands for the source's empty string. */
  function TypeOf(b: Buckets): (t: Option<SiteType>)
    ensures t == Some(Mixed) <==> b.cultural != [] && b.natural != []
    ensures t == Some(Cultural) <==> b.cultural != [] && b.natural == []
    ensures t == Some(Natural) <==> b.cultural == [] && b.natural != []
    ensures t == None <==> b.cultural == [] && b.natural == []
  {
    if b.cultural != [] && b.natural != [] then Some(Mixed)
    else if b.cultural != [] then Some(Cultural)
    else if b.natural != [] then Some(Natural)
    else None
  }

  // ----- The criteria of a match are the runs its groups read after a `(` -----

  /** Characters other than `(` are passed over by the criteria search. */
  lemma {:induction false} FindCritsSkip(t: string, j: nat, x: nat)
    requires j <= x <= |t|
    requires forall k :: j <= k < x ==> t[k] != '('
    ensures FindCrits(t, j) == FindCrits(t, x)
    decreases x - j
  {
    if j < x {
      FindCritsSkip(t, j + 1, x);
    }
  }

  /** One step of the criteria search at an opening parenthesis that starts a criterion. */
  lemma FindCritsStep(t: string, x: nat, k: nat, c: string)
    requires x < k < |t| && t[x] == '(' && t[k] == ')'
    requires SkipWhile(t, x + 1, IsRoman) == k && k > x + 1
    requires c == t[x + 1..k]
    ensures FindCrits(t, x) == [c] + FindCrits(t, k + 1)
  {
  }

  /**
   * One group of a successful `Groups`: the run ends at `j` with `)`, the
   * repetition resumes at `k` (after `)(` or after `)`), and the rest of
   * the match is whatever the repetition finds there.
   */
  lemma GroupsStep(s: string, i: nat, afterParen: bool, gs: seq<Group>, e: nat, j: nat, k: nat)
    requires i <= |s| && Groups(s, i, afterParen) == Some((gs, e)) && j == SkipWhile(s, i, IsRoman)
    requires k == if j + 1 < |s| && s[j + 1] == '(' then j + 2 else j + 1
    ensures i < j < e && j < |s| && s[j] == ')' && k <= e
    ensures Groups(s, k, k == j + 2).Some? ==>
      Groups(s, k, k == j + 2).value.1 == e && gs == [Group(s[i..j], afterParen)] + Groups(s, k, k == j + 2).value.0
    ensures Groups(s, k, k == j + 2).None? ==> gs == [Group(s[i..j], afterParen)] && e == k
  {
  }

  /** Inside `s[p..e]`, the criterion that starts at `i` is found by the criteria search. */
  lemma HeadCrit(s: string, p: nat, i: nat, j: nat, e: nat, t: string)
    requires p < i <= |s| && s[i - 1] == '('
    requires j == SkipWhile(s, i, IsRoman) && i < j < e <= |s| && s[j] == ')'
    requires t == s[p..e]
    ensures FindCrits(t, i - 1 - p) == [s[i..j]] + FindCrits(t, j - p + 1)
  {
    assert forall z | i - p <= z < j - p :: t[z] == s[p + z];
    SkipWhileUnique(t, i - p, j - p, IsRoman);
    assert t[i - p..j - p] == s[i..j];
    FindCritsStep(t, i - 1 - p, j - p, s[i..j]);
  }

  /** A run with no `(` before it is passed over by the criteria search, together with its `)`. */
  lemma TailSkipped(s: string, p: nat, i: nat, j: nat, e: nat, t: string)
    requires p <= i <= j < e <= |s| && s[j] == ')'
    requires forall z :: i <= z < j ==> IsRoman(s[z])
    requires t == s[p..e]
    ensures FindCrits(t, i - p) == FindCrits(t, j - p + 1)
  {
    assert forall z | i - p <= z < j - p + 1 :: t[z] == s[p + z];
    FindCritsSkip(t, i - p, j - p + 1);
  }

  /** Where the criteria search starts for a group at `i`: at its `(` when there is one, else at the run. */
  function CritStart(i: nat, afterParen: bool): int {
    if afterParen then i - 1 else i
  }

  /** What the criteria search reports for the group whose run is `s[i..j]`, before moving on past its `)`. */
  lemma GroupCrit(s: string, p: nat, i: nat, afterParen: bool, j: nat, e: nat, t: string)
    requires p <= i < |s| && (afterParen ==> p < i && s[i - 1] == '(')
    requires j == SkipWhile(s, i, IsRoman) && i < j < e <= |s| && s[j] == ')'
    requires t == s[p..e]
    ensures FindCrits(t, CritStart(i, afterParen) - p) == (if afterParen then [s[i..j]] else []) + FindCrits(t, j - p + 1)
  {
    if afterParen {
      HeadCrit(s, p, i, j, e, t);
    } else {
      TailSkipped(s, p, i, j, e, t);
    }
  }

  /**
   * From where a group starts, the criteria search inside the match finds
   * exactly the runs of the groups that a `(` opened.
   */
  lemma {:induction false} GroupsAreCrits(s: string, p: nat, i: nat, afterParen: bool, gs: seq<Group>, e: nat, t: string, x: nat)
    requires p <= i <= |s|
    requires afterParen ==> p < i && s[i - 1] == '('
    requires Groups(s, i, afterParen) == Some((gs, e))
    requires p <= e <= |s| && t == s[p..e]
    requires p + x == CritStart(i, afterParen)
    ensures x <= |t|
    ensures FindCrits(t, x) == Opened(gs)
    decreases |s| - i, 1
  {
    var j := SkipWhile(s, i, IsRoman);
    var k := if j + 1 < |s| && s[j + 1] == '(' then j + 2 else j + 1;
    GroupsStep(s, i, afterParen, gs, e, j, k);
    if Groups(s, k, k == j + 2).Some? {
      MoreGroupsCrits(s, p, i, afterParen, gs, e, t, x, j, k);
    } else {
      if k == j + 2 {
        FindCritsLast(t, j - p + 1);
      }
      CritsOfStep(s, p, i, afterParen, j, e, t, [], gs, x);
    }
  }

  /** A group followed by further groups. */
  lemma {:induction false} MoreGroupsCrits(s: string, p: nat, i: nat, afterParen: bool, gs: seq<Group>, e: nat, t: string, x: nat, j: nat, k: nat)
    requires p <= i < |s| && (afterParen ==> p < i && s[i - 1] == '(')
    requires j == SkipWhile(s, i, IsRoman) && i < j < e <= |s| && s[j] == ')'
    requires k == if j + 1 < |s| && s[j + 1] == '(' then j + 2 else j + 1
    requires p <= e && t == s[p..e] && p + x == CritStart(i, afterParen)
    requires Groups(s, k, k == j + 2).Some? && Groups(s, k, k == j + 2).value.1 == e
    requires gs == [Group(s[i..j], afterParen)] + Groups(s, k, k == j + 2).value.0
    ensures FindCrits(t, x) == Opened(gs)
    decreases |s| - i, 0
  {
    var more := Groups(s, k, k == j + 2).value.0;
    GroupsAreCrits(s, p, k, k == j + 2, more, e, t, j - p + 1);
    CritsOfStep(s, p, i, afterParen, j, e, t, more, gs, x);
  }

  /** The criteria of a group followed by those of the groups after it. */
  lemma CritsOfStep(s: string, p: nat, i: nat, afterParen: bool, j: nat, e: nat, t: string, more: seq<Group>, gs: seq<Group>, x: nat)
    requires p <= i < |s| && (afterParen ==> p < i && s[i - 1] == '(')
    requires j == SkipWhile(s, i, IsRoman) && i < j < e <= |s| && s[j] == ')'
    requires t == s[p..e] && p + x == CritStart(i, afterParen)
    requires gs == [Group(s[i..j], afterParen)] + more
    requires FindCrits(t, j - p + 1) == Opened(more)
    ensures x <= |t| && FindCrits(t, x) == Opened(gs)
  {
    var head := Group(s[i..j], afterParen);
    GroupCrit(s, p, i, afterParen, j, e, t);
    CritsCombine(t, x, j - p + 1, head, more, gs);
  }

  /** The criteria of the first group, then those of the rest. */
  lemma CritsCombine(t: string, x: nat, y: nat, head: Group, more: seq<Group>, gs: seq<Group>)
    requires x <= |t| && y <= |t|
    requires FindCrits(t, x) == (if head.afterParen then [head.numerals] else []) + FindCrits(t, y)
    requires FindCrits(t, y) == Opened(more)
    requires gs == [head] + more
    ensures FindCrits(t, x) == Opened(gs)
  {
    OpenedCons(head, more);
  }

  lemma OpenedCons(head: Group, more: seq<Group>)
    ensures Opened([head] + more) == (if head.afterParen then [head.numerals] else []) + Opened(more)
  {
    assert ([head] + more)[1..] == more;
  }

  /** A `(` as the last character starts no criterion. */
  lemma FindCritsLast(t: string, x: nat)
    requires x + 1 == |t|
    ensures FindCrits(t, x) == []
  {
    assert SkipWhile(t, x + 1, IsRoman) == x + 1;
  }

  /**
   * Within a match of `RE_TYPE_BLOCK`, `RE_CRITS` finds exactly the runs of
   * the groups that a `(` opened, in order. A run after a lone `)` is part
   * of the match but is not reported.
   */
  lemma BlockCrits(s: string, p: nat)
    requires p <= |s| && BlockAt(s, p).Some?
    ensures FindCrits(s[p..BlockAt(s, p).value.end], 0) == Opened(BlockAt(s, p).value.groups)
    ensures FindCrits(s[p..BlockAt(s, p).value.end], 0) != []
  {
    var b := BlockAt(s, p).value;
    var q := SkipWhile(s, p + 1, IsSpace);
    BlockParts(s, p, q, b);
    LaidOutCrits(s, p, q, b.groups, b.end);
  }

  /** The criteria search over text laid out as a match of `RE_TYPE_BLOCK` is. */
  lemma LaidOutCrits(s: string, p: nat, q: nat, gs: seq<Group>, e: nat)
    requires p < q < |s| && s[q] == '(' && Groups(s, q + 1, true) == Some((gs, e))
    requires forall k :: p <= k < q ==> s[k] != '('
    ensures FindCrits(s[p..e], 0) == Opened(gs) != []
  {
    var t := s[p..e];
    var x := q - p;
    GroupsAreCrits(s, p, q + 1, true, gs, e, t, x);
    OpenedCrits(s, p, q, e, t, x, Opened(gs));
  }

  /** How a match of `RE_TYPE_BLOCK` is laid out: marker, blanks, `(`, then the groups. */
  lemma BlockParts(s: string, p: nat, q: nat, b: Block)
    requires p <= |s| && BlockAt(s, p) == Some(b) && q == SkipWhile(s, p + 1, IsSpace)
    ensures p < q < |s| && s[q] == '(' && Groups(s, q + 1, true) == Some((b.groups, b.end))
    ensures forall k :: p <= k < q ==> s[k] != '('
  {
    assert forall k :: p < k < q ==> IsSpace(s[k]);
  }

  /** Text with no `(` before the opening parenthesis of the groups adds no criterion. */
  lemma OpenedCrits(s: string, p: nat, q: nat, e: nat, t: string, x: nat, cs: seq<string>)
    requires p < q < e <= |s| && p + x == q
    requires forall k :: p <= k < q ==> s[k] != '('
    requires t == s[p..e]
    requires FindCrits(t, x) == cs
    ensures FindCrits(t, 0) == cs
  {
    SliceNoOpen(s, p, q, e, t);
    FindCritsSkip(t, 0, x);
  }

  lemma SliceNoOpen(s: string, p: nat, q: nat, e: nat, t: string)
    requires p <= q <= e <= |s| && t == s[p..e]
    requires forall k :: p <= k < q ==> s[k] != '('
    ensures forall k :: 0 <= k < q - p ==> t[k] != '('
  {
    assert forall k :: 0 <= k < q - p ==> t[k] == s[p + k];
  }

  // ----- An example: a group after a lone `)` -----

  /** One group read forward: the result of `Groups` at `i` from the result where the repetition resumes. */
  lemma GroupsCons(s: string, i: nat, afterParen: bool, j: nat, k: nat)
    requires i <= |s| && j == SkipWhile(s, i, IsRoman) && i < j < |s| && s[j] == ')'
    requires k == if j + 1 < |s| && s[j + 1] == '(' then j + 2 else j + 1
    ensures Groups(s, k, k == j + 2).Some? ==>
      Groups(s, i, afterParen) == Some(([Group(s[i..j], afterParen)] + Groups(s, k, k == j + 2).value.0, Groups(s, k, k == j + 2).value.1))
    ensures Groups(s, k, k == j + 2).None? ==> Groups(s, i, afterParen) == Some(([Group(s[i..j], afterParen)], k))
  {
  }

  /** The last group of the example: `x)` at the end of the text. */
  lemma ExampleLast(s: string)
    requires s == "C (i)v)(x)"
    ensures Groups(s, 8, true) == Some(([Group("x", true)], 10))
  {
    SkipWhileUnique(s, 10, 10, IsRoman);
    assert Groups(s, 10, false).None?;
    SkipWhileUnique(s, 8, 9, IsRoman);
    GroupsCons(s, 8, true, 9, 10);
    assert s[8..9] == "x";
  }

  /** The middle group `v)(`: no `(` before it, yet the match reads it. */
  lemma ExampleMiddle(s: string)
    requires s == "C (i)v)(x)"
    ensures Groups(s, 5, false) == Some(([Group("v", false), Group("x", true)], 10))
  {
    ExampleLast(s);
    SkipWhileUnique(s, 5, 6, IsRoman);
    GroupsCons(s, 5, false, 6, 8);
    assert s[5..6] == "v";
    assert [Group("v", false)] + [Group("x", true)] == [Group("v", false), Group("x", true)];
  }

  /** The first group `i)`, opened by the block's `(`. */
  lemma ExampleFirst(s: string)
    requires s == "C (i)v)(x)"
    ensures Groups(s, 3, true) == Some(([Group("i", true), Group("v", false), Group("x", true)], 10))
  {
    ExampleMiddle(s);
    SkipWhileUnique(s, 3, 4, IsRoman);
    GroupsCons(s, 3, true, 4, 5);
    assert s[3..4] == "i";
    assert [Group("i", true)] + [Group("v", false), Group("x", true)] == [Group("i", true), Group("v", false), Group("x", true)];
  }

  /**
   * A lone `)` does not end the match: on "C (i)v)(x)" the block reads
   * the groups `i`, `v` and `x` and runs to the end of the text.
   */
  lemma LoneCloseBlock(s: string)
    requires s == "C (i)v)(x)"
    ensures BlockAt(s, 0) == Some(Block('C', [Group("i", true), Group("v", false), Group("x", true)], 10))
  {
    ExampleFirst(s);
    SkipWhileUnique(s, 1, 2, IsSpace);
  }

  /** The criteria search inside the example's match reports `i` and `x` only. */
  lemma ExampleFound(s: string)
    requires s == "C (i)v)(x)"
    ensures LowerAll(FindCrits(s[0..10], 0)) == ["i", "x"]
  {
    LoneCloseBlock(s);
    BlockCrits(s, 0);
    var gs := [Group("i", true), Group("v", false), Group("x", true)];
    assert Opened(gs) == ["i", "x"];
    assert Lower("i") == "i" && Lower("x") == "x";
  }

  /** ...and `norm_criteria` gives the cultural list `["i", "x"]`: the `v` read after the lone `)` is not reported. */
  lemma LoneCloseCriteria(s: string)
    requires s == "C (i)v)(x)"
    ensures NormCriteria(s) == Buckets(["i", "x"], [])
  {
    LoneCloseBlock(s);
    ExampleFound(s);
    CollectBlock(s, 0, BlockAt(s, 0).value, ["i", "x"]);
    assert Collect(s, 10) == Buckets([], []);
  }

  // ----- A bucket is non-empty exactly when a block with its marker occurs -----

  /** A match of `RE_TYPE_BLOCK` starts at `p` and its marker is `letter` up to case. */
  predicate BlockWith(s: string, p: nat, letter: char) {
    p < |s| && BlockAt(s, p).Some? && UpperChar(s[p]) == letter
  }

  lemma {:induction false} CollectFinds(s: string, q: nat, p: nat)
    requires q <= p < |s|
    requires BlockAt(s, p).Some?
    ensures UpperChar(s[p]) == 'C' ==> Collect(s, q).cultural != []
    ensures UpperChar(s[p]) != 'C' ==> Collect(s, q).natural != []
    decreases |s| - q
  {
    if q == p {
      CollectHere(s, p);
    } else {
      match BlockAt(s, q)
      case None =>
        CollectSkip(s, q);
        CollectFinds(s, q + 1, p);
      case Some(b) =>
        assert b.end <= p;
        CollectGrows(s, q, b);
        CollectFinds(s, b.end, p);
    }
  }

  /** A match at `q` only adds to the buckets the search after it fills. */
  lemma CollectGrows(s: string, q: nat, b: Block)
    requires q < |s| && BlockAt(s, q) == Some(b)
    ensures Collect(s, b.end).cultural != [] ==> Collect(s, q).cultural != []
    ensures Collect(s, b.end).natural != [] ==> Collect(s, q).natural != []
  {
    CollectBlock(s, q, b, LowerAll(FindCrits(s[q..b.end], 0)));
  }

  /** The match at `p` itself fills its marker's bucket. */
  lemma CollectHere(s: string, p: nat)
    requires p < |s| && BlockAt(s, p).Some?
    ensures UpperChar(s[p]) == 'C' ==> Collect(s, p).cultural != []
    ensures UpperChar(s[p]) != 'C' ==> Collect(s, p).natural != []
  {
    var b := BlockAt(s, p).value;
    var found := LowerAll(FindCrits(s[p..b.end], 0));
    CollectBlock(s, p, b, found);
    BlockCrits(s, p);
    assert found != [];
  }

  /** Where no match starts, the search moves on by one character. */
  lemma CollectSkip(s: string, q: nat)
    requires q < |s| && BlockAt(s, q).None?
    ensures Collect(s, q) == Collect(s, q + 1)
  {
  }

  /** A match at `q` puts the criteria of its text in front of its marker's bucket and leaves the other bucket alone. */
  lemma CollectBlock(s: string, q: nat, b: Block, found: seq<string>)
    requires q < |s| && BlockAt(s, q) == Some(b)
    requires found == LowerAll(FindCrits(s[q..b.end], 0))
    ensures UpperChar(b.marker) == 'C' ==>
      Collect(s, q) == Buckets(found + Collect(s, b.end).cultural, Collect(s, b.end).natural)
    ensures UpperChar(b.marker) != 'C' ==>
      Collect(s, q) == Buckets(Collect(s, b.end).cultural, found + Collect(s, b.end).natural)
  {
  }

  lemma {:induction false} CollectComesFromBlocks(s: string, q: nat)
    requires q <= |s|
    ensures Collect(s, q).cultural != [] ==> exists p :: q <= p && BlockWith(s, p, 'C')
    ensures Collect(s, q).natural != [] ==> exists p :: q <= p && BlockWith(s, p, 'N')
    decreases |s| - q
  {
    if q < |s| {
      match BlockAt(s, q)
      case None =>
        CollectComesFromBlocks(s, q + 1);
      case Some(b) =>
        CollectComesFromBlocks(s, b.end);
        assert BlockWith(s, q, UpperChar(s[q]));
    }
  }

  /**
   * The heritage type is decided by which marker letters head a criteria
   * block anywhere in the text. A match never holds a marker letter past
   * its first character (`BlockAt`), so how far a match runs does not
   * change which markers head blocks.
   */
  lemma TypeFromMarkers(s: string)
    ensures var c := exists p :: BlockWith(s, p, 'C');
            var n := exists p :: BlockWith(s, p, 'N');
            TypeOf(NormCriteria(s)) ==
              (if c && n then Some(Mixed) else if c then Some(Cultural) else if n then Some(Natural) else None)
  {
    CollectComesFromBlocks(s, 0);
    if p :| BlockWith(s, p, 'C') {
      CollectFinds(s, 0, p);
    }
    if p :| BlockWith(s, p, 'N') {
      CollectFinds(s, 0, p);
    }
  }
}
