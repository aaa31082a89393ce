/**
 * The line scan of `get_pdf`: each column of each page yields text, the
 * text is split into normalised lines, and a cursor walks the lines,
 * remembering the last country heading and emitting a row for each site
 * whose identification number and year follow within five lines. The rows
 * of all columns are then de-duplicated on (country, site name).
 *
 * Downloading the file, cropping pages into columns and extracting their
 * text are outside the model: the scan starts from the text of each
 * column, in reading order.
 */
module Scan {
  import opened Chars
  import opened Wrappers
  import opened Normalise
  import opened Headers
  import opened Country
  import opened Criteria
  import opened IdYear
  import opened SiteName
  import opened Dedup

  /** A row of the output table. The type is never the empty string in an emitted row. */
  datatype Row = Row(country: string, siteName: string, kind: SiteType, year: string)

  // ----- From column text to lines -----

  /** The line boundaries of `str.splitlines`. */
  predicate IsLineBreak(c: char) {
    || c == '\n' || c == '\r' || c == '\U{B}' || c == '\U{C}'
    || c == '\U{1C}' || c == '\U{1D}' || c == '\U{1E}'
    || c == '\U{85}' || c == '\U{2028}' || c == '\U{2029}'
  }

  predicate NotLineBreak(c: char) { !IsLineBreak(c) }

  predicate NoLineBreak(s: string) {
    forall k :: 0 <= k < |s| ==> !IsLineBreak(s[k])
  }

  /**
   * `str.splitlines()`: the pieces between line boundaries, where "\r\n"
   * counts as one boundary and a boundary at the very end does not start
   * another line.
   */
  function SplitLines(t: string): (ls: seq<string>)
    ensures forall i :: 0 <= i < |ls| ==> NoLineBreak(ls[i])
    ensures t == [] <==> ls == []
    decreases |t|
  {
    if t == [] then []
    else
      var k := SkipWhile(t, 0, NotLineBreak);
      if k == |t| then [t]
      else
        var n := if t[k] == '\r' && k + 1 < |t| && t[k + 1] == '\n' then k + 2 else k + 1;
        [t[..k]] + SplitLines(t[n..])
  }

  /**
   * Lines joined by line feeds split back into the same lines, provided no
   * line holds a boundary and the last one is not empty.
   */
  lemma {:induction false} SplitJoin(ls: seq<string>)
    requires forall i :: 0 <= i < |ls| ==> NoLineBreak(ls[i])
    requires ls != [] ==> ls[|ls| - 1] != []
    ensures SplitLines(Join("\n", ls)) == ls
  {
    if |ls| == 1 {
      SkipWhileUnique(ls[0], 0, |ls[0]|, NotLineBreak);
    } else if |ls| > 1 {
      var rest := ls[1..];
      assert forall i :: 0 <= i < |rest| ==> rest[i] == ls[i + 1];
      SplitJoin(rest);
      SplitHead(ls[0], Join("\n", rest));
      assert [ls[0]] + rest == ls;
    }
  }

  /** A line without a boundary, a line feed, then the rest: the line is split off first. */
  lemma SplitHead(a: string, rest: string)
    requires NoLineBreak(a)
    ensures SplitLines(a + "\n" + rest) == [a] + SplitLines(rest)
  {
    var t := a + "\n" + rest;
    assert forall k :: 0 <= k < |a| ==> t[k] == a[k];
    assert t[|a|] == '\n';
    SkipWhileUnique(t, 0, |a|, NotLineBreak);
    assert t[..|a|] == a;
    assert t[|a| + 1..] == rest;
  }

  /** Line 169: every line normalised by `squash_repeats`. */
  function NormaliseLines(raw: seq<string>): (ls: seq<string>)
    ensures |ls| == |raw|
    ensures forall i :: 0 <= i < |ls| ==> SquashRepeats(ls[i]) == ls[i]
  {
    forall i | 0 <= i < |raw| {
      SquashRepeatsIdempotent(raw[i]);
    }
    seq(|raw|, i requires 0 <= i < |raw| => SquashRepeats(raw[i]))
  }

  /** Line 170's test: a line is kept when it is not empty and not a header or footer. */
  predicate Kept(l: string) {
    l != [] && !IsHeaderFooter(l)
  }

  /** Line 170: the lines that pass the test, in order. */
  function KeepLines(ls: seq<string>): (r: seq<string>)
    ensures |r| <= |ls|
    ensures forall l :: l in r <==> l in ls && Kept(l)
  {
    if ls == [] then []
    else (if Kept(ls[0]) then [ls[0]] else []) + KeepLines(ls[1..])
  }

  /** The filter handles the lines one at a time: it keeps a line exactly when the line passes the test. */
  lemma KeepLinesOne(l: string)
    ensures KeepLines([l]) == if Kept(l) then [l] else []
  {
    assert [l][1..] == [];
  }

  /** Filtering a concatenation filters each part, in order. */
  lemma {:induction false} KeepLinesAppend(a: seq<string>, b: seq<string>)
    ensures KeepLines(a + b) == KeepLines(a) + KeepLines(b)
    decreases |a|
  {
    if a == [] {
      assert a + b == b;
    } else {
      assert (a + b)[0] == a[0];
      assert (a + b)[1..] == a[1..] + b;
      KeepLinesAppend(a[1..], b);
    }
  }

  /** Lines 169-170 together. */
  function CleanLines(raw: seq<string>): (ls: seq<string>)
    ensures |ls| <= |raw|
    ensures forall l :: l in ls ==> Kept(l) && SquashRepeats(l) == l
  {
    KeepLines(NormaliseLines(raw))
  }

  /** Lines that all pass the test are kept unchanged. */
  lemma {:induction false} KeepLinesAll(ls: seq<string>)
    requires forall l :: l in ls ==> Kept(l)
    ensures KeepLines(ls) == ls
  {
    if ls != [] {
      assert ls[0] in ls;
      assert forall l :: l in ls[1..] ==> l in ls;
      KeepLinesAll(ls[1..]);
      assert [ls[0]] + ls[1..] == ls;
    }
  }

  /** Cleaning the lines a second time changes nothing. */
  lemma CleanLinesIdempotent(raw: seq<string>)
    ensures CleanLines(CleanLines(raw)) == CleanLines(raw)
  {
    var ls := CleanLines(raw);
    var n := NormaliseLines(ls);
    assert forall i :: 0 <= i < |ls| ==> ls[i] in ls;
    assert n == ls;
    KeepLinesAll(ls);
  }

  /** Python's `xs[a:b]` for `0 <= a <= b`: bounds past the end are clamped. */
  function Slice(xs: seq<string>, a: nat, b: nat): (r: seq<string>)
    requires a <= b
    ensures |r| <= b - a && (r == [] || a + |r| <= |xs|)
    ensures forall k :: 0 <= k < |r| ==> r[k] == xs[a + k]
    ensures a + |r| == b || a + |r| >= |xs|
  {
    if a >= |xs| then [] else if b >= |xs| then xs[a..] else xs[a..b]
  }

  /** The text searched for the identification number and year: the next five lines. */
  function Lookahead(lines: seq<string>, i: nat): string {
    Join("\n", Slice(lines, i + 1, i + 6))
  }

  /** The text searched for criteria: the look-ahead, a line feed, then the four lines after it. */
  function Tail(lines: seq<string>, i: nat): string {
    Lookahead(lines, i) + "\n" + Join("\n", Slice(lines, i + 6, i + 10))
  }

  /** Line 181: criteria lines and all-capital lines are passed over. */
  predicate IsSkipLine(ln: string) {
    Contains(ln, "C (") || Contains(ln, "N (") || IsUpperText(ln)
  }

  /** The four fields of an emitted row pass the checks of lines 205 and 212. */
  predicate ValidRow(r: Row) {
    && r.country != []
    && r.siteName != []
    && IsYear(r.year)
    && AcceptedName(r.siteName)
    && NoBareNumber(r.siteName)
    && !IsNamePunct(r.siteName[0]) && !IsNamePunct(r.siteName[|r.siteName| - 1])
  }

  /** What one pass of the loop body does: the country after it, how far the cursor moves, the row it appends. */
  datatype Step = Step(country: string, advance: nat, row: Option<Row>)

  /**
   * The candidate row for a name line at `i` whose look-ahead matched
   * `RE_ID_YEAR` with year group `group`; None when a check rejects it.
   */
  function Candidate(lines: seq<string>, i: nat, country: string, group: string): (r: Option<Row>)
    requires i < |lines|
    ensures r.Some? ==> ValidRow(r.value) && r.value.country == country
    ensures r.Some? ==> r.value.siteName == CleanName(Strip(lines[i], IsSpace))
    ensures r.Some? ==> r.value.year == ParseYear(Strip(group, IsSpace))
    ensures r.Some? ==> Some(r.value.kind) == TypeOf(NormCriteria(Tail(lines, i)))
    ensures r.None? <==>
      || !AcceptedName(CleanName(Strip(lines[i], IsSpace)))
      || country == []
      || ParseYear(Strip(group, IsSpace)) == []
      || TypeOf(NormCriteria(Tail(lines, i))).None?
  {
    var site := CleanName(Strip(lines[i], IsSpace));
    AcceptedNotEmpty(site);
    RowIf(country, site, ParseYear(Strip(group, IsSpace)), TypeOf(NormCriteria(Tail(lines, i))))
  }

  /** The checks of lines 205 and 212 on fields already cleaned: a row only when every one passes. */
  function RowIf(country: string, site: string, year: string, typ: Option<SiteType>): (r: Option<Row>)
    requires NoBareNumber(site) && (site == [] || (!IsNamePunct(site[0]) && !IsNamePunct(site[|site| - 1])))
    requires AcceptedName(site) ==> site != []
    requires year == [] || IsYear(year)
    ensures r.Some? ==> ValidRow(r.value) && typ.Some?
    ensures r.Some? ==> r.value.country == country && r.value.siteName == site && r.value.year == year && r.value.kind == typ.value
    ensures r.None? <==> !AcceptedName(site) || country == [] || year == [] || typ.None?
  {
    if AcceptedName(site) && country != [] && year != [] && typ.Some? then
      Some(Row(country, site, typ.value, year))
    else None
  }

  /** The loop body of lines 174-217 at cursor `i`, with `country` the current country. */
  function StepAt(lines: seq<string>, i: nat, country: string): (st: Step)
    requires i < |lines|
    ensures IsCountryLine(lines[i]) ==> st == Step(Title(lines[i]), 1, None)
    ensures !IsCountryLine(lines[i]) ==> st.country == country
    ensures st.advance == 4 <==>
      !IsCountryLine(lines[i]) && !IsSkipLine(lines[i]) && FindIdYear(Lookahead(lines, i)).Some?
    ensures st.advance != 4 ==> st.advance == 1 && st.row.None?
    ensures st.row.Some? ==> ValidRow(st.row.value) && st.row.value.country == country
    ensures st.advance == 4 ==> st.row == Candidate(lines, i, country, FindIdYear(Lookahead(lines, i)).value)
  {
    var ln := lines[i];
    if IsCountryLine(ln) then Step(Title(ln), 1, None)
    else if IsSkipLine(ln) then Step(country, 1, None)
    else match FindIdYear(Lookahead(lines, i))
      case None => Step(country, 1, None)
      case Some(group) => Step(country, 4, Candidate(lines, i, country, group))
  }

  /** The state the loop carries: the current country and the rows appended so far. */
  datatype State = State(country: string, rows: seq<Row>)

  /** The country names the country lines among `lines` give. */
  function Headings(lines: seq<string>): set<string> {
    set j | 0 <= j < |lines| && IsCountryLine(lines[j]) :: Title(lines[j])
  }

  /** `name` is the given starting country or the title-cased form of one of the country lines. */
  predicate CountryFrom(lines: seq<string>, start: string, name: string) {
    name == start || name in Headings(lines)
  }

  /** The `while` loop of lines 172-217 from cursor `i`. */
  function ScanFrom(lines: seq<string>, i: nat, country: string): (st: State)
    ensures forall r :: r in st.rows ==> ValidRow(r) && CountryFrom(lines, country, r.country)
    ensures CountryFrom(lines, country, st.country)
    ensures |st.rows| <= if i < |lines| then |lines| - i else 0
    decreases |lines| - i, 1
  {
    if i >= |lines| then State(country, [])
    else
      StepCountry(lines, i, country);
      ApplyStep(lines, i, country, StepAt(lines, i, country))
  }

  /** The loop once the pass at cursor `i` has produced `step`: its row, then the passes after it. */
  function ApplyStep(lines: seq<string>, i: nat, country: string, step: Step): (st: State)
    requires i < |lines| && 1 <= step.advance
    requires step.row.Some? ==> ValidRow(step.row.value) && step.row.value.country == country
    requires CountryFrom(lines, country, step.country)
    ensures forall r :: r in st.rows ==> ValidRow(r) && CountryFrom(lines, country, r.country)
    ensures CountryFrom(lines, country, st.country)
    ensures |st.rows| <= |lines| - i
    decreases |lines| - i, 0
  {
    var next := ScanFrom(lines, i + step.advance, step.country);
    var here := if step.row.Some? then [step.row.value] else [];
    CountryFromTrans(lines, country, step.country, next);
    JoinRows(lines, country, here, next.rows);
    CountBound(|lines|, i, step.advance, |here|, |next.rows|);
    State(next.country, here + next.rows)
  }

  /** A step keeps the current country or moves to a heading of the lines. */
  lemma StepCountry(lines: seq<string>, i: nat, country: string)
    requires i < |lines|
    ensures CountryFrom(lines, country, StepAt(lines, i, country).country)
  {
    if IsCountryLine(lines[i]) {
      assert Title(lines[i]) in Headings(lines);
    }
  }

  /** What comes from a country that itself came from `start` also comes from `start`. */
  lemma CountryFromTrans(lines: seq<string>, start: string, mid: string, next: State)
    requires CountryFrom(lines, start, mid)
    requires forall r :: r in next.rows ==> ValidRow(r) && CountryFrom(lines, mid, r.country)
    requires CountryFrom(lines, mid, next.country)
    ensures forall r :: r in next.rows ==> ValidRow(r) && CountryFrom(lines, start, r.country)
    ensures CountryFrom(lines, start, next.country)
  {
  }

  /** Each pass appends at most one row and moves the cursor at least one line. */
  lemma CountBound(n: nat, i: nat, advance: nat, here: nat, rest: nat)
    requires i < n && here <= 1 <= advance
    requires rest <= if i + advance < n then n - (i + advance) else 0
    ensures here + rest <= n - i
  {
  }

  lemma JoinRows(lines: seq<string>, start: string, here: seq<Row>, rest: seq<Row>)
    requires forall r :: r in here ==> ValidRow(r) && CountryFrom(lines, start, r.country)
    requires forall r :: r in rest ==> ValidRow(r) && CountryFrom(lines, start, r.country)
    ensures forall r :: r in here + rest ==> ValidRow(r) && CountryFrom(lines, start, r.country)
  {
  }

  // ----- The rows of a scan, cursor by cursor -----

  /** The loop body as a function of cursor and country; past the last line it does nothing. */
  function PassOf(lines: seq<string>): (pass: (nat, string) -> Step)
    ensures Advances(pass)
  {
    var pass := (i: nat, c: string) => if i < |lines| then StepAt(lines, i, c) else Step(c, 1, None);
    assert forall i: nat, c: string :: pass(i, c).advance >= 1 by {
      forall i: nat, c: string
        ensures pass(i, c).advance >= 1
      {
        if i < |lines| {
          assert pass(i, c) == StepAt(lines, i, c);
        }
      }
    }
    pass
  }

  /** Every pass moves the cursor forward. */
  ghost predicate Advances(pass: (nat, string) -> Step) {
    forall i: nat, c: string :: pass(i, c).advance >= 1
  }

  /** The rows the loop appends over `n` lines from cursor `i` with country `c`, for any loop body. */
  function RowsBy(pass: (nat, string) -> Step, n: nat, i: nat, c: string): seq<Row>
    requires Advances(pass)
    decreases n - i
  {
    if i >= n then []
    else
      var st := pass(i, c);
      (if st.row.Some? then [st.row.value] else []) + RowsBy(pass, n, i + st.advance, st.country)
  }

  /** Started at cursor `i` with country `c0`, the loop comes to cursor `j` with country `c`. */
  ghost predicate ReachedBy(pass: (nat, string) -> Step, n: nat, i: nat, c0: string, j: nat, c: string)
    requires Advances(pass)
    decreases n - i
  {
    || (j == i && c == c0)
    || (i < n && ReachedBy(pass, n, i + pass(i, c0).advance, pass(i, c0).country, j, c))
  }

  /** A row produced at a cursor the loop comes to is among the loop's rows. */
  lemma {:induction false} MemberBy(pass: (nat, string) -> Step, n: nat, i: nat, c0: string, j: nat, c: string)
    requires Advances(pass) && ReachedBy(pass, n, i, c0, j, c) && j < n && pass(j, c).row.Some?
    ensures pass(j, c).row.value in RowsBy(pass, n, i, c0)
    decreases n - i
  {
    StepRowsBy(pass, n, i, c0);
    if !(j == i && c == c0) {
      var st := pass(i, c0);
      MemberBy(pass, n, i + st.advance, st.country, j, c);
    }
  }

  /** Every row comes from a pass at a cursor the loop comes to. */
  lemma {:induction false} FromReachedBy(pass: (nat, string) -> Step, n: nat, i: nat, c0: string, r: Row)
    requires Advances(pass) && r in RowsBy(pass, n, i, c0)
    ensures exists j: nat, c: string :: ReachedBy(pass, n, i, c0, j, c) && j < n && pass(j, c).row == Some(r)
    decreases n - i
  {
    var st := pass(i, c0);
    if st.row == Some(r) {
      assert ReachedBy(pass, n, i, c0, i, c0);
    } else {
      FromReachedBy(pass, n, i + st.advance, st.country, r);
      var j: nat, c: string :| ReachedBy(pass, n, i + st.advance, st.country, j, c) && j < n && pass(j, c).row == Some(r);
      assert ReachedBy(pass, n, i, c0, j, c);
    }
  }

  /** The loop never moves its cursor back. */
  lemma {:induction false} ForwardBy(pass: (nat, string) -> Step, n: nat, i: nat, c0: string, j: nat, c: string)
    requires Advances(pass) && ReachedBy(pass, n, i, c0, j, c)
    ensures i <= j
    decreases n - i
  {
    if !(j == i && c == c0) {
      ForwardBy(pass, n, i + pass(i, c0).advance, pass(i, c0).country, j, c);
    }
  }

  /** Rows produced at two cursors the loop comes to appear in the order of the cursors. */
  lemma {:induction false} OrderBy(pass: (nat, string) -> Step, n: nat, i: nat, c0: string, j1: nat, c1: string, j2: nat, c2: string)
    requires Advances(pass) && ReachedBy(pass, n, i, c0, j1, c1) && ReachedBy(pass, n, i, c0, j2, c2) && j1 < j2 < n
    requires pass(j1, c1).row.Some? && pass(j2, c2).row.Some?
    ensures var rows := RowsBy(pass, n, i, c0);
      exists k1, k2 :: 0 <= k1 < k2 < |rows| && rows[k1] == pass(j1, c1).row.value && rows[k2] == pass(j2, c2).row.value
    decreases n - i, 1
  {
    if j1 == i && c1 == c0 {
      OrderFirst(pass, n, i, c0, j2, c2);
    } else {
      ForwardBy(pass, n, i + pass(i, c0).advance, pass(i, c0).country, j1, c1);
      OrderLater(pass, n, i, c0, j1, c1, j2, c2);
    }
  }

  /** The row of the first pass comes before every later row. */
  lemma OrderFirst(pass: (nat, string) -> Step, n: nat, i: nat, c0: string, j2: nat, c2: string)
    requires Advances(pass) && ReachedBy(pass, n, i, c0, j2, c2) && i < j2 < n
    requires pass(i, c0).row.Some? && pass(j2, c2).row.Some?
    ensures var rows := RowsBy(pass, n, i, c0);
      exists k1, k2 :: 0 <= k1 < k2 < |rows| && rows[k1] == pass(i, c0).row.value && rows[k2] == pass(j2, c2).row.value
  {
    var st := pass(i, c0);
    StepRowsBy(pass, n, i, c0);
    var rows := RowsBy(pass, n, i, c0);
    var rest := RowsBy(pass, n, i + st.advance, st.country);
    assert ReachedBy(pass, n, i + st.advance, st.country, j2, c2);
    MemberBy(pass, n, i + st.advance, st.country, j2, c2);
    var k :| 0 <= k < |rest| && rest[k] == pass(j2, c2).row.value;
    assert rows[0] == st.row.value;
    assert rows[k + 1] == rest[k];
  }

  /** Two rows after the first pass keep their order behind its row. */
  lemma {:induction false} OrderLater(pass: (nat, string) -> Step, n: nat, i: nat, c0: string, j1: nat, c1: string, j2: nat, c2: string)
    requires Advances(pass) && ReachedBy(pass, n, i, c0, j1, c1) && ReachedBy(pass, n, i, c0, j2, c2) && i < j1 < j2 < n
    requires pass(j1, c1).row.Some? && pass(j2, c2).row.Some?
    ensures var rows := RowsBy(pass, n, i, c0);
      exists k1, k2 :: 0 <= k1 < k2 < |rows| && rows[k1] == pass(j1, c1).row.value && rows[k2] == pass(j2, c2).row.value
    decreases n - i, 0
  {
    var st := pass(i, c0);
    StepRowsBy(pass, n, i, c0);
    var rows := RowsBy(pass, n, i, c0);
    var here := if st.row.Some? then [st.row.value] else [];
    var rest := RowsBy(pass, n, i + st.advance, st.country);
    OrderBy(pass, n, i + st.advance, st.country, j1, c1, j2, c2);
    var k1, k2 :| 0 <= k1 < k2 < |rest| && rest[k1] == pass(j1, c1).row.value && rest[k2] == pass(j2, c2).row.value;
    assert rows[|here| + k1] == rest[k1];
    assert rows[|here| + k2] == rest[k2];
  }

  /** One pass of the loop: its row, if any, then the rows after it. */
  lemma StepRowsBy(pass: (nat, string) -> Step, n: nat, i: nat, c: string)
    requires Advances(pass) && i < n
    ensures RowsBy(pass, n, i, c)
      == (if pass(i, c).row.Some? then [pass(i, c).row.value] else []) + RowsBy(pass, n, i + pass(i, c).advance, pass(i, c).country)
  {
  }

  /** Started at cursor `i` with country `country`, the loop of lines 172-217 comes to cursor `j` with country `c`. */
  ghost predicate Reached(lines: seq<string>, i: nat, country: string, j: nat, c: string) {
    ReachedBy(PassOf(lines), |lines|, i, country, j, c)
  }

  /** The loop's rows are those its passes produce, cursor after cursor. */
  lemma {:induction false} ScanRowsBy(lines: seq<string>, i: nat, country: string)
    ensures ScanFrom(lines, i, country).rows == RowsBy(PassOf(lines), |lines|, i, country)
    decreases |lines| - i
  {
    if i < |lines| {
      var st := StepAt(lines, i, country);
      assert PassOf(lines)(i, country) == st;
      ScanRowsBy(lines, i + st.advance, st.country);
    }
  }

  /** Every row a pass produces at a cursor the loop comes to is in the output. */
  lemma RowReached(lines: seq<string>, i: nat, country: string, j: nat, c: string)
    requires Reached(lines, i, country, j, c) && j < |lines| && StepAt(lines, j, c).row.Some?
    ensures StepAt(lines, j, c).row.value in ScanFrom(lines, i, country).rows
  {
    var pass := PassOf(lines);
    assert pass(j, c) == StepAt(lines, j, c);
    ScanRowsBy(lines, i, country);
    MemberBy(pass, |lines|, i, country, j, c);
  }

  /** Every row of the output comes from a pass at a cursor the loop comes to. */
  lemma RowFromReached(lines: seq<string>, i: nat, country: string, r: Row)
    requires r in ScanFrom(lines, i, country).rows
    ensures exists j: nat, c: string :: Reached(lines, i, country, j, c) && j < |lines| && StepAt(lines, j, c).row == Some(r)
  {
    var pass := PassOf(lines);
    ScanRowsBy(lines, i, country);
    FromReachedBy(pass, |lines|, i, country, r);
    var j: nat, c: string :| ReachedBy(pass, |lines|, i, country, j, c) && j < |lines| && pass(j, c).row == Some(r);
    assert pass(j, c) == StepAt(lines, j, c);
    assert Reached(lines, i, country, j, c);
  }

  /** Rows produced at two cursors appear in the output in the order of the cursors. */
  lemma RowsInCursorOrder(lines: seq<string>, i: nat, country: string, j1: nat, c1: string, j2: nat, c2: string)
    requires Reached(lines, i, country, j1, c1) && Reached(lines, i, country, j2, c2) && j1 < j2 < |lines|
    requires StepAt(lines, j1, c1).row.Some? && StepAt(lines, j2, c2).row.Some?
    ensures var rows := ScanFrom(lines, i, country).rows;
      exists k1, k2 :: 0 <= k1 < k2 < |rows| && rows[k1] == StepAt(lines, j1, c1).row.value && rows[k2] == StepAt(lines, j2, c2).row.value
  {
    var pass := PassOf(lines);
    assert pass(j1, c1) == StepAt(lines, j1, c1);
    assert pass(j2, c2) == StepAt(lines, j2, c2);
    ScanRowsBy(lines, i, country);
    OrderBy(pass, |lines|, i, country, j1, c1, j2, c2);
  }

  /** The lines of one column: `text.splitlines()`, normalised and filtered. */
  function ColumnLines(text: string): seq<string> {
    CleanLines(SplitLines(text))
  }

  /** The rows and final country of one column, starting from the country the previous column left. */
  function ScanColumn(text: string, country: string): State {
    ScanFrom(ColumnLines(text), 0, country)
  }

  /** The country names given by the country lines of all columns. */
  function AllHeadings(texts: seq<string>): set<string> {
    if texts == [] then {} else Headings(ColumnLines(texts[0])) + AllHeadings(texts[1..])
  }

  /**
   * All columns in reading order. The current country is set once, before
   * the first page, and carries over from one column and page to the next.
   */
  function ScanColumns(texts: seq<string>, country: string): (st: State)
    ensures forall r :: r in st.rows ==> ValidRow(r) && (r.country == country || r.country in AllHeadings(texts))
    ensures st.country == country || st.country in AllHeadings(texts)
  {
    if texts == [] then State(country, [])
    else
      var first := ScanColumn(texts[0], country);
      var rest := ScanColumns(texts[1..], first.country);
      State(rest.country, first.rows + rest.rows)
  }

  /** The scan of one column as a function of its text and the country it starts with. */
  function ColumnOf(): (string, string) -> State {
    (t: string, c: string) => ScanColumn(t, c)
  }

  /** All columns in order for any scan of one column, the country carried from each column to the next. */
  function ColumnsBy(col: (string, string) -> State, texts: seq<string>, country: string): State {
    if texts == [] then State(country, [])
    else
      var first := col(texts[0], country);
      var rest := ColumnsBy(col, texts[1..], first.country);
      State(rest.country, first.rows + rest.rows)
  }

  lemma {:induction false} ScanColumnsBy(texts: seq<string>, country: string)
    ensures ScanColumns(texts, country) == ColumnsBy(ColumnOf(), texts, country)
  {
    if texts != [] {
      var first := ScanColumn(texts[0], country);
      assert ColumnOf()(texts[0], country) == first;
      ScanColumnsBy(texts[1..], first.country);
    }
  }

  lemma {:induction false} SplitBy(col: (string, string) -> State, texts: seq<string>, country: string, n: nat)
    requires n <= |texts|
    ensures var left := ColumnsBy(col, texts[..n], country);
      var right := ColumnsBy(col, texts[n..], left.country);
      ColumnsBy(col, texts, country) == State(right.country, left.rows + right.rows)
    decreases n
  {
    if n == 0 {
      assert texts[..0] == [] && texts[0..] == texts;
    } else {
      var first := col(texts[0], country);
      SplitBy(col, texts[1..], first.country, n - 1);
      assert texts[..n][0] == texts[0];
      assert texts[..n][1..] == texts[1..][..n - 1];
      assert texts[1..][n - 1..] == texts[n..];
      var left' := ColumnsBy(col, texts[1..][..n - 1], first.country);
      var right := ColumnsBy(col, texts[n..], left'.country);
      assert first.rows + (left'.rows + right.rows) == (first.rows + left'.rows) + right.rows;
    }
  }

  /**
   * The columns are scanned one after the other: the rows of the first `n`
   * columns, then the rows of the rest scanned from the country the first
   * `n` left.
   */
  lemma ScanColumnsSplit(texts: seq<string>, country: string, n: nat)
    requires n <= |texts|
    ensures var left := ScanColumns(texts[..n], country);
      var right := ScanColumns(texts[n..], left.country);
      ScanColumns(texts, country) == State(right.country, left.rows + right.rows)
  {
    ScanColumnsBy(texts, country);
    ScanColumnsBy(texts[..n], country);
    ScanColumnsBy(texts[n..], ScanColumns(texts[..n], country).country);
    SplitBy(ColumnOf(), texts, country, n);
  }

  /**
   * The rows of column `n`, scanned from the country the columns before it
   * left, appear whole and in order in the output, after the rows of those
   * columns.
   */
  lemma ColumnRows(texts: seq<string>, country: string, n: nat, left: State, cur: seq<Row>, rows: seq<Row>)
    requires n < |texts| && left == ScanColumns(texts[..n], country) && rows == ScanColumns(texts, country).rows
    requires cur == ScanColumn(texts[n], left.country).rows
    ensures |left.rows| + |cur| <= |rows| && rows[..|left.rows|] == left.rows && rows[|left.rows|..|left.rows| + |cur|] == cur
  {
    ScanColumnsBy(texts, country);
    ScanColumnsBy(texts[..n], country);
    assert ColumnOf()(texts[n], left.country).rows == cur;
    ColumnRowsAt(ColumnOf(), texts, country, n, left, cur, rows);
  }

  lemma ColumnRowsAt(col: (string, string) -> State, texts: seq<string>, country: string, n: nat, left: State, cur: seq<Row>, rows: seq<Row>)
    requires n < |texts| && left == ColumnsBy(col, texts[..n], country) && rows == ColumnsBy(col, texts, country).rows
    requires cur == col(texts[n], left.country).rows
    ensures |left.rows| + |cur| <= |rows| && rows[..|left.rows|] == left.rows && rows[|left.rows|..|left.rows| + |cur|] == cur
  {
    var left := ColumnsBy(col, texts[..n], country);
    SplitBy(col, texts, country, n);
    ColumnRowsBy(col, texts[n..], left.country, left.rows, ColumnsBy(col, texts, country).rows);
    assert texts[n..][0] == texts[n];
  }

  /** The first column's rows come right after whatever precedes the columns. */
  lemma ColumnRowsBy(col: (string, string) -> State, texts: seq<string>, country: string, before: seq<Row>, rows: seq<Row>)
    requires texts != [] && rows == before + ColumnsBy(col, texts, country).rows
    ensures var first := col(texts[0], country).rows;
      |before| + |first| <= |rows| && rows[..|before|] == before && rows[|before|..|before| + |first|] == first
  {
    var first := col(texts[0], country);
    var rest := ColumnsBy(col, texts[1..], first.country);
    assert rows == before + first.rows + rest.rows;
  }

  /** The de-duplication key of line 219. */
  function RowKey(r: Row): (string, string) {
    (r.country, r.siteName)
  }

  /**
   * The table `get_pdf` writes: the rows of all columns, the current
   * country starting empty, de-duplicated on (country, site name).
   */
  function Extract(texts: seq<string>): (rows: seq<Row>)
    ensures forall r :: r in rows ==> ValidRow(r) && r.country in AllHeadings(texts)
    ensures forall r :: r in rows ==> r in ScanColumns(texts, "").rows
    ensures forall r :: r in ScanColumns(texts, "").rows ==> HasKey(rows, RowKey, RowKey(r))
    ensures forall k, l :: 0 <= k < l < |rows| ==> RowKey(rows[k]) != RowKey(rows[l])
  {
    var all := ScanColumns(texts, "").rows;
    var rows := DropDuplicates(all, RowKey);
    rows
  }

  /** The table holds exactly the first scanned row of each (country, site name), in scan order. */
  lemma ExtractFirsts(texts: seq<string>)
    ensures Extract(texts) == FirstsFrom(ScanColumns(texts, "").rows, RowKey, 0)
  {
    DropDuplicatesKeepsFirsts(ScanColumns(texts, "").rows, RowKey);
  }
}
