# World Heritage list extraction, modelled in Dafny

This project models the text-processing core of `lab2/data_exploration.py`. That core turns the text of the
UNESCO World Heritage list into rows of (country, site name, heritage type, year). The same file also
flattens a forum thread's comment tree into rows. Both are modelled as pure functions over strings and
sequences, with proofs of what they produce.

The pieces, one module each:

- `Chars` holds the character classes Python's `re` and `str` methods use here, plus `strip`, `in`,
  `title()`, `isupper()` and `"\n".join`.
- `Normalise` is `squash_repeats`: three or more copies of a letter become one, whitespace runs become one
  space, and the ends are stripped.
- `Headers` is `HEADER_PATTERNS` and `is_header_footer`. Each pattern is a list of pieces matched by a
  small scanner.
- `Country` is `RE_COUNTRY`, `BAD_TOKENS_IN_COUNTRY` and `is_country_line`.
- `Criteria` is `RE_TYPE_BLOCK`, `RE_CRITS`, `norm_criteria`, and the choice of Cultural, Natural or Mixed.
- `IdYear` is `RE_ID_YEAR` searched in the look-ahead window, and `parse_year`.
- `SiteName` covers the cleanup of the candidate line into a site name and the two tests that name must pass.
- `Scan` covers `splitlines`, the per-line normalisation and filter, the `while` loop over the lines of one
  column, the columns in reading order, and the final de-duplication.
- `Dedup` is `drop_duplicates(subset=...)` with `keep="first"`.
- `Comments` is `parse_children`, the recursive comment flattener.

The regular expressions are written as scanners. The comments beside each one explain why Python's
leftmost, greedy (or lazy) matching gives what the scanner reads. For `RE_TYPE_BLOCK`, the repeated group
`[ivx]+(?:\)\(|\))` goes on after `)(` and also after a lone `)`, so in `"C (i)v)(x)"` the match covers
all of `i`, `v` and `x`. `RE_CRITS.findall` on that match then reports only the runs that follow a `(`:
`i` and `x` (`Criteria.Groups`, `Criteria.BlockCrits`).

The PDF layer is a parameter. `Scan.Extract` takes the text of each column in reading order (left half,
then right half, page by page), which is what `extract_text` hands to the loop.

Facts about the code that the model keeps:

- **The current country.** `current_country` is set to `""` once, at line 160, before the page loop, and
  is only reassigned by a country line (line 177). It carries over from one column and page to the next.
  `Scan.ScanColumns` threads it through, and `Scan.ScanColumnsSplit` and `Scan.ColumnRows` state how the
  rows of one column sit inside the rows of the whole document.
- **`squash_repeats`.** The docstring at line 93 says `'Wwwwooorrrllddd' -> 'World'`. The pattern at line 94
  uses a case-sensitive back-reference and needs three or more copies, so the code gives `"Wworlld"`.
  `Normalise.CaseSensitive` and `Normalise.PairKept` state the two rules responsible.
- **Where the identifier and year are searched.** Lines 186-187 search `RE_ID_YEAR` only in
  `"\n".join(lines[i+1:i+6])`, the five lines after the candidate line, never in the candidate line itself
  (`Scan.Lookahead`, `Scan.StepAt`).
- **Country headings.** The class of `RE_COUNTRY` at line 117 holds `â`, `€` and `™` literally, so a heading
  may contain them. Python's `$` also lets a single trailing line feed through.
- **The regex module.** The source imports the `regex` module as `re`. In its default (version 0)
  behaviour, every pattern used here means the same as in the standard `re`.

## Model

| member | source | states |
|---|---|---|
| Normalise.SquashRepeats | lab2/data_exploration.py:92-96 | The result is never longer than the line. It has no leading or trailing whitespace, no three equal ASCII letters in a row, and no two whitespace characters in a row. |
| Normalise.SquashRepeatsByRuns | lab2/data_exploration.py:92-96 | Normalising a line equals the run-by-run reference: collapse letter runs, then turn every whitespace run of two or more into one space, then strip whitespace from both ends. |
| Normalise.SquashRepeatsVisible | lab2/data_exploration.py:92-96 | Normalising keeps exactly the non-whitespace characters that the letter collapse keeps, in order. |
| Normalise.SquashLetters | lab2/data_exploration.py:94 | The letter pass never lengthens the line and keeps its first character. |
| Normalise.SquashLettersCollapsesRuns | lab2/data_exploration.py:94 | The letter pass equals the run-by-run reference `CollapseRuns`: each maximal run of three or more copies of one ASCII letter becomes one copy, and every other run is kept whole. |
| Normalise.SquashLettersLeavesNoTriple | lab2/data_exploration.py:94 | After the letter pass, no ASCII letter occurs three times in a row. |
| Normalise.SquashLettersFixed | lab2/data_exploration.py:94 | A line without a triple letter passes through the letter pass unchanged. |
| Normalise.SquashSpaces | lab2/data_exploration.py:95 | The whitespace pass never lengthens the line, and the line starts with whitespace after it exactly when it did before. |
| Normalise.SquashSpacesCollapsesRuns | lab2/data_exploration.py:95 | The whitespace pass equals the run-by-run reference `CollapseSpaceRuns`: each maximal whitespace run of two or more characters becomes one space, a single whitespace character is kept as it is, and every other character is kept. |
| Normalise.SquashSpacesKeepsVisible | lab2/data_exploration.py:95 | The whitespace pass keeps every non-whitespace character, in order. |
| Normalise.SquashSpacesLeavesNoDouble | lab2/data_exploration.py:95 | After the whitespace pass, no two whitespace characters are adjacent. |
| Normalise.SquashSpacesKeepsNoTriple | lab2/data_exploration.py:94-95 | The whitespace pass cannot create a triple letter that the letter pass would have removed. |
| Normalise.SquashRepeatsIdempotent | lab2/data_exploration.py:92-96 | Normalising a normalised line returns it unchanged. |
| Normalise.CaseSensitive | lab2/data_exploration.py:93-94 | A capital followed by three copies of its lower-case letter keeps both letters, so `"Wwww"` becomes `"Ww"`, not the `"W"` the docstring shows. |
| Normalise.PairKept | lab2/data_exploration.py:93-94 | A letter doubled exactly twice, like the `ll` of the docstring's example, is kept as two letters. |
| Chars.Title | lab2/data_exploration.py:177 | `title()`: a cased character becomes upper case at the start of a word and lower case after another cased character. Other characters are kept, and the lower-cased text is unchanged. |
| Chars.Lower | lab2/data_exploration.py:114 | `lower()` keeps the length and lower-cases each character on its own. |
| Chars.IsUpperText | lab2/data_exploration.py:181 | Definition: `isupper()` holds exactly when there is at least one cased character and every cased character is upper case. |
| Chars.Join | lab2/data_exploration.py:186 | `sep.join(xs)` on a non-empty list has the summed length of the items plus one separator per neighbouring pair, and starts with the first item. |
| Chars.Strip | lab2/data_exploration.py:96 | `strip` never lengthens the string, leaves no dropped character at either end, and removes exactly the leading run of dropped characters and then the trailing run. |
| Chars.StripIdempotent | lab2/data_exploration.py:96 | Stripping a stripped string changes nothing. |
| Chars.ContainsAt | lab2/data_exploration.py:124 | Python's substring test `w in s` holds exactly when `w` occurs at some position of `s`. |
| Headers.PhraseMatches | lab2/data_exploration.py:98-110 | Every header pattern matches its plainest spelling (words joined by one space), whatever follows. |
| Headers.PhraseIsFound | lab2/data_exploration.py:114 | The search finds a pattern in every text that contains its plainest spelling. |
| Headers.IsHeaderFooter | lab2/data_exploration.py:112-114 | Definition: a line is a header or footer exactly when one of the eleven patterns matches somewhere in its lower-cased text. |
| Headers.HeaderPhraseIsHeader | lab2/data_exploration.py:112-114 | A line that contains, in any mix of case, the phrase of one of the eleven header patterns is treated as a header or footer. |
| Headers.HeaderIgnoresCase | lab2/data_exploration.py:114 | Two lines that agree up to case are either both filtered or both kept. |
| Country.IsCountryLine | lab2/data_exploration.py:117-124 | A line is a country heading exactly when all of these hold: it starts with A-Z; it has at least two characters; every later character is in the pattern's class (a final line feed is allowed); and no reserved token occurs anywhere in it. |
| Country.MatchesCountryPattern | lab2/data_exploration.py:117-122 | Definition: `RE_COUNTRY.match` succeeds exactly when the line is a capital A-Z followed by one or more class characters, or is that followed by one final line feed, which `$` allows. |
| Country.CountryLineIff | lab2/data_exploration.py:117-124 | The pattern-and-substring form of `is_country_line` is equivalent to the character-by-character form, in both directions. |
| Country.CountryCharsFromAll | lab2/data_exploration.py:117 | The repeated class `[...]+` up to `$` holds exactly when every character from position 1 on is in the class. |
| Country.CountryTitle | lab2/data_exploration.py:177 | The country name stored for a heading is not empty, starts with a capital, and differs from the heading only in case. |
| Criteria.BlockCrits | lab2/data_exploration.py:128-136 | Inside the text of a `RE_TYPE_BLOCK` match, `RE_CRITS.findall` returns the numeral runs the match read right after a `(`, in order, and never nothing. A run the match read after a lone `)` is part of the match but is not reported. |
| Criteria.GroupsAreCrits | lab2/data_exploration.py:128-129 | From the point where a run of the repeated `crit` group starts, `RE_CRITS` finds exactly the runs of that group that follow a `(`, up to the end of the match. |
| Criteria.Groups | lab2/data_exploration.py:128 | The repeated group reads one or more runs of `i`, `v`, `x` (either case) and stops inside the text. It goes on after `)(` and after a lone `)`. |
| Criteria.BlockAt | lab2/data_exploration.py:128 | A match starts at a `C` or `N` (either case), records that marker, reads at least one run after the opening `(`, and contains no other marker letter. |
| Criteria.LoneCloseBlock | lab2/data_exploration.py:128 | In `"C (i)v)(x)"` the block pattern matches the whole text and reads the runs `i`, `v` and `x`, the `v` after a lone `)`. |
| Criteria.LoneCloseCriteria | lab2/data_exploration.py:131-138 | `norm_criteria("C (i)v)(x)")` puts `i` and `x` in the cultural list and nothing in the natural list: the `v` after the lone `)` is dropped. |
| Criteria.FindCrits | lab2/data_exploration.py:129 | Every string `RE_CRITS.findall` reports is a non-empty run of Roman-numeral letters. |
| Criteria.Collect | lab2/data_exploration.py:134-137 | Every entry of both lists is a lower-case run of Roman-numeral letters. |
| Criteria.NormCriteria | lab2/data_exploration.py:131-138 | The cultural and natural lists hold only lower-case runs of Roman-numeral letters. |
| Criteria.LowerAll | lab2/data_exploration.py:137 | Every criterion is stored lower-cased, and the list keeps its length and order. |
| Criteria.CollectFinds | lab2/data_exploration.py:134-137 | A block headed by `C` (in either case) makes the cultural list non-empty. A block with any other marker makes the natural list non-empty. |
| Criteria.CollectComesFromBlocks | lab2/data_exploration.py:134-137 | A non-empty cultural or natural list comes from a block headed by the matching marker letter. |
| Criteria.TypeOf | lab2/data_exploration.py:192-199 | Mixed when both lists are non-empty, Cultural or Natural when only one is, and no type when both are empty. |
| Criteria.TypeFromMarkers | lab2/data_exploration.py:131-138 | The type chosen for a text is decided by which marker letters head a criteria block anywhere in it. |
| IdYear.MatchAt | lab2/data_exploration.py:127 | A match at `p` starts with digits, then whitespace. Its `year` group starts with `rev` or four digits and ends in a digit or a closing parenthesis. |
| IdYear.FindIdYear | lab2/data_exploration.py:187 | There is no result exactly when the pattern matches nowhere. Otherwise the result is the `year` group of the leftmost match. |
| IdYear.RangesEnd | lab2/data_exploration.py:127 | `(?:-\d{4})*` consumes greedily: the end is past only digits and hyphens, still ends on a digit, and no further `-` and four digits follow it. |
| IdYear.NoteEnd | lab2/data_exploration.py:127 | `(?:\s*\(Note.*?\))?` either reads nothing or ends on the `)` that closes the note; it never runs past the text. |
| IdYear.YearEnd | lab2/data_exploration.py:127 | The `year` group, when four digits follow the optional `rev`, lies inside the text, is at least four characters long, starts with `rev` or four digits, and ends on a digit or on the `)` of a note. |
| IdYear.SearchFrom | lab2/data_exploration.py:187 | From position `p` on: no result exactly when the pattern matches nowhere from `p`; otherwise the `year` group of the first position from `p` where it matches. |
| IdYear.YearGroupStripped | lab2/data_exploration.py:189 | The `.strip()` applied to the `year` group never changes it. |
| IdYear.YearTokens | lab2/data_exploration.py:142 | Every string `findall` returns is a year of the form 19xx or 20xx. |
| IdYear.YearTokensComplete | lab2/data_exploration.py:142 | `findall` reports a string exactly when the year pattern matches it at some position. |
| IdYear.TokensApart | lab2/data_exploration.py:142 | Two matches of the year pattern never overlap. |
| IdYear.MinFrom | lab2/data_exploration.py:145 | `min` returns one of its items, and no item is smaller than it. |
| IdYear.ParseYear | lab2/data_exploration.py:140-145 | The result is empty exactly when no year token occurs. Otherwise it is one of the tokens, a year of the form 19xx or 20xx, and no token is smaller. |
| IdYear.StrLessIsNumeric | lab2/data_exploration.py:145 | On digit strings of equal length, Python's string order is numeric order. |
| IdYear.EarliestYear | lab2/data_exploration.py:140-145 | The year returned is numerically the earliest year in the text. |
| SiteName.DropNumbers | lab2/data_exploration.py:201-202 | Removing standalone numbers never lengthens the name and removes only digits: the non-digit characters are kept, in order. |
| SiteName.DropNumbersByMatches | lab2/data_exploration.py:201-202 | The removal equals the match-by-match reference `Survivors`: a character is kept exactly when no digit run with a word boundary on both sides (of length four for line 201) covers it. |
| SiteName.DropNumbersIdempotent | lab2/data_exploration.py:202 | A second pass of the `\b\d+\b` removal removes nothing more. |
| SiteName.FixedHasNoBareNumber | lab2/data_exploration.py:202 | A name the removal leaves unchanged has no digit run with a word boundary on both sides. |
| SiteName.StripKeepsNoBareNumber | lab2/data_exploration.py:203 | Stripping `" ,;.-"` from the ends cannot expose a standalone number. |
| SiteName.CleanName | lab2/data_exploration.py:201-203 | The cleaned name is not longer than the line. It neither starts nor ends with a space, comma, semicolon, period or hyphen, and contains no standalone number. |
| SiteName.CleanNameByMatches | lab2/data_exploration.py:201-203 | The cleaned name is the line with the four-digit matches removed, then the other standalone numbers, then `" ,;.-"` stripped from both ends. |
| SiteName.CleanNameKeepsText | lab2/data_exploration.py:201-203 | The non-digit characters of the cleaned name are one contiguous piece of the non-digit characters of the line, and everything cut from the two ends of that piece is in `" ,;.-"`. |
| SiteName.AcceptedNotEmpty | lab2/data_exploration.py:205-212 | A name that passes both tests of line 205 (two ASCII letters on one line, and no case-sensitive `[CN]\s*\([ivx]`) has at least two characters, so the emptiness test of line 212 cannot reject it. |
| SiteName.AcceptedName | lab2/data_exploration.py:205 | Definition: the name is accepted exactly when it has two ASCII letters with no line feed between them and no case-sensitive `[CN]\s*\([ivx]` occurs in it. |
| SiteName.LetterPair | lab2/data_exploration.py:205 | Definition: positions `i < j` hold ASCII letters and no line feed lies between them, which is what `[A-Za-z].*[A-Za-z]` needs, since `.` stops at a line feed. |
| SiteName.TypeMarkerAt | lab2/data_exploration.py:205 | Definition: a capital `C` or `N` at `i`, then optional whitespace, then `(` and a lower-case `i`, `v` or `x`; the search has no case-folding flag. |
| Scan.SplitJoin | lab2/data_exploration.py:168 | `splitlines` undoes `"\n".join` on lines that hold no line boundary and do not end in an empty line. |
| Scan.SplitLines | lab2/data_exploration.py:168 | `splitlines` gives lines without line boundaries, and no lines exactly for the empty text. |
| Scan.KeepLines | lab2/data_exploration.py:170 | The lines kept are exactly the non-empty lines that are not headers or footers. |
| Scan.KeepLinesOne | lab2/data_exploration.py:170 | A single line is kept exactly when it is non-empty and not a header or footer. |
| Scan.KeepLinesAppend | lab2/data_exploration.py:170 | Filtering two lists of lines one after the other gives the filtered first list followed by the filtered second. |
| Scan.NormaliseLines | lab2/data_exploration.py:169 | Every line is passed through `squash_repeats`: the count of lines is kept and each result is already normalised. |
| Scan.CleanLines | lab2/data_exploration.py:169-170 | Every line handed to the loop is non-empty, is not a header or footer, and is already normalised. |
| Scan.CleanLinesIdempotent | lab2/data_exploration.py:169-170 | Normalising and filtering lines a second time changes nothing. |
| Scan.Slice | lab2/data_exploration.py:186 | A Python slice with bounds past the end is clamped, and element `k` of the slice is element `a + k` of the list. |
| Scan.Lookahead | lab2/data_exploration.py:186 | Definition: the text searched for the identifier and year is the five lines after the cursor, clamped at the end and joined by line feeds; the cursor line is not in it. |
| Scan.Tail | lab2/data_exploration.py:190 | Definition: the text searched for criteria is the look-ahead, a line feed, then the next four lines joined by line feeds. |
| Scan.IsSkipLine | lab2/data_exploration.py:181 | Definition: a line is passed over exactly when it contains `C (` or `N (` or is all upper case in the sense of `isupper`. |
| Scan.RowIf | lab2/data_exploration.py:205-213 | A row is appended exactly when all of these hold: the name has two ASCII letters on one line and no case-sensitive `[CN]\s*\([ivx]`; the country, name and year are non-empty; and a type was found. The row carries exactly those fields. |
| Scan.Candidate | lab2/data_exploration.py:185-213 | A row for a name line carries the current country, the cleaned name, the earliest year of the `year` group, and the type of the following lines' criteria. There is no row exactly when one of the checks fails. |
| Scan.StepAt | lab2/data_exploration.py:173-217 | A country line sets the title-cased country and moves on by one. A line that is neither a country line nor a criteria or all-capital line, and that has an identifier and year match in the next five lines, moves on by four and adds the candidate row for that line, if any. Every other line moves on by one and adds no row. |
| Scan.ScanFrom | lab2/data_exploration.py:172-217 | Every row the loop appends passes all checks, and its country is the starting country or one of the headings of the column. The loop appends at most one row per line. |
| Scan.RowReached | lab2/data_exploration.py:172-217 | Every row produced at a line the loop reaches appears in the output. |
| Scan.RowFromReached | lab2/data_exploration.py:172-217 | Every output row was produced at some line the loop reaches, with the country current at that line. |
| Scan.RowsInCursorOrder | lab2/data_exploration.py:172-217 | Rows produced at two reached lines appear in the output in the order of those lines. |
| Scan.ScanColumns | lab2/data_exploration.py:160-217 | Across all columns and pages, every row passes the checks. Its country is the starting country or a heading from some column. |
| Scan.ScanColumnsSplit | lab2/data_exploration.py:160-217 | Scanning the columns in two parts, the second part starting with the country the first part left behind, gives the same country and the rows of the first part followed by those of the second. |
| Scan.ColumnRows | lab2/data_exploration.py:160-217 | The rows of column `n`, scanned with the country that the earlier columns left behind, sit in the document's rows right after the rows of the earlier columns. |
| Scan.Extract | lab2/data_exploration.py:158-219 | Every row written has a non-empty country taken from a heading, a valid name and a 19xx or 20xx year. Every row written is a row the scan produced, and every key the scan produced has a row written. No two rows share a country and site name. |
| Scan.ExtractFirsts | lab2/data_exploration.py:219 | The rows written are exactly the scanned rows that come first among those with their country and site name, in scan order. |
| Scan.RowKey | lab2/data_exploration.py:219 | Definition: the de-duplication key is the pair of country and site name; the type and year do not take part. |
| Dedup.KeepFirst | lab2/data_exploration.py:219 | The rows kept have pairwise distinct keys, all come from the input, and every key not yet seen keeps a row. |
| Dedup.DropDuplicates | lab2/data_exploration.py:219 | The result has one row per key of the input and no row from outside it. |
| Dedup.DropDuplicatesKeepsFirsts | lab2/data_exploration.py:219 | `drop_duplicates` keeps exactly the rows that come first among those with their key, in their original order. |
| Comments.RowsOf | lab2/data_exploration.py:58-75 | A child adds rows exactly when it is a comment. Its own row comes first, carrying the thread id and the given parent. |
| Comments.RowOf | lab2/data_exploration.py:60-70 | Definition: a comment row carries the post id, the comment id (missing when the record has none), the given parent, and the depth, 0 when the record has none. |
| Comments.RepliesRows | lab2/data_exploration.py:58-75 | A comment's rows are its own row, then the rows of its replies with the comment as their parent: one row for each comment in the replies, each parent coming before the replies to it. |
| Comments.FlattenFrom | lab2/data_exploration.py:57-75 | From child `k` on, every row carries the post id, a first child that is a comment gives the first row, and past the last child there are no rows. |
| Comments.Flatten | lab2/data_exploration.py:56-77 | Every row carries the post id, and a first child that is a comment gives the first row. |
| Comments.Thread | lab2/data_exploration.py:77 | The top-level call gives one row per comment reachable through comments, every row under the post id, the post id as the parent of the first comment, and every other parent an earlier comment or the post. |
| Comments.FlattenCountAll | lab2/data_exploration.py:56-77 | The rows of a listing are as many as the comments (kind `t1`) reachable through comments' replies. |
| Comments.FlattenCount | lab2/data_exploration.py:57-75 | From child `k` on, there is one row per comment reachable through comments' replies. |
| Comments.RowsCount | lab2/data_exploration.py:58-75 | A child adds one row per comment in the subtree it heads, reached through comments only. |
| Comments.FlattenAppend | lab2/data_exploration.py:57-75 | The rows of a list of children are the rows of the first part followed by the rows of the second. |
| Comments.NonCommentsVanish | lab2/data_exploration.py:58-60 | A child whose kind is not `t1` adds no row, whatever lies below it. |
| Comments.FlattenParentsPrecede | lab2/data_exploration.py:56-77 | Every row's parent is the listing's own parent or a comment whose row comes earlier: a comment precedes its replies. |

## Left out

- The HTTP download, the PDF opening and `within_bbox`/`extract_text` cropping: the column texts are an input of `Scan.Extract`. The split at the horizontal midpoint is floating-point layout work that happens before any text exists.
- `get_csv` and the post record of `get_html` (lines 11-51): dataset loading, printing and the post fields are I/O with no logic to prove.
- The pass-through fields of a comment row (`author`, `body`, `score`, `created_utc`, `permalink`): they are copied from the record unchanged, so `Comments.Comment` keeps only the id, parent, depth and thread fields. `Comments.Node` holds a `replies` listing only when the field is a record, which is the `isinstance(replies, dict)` test.
- Writing the CSV and JSON files, the column selection of line 220 and the final `print`: output only.
- Unicode beyond the characters the program meets: `\d`, `\w`, cased letters, `lower()`, `upper()` and `title()` are modelled on ASCII letters plus `â`/`Â` (the one non-ASCII letter in `RE_COUNTRY`). `\s` and `splitlines` use Python's full lists of whitespace and line-boundary characters.
- Writing the CSV when no row survives: with an empty `rows`, `pd.DataFrame(rows)` at line 219 has no columns, so the column selection at line 220 raises `KeyError` and no file is written. `Scan.Extract` returns the empty table in that case; the exception is not modelled.
- Normalise.SquashRepeats: its own contract gives bounds and the absence of triples and double whitespace; the exact result is stated by `Normalise.SquashRepeatsByRuns`.
- SiteName.DropNumbers: its own contract states that only digits go; which digits go is stated by `SiteName.DropNumbersByMatches`.
- SiteName.CleanName: its own contract states the shape of the result; the exact result is stated by `SiteName.CleanNameByMatches` and `SiteName.CleanNameKeepsText`.
- Scan.KeepLines: its own contract states membership; order and multiplicity follow from `Scan.KeepLinesOne` and `Scan.KeepLinesAppend`.
- Scan.ScanFrom: its own contract states what every row satisfies; which rows appear, and in which order, is stated by `Scan.RowReached`, `Scan.RowFromReached` and `Scan.RowsInCursorOrder`.
- Scan.ScanColumns: its own contract states what every row satisfies; how the columns' rows are laid out is stated by `Scan.ScanColumnsSplit` and `Scan.ColumnRows`.
- Comments.RowsOf: its own contract gives the first row; the rows of the replies are stated by `Comments.RepliesRows` and their number by `Comments.RowsCount`.
- IdYear.MatchAt: the equivalence between the scanner and the regex engine's backtracking is argued in the comments on `RE_ID_YEAR`, not proved against a general regex semantics.
- Headers.HeaderPhraseIsHeader: states one direction only. A line containing the plain spelling of a header pattern is filtered. Lines that match through other spellings (several spaces, `notes:`, `id.no.`) are covered by the `Search` definition itself, not by a separate lemma.
