# Faturas Processor — a Dafny model of its core

The Faturas Processor turns a credit-card statement spreadsheet into an analysis workbook.
It does four things:

- picks the sheet whose column labels best match the statement layout;
- finds the holder, card, category, description and amount columns by token matching on
  normalised labels;
- cleans the Brazilian-formatted amounts and reduces masked card numbers to their last four digits;
- splits purchases from refunds and totals them, buckets each card's spending into its three
  largest categories plus "Outras", and puts the index sheet and the consolidated sheets first.

A companion release script reads the latest `vX.Y.Z` tag and bumps it according to
`#major` / `#minor` flags in the commit subjects. It writes release notes from the commit
subjects with the flags stripped. It then splices a dated section into `VERSIONS.md` under
the "Histórico de Versões" heading.

The model is pure and functional. Each Python helper is a Dafny function over sequences,
strings, `Option` and `Result`. Regular expressions are written out as the scanners they
denote. Each operation carries a contract. A lemma relates it to an independent
characterisation, an inverse or an invariant.

Modules:

| module | file | models |
|---|---|---|
| `Wrappers`, `Seqs`, `Strings` | wrappers.dfy, seqs.dfy, strings.dfy | shared vocabulary: `Option`/`Result`, filter, subsequence, dedup, ASCII lower-casing, `strip`, `split`, `find` |
| `Headers`, `HeaderExamples` | headers.dfy, header_examples.dfy | `_normalize_header` |
| `SheetSelection` | sheets.dfy | `_best_sheet` |
| `Columns` | columns.dfy | `norm_map`, `find_col`, the required-column check |
| `Amounts` | amounts.dfy | `_coerce_brl`, up to the text handed to `float` |
| `CardDigits` | cards.dfy | `last4` |
| `Totals` | totals.dfy | `df_pos` / `df_neg` and the "Resumo Fatura" totals |
| `Buckets` | buckets.dfy | the per-card Top 3 + "Outras" table |
| `SheetOrder` | sheet_order.dfy | the final sheet reordering |
| `Semver` | semver.dfy | `parse_semver`, `bump_by_commits` |
| `Release` | release.dfy | `build_release_body`, `insert_versions_section` |

Three behaviours of the code are easy to misread:

- In `_best_sheet`, the `descricao` label scores only when ONE header contains all four of its
  tokens. `SheetSelection.CanonicalRowScoresFour` shows that the canonical row scores 4, not 5.
- `candidates.sort(reverse=True)` breaks ties on score by the greatest sheet name, not by the
  first sheet (`SheetSelection.TieGoesToGreatestName`).
- The code has no header-row scan. The first row of the chosen sheet is taken as the labels.

## Model

| member | source | states |
|---|---|---|
| Headers.AsciiFold | processor.py:37 | the ASCII-ignore encoding deletes exactly the non-ASCII characters: every ASCII character keeps all its occurrences, in the original order, and nothing else survives |
| Headers.CollapseNonAlnum | processor.py:40 | the shape of the result: only lower-case letters, digits and spaces, never two spaces in a row, empty only for empty input, and starting with a space exactly when the input starts with a character outside `a-z0-9` |
| Headers.CollapseNonAlnumByRuns | processor.py:40 | the substitution copies every letter and digit and replaces each maximal run of other characters by exactly one space, as a one-character-at-a-time reading of the pattern does |
| Headers.CollapseKeepsAlnum | processor.py:40 | the substitution keeps every letter and digit, in order, and adds none |
| Headers.CollapsedShapeIdentity | processor.py:40 | replacing non-alphanumeric runs leaves a text that is already in collapsed shape unchanged |
| Headers.CollapseWhitespaceIdentity | processor.py:41 | collapsing whitespace runs leaves a text of letters, digits and single spaces unchanged |
| Headers.StripShape | processor.py:41 | stripping a collapsed text yields the normal form: no leading, trailing or doubled space |
| Headers.StripKeepsAlnum | processor.py:41 | `strip` removes only whitespace, so every letter and digit stays, in order |
| Headers.CollapseStepsNormalForm | processor.py:40-41 | the last two substitutions followed by `strip` always produce the normal form, whatever the input |
| Headers.NormalizeHeader | processor.py:33-42 | a missing label normalises to `""`; every result is in normal form (lower-case ASCII letters and digits separated by single spaces), and its letters and digits are exactly those of the ASCII-folded, lower-cased label after the currency rewrite, in order |
| Headers.PlainLabelKeepsAlnum | processor.py:33-42 | a label with no `$`, `(` or `currency` normalises to exactly its own ASCII letters and digits, lower-cased and in order |
| Headers.CollapseNonAlnumIdentity | processor.py:40 | a text in normal form passes the non-alphanumeric collapse unchanged |
| Headers.RewriteCurrencyIdentity | processor.py:39 | a text with no `$`, `(` or `currency` has nothing the currency pattern can match and is left unchanged |
| Headers.RewriteCurrencyLeavesNoCurrency | processor.py:39 | every mention of `currency` is rewritten: none survives the substitution, not even one formed across a rewrite |
| Headers.CollapseThenLine41 | processor.py:40-41 | after the non-alphanumeric collapse the whitespace substitution of line 41 has nothing left to do, whether its pattern is read as written (`\\s+`) or as intended (`\s+`) |
| Headers.NormalizeHeaderLeavesNoCurrency | processor.py:33-42 | no normalised label contains `currency` |
| Headers.NormalizeHeaderIdempotent | processor.py:33-42 | normalising a normalised label changes nothing |
| Headers.NormalizeHeaderAsWritten | processor.py:33-42 | with the pattern exactly as written, only a missing label succeeds (giving `""`); every present label raises the pattern-compile error |
| Headers.NormalizeHeaderDiscrepancy | processor.py:39 | for every label the as-written function fails while the intended one yields a normal form |
| Headers.StarTokenNeverMatches | processor.py:40-41 | no normalised label contains `****`, so the `{"final","****"}` token set can never be satisfied |
| HeaderExamples.ValorHeaderExample | processor.py:33-42 | the label `Valor (R$)` normalises to `valor` |
| SheetSelection.SheetScore | processor.py:59-62 | a sheet scores at most one point per expected label, so at most 5 |
| SheetSelection.SheetScoreCountsLabels | processor.py:59-62 | a sheet's score is the number of expected labels that some normalised header covers with all of the label's tokens |
| SheetSelection.TokenNowhere | processor.py:61 | a label one of whose tokens appears in no header is not covered |
| SheetSelection.Candidates | processor.py:55-65 | sheets that fail to parse are skipped: there is a candidate for every parsed sheet and only for parsed sheets, and none exists exactly when no sheet parses |
| SheetSelection.CandidateLeTransitive | processor.py:66 | the `(score, name)` tuple order used by the sort is transitive |
| SheetSelection.MaxCandidate | processor.py:66-67 | the head of the reverse-sorted candidates is a candidate no other candidate exceeds |
| SheetSelection.BestSheet | processor.py:44-67 | no sheet is chosen exactly when no sheet parses; otherwise the chosen name belongs to a parsed sheet that no parsed sheet beats on score, then on name |
| SheetSelection.TieGoesToGreatestName | processor.py:66-67 | two equally scored sheets `A`, `B` give `B`: ties go to the greatest name, not the first sheet |
| SheetSelection.CanonicalRowScoresFour | processor.py:48-62 | the five canonical labels score 4 because no single label holds every `descricao` token |
| Columns.Upsert | processor.py:123 | dict assignment: an existing key keeps its position and takes the new value, a new key is appended |
| Columns.BuildNormMap | processor.py:123 | the keys of `norm_map` are the distinct normalised labels in first-occurrence order, each mapped to the LAST column with that normalised label |
| Columns.FirstMatch | processor.py:127-131 | finds the first label satisfying some alternative; none exactly when no label satisfies any |
| Columns.FindColIsFirstMatch | processor.py:125-131 | `find_col` returns the column of the first map key that satisfies any token set, or nothing when no key does |
| Columns.FirstMatchAppend | processor.py:127-131 | scanning one more label changes the first match only when there was none and the new label matches |
| Columns.DedupFirstMatch | processor.py:123-131 | deduplicating the labels keeps whether a match exists and which label text matches first |
| Columns.ResolveColumnSpec | processor.py:123-131 | a column is not found exactly when no normalised label matches any alternative; when found, it is the last column carrying the first matching label |
| Columns.FindColAgrees | processor.py:125-131 | two alternative lists that accept the same keys resolve to the same column |
| Columns.FinalStarAlternativeIsDead | processor.py:134 | the card-number column resolves exactly as if its alternatives were `{"final","cartao"}` alone |
| Columns.MissingLabels | processor.py:147 | the missing list keeps the label order and holds exactly the labels whose column was not found |
| Columns.CheckColumns | processor.py:140-150 | the required-column test passes exactly when all five required columns were found; otherwise the error carries the original labels and the non-empty, ordered list of exactly the missing labels |
| Columns.RequiredColumnIsResolved | processor.py:133-146 | each entry of `required` is the column `find_col` resolves with that label's token sets |
| Columns.CheckRequiredSpec | processor.py:123-150 | processing stops with the missing-columns error exactly when some required label has no header matching any of its token sets; on success every required column holds a matching header |
| Columns.ResolveAll | processor.py:133-138 | each of the six columns, the optional `data` included, is absent exactly when no normalised header satisfies any of its token sets, and otherwise holds a header that does |
| Columns.CheckRequired | processor.py:133-150 | the check succeeds exactly when each of the five required labels has a matching header, and then returns the resolved columns; on failure it reports the original headers and, in label order, exactly the labels without a matching header |
| Amounts.KeepNumeric | processor.py:76 | digits, `,`, `.` and `-` keep all their occurrences in their original order, and every other character is deleted |
| Amounts.CleanAmountText | processor.py:73-76 | removing `R$` and spaces before the filter changes nothing: the cleaned text is exactly the numeric characters of the input, every occurrence kept |
| Amounts.ResolveSeparators | processor.py:77-82 | with exactly one comma, the result is the text before the comma without dots, a dot, and the text after the comma without dots (so no comma and exactly one dot remain); otherwise the text is unchanged |
| Amounts.SeparatorSplit | processor.py:78-82 | with one comma, the thousands dots are dropped on both sides and the comma becomes the decimal point; with no dot both branches agree |
| Amounts.CoerceBrlText | processor.py:69-82 | a missing value stays missing; otherwise the text handed to `float` contains only numeric characters and follows the separator rule |
| Amounts.CoerceBrlTextIdempotent | processor.py:69-82 | cleaning an already cleaned amount text changes nothing |
| Amounts.CoerceBrlTextKeepsDigits | processor.py:73-82 | cleaning never adds, drops or reorders a digit or minus sign of the input |
| Amounts.CoerceBrlTextExample | processor.py:69-82 | `R$ 1.234,56` becomes `1234.56` |
| CardDigits.Tail4 | processor.py:173 | `s[-4:]`: the last four characters, or the whole text when shorter |
| CardDigits.Last4AsWritten | processor.py:170-173 | with the pattern as written, only the literal text `\dddd` is ever found; any other text falls back to its last four characters |
| CardDigits.Digit4MatchesValid | processor.py:172 | every reported run is four ASCII digits at or after the scan start, and the runs do not overlap and are in order |
| CardDigits.Digit4MatchesComplete | processor.py:172 | the scan reports nothing exactly when no run of four digits exists, and no run starts after the end of the last one reported |
| CardDigits.Last4 | processor.py:170-173 | a text with no run of four digits falls back to its last four characters; otherwise the result is the four digits of the last run `findall` reports, a run that starts a multiple of four after the start of its block of digits and has no run of four digits after it |
| CardDigits.LastRunUnique | processor.py:172-173 | at most one position is the last reported run, so the result of `last4` is determined |
| CardDigits.Last4FirstGroupOfFive | processor.py:172-173 | in `12345` the scan reports `1234` and then cannot start at `5`, so the result is `1234`, not `2345` |
| CardDigits.Last4AgreesOnMaskedNumber | processor.py:170-173 | for a masked number ending in its four digits, the as-written and intended versions both return those digits |
| CardDigits.Last4AgreesWithoutDigitRun | processor.py:170-173 | without any run of four digits, the two versions both return the last four characters |
| CardDigits.Last4Discrepancy | processor.py:172 | for `1234 ****` the as-written version returns `****` while the intended one returns `1234` |
| Totals.Purchases | processor.py:177 | `df_pos` keeps every row with a positive amount, with all its repetitions and in the original order, and no other row |
| Totals.Refunds | processor.py:178 | `df_neg` keeps every row with a negative amount, with all its repetitions and in the original order, and no other row |
| Totals.PurchasesTotalNonNegative | processor.py:201 | the total without refunds is never negative |
| Totals.RefundsTotalNonPositive | processor.py:202 | the refunds total is never positive |
| Totals.Total | processor.py:199-203 | a column sum: never negative when no amount is negative, never positive when no amount is positive |
| Totals.TotalSplits | processor.py:177-202 | the invoice total is the purchases total plus the refunds total; rows with missing or zero amounts contribute to neither |
| Totals.Summarize | processor.py:199-203 | the three summary figures are consistent: invoice = purchases + refunds, purchases ≥ 0, refunds ≤ 0 |
| Buckets.InsertSorted | processor.py:311 | inserting into a descending table keeps it descending |
| Buckets.InsertPermutes | processor.py:311 | insertion adds exactly the one row |
| Buckets.SortDescSorted | processor.py:311 | `sort_values(ascending=False)` yields a table in descending order of amount |
| Buckets.SortDescPermutes | processor.py:311 | sorting is a permutation of the category rows |
| Buckets.SortDescSum | processor.py:311 | sorting keeps the sum of the amounts |
| Buckets.TopCategories | processor.py:311-317 | at most four rows; up to three categories are kept whole and sorted; beyond three, the three largest come first and an "Outras" row carrying the rest of the sum is added exactly when that rest is positive |
| Buckets.TopCategoriesPermutesFew | processor.py:311-312 | with at most three categories the table is a permutation of them |
| Buckets.TopThreeAreLargest | processor.py:311-313 | each of the three kept categories is at least as large as every category folded into "Outras" |
| Buckets.TopCategoriesKeepsSum | processor.py:311-317 | for positive spending the chart's slices add up to the card's total spending |
| SheetOrder.Head | processor.py:348-350 | the ordered head starts with the index sheet and lists just those desired sheets that exist |
| SheetOrder.AppendStep | processor.py:351-353 | one loop step appends a sheet exactly when it is not already in the order |
| SheetOrder.ReorderSheets | processor.py:347-354 | the loop computes the head followed by the remaining sheets in workbook order without repeats |
| SheetOrder.ReorderedSpec | processor.py:347-354 | the index sheet comes first, nothing repeats, every existing sheet (and only those, plus the index) appears, and the desired sheets precede all others |
| SheetOrder.ReorderedPermutes | processor.py:347-354 | for a workbook with distinct names that contains the index sheet, the new order is a permutation of the sheets |
| Semver.DropFinalNewline | bump_and_update_versions.py:15 | `$` matches at the end or just before one final newline |
| Semver.MatchSemverSpec | bump_and_update_versions.py:15-18 | the pattern matches exactly when the tag, less one final newline, is `v` and three dot-separated ASCII digit strings, and then gives their decimal values |
| Semver.ParseSemver | bump_and_update_versions.py:14-18 | a missing tag or one that does not match `v<n>.<n>.<n>` gives `(1, 0, 0)` |
| Semver.MatchNumerals | bump_and_update_versions.py:15-18 | `v` followed by three dot-separated digit strings parses to their decimal values |
| Semver.MatchBeforeFinalNewline | bump_and_update_versions.py:15 | one trailing newline does not change the parse |
| Semver.TwoFinalNewlinesRejected | bump_and_update_versions.py:15 | two trailing newlines make the tag unparseable |
| Semver.ParseSemverReadsNumerals | bump_and_update_versions.py:14-18 | a well-formed tag, with or without one final newline, parses to its three numbers |
| Semver.FormatTagRoundTrip | bump_and_update_versions.py:14-40 | parsing a formatted `vM.m.p` tag gives the version back |
| Semver.BumpKindOf | bump_and_update_versions.py:31-40 | a major bump exactly when some subject contains `#major` ignoring case; a minor bump exactly when none does and some contains `#minor`; a patch bump otherwise |
| Semver.Bump | bump_and_update_versions.py:36-40 | each bump gives a strictly greater version, resetting the lower components |
| Semver.BumpByCommits | bump_and_update_versions.py:30-40 | the new tag is itself a well-formed tag in canonical spelling; it parses back to `1.0.0` when there is no base tag and otherwise to the base version bumped by the commit flags, which is strictly greater than the base |
| Semver.FirstReleaseIgnoresFlags | bump_and_update_versions.py:34-35 | without a base tag the flags are ignored and the tag parses as `1.0.0` |
| Semver.MajorTakesPrecedence | bump_and_update_versions.py:36-37 | once some commit carries `#major`, later commits cannot change the new tag |
| Semver.UpperCaseFlagCounts | bump_and_update_versions.py:31 | `#MAJOR` in a subject triggers a major bump |
| Release.StripFlags | bump_and_update_versions.py:49 | removing flags never lengthens the subject |
| Release.StripFlagsIsSubsequence | bump_and_update_versions.py:49 | the cleaned subject is the original with characters deleted, none added or reordered |
| Release.StripFlagsWithoutFlags | bump_and_update_versions.py:49 | a subject with no whitespace-prefixed flag is unchanged |
| Release.StripFlagsShortens | bump_and_update_versions.py:49 | a subject containing a whitespace-prefixed flag gets strictly shorter |
| Release.NoFlagLeft | bump_and_update_versions.py:49 | after the substitution no whitespace-prefixed `#major`, `#minor` or `#patch` (any case, ending at a word boundary) remains |
| Release.StripFlagsExample | bump_and_update_versions.py:49 | `Fix bug #minor` becomes `Fix bug` |
| Release.NoteLine | bump_and_update_versions.py:47-50 | a note line is `- `, then the stripped subject with characters only deleted (never added or reordered) and no flag left, then ` (author)`; a stripped subject without flags appears verbatim |
| Release.NoteLines | bump_and_update_versions.py:45-50 | one note line per commit, in commit order |
| Release.BuildReleaseBody | bump_and_update_versions.py:42-44 | with no commits the body is `Automated release <tag>.` |
| Release.ReleaseBodyLines | bump_and_update_versions.py:42-51 | with commits, the body is the `### Changes` heading followed by exactly one line per commit, in order |
| Release.NoteSubjectHasNoFlag | bump_and_update_versions.py:47-50 | no note line's subject keeps a bump flag |
| Release.VersionsText | bump_and_update_versions.py:54-57 | a missing `VERSIONS.md` is created with the title and the history heading |
| Release.Section | bump_and_update_versions.py:59 | for a single-line tag and date, the section's lines are a blank line, the `### tag — date` heading, the body's lines, a blank line, the `---` rule and an empty last line |
| Release.InsertionPoint | bump_and_update_versions.py:60-66 | no insertion point exactly when the history heading does not occur; otherwise the point is just after the end of the line of the heading's first occurrence (or the end of the file) |
| Release.InsertionPointUnique | bump_and_update_versions.py:60-66 | the insertion point is determined by the first occurrence of the heading and its line end |
| Release.InsertVersionsSection | bump_and_update_versions.py:62-67 | the existing text is kept whole: without the heading the result is the section, a newline and the file; otherwise it is the file up to the insertion point, the section, and the rest of the file |
| Release.InsertionPointStable | bump_and_update_versions.py:60-67 | after an insertion the heading's line and the insertion point are where they were |
| Release.NewestFirst | bump_and_update_versions.py:53-67 | two successive releases put the newer section above the older one, right under the heading |
| Release.DefaultFileAppends | bump_and_update_versions.py:55-67 | on a freshly created file the section is appended at the end |
| Release.UpdateVersionsFile | bump_and_update_versions.py:53-68 | without an existing file the result is the default file followed by the section |

## Left out

- Unicode NFKD decomposition (processor.py:37) is not modelled: a label is taken as already decomposed, so the ASCII-ignore step drops exactly the characters at or above 128.
- `str.lower()`, `re.I`, `\w` and `\d` are modelled on ASCII only. Python applies them to all of Unicode: non-ASCII upper-case letters, word characters and digits are treated as ordinary characters. `\s` and `strip()` are not restricted: `Strings.IsPySpace` lists Python's Unicode whitespace.
- The `float(s)` / `pd.to_numeric` conversion at the end of `_coerce_brl` (processor.py:83-89) is not modelled, because floating point is out of scope. The model stops at the cleaned text handed to `float`. Amounts elsewhere are exact `real`s, and a missing or NaN amount is `None`.
- Buckets.TopCategories: pandas' `sort_values` (processor.py:311) uses an unstable quicksort, while the model uses a stable insertion sort. The contract pins the first three rows to that stable order, so among equal amounts the model keeps the input order where pandas may pick other categories. Descending order, permutation and sum hold for any sort.
- Buckets.TopCategoriesKeepsSum: it is stated only for positive amounts, which is what the per-card groups of `df_pos` hold. With non-positive rows the "Outras" row is dropped and the sum is not kept.
- Reading the workbook with pandas/openpyxl is left out: `xl.parse` is replaced by a given list of sheets, each either readable with its labels or unreadable. Writing the workbook, charts, pie labels, column widths, currency formats, hidden sheets and `portador_map` are left out too. None of them is pure logic.
- The consolidation `groupby` tables and the per-card row filtering (processor.py:180-198, 285-310) are left out, because they are pandas aggregations. Buckets takes one card's category totals as input.
- `rename` and `pd.to_datetime` for the optional date column are left out, because they are data-frame plumbing. `Columns.ResolveAll` still resolves the `data` column.
- Choosing the sheet (processor.py:114-119) is left out: the code first tries a sheet named "Transações Originais" and calls `_best_sheet` only when that fails. `SheetSelection` models `_best_sheet` itself.
- `app.py`, the Streamlit front end, is not part of this model.
- In the release script, `git describe`, `git log`, `collect_commits`, subprocess calls, file reads and writes, `GITHUB_OUTPUT` and `main` are left out as I/O. The base tag, the commits and the file's existing text are parameters, and so is the date string from `dt.date.today()`.

## Findings

| source | as written | input that shows it | evidently intended | confidence | as-written member | corrected member |
|---|---|---|---|---|---|---|
| processor.py:39 | the raw-string pattern doubles every backslash, so `\\(r\\$?\\)` puts `?` after the anchor `$`; Python's `re` rejects this with "nothing to repeat" at compile time, so `_normalize_header` raises for every non-None label. Inside `_best_sheet` (processor.py:56-65) that error is caught by the per-sheet `try`, so every sheet with a label is skipped; the column step (processor.py:123) then raises outright. `SheetSelection` and `Columns` use the corrected normaliser | any label, e.g. `"Valor (R$)"` | single backslashes: `\(r\$?\)` and `valor\s*\(.*\)`, rewriting currency mentions to `valor` | high (not executed) | Headers.NormalizeHeaderAsWritten | Headers.NormalizeHeader |
| processor.py:172 | the raw-string pattern `(\\d{4})` matches a literal backslash followed by `dddd`, so masked card numbers are never reduced to digits and only `s[-4:]` applies | `"1234 ****"` gives `****` | `(\d{4})`: the last run of four digits, `1234` | high (not executed) | CardDigits.Last4AsWritten | CardDigits.Last4 |
