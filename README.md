# RUG learning games: glossary segmenter, review engine and performance counts

This project models the three pieces of logic at the heart of the
`cog_psy_game` study tool. It proves properties of each.

- **Glossary segmenter** (`cog_psy_game/csv_maker.py`, module `CsvMaker`).
  Raw glossary lines become `(term, definition)` rows.
  - Each line is stripped. An opening line is split at its first capital.
  - The following lines are appended to the definition, each after a space,
    until a line matches the chapter citation pattern `(Ch. \d+)`.
  - `Segment` is an entry-by-entry reference definition. `TextToCsv` is the
    source's line-by-line loop, proved to compute it.
- **Review engine** (`cog_psy_game/game.py`, module `Game`).
  - `PrioritizeTerms` keeps the term rows with fewer than
    `PRACTICE_TRESHOLD` (2) recorded attempts.
  - `HistoryStore` is the history file. `Load` treats a missing file as an
    empty history. `UpdateHistory` appends one attempt.
  - `RunGame` is `main`'s flash-card loop, driven by a sequence of console
    answers.
- **Performance counts** (`cog_psy_game/show_performance.py`, module
  `ShowPerformance`).
  - `ProcessCsvData` folds the history rows into per-term
    `(correct, total)` counters, keeping the dictionary's insertion order.
  - It then computes the per-term and overall success rates.

`text.dfy` holds the character helpers all three share. `wrappers.dfy` holds
`Option` and `Result`.

Two behaviours of the code are worth stating plainly:

- The docstring of `ends_with_chapter` (`csv_maker.py` lines 40-46) says it
  checks whether a line ends with "(Ch. number)". Its regular expression
  (line 48) is unanchored. The parentheses form a group, and the `.` matches
  any character but a newline, so `Chi 2` anywhere in a line closes an entry
  (`CsvMaker.CitationExamples`). The model follows the regular expression.
- The line that opens an entry is never tested for a citation. A text made
  of one line that carries its own citation therefore yields no row
  (`CsvMaker.OneLineEntryIsLost`).

## Model

| member | source | states |
|---|---|---|
| Text.IsUpper | cog_psy_game/csv_maker.py:34 | `char.isupper()` on one character, read as an ASCII capital |
| Text.IsDigit | cog_psy_game/csv_maker.py:48 | the regex class `\d`, read as an ASCII decimal digit |
| Text.IsSpace | cog_psy_game/csv_maker.py:23 | exactly the characters `str.strip()` removes: Python's full `str.isspace` set |
| Text.LowerChar | cog_psy_game/game.py:120 | `str.lower` on one character: an ASCII capital becomes its lower-case letter, every other character is kept, and the result is never a capital |
| Text.Lower | cog_psy_game/show_performance.py:35 | `str.lower` keeps the length and lowers each character, and only ASCII capitals change |
| Text.LowerCharIs | cog_psy_game/game.py:120 | a character lowers to a given lower-case letter iff it is that letter or its capital |
| CsvMaker.StripLeft | cog_psy_game/csv_maker.py:23 | `lstrip`: drops leading characters while they are Python whitespace; characterised by `StripLeftSpec` |
| CsvMaker.StripRight | cog_psy_game/csv_maker.py:23 | `rstrip`: drops trailing characters while they are Python whitespace; characterised by `StripRightSpec` |
| CsvMaker.Sanitize | cog_psy_game/csv_maker.py:13-23 | `sanitize_text`: `text.strip()`, the left strip then the right strip; characterised by `SanitizeSpec` and `SanitizeIdempotent` |
| CsvMaker.StripLeftSpec | cog_psy_game/csv_maker.py:23 | `lstrip` removes exactly the leading run of whitespace and leaves a suffix that does not start with whitespace |
| CsvMaker.StripRightSpec | cog_psy_game/csv_maker.py:23 | `rstrip` removes exactly the trailing run of whitespace and leaves a prefix that does not end with whitespace |
| CsvMaker.SanitizeSpec | cog_psy_game/csv_maker.py:23 | `sanitize_text` returns a contiguous slice of its input: only whitespace is removed, only at the two ends, and the inner characters are untouched |
| CsvMaker.SanitizeIdempotent | cog_psy_game/csv_maker.py:23 | sanitizing twice is sanitizing once |
| CsvMaker.SanitizeKeeps | cog_psy_game/csv_maker.py:23 | a line without whitespace at either end is returned unchanged |
| CsvMaker.FirstCapital | cog_psy_game/csv_maker.py:33-36 | the result of `find_first_capital` as a recursive scan, always -1 or an index of the string; its meaning is `FirstCapitalSpec` |
| CsvMaker.FirstCapitalSpec | cog_psy_game/csv_maker.py:33-36 | the scan result is -1 iff no character is a capital, and otherwise the smallest index of a capital |
| CsvMaker.FindFirstCapital | cog_psy_game/csv_maker.py:26-36 | the loop with early return computes that scan result |
| CsvMaker.FirstCapitalAt | cog_psy_game/csv_maker.py:33-36 | a capital with no capital before it is the index found |
| CsvMaker.CitationAt | cog_psy_game/csv_maker.py:48 | the pattern `Ch. \d+` matching at one position: `C`, `h`, any non-newline character, a space, a digit (further digits do not change whether it matches) |
| CsvMaker.SearchFrom | cog_psy_game/csv_maker.py:48 | `re.search` of that pattern from a start position onwards; characterised by `SearchFromSpec` |
| CsvMaker.EndsWithChapter | cog_psy_game/csv_maker.py:39-48 | `ends_with_chapter`: the search over the whole line, so the match may be anywhere; characterised by `EndsWithChapterSpec` |
| CsvMaker.SearchFromSpec | cog_psy_game/csv_maker.py:48 | the search from position `k` succeeds iff the pattern matches at some position at or after `k` |
| CsvMaker.EndsWithChapterSpec | cog_psy_game/csv_maker.py:48 | `ends_with_chapter` holds iff `C`, `h`, any non-newline character, a space and a digit occur anywhere in the line: the match is unanchored |
| CsvMaker.CitationExamples | cog_psy_game/csv_maker.py:48 | `(Ch. 1)`, `Ch. 12 on` (no brackets) and `Chi 2` (any third character) are all accepted |
| CsvMaker.CitationNeedsSpace | cog_psy_game/csv_maker.py:48 | `Chapter 3` is refused: the fourth character must be a space |
| CsvMaker.PyIndex | cog_psy_game/csv_maker.py:75-76 | Python's slice-bound normalisation always lands within the string |
| CsvMaker.SliceBounds | cog_psy_game/csv_maker.py:75-76 | where the bounds `i - 1` and `i` land for every possible scan result, negative ones included |
| CsvMaker.TermBefore | cog_psy_game/csv_maker.py:75 | `line[:i - 1]` with Python's slice-bound normalisation |
| CsvMaker.RestFrom | cog_psy_game/csv_maker.py:76 | `line[i:]` with Python's slice-bound normalisation |
| CsvMaker.OpeningTerm | cog_psy_game/csv_maker.py:74-75 | the term of an opening line, cut in front of its first capital; its cases are `OpeningSplit` |
| CsvMaker.OpeningRest | cog_psy_game/csv_maker.py:74-76 | the start of the definition, from the first capital on; its cases are `OpeningSplit` |
| CsvMaker.OpeningSplit | cog_psy_game/csv_maker.py:74-76 | the opening split: a capital at `i >= 1` gives the term `line[..i-1]` (one character lost) and the definition `line[i..]`; a capital at 0 gives the line minus its last character and the whole line; no capital gives the line minus its last two characters and its last character |
| CsvMaker.OpeningDropsSeparator | cog_psy_game/csv_maker.py:74-76 | a lower-case term, one separator and a capitalised definition split into exactly that term and that definition |
| CsvMaker.IsCitationLine | cog_psy_game/csv_maker.py:70-78 | the test that closes an open entry: `ends_with_chapter` of the stripped line |
| CsvMaker.FirstCitation | cog_psy_game/csv_maker.py:78 | the index of the first citation line, when found, is within the lines |
| CsvMaker.FirstCitationSpec | cog_psy_game/csv_maker.py:78 | that index is a citation line with none before it, and none is found iff no line is a citation |
| CsvMaker.FirstCitationAt | cog_psy_game/csv_maker.py:78 | a citation line with none before it is the one found |
| CsvMaker.Continuation | cog_psy_game/csv_maker.py:80-85 | what the lines after the opening line add to the definition: `" " + s` for each stripped line `s`, in order, blank lines included |
| CsvMaker.Segment | cog_psy_game/csv_maker.py:69-85 | the rows of the text, entry by entry: the first line opens an entry whatever it holds, the entry closes at the first later citation line, and an unclosed entry is dropped; the loop computes it (`TextToCsv`) |
| CsvMaker.Pending | cog_psy_game/csv_maker.py:78-85 | the rows still to come while an entry is open; its steps are `PendingCloses` and `PendingExtends` |
| CsvMaker.PendingCloses | cog_psy_game/csv_maker.py:78-82 | with an entry open, a citation line closes it with the definition extended by a space and that line, and reading resumes after it |
| CsvMaker.PendingExtends | cog_psy_game/csv_maker.py:84-85 | with an entry open, any other line is appended after a space, and the entry stays open |
| CsvMaker.SegmentBlock | cog_psy_game/csv_maker.py:69-85 | an entry block (opening line, non-citation lines, citation line) yields exactly its one entry, and reading resumes after it |
| CsvMaker.SegmentBlocks | cog_psy_game/csv_maker.py:69-85 | a text of N entry blocks yields exactly N entries, one per block, in input order |
| CsvMaker.NoClosingNoEntry | cog_psy_game/csv_maker.py:72-85 | with no citation line after the first line, nothing is emitted: an unclosed entry is dropped |
| CsvMaker.SegmentBlocksThenTail | cog_psy_game/csv_maker.py:69-85 | entry blocks followed by a tail with no later citation line yield one entry per block, in order: the number of rows is the number of closing citation lines, and the unclosed tail is dropped |
| CsvMaker.SegmentBound | cog_psy_game/csv_maker.py:69-85 | every entry consumes at least two lines |
| CsvMaker.PendingBound | cog_psy_game/csv_maker.py:78-85 | the same bound while an entry is open |
| CsvMaker.OneLineEntryIsLost | cog_psy_game/csv_maker.py:72-81 | a single line carrying its own citation only opens an entry, so it yields no row |
| CsvMaker.OpensEntry | cog_psy_game/csv_maker.py:72-76 | with no entry open, any line opens one, split at its first capital |
| CsvMaker.ClosesEntry | cog_psy_game/csv_maker.py:78-82 | a citation line moves the open entry to the collected rows and resets the definition |
| CsvMaker.ReadLine | cog_psy_game/csv_maker.py:70-85 | one pass of the loop body keeps "collected rows followed by what the unread lines yield" unchanged |
| CsvMaker.TextToCsv | cog_psy_game/csv_maker.py:63-85 | the line-by-line loop collects exactly the entries `Segment` defines |
| Game.AttemptCount | cog_psy_game/game.py:70-75 | a term's attempt count never exceeds the history's length |
| Game.AttemptCountIsMultiplicity | cog_psy_game/game.py:70-75 | the count is the term's multiplicity among the history's terms, and 0 for a term never attempted |
| Game.AttemptCountAppend | cog_psy_game/game.py:70-75 | one more attempt adds one to its own term's count and nothing to any other |
| Game.AttemptCountGrows | cog_psy_game/game.py:75-77 | more history never lowers a count |
| Game.PracticeThreshold | cog_psy_game/game.py:13 | `PRACTICE_TRESHOLD = 2`: the number of attempts after which a term is no longer due |
| Game.NeedsReview | cog_psy_game/game.py:76 | the `Needs Review` column: fewer than `PRACTICE_TRESHOLD` attempts, with a never-attempted term at 0 (the `fillna(0)`) |
| Game.PrioritizeTerms | cog_psy_game/game.py:70-78 | `prioritize_terms` returns no more rows than the table has |
| Game.PrioritizeMembers | cog_psy_game/game.py:70-77 | a row is due iff it is in the table and its term has fewer than `PRACTICE_TRESHOLD` (2) attempts |
| Game.PrioritizeIsSubsequence | cog_psy_game/game.py:70-77 | the due rows are the table's rows, unchanged, in table order |
| Game.PrioritizeMultiplicity | cog_psy_game/game.py:70-77 | duplicated rows are kept or dropped together: a due row occurs as often as in the table, any other row not at all |
| Game.PrioritizeEmptyHistory | cog_psy_game/game.py:75-77 | with an empty history every row is due |
| Game.PrioritizeShrinks | cog_psy_game/game.py:75-77 | added history can only remove rows from the due set, never add them |
| Game.TwoAttemptsMaster | cog_psy_game/game.py:70-77 | one term with an empty history is due, and after two attempts at it, right or wrong, it is not |
| Game.DeficitZeroIffNoneDue | cog_psy_game/game.py:106-109 | the attempts still lacking sum to 0 iff nothing is due |
| Game.DeficitNonIncreasing | cog_psy_game/game.py:106-109 | one more attempt never increases the attempts still lacking |
| Game.DeficitDrops | cog_psy_game/game.py:106-124 | an attempt at a due row strictly lowers the attempts still lacking |
| Game.LoadHistory | cog_psy_game/game.py:38-41 | the history a file holds, and an empty history for a missing file |
| Game.HistoryStore.Load | cog_psy_game/game.py:38-41 | `load_history` returns the file's rows, and an empty history when the file is missing |
| Game.HistoryStore.UpdateHistory | cog_psy_game/game.py:89-93 | the file afterwards holds the old history, unchanged, with exactly one attempt `(term, timestamp, correct)` appended |
| Game.IsAffirmative | cog_psy_game/game.py:120-121 | the outcome test: the lowered assessment equals `y`; characterised by `AffirmativeIff` |
| Game.AffirmativeIff | cog_psy_game/game.py:120-124 | an answer is recorded as correct iff it is `y` or `Y` |
| Game.PlayRound | cog_psy_game/game.py:111-124 | one round picks a due pair, shows its definition iff the show-answer line is empty, grades it by the assessment, and the history file then exists and holds the old history plus exactly that attempt |
| Game.RunGame | cog_psy_game/game.py:101-124 | `main` as written: it ends with the mastered message iff the due set of the history loaded at the start is empty; otherwise it reads every answer; every pick is due in that initial history; the store gains exactly one attempt per round |
| Game.RunGameRefreshed | cog_psy_game/game.py:105-124 | `main` with the history reloaded each round: every pick is due in the history as it stands at that round, the loop stops exactly when nothing is due, and it reaches the mastered message within `Deficit` answers |
| ShowPerformance.SuccessRate | cog_psy_game/show_performance.py:14-17 | `calculate_success_rate` is 0 with no attempts, otherwise correct / total × 100, and within 0..100 when correct ≤ total |
| ShowPerformance.IsTrueField | cog_psy_game/show_performance.py:35 | `is_correct.lower() == "true"`; characterised by `TrueFieldSpellings` |
| ShowPerformance.Credit | cog_psy_game/show_performance.py:35 | the `1 if ... else 0` a row adds to its correct count |
| ShowPerformance.TrueFieldSpellings | cog_psy_game/show_performance.py:35 | a field counts as correct iff it spells `true` in any mix of cases |
| ShowPerformance.Successes | cog_psy_game/show_performance.py:33-36 | a term's correct count never exceeds its occurrences |
| ShowPerformance.Unpack | cog_psy_game/show_performance.py:30 | `term, _, is_correct = row` on a row of exactly three fields |
| ShowPerformance.Current | cog_psy_game/show_performance.py:21-33 | `term_data[term]` on the `defaultdict`: the stored counter, or `(0, 0)` for a new term |
| ShowPerformance.Count | cog_psy_game/show_performance.py:33-37 | one row's update of `term_data`: its term's counter gains the row's credit and one attempt, every other counter is kept |
| ShowPerformance.Tally | cog_psy_game/show_performance.py:29-37 | `term_data` after the rows; its counters are `TallyCounts` |
| ShowPerformance.KeyOrder | cog_psy_game/show_performance.py:33-34 | the insertion order of `term_data`'s keys, the order `.items()` and `.values()` iterate in; characterised by `KeyOrderSpec` |
| ShowPerformance.Terms | cog_psy_game/show_performance.py:23-31 | the `terms` list: each row's term appended in row order |
| ShowPerformance.FoldStep | cog_psy_game/show_performance.py:29-37 | one more row appends its term, bumps only its own counter, and adds its term to the key order iff the term is new |
| ShowPerformance.TallyCounts | cog_psy_game/show_performance.py:29-37 | a term has a counter iff it occurs, and the counter holds that term's rows read as true and its number of rows |
| ShowPerformance.KeyOrderSpec | cog_psy_game/show_performance.py:33-34 | the dictionary's key order lists each counted term exactly once |
| ShowPerformance.SumCounters | cog_psy_game/show_performance.py:44-45 | the component-wise `sum(...)` over `term_data.values()` in key order |
| ShowPerformance.TallySums | cog_psy_game/show_performance.py:44-45 | summed over all keys, the totals add up to the number of rows and the correct counts to the rows read as true |
| ShowPerformance.Rates | cog_psy_game/show_performance.py:39-42 | the `success_rates` comprehension: each key of `term_data` mapped to its rate |
| ShowPerformance.FinishAsWritten | cog_psy_game/show_performance.py:39-48 | lines 39-48 as written: the generator at line 44 sums the totals, so the overall rate is total over total |
| ShowPerformance.SummaryAsWritten | cog_psy_game/show_performance.py:20-48 | the program's actual result for rows that all unpack; its overall rate is `OverallAsWrittenIsAllOrNothing` |
| ShowPerformance.Finish | cog_psy_game/show_performance.py:39-48 | lines 39-48 with line 44 summing the correct counts, as intended |
| ShowPerformance.Summary | cog_psy_game/show_performance.py:20-48 | the corrected result for rows that all unpack; its parts are `TermsPerRow`, `RatesPerTerm` and `OverallRate` |
| ShowPerformance.RatesPerTerm | cog_psy_game/show_performance.py:39-42 | every counted term has a rate, and only those; the rate is its own successes over its own occurrences, within 0..100 |
| ShowPerformance.TermsPerRow | cog_psy_game/show_performance.py:31 | `terms` has one entry per row, in row order, duplicates included |
| ShowPerformance.OverallRate | cog_psy_game/show_performance.py:44-46 | the corrected overall rate is the rows read as true over all rows, within 0..100 |
| ShowPerformance.OverallAsWrittenIsAllOrNothing | cog_psy_game/show_performance.py:44-46 | as written, terms and per-term rates are as intended, but the overall rate is 100 whenever there is a row and 0 otherwise |
| ShowPerformance.OneWrongAnswer | cog_psy_game/show_performance.py:44 | a single wrong answer is reported as 100% overall as written, and 0% once corrected |
| ShowPerformance.AddRow | cog_psy_game/show_performance.py:30-37 | one pass of the loop body keeps `terms`, `term_data` and its key order equal to the fold of the rows read so far plus this row |
| ShowPerformance.ProcessCsvData | cog_psy_game/show_performance.py:20-48 | it succeeds iff every row has exactly three fields; otherwise it fails at the first row that does not; on success it returns the terms, the per-term rates and the (corrected) overall rate of the unpacked rows |

## Left out

- Reading and writing files is not modelled: `open`, `read_csv`, `to_csv`, the CSV reader and its header skip. Tables arrive as sequences of rows. `HistoryStore` keeps the file as a sequence of attempts.
- `text.splitlines()` is left out: `TextToCsv` receives the lines.
- pandas' merge, group-by, `fillna` and `drop` are replaced by the count and filter they implement. Filling missing definitions with 0 is left out.
- `random.choice` is an arbitrary choice of a due pair. No distribution is modelled.
- `datetime.now` is left out: each answer carries the timestamp that `update_history` would stamp.
- Console `print` and `input` are left out: the answers are a parameter. The end of console input is the `InputExhausted` outcome.
- `load_terms` and the hard-coded file names are left out: the term table is a parameter.
- The plot and the index sort that feeds it (`show_performance.py` lines 51-69) are left out, as presentation only.
- Percentages are exact reals, not IEEE floats.
- Unicode is not modelled: `str.isupper`, `str.lower` and the regex class `\d` are restricted to ASCII. `str.isspace` uses Python's full whitespace list.
- A general regular-expression engine is not modelled: the one pattern `(Ch. \d+)` is written out as `CsvMaker.CitationAt`.
- ShowPerformance.ProcessCsvData: returns the corrected overall rate rather than the as-written one. The as-written result is `ShowPerformance.SummaryAsWritten`, described under Findings.

## Findings

| source | as written | input that shows it | evidently intended | confidence | as-written member | corrected member |
|---|---|---|---|---|---|---|
| cog_psy_game/game.py:101 | the history is loaded once before the loop and never reloaded, so the due set never changes while attempts are recorded | one term "Memory", empty history: two answers make it mastered (`Game.TwoAttemptsMaster`), yet the loop keeps offering it until input ends | reload the history each round, so the session ends once every term has two attempts | high, not executed | Game.RunGame | Game.RunGameRefreshed |
| cog_psy_game/show_performance.py:44 | `sum(correct for _, correct in term_data.values())` binds each counter's second component, the total | one row `Memory, 2024-01-01 10:00:00, False`: overall rate 100.0 instead of 0.0 (`ShowPerformance.OneWrongAnswer`; as written it is 100 for every non-empty input, `ShowPerformance.OverallAsWrittenIsAllOrNothing`; corrected, it is the rows read as true over all rows, `ShowPerformance.OverallRate`) | sum the first components, the correct counts | high, not executed | ShowPerformance.SummaryAsWritten | ShowPerformance.Summary |
