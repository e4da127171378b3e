# Translator test harness — verified model

This project models the deterministic core of two Playwright test suites.
Both suites drive a web transliterator (Singlish to Sinhala) from a
spreadsheet. The suites are `tests/IT23320628_ui.spec.js` (the UI suite) and
`tests/IT23320628_translator.spec.js` (the functional suite). They share this
logic:

- **Spreadsheet grid** (`grid.dfy`, module `Grid`).
  - `loadGrid` finds the header row and the five required columns.
  - `getRows` collects the test cases below the header row.
  - Each suite keeps the cases whose ID has one of its two prefixes.
  - Each test writes the Actual and Status cells of its own row.
  - The state a suite mutates is the class `Grid.Suite`: the grid and the `updates` list.
- **Output discovery** (`discovery.dfy`, module `Discovery`).
  - One pass of `scanBestOutput` looks at every element, in document order, given as a record of what the page reports.
  - The candidate texts are normalised, the hidden, empty and echo elements are dropped, and the rest are scored.
  - The candidates are stably sorted by descending score.
  - The result is the best candidate containing Sinhala, else the best candidate, else "".
- **Text helpers** (`text.dfy`, module `Text`): the ECMAScript white-space class, `trim`, `norm`, substring search, ASCII `toLowerCase`, and `countSinhala` over the block U+0D80..U+0DFF.
- **Pollers** (`pollers.dfy`, module `Pollers`).
  - `waitNonEmptyOutput` (UI suite) and `waitForStableOutput` (functional suite) are loops over an iteration budget.
  - `scan(k)` is the result of the k-th `scanBestOutput` call.
  - The reference definitions are stated over the sequence of trimmed samples, `Samples(scan)`.
  - In the UI suite each of the three waits has scans of its own, so two waits on the same typed text may see different pages.
- **Verdicts** (`ui_suite.dfy`, `translator_suite.dfy`).
  - UI suite: the three-chunk typing split, the set of observed outputs, and its Pass/Fail rule.
  - Functional suite: the settled-output comparison.
  - Both: the whole suite run as a loop that records one update per case.

The score of the source is `10*sinhala + boost + min(50, length/10)`, a
double. The model scores ten times that,
`100*sinhala + 10*boost + min(500, length)`, as an integer. A lemma proves that
the scaled score equals ten times the source formula evaluated exactly, so both
order the candidates alike; the double's rounding does not change that order.

`countSinhala` (`tests/IT23320628_translator.spec.js:87-90`) is defined in the
functional suite but never called there. The model gives it a contract of its
own and also uses the same count inside the score.

## Model

| member | source | states |
|---|---|---|
| Text.TrimStartIsSuffix | tests/IT23320628_ui.spec.js:142 | the leading part `trim` drops is all white space, and what it keeps is the rest of the text |
| Text.TrimEndIsPrefix | tests/IT23320628_ui.spec.js:142 | the trailing part `trim` drops is all white space, and what it keeps is the front of the text |
| Text.TrimIsTrimmed | tests/IT23320628_ui.spec.js:142 | a trimmed text has no white space at either end, and trimming a trimmed text changes nothing |
| Text.Trim | tests/IT23320628_ui.spec.js:142 | `String.prototype.trim` as the two one-sided trims in turn (definition; its properties are the lemmas around it) |
| Text.TrimIsBothEnds | tests/IT23320628_ui.spec.js:142 | `trim` removes white space from both ends: it equals trimming the start and then the end |
| Text.TrimEmptyIff | tests/IT23320628_ui.spec.js:42-43 | a cell trims to "" exactly when it is all white space, which is when `getRows` skips the row |
| Text.CollapseShape | tests/IT23320628_ui.spec.js:95 | collapsing white space leaves only single spaces as white space; the result is empty iff the input is, and starts with white space iff the input does |
| Text.Norm | tests/IT23320628_ui.spec.js:95 | every result of `norm` has collapsed white space and is trimmed |
| Text.NormKeepsNonWhitespace | tests/IT23320628_ui.spec.js:95 | `norm` keeps every character that is not white space, in order |
| Text.NormEmptyIff | tests/IT23320628_ui.spec.js:95 | `norm(s)` is "" exactly when `s` is all white space |
| Text.NormIdempotent | tests/IT23320628_ui.spec.js:95 | normalising a normalised text changes nothing |
| Text.NormFixesNormalized | tests/IT23320628_ui.spec.js:95 | a text already in `norm` shape is its own normalisation |
| Text.CollapseFixesCollapsed | tests/IT23320628_ui.spec.js:95 | collapsing an already collapsed text changes nothing |
| Text.CollapseSeparatesWords | tests/IT23320628_ui.spec.js:95 | a run of white space between two words becomes exactly one space, and each side collapses on its own |
| Text.NormSeparatesWords | tests/IT23320628_ui.spec.js:95 | the same for `norm`: two word groups separated by any white space normalise to their own normal forms joined by one space |
| Text.TrimSeparatesWords | tests/IT23320628_ui.spec.js:95 | trimming a text made of two parts joined by one space trims each part on its own |
| Text.ContainsSelf | tests/IT23320628_ui.spec.js:111 | every text contains itself |
| Text.ContainsIsNoShorter | tests/IT23320628_ui.spec.js:111 | a text contains only patterns no longer than itself |
| Text.LowerHasNoCapital | tests/IT23320628_ui.spec.js:105 | lower-casing leaves no ASCII capital letter |
| Text.LowerFixesLowercase | tests/IT23320628_ui.spec.js:105 | a text without ASCII capitals, such as "alert", is its own lower-case form |
| Text.LowerIdempotent | tests/IT23320628_ui.spec.js:115-118 | lower-casing twice is lower-casing once |
| Text.LowerIgnoresCase | tests/IT23320628_ui.spec.js:115-118 | texts that differ only in the case of ASCII letters have the same lower-case form, so the hint tests ignore case |
| Text.CountSinhala | tests/IT23320628_translator.spec.js:87-90 | the count is at most the length and is 0 exactly when the text has no character in U+0D80..U+0DFF, including for "" |
| Text.CountSinhalaConcat | tests/IT23320628_translator.spec.js:87-90 | the count is additive over concatenation |
| Text.NormKeepsSinhala | tests/IT23320628_ui.spec.js:109-113 | normalising a candidate text keeps its Sinhala count, so the score counts the Sinhala characters of the raw text |
| Discovery.RawTextIgnoresTagCase | tests/IT23320628_ui.spec.js:104-107 | the tag name is compared without regard to case: changing its case never changes the element's text |
| Discovery.RawTextOfReportedTags | tests/IT23320628_ui.spec.js:104-107 | a textarea or input contributes its value, a div or span its rendered text, whatever the other field holds |
| Discovery.Boost | tests/IT23320628_ui.spec.js:115-124 | the boost lies in 0..28 and is 10, 16, 22 or 28 exactly when the role is "alert", else 0, 6, 12 or 18 |
| Discovery.IsVisible | tests/IT23320628_ui.spec.js:86-93 | not hidden, displayed, not transparent, at least 2 by 2 pixels (definition, used by the lemmas on candidates) |
| Discovery.Score | tests/IT23320628_ui.spec.js:113-126 | ten times the source score (definition; `ScoreIsTenTimesSourceScore` states the relation) |
| Discovery.ScoreIsTenTimesSourceScore | tests/IT23320628_ui.spec.js:113-126 | the integer score is exactly ten times the source formula `10*sinhala + boost + min(50, length/10)` evaluated exactly, over the reals |
| Discovery.ScoreOrderAgrees | tests/IT23320628_ui.spec.js:126-129 | the scaled and the source scores order any two candidates alike, ties included |
| Discovery.TranslatorScoreAgrees | tests/IT23320628_translator.spec.js:121-122 | the functional suite's conditional count `sin ? count : 0` gives the same score as the plain count |
| Discovery.ScoreRisesWithSinhala | tests/IT23320628_ui.spec.js:113-126 | inserting one Sinhala character anywhere strictly raises the score |
| Discovery.ExactEchoIsDropped | tests/IT23320628_ui.spec.js:111 | an element whose normalised text is the normalised non-empty input is never a candidate |
| Discovery.CandidateOfSurvivor | tests/IT23320628_ui.spec.js:101-111 | an element yields a candidate exactly when it is visible, its normalised text is non-empty and it is no echo; the candidate holds that text and its score |
| Discovery.CandidatesComeFromElements | tests/IT23320628_ui.spec.js:98-127 | every candidate is the contribution of some element of the page |
| Discovery.CandidatesAreSurvivors | tests/IT23320628_ui.spec.js:98-127 | the candidates are exactly the surviving elements, one each, in document order: a strictly increasing list of positions, the k-th candidate being the text and score of the element at the k-th position, and an element survives exactly when its position is listed |
| Discovery.IndexesCandidatesStep | tests/IT23320628_ui.spec.js:101-127 | one more element extends that position list by its own position exactly when it yields a candidate |
| Discovery.SurvivorsIndexCandidates | tests/IT23320628_ui.spec.js:98-127 | the position list indexes the candidates in increasing order |
| Discovery.SurvivorsAreComplete | tests/IT23320628_ui.spec.js:98-127 | every element that yields a candidate has its position listed |
| Discovery.ScanCandidates | tests/IT23320628_ui.spec.js:99-127 | the push loop collects exactly the candidates of the elements, in document order |
| Discovery.InsertPermutes | tests/IT23320628_ui.spec.js:129 | one insertion step adds exactly the inserted candidate |
| Discovery.InsertKeepsSorted | tests/IT23320628_ui.spec.js:129 | one insertion step keeps a descending sequence descending |
| Discovery.SortDesc | tests/IT23320628_ui.spec.js:129 | the sort result is descending by score and a permutation of the candidates |
| Discovery.InsertScoreClass | tests/IT23320628_ui.spec.js:129 | an insertion step puts the inserted candidate in front of every candidate of the same score |
| Discovery.SortDescIsStable | tests/IT23320628_ui.spec.js:129 | the sort is stable: for every score, the candidates with that score keep their order |
| Discovery.Find | tests/IT23320628_ui.spec.js:131-132 | `find` returns the first qualifying member of the list, and returns nothing only when no element qualifies |
| Discovery.Best | tests/IT23320628_ui.spec.js:129-135 | the reference choice without sorting: a qualifying index whose score no qualifier exceeds and which every earlier qualifier scores below; nothing only when none qualifies |
| Discovery.BestIsUnique | tests/IT23320628_ui.spec.js:129-135 | those conditions single out one index |
| Discovery.FindInsert | tests/IT23320628_ui.spec.js:129-131 | searching after one insertion step is the earlier search result combined with the inserted candidate |
| Discovery.FindSortedIsBest | tests/IT23320628_ui.spec.js:129-131 | the first qualifying candidate after the stable sort is the reference choice, the earliest among equal best scores |
| Discovery.DiscoverIsBestChoice | tests/IT23320628_ui.spec.js:129-135 | a pass returns the best Sinhala candidate, else the best candidate, else "" |
| Discovery.DiscoverPrefersSinhala | tests/IT23320628_ui.spec.js:129-132 | when a Sinhala candidate exists, the pass returns the earliest best-scoring one, however high non-Sinhala candidates score |
| Discovery.DiscoverFallsBackToBestScore | tests/IT23320628_ui.spec.js:134-135 | with no Sinhala candidate, the pass returns the earliest best-scoring candidate |
| Discovery.DiscoverHasSinhala | tests/IT23320628_ui.spec.js:131-132 | if any candidate contains Sinhala, the result contains Sinhala |
| Discovery.DiscoverSound | tests/IT23320628_ui.spec.js:86-111 | the result is "" or the normalised text of a visible element, is normalised, and is never an echo of a non-empty input |
| Discovery.WhitespaceInputHidesEverything | tests/IT23320628_translator.spec.js:103-119 | a non-empty all-white-space input normalises to "", which every text contains, so no element survives and the pass returns "" |
| Discovery.PartialEchoIsSelected | tests/IT23320628_ui.spec.js:111 | an input box whose normalised text is non-empty and shorter than the normalised input is no echo of it, and on a page where it is the only visible element it is what the pass returns |
| Discovery.ScanBestOutput | tests/IT23320628_ui.spec.js:84-137 | the imperative pass (loop, sort, two searches) returns the reference result `Discover` |
| Discovery.Discover | tests/IT23320628_ui.spec.js:84-137 | one discovery pass as a function of the page and the input (definition; `DiscoverIsBestChoice` and `DiscoverSound` state it) |
| Grid.FindHeaderRow | tests/IT23320628_ui.spec.js:22 | `findIndex`: the first row with a cell trimming to "TC ID", or none when no row has one |
| Grid.IndexOf | tests/IT23320628_ui.spec.js:25-32 | `header.indexOf(name)` over the trimmed header: the first matching column, or none when no column matches |
| Grid.LoadGrid | tests/IT23320628_ui.spec.js:22-34 | on success the header row is the first with a "TC ID" cell, each column is the first trimmed match of its name, and the five columns are distinct |
| Grid.FirstHeaderRowIsUnique | tests/IT23320628_ui.spec.js:22 | at most one row is the first header row |
| Grid.IndexOfFindsColumn | tests/IT23320628_ui.spec.js:25-34 | the lookup finds a column exactly when some trimmed header cell is that name |
| Grid.LoadGridFailsExactly | tests/IT23320628_ui.spec.js:22-34 | loading fails with "header not found" iff no row has a "TC ID" cell, and otherwise succeeds iff the header row names all five columns |
| Grid.CollectCase | tests/IT23320628_ui.spec.js:41-46 | pushing a case row keeps the `getRows` loop invariant one row further |
| Grid.SkipRow | tests/IT23320628_ui.spec.js:43 | skipping a blank-ID row keeps the loop invariant one row further |
| Grid.GetRows | tests/IT23320628_ui.spec.js:39-49 | in increasing row order, exactly the rows after the header whose trimmed ID is non-empty, each read with a trimmed ID, an untrimmed input and expected text, and missing cells as "" |
| Grid.IncreasingCons | tests/IT23320628_ui.spec.js:172 | a row placed in front of later rows keeps them in increasing order |
| Grid.SelectByPrefix | tests/IT23320628_ui.spec.js:172 | the filter keeps exactly the rows whose ID starts with one of the two prefixes, in the original order |
| Grid.SelectedRowsOfGrid | tests/IT23320628_ui.spec.js:172 | filtering the rows of a grid gives exactly the grid's case rows with a matching ID, in increasing row order |
| Grid.SelectCases | tests/IT23320628_translator.spec.js:188-190 | a suite schedules exactly the case rows whose ID starts with one of its two prefixes ("Pos_Fun"/"Neg_Fun", "Pos_UI"/"Neg_UI"), in row order |
| Grid.StatusText | tests/IT23320628_ui.spec.js:203 | the Status cell holds "Pass" for a pass and "Fail" for a fail |
| Grid.StatusTextInjective | tests/IT23320628_ui.spec.js:203 | the two statuses are written as different texts |
| Grid.SetCell | tests/IT23320628_ui.spec.js:207 | writing one cell sets it, extends a short row, and leaves every other cell as it was |
| Grid.WithResult | tests/IT23320628_ui.spec.js:207-208 | writing a result keeps the number of rows |
| Grid.WithResultChangesTwoCells | tests/IT23320628_ui.spec.js:207-208 | writing a result changes exactly the Actual and Status cells of its row, and nothing else in the grid |
| Grid.WithResultKeepsCases | tests/IT23320628_ui.spec.js:207-208 | with distinct columns, writing a result never changes the test case any row describes |
| Grid.ApplyUpdates | tests/IT23320628_ui.spec.js:205-208 | writing the updates one after the other keeps the number of rows |
| Grid.ApplyUpdatesSnoc | tests/IT23320628_ui.spec.js:205-208 | writing one more update is one more cell write on the grid written so far |
| Grid.ApplyUpdatesResult | tests/IT23320628_ui.spec.js:205-208 | when updates name distinct rows, each row ends up holding its own update's Actual text and Status |
| Grid.ApplyUpdatesUntouched | tests/IT23320628_ui.spec.js:205-208 | a row no update names ends up as it was |
| Grid.ApplyUpdatesKeepsCases | tests/IT23320628_ui.spec.js:205-208 | the writes never change the test case any row describes |
| Grid.CaseUpdatesDistinct | tests/IT23320628_ui.spec.js:172-205 | one update per case, with cases in increasing row order, never names a row twice |
| Grid.EachCaseHoldsItsResult | tests/IT23320628_ui.spec.js:170-208 | after a suite, each case's row holds its own result, rows without a case are unchanged, and every test case reads the same |
| Grid.Suite.constructor | tests/IT23320628_ui.spec.js:152 | a suite starts with the loaded grid and no updates |
| Grid.Suite.Record | tests/IT23320628_ui.spec.js:205-208 | recording appends the update and writes the two cells of its row in place |
| Grid.Suite.RecordNext | tests/IT23320628_ui.spec.js:205-208 | recording the next expected update extends the written prefix by one |
| Pollers.SamplesAreTrimmed | tests/IT23320628_ui.spec.js:142 | every sample the pollers look at is trimmed |
| Pollers.SampleIsDiscovery | tests/IT23320628_ui.spec.js:142 | for a page read by discovery, a sample is the pass result itself and never a non-empty echo |
| Pollers.FirstNonEmpty | tests/IT23320628_ui.spec.js:141-143 | the first pass in the budget with a non-empty sample, or none when all are empty |
| Pollers.PollNonEmptyProperties | tests/IT23320628_ui.spec.js:139-147 | the result is one of the samples looked at, and is "" exactly when every one of them was |
| Pollers.PollNonEmptyNeverEchoes | tests/IT23320628_ui.spec.js:139-147 | over discovery passes, a non-empty result is never an echo of the input it was given |
| Pollers.WaitNonEmptyOutput | tests/IT23320628_ui.spec.js:139-147 | returns the first non-empty sample taken in the budget, else one more scan; always trimmed; equals the reference `PollNonEmpty` |
| Pollers.Streak | tests/IT23320628_translator.spec.js:153-157 | the value of `stable` after each pass (definition; `StreakCountsRepeats` states it) |
| Pollers.StableAt | tests/IT23320628_translator.spec.js:155-158 | the five-sample early-return condition (definition; `StreakReachesFour` connects it to the counter) |
| Pollers.StreakCountsRepeats | tests/IT23320628_translator.spec.js:153-157 | `stable` is at least n exactly when the last n + 1 samples are equal and non-empty |
| Pollers.StreakReachesFour | tests/IT23320628_translator.spec.js:155-158 | the test `stable >= 4` is the condition that five samples in a row are one and the same non-empty text |
| Pollers.FirstStable | tests/IT23320628_translator.spec.js:153-158 | the first pass in the budget where the loop could return early, or none |
| Pollers.PollStableReturnsFirstStable | tests/IT23320628_translator.spec.js:158 | the reference result of an early return is the first stable pass |
| Pollers.PollStableTimesOut | tests/IT23320628_translator.spec.js:162 | with no stable pass in the budget, the reference result is the final scan |
| Pollers.StableLoopStep | tests/IT23320628_translator.spec.js:154-157 | one iteration increments `stable` only for a non-empty sample equal to `last`, resets it otherwise, and always overwrites `last` |
| Pollers.StableRunEarly | tests/IT23320628_translator.spec.js:158 | the loop leaves at the first pass where `stable` reaches four, returning that sample |
| Pollers.StableRunTimesOut | tests/IT23320628_translator.spec.js:153-162 | when `stable` never reaches four, the loop returns a fresh scan, possibly empty and not necessarily equal to `last` |
| Pollers.WaitForStableOutput | tests/IT23320628_translator.spec.js:148-163 | returns early only on a five-fold repeat of a non-empty sample, the first one, otherwise a final scan; always trimmed; equals the reference `PollStable` |
| Pollers.ConstantSourceStabilisesOnFifthPass | tests/IT23320628_translator.spec.js:153-158 | a source constant and non-empty from the first sample becomes stable on the fifth sample and no sooner |
| Pollers.ConstantSourceReturnsAfterFivePasses | tests/IT23320628_translator.spec.js:148-163 | with a budget of at least four iterations, such a source is returned after exactly five scans |
| Pollers.PollStableNeverEchoes | tests/IT23320628_translator.spec.js:119-162 | over discovery passes, a non-empty settled output is never an echo of the input |
| UiSuite.JsSliceConcat | tests/IT23320628_ui.spec.js:184-186 | slices at consecutive bounds join into the slice over the whole range |
| UiSuite.JsSliceWhole | tests/IT23320628_ui.spec.js:186 | a slice from 0 to the length or beyond is the whole text |
| UiSuite.Split | tests/IT23320628_ui.spec.js:183-186 | the three chunk bounds (definition; `SplitCoversText` states its properties) |
| UiSuite.SplitCoversText | tests/IT23320628_ui.spec.js:183-186 | p1 + p2 + p3 is the text exactly; the chunk ends sit at the source's bounds; p1 is non-empty for a non-empty text, p2 from two characters on, p3 from three |
| UiSuite.UiStatus | tests/IT23320628_ui.spec.js:203 | the verdict rule on the seen set (definition; `UiStatusMeaning` states it) |
| UiSuite.UiStatusMeaning | tests/IT23320628_ui.spec.js:188-203 | Pass iff the trimmed expected text is non-empty, the final output equals it, and an earlier output differed (a set of at least two) |
| UiSuite.SubsetSize | tests/IT23320628_ui.spec.js:201 | (proof helper) a subset of the seen set is no larger than it |
| UiSuite.UiOutcomeSound | tests/IT23320628_ui.spec.js:196-205 | the Actual text comes from the third wait, on the whole input, is trimmed, and Pass means the verdict rule above |
| UiSuite.UiOutcomeNeverEchoes | tests/IT23320628_ui.spec.js:191-197 | on a page read by discovery, a non-empty Actual text is never an echo of the case's input |
| UiSuite.ObserveUiCase | tests/IT23320628_ui.spec.js:183-203 | the three typing steps and waits record the reference outcome, and the seen set holds exactly the three observations |
| UiSuite.UiOutcomesRecordCases | tests/IT23320628_ui.spec.js:174-205 | the k-th update names the k-th case's row, holds its trimmed final output and obeys the verdict rule; for cases in increasing row order no row is named twice |
| UiSuite.RunUiCase | tests/IT23320628_ui.spec.js:175-209 | one test body extends the recorded updates and the written grid by that case's outcome |
| UiSuite.RunUiSuite | tests/IT23320628_ui.spec.js:170-209 | runs exactly the "Pos_UI"/"Neg_UI" cases in row order; the updates are their outcomes, and the grid is the input grid with those results written |
| UiSuite.ChangingOutputPasses | tests/IT23320628_ui.spec.js:197-203 | a first output that differs, and a final page that steadily shows the expected text, give Pass with that text |
| UiSuite.PaddedFirstChunkIsEcho | tests/IT23320628_ui.spec.js:183-184 | for the input "h   " the first chunk is "h", which is the normalised input, so a box holding only that chunk is an echo and is dropped |
| UiSuite.UnchangedOutputFails | tests/IT23320628_ui.spec.js:201-203 | three equal observations always give Fail, even when the final output is right |
| TranslatorSuite.FunOutcomeSound | tests/IT23320628_translator.spec.js:201-208 | the Actual text is the settled output, trimmed, and Pass iff the trimmed expected text is non-empty and equal to it |
| TranslatorSuite.FunOutcomeNeverEchoes | tests/IT23320628_translator.spec.js:201 | on a page read by discovery, a non-empty Actual text is never an echo of the case's input |
| TranslatorSuite.ObserveFunCase | tests/IT23320628_translator.spec.js:201-206 | waiting and comparing both trimmed sides records the reference outcome |
| TranslatorSuite.FunOutcomesRecordCases | tests/IT23320628_translator.spec.js:192-208 | the k-th update names the k-th case's row, holds its settled output, trimmed, and is Pass iff that is the non-empty trimmed expected text; for cases in increasing row order no row is named twice |
| TranslatorSuite.FunStatus | tests/IT23320628_translator.spec.js:203-206 | the comparison of both trimmed sides (definition; `FunOutcomeSound` states it) |
| TranslatorSuite.RunFunCase | tests/IT23320628_translator.spec.js:193-212 | one test body extends the recorded updates and the written grid by that case's outcome |
| TranslatorSuite.RunFunSuite | tests/IT23320628_translator.spec.js:185-213 | runs exactly the "Pos_Fun"/"Neg_Fun" cases in row order; the updates are their outcomes, and the grid is the input grid with those results written |
| TranslatorSuite.SteadyOutputPasses | tests/IT23320628_translator.spec.js:201-206 | a page that steadily shows the expected text, with a budget of at least four iterations, gives Pass with that text |

## Left out

- Spreadsheet I/O (`XLSX.readFile`, `sheet_to_json`, `aoa_to_sheet`, `XLSX.writeFile`) is a foreign library, so the grid is given as rows of strings. The choice of worksheet by name is part of that I/O. A cell whose value is not a string is not modelled: every cell is already its `String(...)` form.
- `excelPaths` and `fs.existsSync` are filesystem access and are not modelled.
- The `afterAll` write-back (`tests/IT23320628_ui.spec.js:160-167`, `tests/IT23320628_translator.spec.js:176-183`) is I/O and is not modelled. It also reloads the grid from the input file and writes that fresh copy, not the grid the tests updated. The model's updated grid is therefore not what the source persists.
- Browser automation is not modelled, because it is outside the deterministic core: `page.goto`, locators, `firstVisible`, `findInput`, `clearInput`, `clearAndType`, typing delays and the swallowed `.catch` errors.
  - The model takes the page after typing as given: the UI run's `scan` maps the wait number (1 to 3) and the typed text to the scans of that wait.
- The element record holds the values of `getComputedStyle`, `getBoundingClientRect`, `innerText` and the attributes.
  - `Number(style.opacity) === 0` is the boolean `opacityZero`.
  - The selector list of `querySelectorAll` is the given element sequence.
  - The `!el` and `!style` guards are not modelled, because every element is present.
- `Date.now` and `waitForTimeout` stand for real time. The model replaces them with the number of loop iterations the deadline admits. The 15000/20000/60000 ms deadlines appear as budgets.
- The Playwright runner is not modelled: `test.describe`, serial mode, per-test timeouts and the test titles. A suite run is a loop over the cases, and `runs(k)` says what the k-th case's scans return.
- RunUiSuite, RunFunSuite: assume every test body runs to its end. In the source, a thrown "Input element not found" or the 120 s test timeout records no update for that case, and serial mode then skips the remaining cases; the model's updates and written grid hold only for runs where no test body fails that way.
- Lower: only ASCII letters are lower-cased. Non-ASCII tag names, roles and attributes keep their case, unlike full Unicode `toLowerCase`.
- Strings are sequences of Unicode scalar values, not UTF-16 code units. The length term of the score differs from the source only for characters outside the Basic Multilingual Plane. Sinhala lies inside it.
- Split: the chunk bounds are counted in characters, while the source's `length` and `slice` count UTF-16 code units. For inputs with characters outside the Basic Multilingual Plane the source puts the bounds elsewhere and can even cut a surrogate pair in two; the model does not capture that.
- Score: the source score is an IEEE-754 double, with `length/10` rounded. The model compares against the exact real value; only the order of scores matters, and the integer score preserves the order of the exact values, which rounding of numbers of this size does not change.
- IsWhitespace lists the ECMAScript white-space and line-terminator characters by hand. It is an assumption about the regular-expression engine, not derived from it.
- SortDesc: the in-place `Array.prototype.sort` is modelled as a pure stable insertion sort on the candidate sequence. The imperative pass sorts a copy, so the in-place update of the `candidates` array is not captured. Because the sort is stable, the result is the one the source's sort must produce.
- Both pollers return the number of scans they made, in place of elapsed time. The delay between scans is not modelled.
