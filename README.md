# Test-Vocacional, modelled in Dafny

Test-Vocacional is a web application for a vocational test. A student
answers multiple-choice questions, and every answer adds a value to one
interest category (technical, creative, analytical, social, ...). When the
test ends, every career of the catalog is scored from those category totals.
The five best careers are kept and shown as percentages. The student can
e-mail the results. Results are stored, and an administrator sees statistics
about them and edits the question and career lists.

This project models the computational core of that application:

- **The test** (`components/vocational-test.tsx`), module `Quiz` with
  `Tally` and `Ranking`.
  - The state of a test run is the question on screen plus the category
    totals.
  - Answering adds the answer's value to its category. It then moves to the
    next question, or, on the last question, computes the results.
  - Going back moves the cursor only.
  - Results: each career's raw score is the sum, over its categories, of
    each category's total times that category's weight. A missing or zero
    weight reads as 1.
  - The careers are sorted stably by descending raw score and the first
    five are kept.
  - Each kept score becomes `Math.round(score / max * 100)`, or 0 when the
    largest kept score is not positive.
- **The results screen** (`components/test-results.tsx`), module
  `TestResults`.
  - The second normalisation: shares of the total, with the rounding drift
    put on the first entry.
  - The catalog lookup by name.
  - The colour of a career type.
  - The address check before the results are e-mailed.
- **Storage post-processing** (`lib/supabase-queries.ts`), module
  `SupabaseQueries`.
  - The cleaning and de-duplication of a question's answers as `loadQuestionsFromDB` loads them.
  - The counting and ranking behind the administrator's statistics.
  - The guard of `saveTestResult`, with the stored table as a list of rows.
- **The administrator's editor** (`components/admin-panel.tsx`), module
  `AdminPanel`.
  - Add, edit, save and delete handlers for questions and careers.
  - The comma-separated universities field.
  - Answer options are objects shared by reference. Typing into the edit
    form changes them in place, as in the browser.

Supporting modules:

- `Text`: JavaScript `trim`, `split` on one character, `join`, and
  integer-to-string.
- `Sequences`: counting, first occurrences, keyed de-duplication, filter-map.
- `StableSort`: a stable descending sort by a real key, with a proof that
  the sorted order is unique.
- `JsMath`: `Math.round` as `Floor(x + 1/2)`, and `Math.min`.
- `Catalog`: the career record.
- `Wrappers`: `Option` and `Result`.

Numbers:

- Category totals, answer values and counts are unbounded integers. The
  application only ever uses small ones.
- Weights, raw scores and ratios are exact rationals (`real`).

The contents of the question bank, the career catalog and the weight table
are parameters, not constants. Every database read or write, every HTTP
call and the user's confirmation dialog becomes a parameter of the
operation, for example the insert error of `saveTestResult` or the answer
to `confirm(...)`.

**Normalisation when nothing scores.** Results normalise to 0 whenever
`maxScore > 0` fails. That covers a largest kept score of 0 and also a
negative one, which a negative weight or answer value can produce. The
model follows the code on this point (`Ranking.AllZeroWithoutPositive`). A
description that speaks only of `maxScore == 0` is narrower than the code.

## Model

| member | source | states |
|---|---|---|
| Tally.Accumulate | components/vocational-test.tsx:19 | the answered category's total grows by the value (starting from 0 when absent); every other category keeps its total; the keys gain the category |
| Tally.Retract | components/vocational-test.tsx:19 | the inverse update used by the corrected test: the category loses the value, every other category is unchanged |
| Tally.RetractUndoesAccumulate | components/vocational-test.tsx:19 | retracting an answer right after adding it restores every total |
| Tally.AccumulateAllSums | components/vocational-test.tsx:18-20 | after any sequence of answers, a category's total is its start value plus the sum of the values answered for it |
| Tally.AccumulateAllAppend | components/vocational-test.tsx:18-20 | applying two runs of answers one after the other is applying their concatenation |
| Tally.AccumulateAllSameTotals | components/vocational-test.tsx:18-20 | maps with equal totals stay equal under the same answers |
| Quiz.VocationalTest.constructor | components/vocational-test.tsx:14-16 | a test starts on question 0 with no totals and no answers |
| Quiz.VocationalTest.Answer | components/vocational-test.tsx:18-28 | the totals gain the answer; before the last question the cursor moves one forward and nothing is returned; on the last it stays and the results of the new totals are returned; the totals stay the sum over every answer clicked |
| Quiz.VocationalTest.Previous | components/vocational-test.tsx:30-35 | the cursor moves one back unless on question 0, never below 0; totals and answers are untouched |
| Quiz.TotalsAreSums | components/vocational-test.tsx:18-35 | in any reachable state each total is the sum of the values of all answers clicked for it, including answers abandoned by going back |
| Quiz.RevisitCountsBothAnswers | components/vocational-test.tsx:18-35 | answering "technical" 3, going back and answering "creative" 3 leaves both categories at 3 |
| Quiz.PathQuiz.constructor | components/vocational-test.tsx:14-16 | the corrected test starts on question 0 with an empty path and no totals |
| Quiz.PathQuiz.Answer | components/vocational-test.tsx:18-28 | corrected answer: before the last question the answer joins the path and the totals; on the last one the results are those of the path plus this answer, and the state stays |
| Quiz.PathQuiz.Previous | components/vocational-test.tsx:30-35 | corrected back step: the cursor moves back and the answer given to the question returned to is withdrawn from path and totals |
| Quiz.PathTotalsAreSums | components/vocational-test.tsx:18-35 | in the corrected test each total is the sum over the path taken only |
| Quiz.RevisitCountsPathOnly | components/vocational-test.tsx:18-35 | the clicks of `RevisitCountsBothAnswers` leave "technical" at 0 and "creative" at 3 in the corrected test |
| Quiz.AccumulateSameTotals | components/vocational-test.tsx:19 | one answer keeps maps with equal totals equal |
| Quiz.RawScoreSameTotals | components/vocational-test.tsx:40-44 | a raw score depends on the totals only |
| Quiz.RankSameTotals | components/vocational-test.tsx:38-64 | maps with equal totals give the same ranking |
| Ranking.WeightOf | components/vocational-test.tsx:42 | the weight is the table's entry when present and non-zero, and 1.0 when it is absent or zero; it is never 0 |
| Ranking.ScoreCatalog | components/vocational-test.tsx:38-46 | one scored entry per career, in catalog order, holding the career and its raw score |
| Ranking.Selected | components/vocational-test.tsx:49-51 | the sorted list cut to min(5, number of careers) entries |
| Ranking.ToRanked | components/vocational-test.tsx:52-56 | each kept career becomes its name, type and raw score, in order |
| Ranking.MaxScore | components/vocational-test.tsx:59 | the largest kept score: attained by some entry and at least every entry's score |
| Ranking.NormalizeToLeader | components/vocational-test.tsx:59-64 | one normalised entry per kept career |
| Ranking.Results | components/vocational-test.tsx:66-71 | the result's scores are exactly the final totals |
| Ranking.CalculateResults | components/vocational-test.tsx:37-74 | the two nested loops accumulate each career's raw score, then sort, slice and normalise; the result is the ranking function's |
| Ranking.CareerScore | components/vocational-test.tsx:39-44 | the inner loop over a career's categories returns its raw score: each category's total (0 when missing) times its weight (1 when missing), summed |
| Ranking.RawScoreAppend | components/vocational-test.tsx:40-44 | the raw score of concatenated category lists is the sum of their raw scores |
| Ranking.RawScoreOfEmpty | components/vocational-test.tsx:39-44 | with no totals every raw score is 0, and so is a career with no categories |
| Ranking.RawScoreMonotone | components/vocational-test.tsx:40-44 | with non-negative weights, larger totals never lower a raw score |
| Ranking.ContributionMonotone | components/vocational-test.tsx:41-43 | one category's contribution grows with its total under a non-negative weight |
| Ranking.RawScoreNonNegative | components/vocational-test.tsx:40-44 | non-negative totals and weights give a non-negative raw score |
| Ranking.SelectedSortedStable | components/vocational-test.tsx:49-51 | the kept careers are sorted by descending raw score, and careers with equal scores keep their catalog order |
| Ranking.SelectedKeepsBest | components/vocational-test.tsx:49-51 | every kept career scores at least as much as every career left out |
| Ranking.SelectedIsCanonical | components/vocational-test.tsx:49-51 | any descending ordering that keeps ties in catalog order has the kept list as its first five |
| Ranking.MaxOfSorted | components/vocational-test.tsx:59 | in a descending list the maximum is the first score |
| Ranking.LeaderIsHundred | components/vocational-test.tsx:59-64 | with a positive leader the first normalised score is exactly 100 |
| Ranking.AllZeroWithoutPositive | components/vocational-test.tsx:63 | when no kept score is positive every normalised score is 0 |
| Ranking.PercentOfMaximum | components/vocational-test.tsx:63 | with a positive maximum each entry is round(score / max * 100) |
| Ranking.NormalizeKeepsNames | components/vocational-test.tsx:60-64 | normalising keeps each entry's name and type, in order |
| Ranking.PercentBounds | components/vocational-test.tsx:63 | a score between 0 and the maximum normalises into [0, 100] |
| Ranking.NormalizeInRange | components/vocational-test.tsx:60-64 | non-negative kept scores normalise into [0, 100] |
| Ranking.PercentMonotone | components/vocational-test.tsx:63 | normalising never inverts two scores |
| Ranking.NormalizeKeepsOrder | components/vocational-test.tsx:60-64 | the normalised list is non-increasing wherever the raw list is |
| Ranking.RankLength | components/vocational-test.tsx:49-56 | the result holds min(5, number of careers) careers |
| Ranking.RankEntry | components/vocational-test.tsx:49-64 | the i-th result entry has the name and type of the i-th kept career |
| Ranking.RankLeader | components/vocational-test.tsx:38-64 | when some career scores above 0, the first result is 100 |
| Ranking.RankOfEmptyScores | components/vocational-test.tsx:38-64 | with no totals every result is 0 |
| Ranking.SelectedMember | components/vocational-test.tsx:49-51 | every kept entry comes from the scored catalog |
| Ranking.RankInRange | components/vocational-test.tsx:38-64 | with non-negative totals and weights every result lies in [0, 100] |
| Ranking.ExampleTwoCareers | components/vocational-test.tsx:38-64 | careers with totals 10 and 5 rank as 100 and 50 |
| Ranking.ExampleWeight | components/vocational-test.tsx:41-43 | a weight of 2 doubles a category's contribution |
| Ranking.ExampleTie | components/vocational-test.tsx:50 | two tied careers keep their catalog order after sorting |
| StableSort.Insert | components/vocational-test.tsx:50 | insertion adds exactly one element: the length grows by one and the multiset gains it |
| StableSort.Sort | components/vocational-test.tsx:50 | sorting keeps the length and is a permutation |
| StableSort.SortFacts | components/vocational-test.tsx:50 | the sort is descending by key and keeps each key's elements in input order |
| StableSort.SortedStableUnique | components/vocational-test.tsx:50 | two descending orderings that keep each key's elements in the same order are equal |
| StableSort.InsertSorted | components/vocational-test.tsx:50 | inserting into a descending list keeps it descending |
| StableSort.InsertFilter | components/vocational-test.tsx:50 | insertion puts the element before the others of its key |
| StableSort.KeyFilterAppend | components/vocational-test.tsx:50 | an element's key group of a concatenation is the concatenation of the groups |
| StableSort.SortPrefixSorted | components/vocational-test.tsx:50-51 | every prefix of the sort is descending |
| StableSort.SortPrefixStable | components/vocational-test.tsx:50-51 | in every prefix each key group is a prefix of the input's group |
| StableSort.SortPrefixKeepsBest | components/vocational-test.tsx:50-51 | nothing outside a prefix of the sort outranks anything inside it |
| JsMath.Round | components/vocational-test.tsx:63 | `Math.round`: the integer within half of x, ties upward |
| JsMath.RoundUnique | components/vocational-test.tsx:63 | that integer is unique |
| JsMath.RoundOfInt | components/vocational-test.tsx:63 | integers round to themselves |
| JsMath.RoundMonotone | components/vocational-test.tsx:63 | rounding never inverts two values |
| JsMath.RoundWithin | components/vocational-test.tsx:63 | a value between two integers rounds between them |
| JsMath.Min | components/vocational-test.tsx:51 | the smaller of two integers |
| TestResults.Shares | components/test-results.tsx:30-33 | each entry keeps name and type and gets round(score / total * 100) |
| TestResults.NormalizeScores | components/test-results.tsx:26-45 | the method builds the shares in a fresh array and corrects entry 0; the result is the normalisation function's |
| TestResults.UnchangedWhenTotalZero | components/test-results.tsx:28 | with a total of 0 the list is returned untouched |
| TestResults.SumIsHundred | components/test-results.tsx:35-42 | with a non-zero total the normalised scores sum to exactly 100 |
| TestResults.NormalizedKeepsNames | components/test-results.tsx:30-33 | names, types and length are kept |
| TestResults.NormalizedEntries | components/test-results.tsx:30-42 | every entry but the first is its rounded share; the first is its share plus 100 minus the sum of the shares |
| TestResults.TotalUpdateFirst | components/test-results.tsx:40 | changing entry 0 changes the sum by the difference |
| TestResults.TotalOfEmpty | components/test-results.tsx:27 | an empty list sums to 0 |
| TestResults.ExactSharesSum | components/test-results.tsx:32 | the unrounded shares sum to total-of-scores / total * 100 |
| TestResults.ExactSharesHundred | components/test-results.tsx:32 | the unrounded shares of the list's own total sum to exactly 100 |
| TestResults.SharesNearExact | components/test-results.tsx:32 | the rounded shares sum to within half an entry per entry of the exact sum |
| TestResults.DriftArithmetic | components/test-results.tsx:38 | a sum within n/2 of 100 leaves a drift below n/2 in size, at most 2 for five entries |
| TestResults.DriftBounded | components/test-results.tsx:36-41 | the drift added to entry 0 is smaller than half the number of entries; for the five results it is between -2 and 2 |
| TestResults.CareerDetails | components/test-results.tsx:49-51 | `find` by name: nothing exactly when no career has the name, else the first career with it |
| TestResults.TypeColor | components/test-results.tsx:53-64 | blue exactly for "Universitaria", green exactly for "Técnica", purple exactly for "Profesional", grey exactly for every other type |
| TestResults.RequestFor | components/test-results.tsx:67-87 | no request exactly when the address is empty or lacks "@"; otherwise the request carries the address, the results, and as name the part before the first "@" |
| TestResults.ResultsScreen.constructor | components/test-results.tsx:21-24 | the address field starts as the user's address or empty; the screen shows the normalised careers |
| TestResults.ResultsScreen.SendResults | components/test-results.tsx:66-105 | an invalid address sets the error message and sends nothing; otherwise the request is sent and success, a failed response and a failed connection each set their status and message; sending ends unset |
| Sequences.Count | lib/supabase-queries.ts:234 | occurrences of an element; one more per appended copy |
| Sequences.CountAppend | lib/supabase-queries.ts:231-236 | occurrences in a concatenation add up |
| Sequences.Distinct | lib/supabase-queries.ts:238 | first occurrences in order: no longer than the input, a member exactly when in the input, without repeats |
| Sequences.DistinctOrder | lib/supabase-queries.ts:238 | distinct names appear in order of first occurrence |
| Sequences.DistinctCardinality | lib/supabase-queries.ts:216 | the number of distinct elements is the size of the input's set |
| Sequences.DistinctSameElements | lib/supabase-queries.ts:216 | lists with the same members have equally many distinct ones |
| Sequences.DistinctBy | lib/supabase-queries.ts:42-53 | keyed de-duplication is no longer than its input |
| Sequences.DistinctByFacts | lib/supabase-queries.ts:42-53 | it keeps members of the input only, every input key is represented, and no key repeats |
| Sequences.DistinctByKeepsFirst | lib/supabase-queries.ts:51-53 | the first element with a key is kept |
| Sequences.DistinctByNewKey | lib/supabase-queries.ts:51-53 | an element whose key is new is appended |
| Sequences.DistinctByOfDistinctKeys | lib/supabase-queries.ts:42-53 | with no key repeated nothing is dropped |
| Sequences.DistinctBySubsequence | lib/supabase-queries.ts:45-53 | the result keeps input order |
| Sequences.DistinctByInjective | lib/supabase-queries.ts:50 | with a key that separates different elements, keyed and exact de-duplication agree |
| Sequences.NoDuplicatesPermutation | lib/supabase-queries.ts:238-239 | a permutation of a repeat-free list is repeat-free |
| Sequences.FilterMap | lib/supabase-queries.ts:45-47 | no more kept values than inputs (which values are kept is stated by FilterMapComplete and FilterMapSound) |
| Sequences.FilterMapComplete | lib/supabase-queries.ts:45-47 | every input that gives a value contributes it |
| Sequences.FilterMapSound | lib/supabase-queries.ts:45-47 | every kept value comes from some input |
| Text.TrimStartFacts | lib/supabase-queries.ts:46 | the removed prefix is white space and what is left starts with none |
| Text.TrimEndFacts | lib/supabase-queries.ts:46 | the removed suffix is white space and what is left ends with none |
| Text.TrimFacts | lib/supabase-queries.ts:46 | `trim` yields the inner slice between white-space runs, which is itself trimmed |
| Text.TrimKeepsAbsent | components/admin-panel.tsx:107 | trimming introduces no character |
| Text.TrimOfTrimmed | lib/supabase-queries.ts:46 | `trim` leaves a trimmed string alone |
| Text.TrimEmpty | lib/supabase-queries.ts:47 | a string trims to "" exactly when it is all white space |
| Text.TrimAfterSpace | components/admin-panel.tsx:107 | white space before a trimmed string is removed |
| Text.Split | components/admin-panel.tsx:107 | one more piece than separators, no piece holding the separator |
| Text.JoinSplit | components/admin-panel.tsx:107 | joining the pieces of a split with the separator gives the string back |
| Text.SplitJoin | components/admin-panel.tsx:130 | splitting separator-free pieces after joining them gives the pieces back |
| Text.SplitSeparatorFree | components/admin-panel.tsx:107 | a separator-free prefix joins the first piece |
| Text.SplitFirstPiece | components/test-results.tsx:84 | the first piece followed by the separator is a prefix of the string |
| Text.NatToString | lib/supabase-queries.ts:50 | decimal digits only, one digit exactly for values below 10 |
| Text.IntToString | lib/supabase-queries.ts:50 | non-empty, without ":", with a leading "-" exactly for negatives |
| Text.NatToStringInjective | lib/supabase-queries.ts:50 | different naturals print differently |
| Text.IntToStringInjective | lib/supabase-queries.ts:50 | different integers print differently |
| Text.SeparatedEqual | lib/supabase-queries.ts:50 | a separator absent from two heads splits equal strings at the same place |
| Text.FirstOfSeparated | lib/supabase-queries.ts:50 | the first separator follows the separator-free head |
| SupabaseQueries.Clean | lib/supabase-queries.ts:46-49 | an answer is kept exactly when its trimmed text is non-empty; its value is the finite value or 0 |
| SupabaseQueries.CleanWellFormed | lib/supabase-queries.ts:46-48 | a kept answer has non-empty trimmed text and a trimmed category |
| SupabaseQueries.CleanedWellFormed | lib/supabase-queries.ts:45-49 | every cleaned answer is well formed |
| SupabaseQueries.DedupeAnswers | lib/supabase-queries.ts:41-57 | the loop with its set of seen keys returns the first answer of every key among the cleaned answers |
| SupabaseQueries.DedupeWellFormed | lib/supabase-queries.ts:41-57 | every returned answer is well formed and is a cleaned answer |
| SupabaseQueries.DedupeKeys | lib/supabase-queries.ts:50-53 | no two returned answers share a key, and the key of every kept input is represented |
| SupabaseQueries.DedupeOrder | lib/supabase-queries.ts:45-53 | the result keeps input order and is no longer than the input |
| SupabaseQueries.DedupeKeepsFirst | lib/supabase-queries.ts:51-53 | the first cleaned answer with its key is returned |
| SupabaseQueries.ToRaw | lib/supabase-queries.ts:41 | clean answers seen as raw input, one for one |
| SupabaseQueries.CleanOfRaw | lib/supabase-queries.ts:46-49 | cleaning a well-formed answer gives it back |
| SupabaseQueries.CleanedOfRaw | lib/supabase-queries.ts:45-49 | cleaning well-formed answers gives them back |
| SupabaseQueries.DedupeIdempotent | lib/supabase-queries.ts:41-57 | de-duplicating a result again changes nothing |
| SupabaseQueries.KeyInjective | lib/supabase-queries.ts:50 | for texts and categories without ":", equal keys mean equal answers |
| SupabaseQueries.DedupeWithoutColons | lib/supabase-queries.ts:50-53 | without ":" in texts and categories the keyed de-duplication drops exact repeats only |
| SupabaseQueries.PairCollides | lib/supabase-queries.ts:50 | ("a::b", "c", 1) and ("a", "b::c", 1) differ but share a key |
| SupabaseQueries.PairCleaned | lib/supabase-queries.ts:46-49 | both answers survive cleaning unchanged |
| SupabaseQueries.KeyCollisionDropsAnswer | lib/supabase-queries.ts:50-53 | de-duplicating the pair as written drops the second answer |
| SupabaseQueries.DedupeAnswersExact | lib/supabase-queries.ts:41-57 | corrected loop: a set of seen answers, returning the first copy of every distinct cleaned answer |
| SupabaseQueries.DedupeExactFacts | lib/supabase-queries.ts:41-57 | corrected result: exactly the cleaned answers as members, no repeats, every kept input present, idempotent |
| SupabaseQueries.ExactKeepsCollidingAnswers | lib/supabase-queries.ts:50-53 | the corrected de-duplication keeps both answers of the colliding pair |
| SupabaseQueries.CountCareers | lib/supabase-queries.ts:230-236 | the nested loops count every name: each count is the number of occurrences across all stored top-career lists, exactly the names seen have counts, and names are listed in order of first occurrence |
| SupabaseQueries.CountResult | lib/supabase-queries.ts:233-235 | counting one result's list extends the tally by its names |
| SupabaseQueries.CareerTally | lib/supabase-queries.ts:238 | `Object.entries`: one entry per distinct name, in first-occurrence order, holding its count |
| SupabaseQueries.UniqueUsers | lib/supabase-queries.ts:214-216 | the number of distinct e-mails, 0 when the query gave nothing |
| SupabaseQueries.GetAdminStats | lib/supabase-queries.ts:207-249 | the statistics: total tests or 0, distinct users, recent tests or 0, and the ten most recommended careers |
| SupabaseQueries.TallyMembers | lib/supabase-queries.ts:230-238 | every tallied entry names a recommended career and holds its occurrence count |
| SupabaseQueries.TopRecommendedFacts | lib/supabase-queries.ts:238-241 | at most ten entries, exactly min(10, distinct names); descending by count; correct counts; no name twice |
| SupabaseQueries.TopRecommendedKeepsBest | lib/supabase-queries.ts:238-241 | a career left out of the list is counted no more often than any listed one |
| SupabaseQueries.TopRecommendedTies | lib/supabase-queries.ts:239-240 | equally counted careers keep their order of first occurrence |
| SupabaseQueries.SaveOutcome | lib/supabase-queries.ts:157-185 | success exactly when id and e-mail are non-empty and the insert succeeds; a missing id or e-mail gives "Usuario no autenticado"; otherwise the insert's error |
| SupabaseQueries.ResultsTable.constructor | lib/supabase-queries.ts:163-172 | the stored table starts empty |
| SupabaseQueries.ResultsTable.SaveTestResult | lib/supabase-queries.ts:146-186 | the outcome is the guard's; exactly one row with the given data is added on success, and none otherwise |
| AdminPanel.RemoveAt | components/admin-panel.tsx:94 | `filter` by index: one element fewer exactly when the index is in range |
| AdminPanel.RemoveAtSplice | components/admin-panel.tsx:94 | deleting an index in range splices out that element only, keeping the order of the rest; any other index changes nothing |
| AdminPanel.RemoveAtIndex | components/admin-panel.tsx:156 | after a delete, earlier entries keep their index and later ones move down by one |
| AdminPanel.IndexAfterDeleteTracks | components/admin-panel.tsx:92-97 | the corrected edit index still names the same entry after a delete, and is cleared exactly when that entry is deleted |
| AdminPanel.StoreInRange | components/admin-panel.tsx:79-83 | storing at an index in range replaces that entry only |
| AdminPanel.Universities | components/admin-panel.tsx:107 | never empty; an empty field gives ["Universidad"] |
| AdminPanel.UniversitiesFacts | components/admin-panel.tsx:107 | a non-empty field gives one trimmed, comma-free university per comma-separated piece |
| AdminPanel.Spaced | components/admin-panel.tsx:130 | the pieces a ", "-joined list falls into when split on "," |
| AdminPanel.JoinSpaced | components/admin-panel.tsx:130 | joining with ", " is joining those pieces with "," |
| AdminPanel.UniversitiesRoundTrip | components/admin-panel.tsx:130-145 | trimmed, comma-free universities survive a save with no change after opening the edit form, unless they join to the empty string |
| AdminPanel.NoUniversitiesBecomeDefault | components/admin-panel.tsx:130-145 | no universities, or one empty one, come back as ["Universidad"] |
| AdminPanel.CommaInNameSplits | components/admin-panel.tsx:130-145 | a university named "A,B" comes back as "A" and "B" |
| AdminPanel.ImageOrDefault | components/admin-panel.tsx:106 | the typed image, or the default picture when none is typed; never empty |
| AdminPanel.Cleared | components/admin-panel.tsx:113-118 | after an add the career form's text fields are empty and its type stays |
| AdminPanel.NewCareer | components/admin-panel.tsx:100-111 | the added career has the form's fields, the default image when none, the split universities, and no categories or skills |
| AdminPanel.FormOf | components/admin-panel.tsx:124-131 | the edit form shows the career's fields and its universities joined by ", " |
| AdminPanel.EditedCareer | components/admin-panel.tsx:137-147 | the saved career has the form's fields and keeps the categories and skills of the career it replaces |
| AdminPanel.EditedCareerUnchanged | components/admin-panel.tsx:123-147 | opening a career and saving it untouched gives it back when its image is set and its universities survive the form |
| AdminPanel.FieldEmpty | components/admin-panel.tsx:130 | a list joins to "" exactly when it is one empty string |
| AdminPanel.AddedCareerReopens | components/admin-panel.tsx:99-147 | an added career, reopened and saved untouched, is unchanged unless its universities field held white space only |
| AdminPanel.BlankFieldReopensAsDefault | components/admin-panel.tsx:107-145 | a universities field of white space only is stored as [""] and comes back as ["Universidad"] |
| AdminPanel.Texts | components/admin-panel.tsx:224 | the texts of a list of option objects, read through the references |
| AdminPanel.BlankDraft | components/admin-panel.tsx:60-65 | four new option objects with empty text, categories technical, creative, analytical and social, and value 3 |
| AdminPanel.CopyOptions | components/admin-panel.tsx:73 | corrected edit: fresh option objects with the same fields |
| AdminPanel.Panel.constructor | components/admin-panel.tsx:15-50 | the panel opens with the given lists, no edit open, four blank options, one blank edit option and the career type "Universitaria" |
| AdminPanel.Panel.SetQuestionText | components/admin-panel.tsx:207-212 | typing sets the edit form's text while editing and the new form's otherwise; every other field, both career forms included, stays |
| AdminPanel.Panel.SetAnswerText | components/admin-panel.tsx:225-235 | typing changes the text of the option object itself, in the edit form while editing and in the new form otherwise; the option's category and value and every panel field stay |
| AdminPanel.Panel.SetAnswerCategory | components/admin-panel.tsx:241-251 | choosing a category changes the option object itself; its text and value and every panel field stay |
| AdminPanel.Panel.AddQuestion | components/admin-panel.tsx:52-68 | with a text and every option answered, exactly one question with the form's options is appended and the form resets to four blank options; otherwise nothing changes; the edit form and the career side stay |
| AdminPanel.Panel.EditQuestion | components/admin-panel.tsx:70-75 | as written: the edit form receives the question's text and its very option objects; the new form and the career side stay |
| AdminPanel.Panel.EditQuestionCopy | components/admin-panel.tsx:70-75 | corrected: the edit form receives as many fresh option objects, each with the same text, category and value as the question's; the new form and the career side stay |
| AdminPanel.Panel.SaveEditQuestion | components/admin-panel.tsx:77-90 | with an edit open, a text and every option answered, only the edit index is replaced (appended one past the end), the edit closes and the form resets; otherwise nothing changes; the new form and the career side stay |
| AdminPanel.Panel.CancelQuestionEdit | components/admin-panel.tsx:272 | "Cancelar" closes the edit and changes no other field: the edit form keeps its text and options |
| AdminPanel.Panel.DeleteQuestion | components/admin-panel.tsx:92-97 | once confirmed exactly the question at the index is removed; the edit index and every other field stay |
| AdminPanel.Panel.DeleteQuestionTracked | components/admin-panel.tsx:92-97 | corrected: the delete moves the edit index with its question or closes the edit, keeping the panel's invariant; every other field stays |
| AdminPanel.Panel.AddCareer | components/admin-panel.tsx:99-121 | with a name, description and salary, exactly the career the form describes is appended and the form cleared; otherwise nothing changes; the edit form and the question side stay |
| AdminPanel.Panel.EditCareer | components/admin-panel.tsx:123-133 | the edit form is filled from the career and the edit index set; the new form and the question side stay |
| AdminPanel.Panel.SaveEditCareer | components/admin-panel.tsx:135-152 | with an edit open, a name, description and salary, only the edited index is replaced, keeping categories and skills, and the edit closes with the form keeping its fields; otherwise nothing changes; the new form and the question side stay |
| AdminPanel.Panel.CancelCareerEdit | components/admin-panel.tsx:437 | "Cancelar" closes the edit and changes no other field: both career forms keep their fields |
| AdminPanel.Panel.DeleteCareer | components/admin-panel.tsx:154-159 | once confirmed exactly the career at the index is removed; the edit index and every other field stay |
| AdminPanel.Panel.DeleteCareerTracked | components/admin-panel.tsx:154-159 | corrected: the delete moves the edit index with its career or closes the edit, keeping the panel's invariant; every other field stays |
| AdminPanel.CancelledEditIsKept | components/admin-panel.tsx:70-272 | opening a question, typing "X" into an option and cancelling leaves "X" in the list |
| AdminPanel.CancelledEditIsDropped | components/admin-panel.tsx:70-272 | with the corrected edit the same clicks leave the option's text as it was |
| AdminPanel.TypingLeavesListAlone | components/admin-panel.tsx:225-235 | under the corrected handlers no edit-form option is an option of the list |
| AdminPanel.StaleIndexOverwrites | components/admin-panel.tsx:77-97 | questions A, B, C: editing B, deleting A and saving "B2" gives [B, B2], so C is lost |
| AdminPanel.TrackedIndexSavesEditedQuestion | components/admin-panel.tsx:77-97 | with the corrected delete the same clicks give [B2, C] |

## Left out

- Rendering, the progress bar, `alert` and the tab switch are presentation only. `confirm` is a boolean parameter.
- The clock-based id and date of a test result are left out, because they depend on the clock.
- The `setTimeout` that resets the e-mail status after three seconds is a timer, so it is not modelled.
- Database queries, the mail endpoint and the HTTP request are left out. Their outcomes are parameters: the insert error, the fetch outcome, the query results of the statistics. Query failures that give `null` are `None`.
- Counting tests from the last seven days needs the clock. The model takes the list the query returns.
- The question bank, the career catalog and the weight table are parameters, not constants.
- Category totals and answer values are integers and weights are exact rationals. Floating point, non-integer answer values, NaN and Infinity in totals or weights are not modelled.
- Answer objects that are `null` in `dedupeAnswers` are not modelled. Their text is "", so they would be dropped.
- `Sequences.Distinct` and `SupabaseQueries.CareerTally`: `Object.entries` lists integer-like keys first in ascending order. The model lists names in first-occurrence order, which holds for every name that is not a canonical array index.
- `Text.IntToString` prints integers only. JavaScript's printing of non-integer numbers is not needed, because values are integers here.
- `Text.Trim` works on code points. JavaScript works on UTF-16 code units; the two agree for the white space `trim` removes.
- `Text.IsSpace` covers the ECMAScript white space and line terminators. A code point added to Unicode category Zs after the set listed there is not covered.
- `AdminPanel.Store` and `AdminPanel.Panel.SaveEditQuestion`: a stale edit index two or more past the end would leave holes in a JavaScript array. The model then leaves the list as it is.
- `AdminPanel.Panel.SaveEditCareer`: at a stale index past the end, JavaScript would add a career spread from `undefined`, with no categories or skills. The model then leaves the list as it is and closes the edit.
- `AdminPanel.Panel.SetAnswerText` and `AdminPanel.Panel.SetAnswerCategory` require the option index to exist, which holds because the form renders one input per option.
- Reading the career image and YouTube link with `|| ""` is the identity here, because the catalog always holds strings.
- The catalog's optional `universities` is a list that may be empty.
- `Tally.Accumulate`: the totals are a plain JavaScript object, so `scores[c] || 0` would read a property inherited from `Object.prototype` (a category named `__proto__`, `constructor` or `toString`). The model reads such a name as a missing key, counting from 0.
- `SupabaseQueries.CountCareers`: the same holds for `careerCounts[name] || 0`. A career named `__proto__` would never be counted in JavaScript, and `constructor` or `toString` would turn its count into a string. The model counts every name alike.
- `SupabaseQueries.CareerTally`: it lists every recommended name with its count, including names that are properties of `Object.prototype`, which JavaScript would drop or garble as above.
- The administrators' login, session handling, local history and e-mail templating are outside this model.

## Findings

| source | as written | input that shows it | evidently intended | confidence | as-written member | corrected member |
|---|---|---|---|---|---|---|
| components/vocational-test.tsx:30-35 | going back moves the cursor but keeps the totals, so a question answered again counts twice | answer "technical" 3, go back, answer "creative" 3: both categories hold 3 | totals reflect the answers on the path taken | medium, not executed | Quiz.RevisitCountsBothAnswers | Quiz.RevisitCountsPathOnly |
| lib/supabase-queries.ts:50 | the key `text::category::value` is ambiguous when a text or category holds "::" | ("a::b", "c", 1) and ("a", "b::c", 1) share a key and the second is dropped | only identical answers are merged | high, not executed | SupabaseQueries.KeyCollisionDropsAnswer | SupabaseQueries.ExactKeepsCollidingAnswers |
| components/admin-panel.tsx:70-75 | the edit form gets the question's own option objects, and typing mutates them, so a cancelled edit still changes the list | open a question, type "X" into its first option, press "Cancelar": the option reads "X" | a cancelled edit leaves the list untouched | high, not executed | AdminPanel.CancelledEditIsKept | AdminPanel.CancelledEditIsDropped |
| components/admin-panel.tsx:92-97 | deleting while an edit is open leaves the edit index pointing at a different question | questions A, B, C: edit B, delete A, save "B2": the list is [B, B2] and C is lost | the edit index follows its question, or the edit is closed | high, not executed | AdminPanel.StaleIndexOverwrites | AdminPanel.TrackedIndexSavesEditedQuestion |
