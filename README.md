# EconoLearn quiz session, modelled in Dafny

EconoLearn is a single-page multiple-choice quiz. Its `App` component in
`main.jsx` holds all of the logic:

- It loads a question bank and lets the student pick a chapter.
- It runs an untimed practice run or a timed test drawn at random.
- During a run it tracks each question's answer, review mark and skip.
- It counts the score and colours the question palette.
- When a run reaches the result page it writes an attempt record to a
  history list capped at 50 entries.
- It shows that history sorted, and per-chapter analytics over it.

The model follows the component's parts, one module per part:

- `Wrappers`: `Option` and `Result`.
- `QuizTypes`: questions, attempts and snapshots, pages, modes and palette
  statuses; the "Unknown" chapter label.
- `Basics`: the minimum and maximum, and sequences without repetitions.
- `Rounding`: `Math.round` of a quotient, taken as integer
  round-half-up, and the percentage built on it.
- `Timing`:
  - the time allowed per question;
  - the countdown tick, and a whole countdown as a sequence of ticks;
  - the `h:mm:ss` / `mm:ss` clock text, with a proof that the text reads
    back as the seconds it shows.
- `Sampler`: the chapter filter, the Fisher–Yates shuffle (an in-place
  array loop), taking the first n, and the size of a test.
- `Loader`: turning the fetched `questions.json` into the question list.
- `Scoring`: the score, the attempted and unattempted counts, the palette
  status, and the skip rule applied when a question is left.
- `History`:
  - the attempt entry;
  - the stored list with its 50-entry cap (a `HistoryStore` class whose
    stored value is updated in place);
  - the sorted view of the history page.
- `Analytics`: the per-chapter aggregation. It is a dictionary filled by
  nested loops, with the rows sorted by chapter.
- `Quiz`: the `Session` class.
  - It holds the page, the run, `current`, the `answers` map and the
    `marked` and `skipped` sets, and the countdown.
  - It has one method per handler.
  - `EnterResult` models the history write, which is tied to entering the
    result page.
- `Scenarios`: whole runs through a `Session`:
  - a practice run;
  - a test that runs out of time;
  - a submit followed by a stale timer firing;
  - a test over an empty bank.

Modelling choices:

- An answer is present or absent in `answers`. `marked` and `skipped` are
  sets of question indices, where membership means the flag is truthy.
- A question's `chapter` is an `Option<string>`, where `None` stands for a
  missing or null field.
- The random source is a parameter `draw`. The shuffle swaps index `i`
  with `draw(i) mod (i + 1)`, so every index drawn lies in `[0, i]`, as
  `(Math.random()*(i+1))|0` does.
- The clock reading is a parameter `now: int`. It serves as both the id
  and the timestamp of an entry, and the history sort compares timestamps
  as integers.
- The chapter rows are sorted with `localeCompare`. The model replaces it
  with lexicographic order on character codes (`LabelLe`), which is a total
  order; "## Left out" says where the two differ.
- `parseInt(testCount||1,10)` is a parameter `parsed: int`.
- A handler that acts on the question on screen requires the quiz page
  with `current` inside the run (`OnQuestion`). Next also requires
  `current < |activeSet| - 1`, and the last-question Submit requires the
  last question, because only then does the page show those buttons.
  History and Analytics require the home page, the only page whose header
  shows them.
- Two handlers are modelled in more states than the page offers them:
  - Previous is modelled at question 0 too, where its button is disabled
    (main.jsx:323). There the skip rule is still applied to question 0,
    and `Math.max` keeps `current` at 0. A palette jump onto the question
    on screen (main.jsx:359) has the same effect.
  - GoHome is modelled on every page. An empty quiz page renders nothing
    (main.jsx:270), so no Home button is shown there.

In the following places the code does something other than what a user
would expect. The model follows the code:

- One would expect both Submit buttons to end the run the same way. The
  last-question Submit applies the skip rule to the question being left
  (main.jsx:335). The palette's Submit Test does not (main.jsx:370).
  See `Quiz.Session.Submit` and `Quiz.Session.PaletteSubmit`.
- One would expect a start with no questions to be refused. It is not.
  - A practice run over an empty pool starts with no questions. The quiz
    page then renders nothing, not even its header (main.jsx:270). Only a
    reload leaves that screen.
  - A test over an empty pool still has size 1 and starts a 72-second
    countdown (main.jsx:175-176). When that countdown runs out, nothing is
    written, because the entry is built only when `total` is non-zero.
  - See `Scenarios.EmptyBankTest`.
- Nothing guards against submitting twice, except that the history write
  happens as an effect of the change to the result page. `EnterResult`
  writes only when the page was not already the result page.
  `Scenarios.SubmitThenTick` shows that a firing due after Submit changes
  nothing.
- One would expect a single meaning of "answered". The code decides it
  two ways.
  - The skip rule tests truthiness (`!answers[current]`), so an answer
    equal to the empty string counts as unanswered there
    (`Scoring.HasTruthyAnswer`).
  - The counts and the palette test `!= null`, so the same answer counts
    as attempted there.

## Model

| member | source | states |
|---|---|---|
| Rounding.RoundDiv | main.jsx:13 | the result is the integer nearest to num/den, with halves rounded up: (2r-1)·den ≤ 2·num < (2r+1)·den |
| Rounding.Percent | main.jsx:182 | 0 for an empty run; otherwise the whole percentage nearest to part/whole; at most 100 when part ≤ whole; exactly 100 when all are correct; 0 when none are |
| Timing.TimeForN | main.jsx:12-13 | n questions get n·1.2·60 seconds, rounded, which is exactly 72·n |
| Timing.TickStep | main.jsx:164 | a firing expires exactly when the remaining value is ≤ 1 and then leaves 0; otherwise it leaves one second less, still ≥ 1 |
| Timing.RunFrom | main.jsx:162-164 | started on sec ≥ 1 seconds, the countdown still runs with sec−k left after k < sec firings; from the sec-th firing on, it is cleared at 0 having expired exactly once |
| Timing.Digits | main.jsx:19 | `String(n)` is non-empty and all digits: one digit below 10, and from 10 on at least two with no leading zero |
| Timing.Pad2 | main.jsx:19 | `padStart(2,'0')`: a text of length ≥ 2 is kept; a shorter one becomes length 2, ending in the original, with '0' in front |
| Timing.DigitsRead | main.jsx:19 | the decimal digits of n read back as n |
| Timing.PaddedDigits | main.jsx:19 | a padded field has no ':' and reads back as its number |
| Timing.PaddedWidth | main.jsx:16-19 | a minutes or seconds field, below 60, is exactly two characters wide |
| Timing.FmtRoundTrip | main.jsx:14-20 | `Fmt`, the model of `fmt`: reading the clock text back, field by field in base 60, gives the seconds that were formatted, with or without an hours field |
| Timing.FmtShortShape | main.jsx:19 | under an hour `Fmt` gives `mm:ss`: five characters with ':' in the middle, two digits before it reading as the minutes and two after it reading as the seconds |
| Timing.FmtLongShape | main.jsx:18 | from an hour on `Fmt` gives `h:mm:ss`: the hours' digits, unpadded, then ':' and two digits reading as the minutes, ':' and two digits reading as the seconds |
| Sampler.Shuffle | main.jsx:23 | the swap loop on a copy returns a permutation of its input (same length, same multiset); the input is left as it was |
| Sampler.PickN | main.jsx:24 | min(n, \|a\|) items taken from a shuffle of a: a sub-multiset of a |
| Basics.SelectionDistinct | main.jsx:24 | a sub-multiset of a duplicate-free pool is itself duplicate-free |
| Sampler.InChapterCounts | main.jsx:169 | the chapter filter keeps every copy of each question of that chapter and no question of any other |
| Sampler.InChapterAppend | main.jsx:169 | the filter keeps the original order: filtering a concatenation is concatenating the filtered parts |
| Sampler.Pool | main.jsx:173 | "All" is the whole bank; any other choice gives exactly the questions whose chapter equals it |
| Sampler.RequestedCount | main.jsx:174 | the requested count is the parsed input when that is ≥ 1, and exactly 1 otherwise |
| Sampler.TestSize | main.jsx:175 | n ≥ 1; n ≤ \|pool\| when the pool is non-empty; n is 1 over an empty pool; cut to the pool, n is the request cut to the pool |
| Sampler.EstimateSize | main.jsx:196-198 | the count behind the home page's time estimate always equals the size the test then starts with |
| Sampler.DrawTest | main.jsx:173-176 | n = TestSize; the set has min(request, \|pool\|) questions, all drawn from the pool without replacement; it is duplicate-free when the pool is |
| Loader.Normalize | main.jsx:153 | an array is used as it is; an object gives its `questions` field, or [] without one; null or any other value gives [] |
| Loader.Load | main.jsx:151-155 | a failed fetch gives exactly the error "Could not load questions.json"; otherwise the normalised list |
| Loader.ShapesAgree | main.jsx:153 | a bare array and an object holding that array under `questions` load the same list |
| Loader.EmptyObjectIsEmptyPool | main.jsx:153 | an object without `questions` loads as an empty bank, not as an error |
| QuizTypes.Label | main.jsx:473 | a question is grouped under its chapter when that is a non-empty string, and under "Unknown" otherwise; a label is never empty |
| QuizTypes.SnapshotOf | main.jsx:185 | a snapshot keeps the chapter, text, options, key and source of its question |
| Scoring.Score | main.jsx:160 | the score of a run is at most the number of its questions |
| Scoring.ScoreCountsCorrect | main.jsx:160 | the score is the number of indices i whose answer is present and equal to question i's key |
| Scoring.AnsweredBelowIsCard | main.jsx:159 | the answered count below n is the size of the set of answered indices below n |
| Scoring.AttemptedIsAnsweredQuestions | main.jsx:159 | `AttemptedCount`, the model of `attemptedCount`: while every key lies in the run, it is the number of run questions answered, at most the run's size |
| Scoring.UnattemptedCount | main.jsx:271 | max(0, total − attempted) added to the attempted count gives total while answers stay inside the run |
| Scoring.ScoreAtMostAnswered | main.jsx:160 | unanswered questions never score: the score is at most the number of answered questions |
| Scoring.ScoreAtMostAttempted | main.jsx:159-160 | the score never exceeds `attemptedCount` |
| Scoring.StatusOf | main.jsx:350-351 | the palette status, for each of its five values exactly when its condition holds, in the priority order of the code |
| Scoring.SkipOnLeave | main.jsx:324 | leaving a question changes only that question's skip flag; it is set exactly when the answer is not truthy and the question is unmarked; no skip is withdrawn |
| History.StoredAnswer | main.jsx:184 | a stored slot holds the selected option, or null when there is none |
| History.Entry | main.jsx:181-186 | id and timestamp are the clock; mode and chapter are copied; total and both lists have the run's length; slot i holds question i's answer, and is null exactly when it is unanswered; snapshots copy the questions; score is the run's score ≤ total; percent is the rounded share ≤ 100; durationSec is 72·total in a test and null in practice |
| History.EntryScoreIsCorrectSlots | main.jsx:183-186 | the stored score equals the number of stored slots that match their snapshot's key |
| History.Push | main.jsx:187 | after a write the new entry is first, followed by the old list cut so that at most 50 entries remain |
| History.PushAllKeepsNewest | main.jsx:187 | after a series of writes, the entries written are newest first, followed by the old list, all cut to 50 |
| History.CapKeepsFiftyMostRecent | main.jsx:187 | after 50 writes or more, the list is exactly the 50 most recent entries, newest first |
| History.HistoryStore.constructor | main.jsx:5-9 | the store starts from the value read from storage and whether writes succeed |
| History.HistoryStore.Get | main.jsx:7 | reading gives the stored list, or [] when it is missing or cannot be parsed |
| History.HistoryStore.Set | main.jsx:8 | a write replaces the list, and a write that fails is silently ignored |
| History.HistoryStore.Append | main.jsx:187 | reading, putting the entry in front and writing back the first 50: the list becomes Push(old, e) when writes succeed |
| History.Insert | main.jsx:416-419 | putting an entry into a sorted list keeps it sorted and adds exactly that entry |
| History.SortByRank | main.jsx:416-419 | the sort returns a permutation of its input, ordered by `Rank`, the model of the comparator: it compares `a` and `b` as `Rank(a) - Rank(b)` |
| History.InsertKeepsTies | main.jsx:416-419 | an inserted entry goes in front of the entries it ties with, leaving their order as it was |
| History.SortKeepsTies | main.jsx:416-419 | the sort is stable: for every rank, the entries of that rank come out in their stored order |
| History.SortHistory | main.jsx:416-419 | the history view is a permutation of the stored list, ordered by date (newest or oldest first) or by percent (high or low first), with tied entries in their stored order |
| Analytics.LabelLeTotal | main.jsx:475 | any two chapter labels are comparable |
| Analytics.LabelLeTransitive | main.jsx:475 | the label order is transitive |
| Analytics.SortLabels | main.jsx:475 | the labels are sorted into a permutation of themselves |
| Analytics.AttemptOutcomes | main.jsx:473 | each snapshot question of an attempt, in order, gives its chapter label and whether its stored answer is the key |
| Analytics.CountCorrectLabel | main.jsx:473 | a chapter's correct count never exceeds its total |
| Analytics.TallyCounts | main.jsx:473 | the dictionary's keys are exactly the labels that occur; each bucket's total and correct count its chapter's questions and right answers |
| Analytics.TallyOntoTally | main.jsx:473 | folding the questions attempt by attempt gives the same dictionary as folding them all at once |
| Analytics.CountQuestion | main.jsx:473 | one question creates its bucket if it is missing, adds 1 to the total, and adds 1 to correct when the answer was right; the label list records each key once |
| Analytics.CountAttempt | main.jsx:473 | the inner loop folds one attempt's questions into the dictionary |
| Analytics.Aggregate | main.jsx:472-473 | the nested loops build exactly the per-chapter counts of the whole history, and the keys are listed once each |
| Analytics.ChapterRows | main.jsx:472-475 | one row per chapter label that occurs, strictly sorted by label; each row's total is the label's question count (> 0), its correct is the right answers (≤ total), and pct their rounded share; totals sum to the number of snapshot questions and corrects to the right answers |
| Analytics.OutcomesCountAttempts | main.jsx:473 | the questions counted are exactly the attempts' snapshots, and the right answers are the slots that match the key |
| Analytics.HistoryTotals | main.jsx:472-475 | the rows' totals sum to the attempts' question counts and their corrects to the number of stored answers that match the keys |
| Analytics.EntryTotals | main.jsx:472-475 | the analytics of a single written attempt counts the run's questions and exactly its score |
| Quiz.Session.constructor | main.jsx:130-143 | the application starts on the home page in practice mode, chapter "All", with an empty run and no countdown |
| Quiz.Session.ResetRun | main.jsx:167 | back to question 0 with no answers, marks or skips; nothing else changes |
| Quiz.Session.StartPractice | main.jsx:168-171 | the run is the chosen chapter's pool, even an empty one; the state is reset; the countdown is stopped; the quiz page is shown |
| Quiz.Session.StartTest | main.jsx:172-177 | the run has min(request, \|pool\|) questions drawn from the pool without repetition; the countdown runs with 72·TestSize seconds; the state is reset; the quiz page is shown |
| Quiz.Session.Select | main.jsx:313 | the current answer becomes the option, and only the current skip is withdrawn; nothing else changes |
| Quiz.Session.ClearResponse | main.jsx:325 | only the current answer is removed |
| Quiz.Session.ToggleMark | main.jsx:327 | only the current mark is flipped |
| Quiz.Session.MarkLeft | main.jsx:324 | the skip rule applied to the question being left, and no other change |
| Quiz.Session.Previous | main.jsx:324 | the skip rule, then current becomes max(0, current − 1), still inside the run |
| Quiz.Session.Next | main.jsx:333-334 | the skip rule, then current + 1, still inside the run |
| Quiz.Session.Jump | main.jsx:359 | the skip rule, then the chosen question |
| Quiz.Session.EnterResult | main.jsx:179-188 | entering the result page from another page, with a non-empty run, writes Push(old list, entry) once; a run already on the result page, or an empty run, writes nothing |
| Quiz.Session.Submit | main.jsx:335 | the skip rule, the countdown stopped with its remaining seconds kept, the result page shown, and the entry written; nothing else changes |
| Quiz.Session.PaletteSubmit | main.jsx:370 | the countdown stopped with its remaining seconds kept, the result page shown, and the entry written, with no skip rule applied; nothing else changes |
| Quiz.Session.Tick | main.jsx:163-164 | a running countdown follows TickStep and, on expiry, is cleared, shows the result page and writes the entry; a cleared countdown does nothing |
| Quiz.Session.GoHome | main.jsx:283 | leaving for the home page stops the countdown; the run, its position, answers, marks, skips and remaining seconds are kept |
| Quiz.Session.OpenHistory | main.jsx:58 | the home page opens the history page, with no countdown running; the run and its state are kept |
| Quiz.Session.OpenAnalytics | main.jsx:59 | the home page opens the analytics page, with no countdown running; the run and its state are kept |
| Quiz.Session.Counts | main.jsx:271 | the attempted count is the number of run questions answered, and attempted plus unattempted is the run's size |
| Quiz.Session.HistoryView | main.jsx:415-419 | the history page shows a permutation of the stored list, ordered by the chosen date or percent order, with tied entries in their stored order, without changing the store |
| Quiz.Session.AnalyticsView | main.jsx:472-475 | the analytics rows over the stored list: one per chapter label that occurs, strictly sorted by label, each with its question count (> 0), right answers (≤ total) and rounded share; they count every stored question and every right answer |
| Scenarios.PracticeRun | main.jsx:324-335 | answering the first question, passing over the second and marking the third gives score 1, the statuses Attempted, Skipped and MarkedOnly, and one entry of 3 questions at 33 percent without a duration |
| Scenarios.TimedOut | main.jsx:163-164 | a 10-question test starts on 720 seconds, and the 720th firing ends it with exactly one entry whose duration is 720 |
| Scenarios.SubmitThenTick | main.jsx:179-188 | a Submit followed by a stale firing records the run exactly once |
| Scenarios.EmptyBankTest | main.jsx:172-177 | an object without questions loads as []; a test over it has no questions, starts on 72 seconds, and at expiry records nothing |

## Left out

- service-worker.js: the offline cache and its fetch handlers are I/O.
  They are not part of this model.
- Rendering: the JSX, the header and hero, the selects and their document
  listeners, the ripple styles, the progress bar, and the iOS check.
- The `fetch` of `questions.json` and its promise chain. `Loader.Load`
  takes the response as it is, or `None` for a failure.
- `localStorage` and JSON. `HistoryStore` holds the parsed value, or
  `None` when it is missing or cannot be parsed, and a flag for whether
  writes succeed.
- `setInterval` and `clearInterval`. The `ticking` flag stands for a
  scheduled interval, and `Quiz.Session.Tick` is one firing.
- `Math.random` and `Date`. They become the parameters `draw` and `now`.
  Ids and timestamps are integers, not `'attempt_'+ms` strings and ISO
  text.
- React's batching of state updates and its effect scheduling. Each
  handler is one atomic step.
- Sampler.RequestedCount: `parsed` is an integer. A test-count field that
  parses to NaN is not modelled.
- Rounding.Percent: the rounding is exact integer round-half-up on score
  and total. Floating-point error in `score/total*100` before `Math.round`
  is not modelled.
- Loader.Normalize: an object whose `questions` field holds something
  other than an array is not modelled.
- Analytics.ChapterRows: sorts the labels by character codes, not by
  `localeCompare`. The order differs where the locale order ignores case
  or accents: the code puts "banking" before "Macro", the model puts
  "Macro" first. Quiz.Session.AnalyticsView inherits this.
- Analytics.ChapterRows: a label that names a property of
  `Object.prototype` ("constructor", "toString", "__proto__") is not
  modelled. In the code `agg[ch]??=` finds the inherited value and keeps
  it, and `Object.entries` leaves the label out, so that chapter gets no
  row (main.jsx:473-474). The model gives it a row like any other label.
- History.HistoryStore.Get: a stored value that is valid JSON but not an
  array is not modelled. The model's stored value is either a list of
  attempts or nothing, which reads as []. In the code:
  - an object, number or boolean throws at `h.unshift` (main.jsx:187),
    at `[...h]` (main.jsx:416) and at `hist.forEach` (main.jsx:473);
  - a string throws at `h.unshift` and `hist.forEach` too;
  - on the history page, a non-empty string is spread into characters
    and throws later, at `a.questions.map` (main.jsx:447);
  - on the history page, `""` shows the empty list.
- Analytics.ChapterRows: collects the dictionary's keys, sorts them, and
  maps each to its row. The code instead maps and then sorts the rows. The
  rows produced are the same, because every key occurs once.
- Fields of the question record that the logic does not use, and the
  display of snapshots on the result and history pages, are not modelled.
