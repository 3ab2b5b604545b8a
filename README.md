# Daily art quiz: session and streak model

This project models the logic of the daily art quiz page in `src/routes/index.tsx`, in Dafny. The page shows the day's questions one at a time. The user picks an option, presses "Submit" to see whether it was right, and presses "Next" to move on, or "See Results" on the last question. The page counts the correct answers, and when the quiz ends it records the play in browser storage. That record drives a "Day Streak" figure.

Modules, one per part of the page:

- `Wrappers` (`wrappers.dfy`): the `Option` type used for a storage key that may be absent.
- `Streak` (`streak.dfy`): the `"lastDate"` key as an optional integer timestamp in milliseconds.
  - `Store` is a class whose `UpdateStreak` method writes that key in place, as `updateStreak` does.
  - `Recorded` is the pure function that specifies `UpdateStreak`.
  - `GetStreak` is the pure `getStreak`.
- `Quiz` (`quiz.dfy`): the question screen.
  - `Session` is a class holding five state cells:
    - question index;
    - chosen key (`""` means none);
    - revealed flag;
    - the shared count of correct answers;
    - the shared "show results" flag.
  - Its two click handlers are `ChooseOption` and `PressButton`.
  - `StyleOf`, `LookOf` and `LabelOf` are the pure helpers for option style, button look and button label.
  - `Score` counts correct submissions.
  - A ghost history `submitted` holds one entry per revealed question. The object invariant `Valid` ties the counter to `Score` of that history.

Modelling choices:

- **Clock.** The clock is a parameter `now` in integer milliseconds. Writing an ISO string with `toISOString` and parsing it back with `new Date` is taken to give back the same milliseconds.
- **Day comparison in `updateStreak`.** The test `diffInMs / (1000*60*60*24) > 1` becomes `diffInMs > DayMs`.
- **Rounding in `getStreak`.** `Math.floor(diffInMs / day)` becomes Dafny's `/`. With a positive divisor, Dafny's `/` also rounds down, negative elapsed times included.
- **Disabled buttons.** These are the `disabled` attributes at lines 179 and 219.
  - A click on a disabled primary button is dropped, so `PressButton` changes nothing while no option is chosen.
  - A click on an option after the reveal is dropped too, so `ChooseOption` leaves the selection unchanged.
  - `ChooseOption` takes only keys of the current question's options, because only those buttons are rendered.
- **Browser storage.** `localStorage` is the `Streak.Store` object passed to `PressButton`.
- **Question data.** The question list is an immutable `seq`. It is required to be non-empty. The current question is looked up unconditionally (lines 100-101), and the page fails on an empty list when it reads `currentQuestion.question_text` at line 168 and `.options` at line 172. The correct answer is a free string that need not be one of the option keys.

What the code does with the streak, and what the model therefore does not assume:

- **The stored value.** The code stores one timestamp under `"lastDate"` (lines 58-74), not a counter.
- **When it writes.** `updateStreak` writes `now` when the key is absent or more than 86400000 ms old. Otherwise it writes nothing.
- **What it reads.** `getStreak` returns floor(elapsed / day) + 1.
- **Consequence.** The figure is not a count of consecutive days. `Streak.StreakAfterUpdate` proves a bound for a read at the same instant as the update, with a clock not behind the stored instant: the figure is then 1 or 2, and 2 only when exactly one whole day has passed.
- **Option keys.** `correct_answer` is a free string (line 46). The model does not assume it is one of the option keys.

## Model

| member | source | states |
|---|---|---|
| Streak.Recorded | src/routes/index.tsx:58-74 | only `now` is ever written, and only when the key is absent or more than a day stale; afterwards the stored instant is at most one day behind `now` (these clauses determine the result) |
| Streak.Store.UpdateStreak | src/routes/index.tsx:58-74 | absent key: stores `now`; elapsed time over 86400000 ms: stores `now`; otherwise storage untouched; the new value is `Recorded(old value, now)` |
| Streak.GetStreak | src/routes/index.tsx:76-87 | 1 with no stored instant; otherwise the result r satisfies (r-1)·day <= elapsed < r·day (floor of the elapsed days, plus one); at least 1 whenever the clock is not behind the stored instant |
| Streak.UpdateIdempotent | src/routes/index.tsx:58-74 | a second update at the same instant leaves storage as the first left it |
| Streak.StreakAfterUpdate | src/routes/index.tsx:58-87 | with a clock that has not gone back, the streak read right after an update is 1 or 2, and 2 exactly when the stored instant was 86400000 ms earlier |
| Streak.FirstPlayStreak | src/routes/index.tsx:58-87 | with nothing stored the streak is 1, and still 1 after the first update |
| Streak.StreakWithClockBehind | src/routes/index.tsx:67-86 | when the clock reads before the stored instant nothing is written and the streak read is 0 or less |
| Streak.StreakGrowsWithTime | src/routes/index.tsx:82-86 | without a new update, the streak read never decreases as time passes |
| Quiz.StyleOf | src/routes/index.tsx:103-120 | before the reveal exactly the chosen key is highlighted and all others are plain; after it, the key equal to the correct answer is green, a chosen key that is not the correct answer is red, every other key is plain |
| Quiz.AtMostOneHighlight | src/routes/index.tsx:103-120 | no two keys share a highlight; when the correct answer is not an option key, no option turns green |
| Quiz.LookOf | src/routes/index.tsx:136-152 | the button is greyed (not-allowed cursor) exactly when it is disabled (nothing chosen), and green exactly when enabled after the reveal |
| Quiz.LabelOf | src/routes/index.tsx:222-227 | "Submit" exactly before the reveal, "See Results" exactly after it on the last question, "Next" exactly after it on any other |
| Quiz.Score | src/routes/index.tsx:199-203 | the number of correct submissions lies between 0 and the number of submissions |
| Quiz.ScoreCountsMatches | src/routes/index.tsx:199-203 | the score equals the size of the set of positions whose submission equals that question's correct answer |
| Quiz.ScoreAppend | src/routes/index.tsx:199-203 | one more submission adds one to the score exactly when it is the correct answer |
| Quiz.Session.constructor | src/routes/index.tsx:95-98 | the session starts on question 0 with nothing chosen and not revealed (lines 96-98), with the page's shared count at 0 and results hidden (lines 396-397), and satisfies the invariant |
| Quiz.ButtonEnabled | src/routes/index.tsx:219 | the primary button accepts clicks exactly when some option is chosen (`""` is none); the same test greys it at lines 144 and 148 |
| Quiz.Session.ChooseOption | src/routes/index.tsx:172-183 | offered only while the results are hidden (line 423); before the reveal the chosen key becomes `key`; after it the selection cannot change; the other four cells are unchanged; invariant kept |
| Quiz.Session.PressButton | src/routes/index.tsx:193-219 | offered only while the results are hidden (line 423). Disabled (nothing chosen): nothing changes. "Submit": revealed, counter +1 exactly when the choice is the correct answer, index and choice unchanged. "Next": index+1, choice cleared, not revealed, counter and results flag unchanged. "See Results": results shown and the streak update applied, everything else unchanged. Invariant kept in every case |
| Quiz.Session.ScoreBounds | src/routes/index.tsx:195-216 | in every reachable state the count is at most the number of revealed questions, which is at most the number of questions |
| Quiz.Session.ChosenStyleAgreesWithScore | src/routes/index.tsx:103-203 | after the reveal the chosen option is drawn green exactly when its submission was scored, and red exactly when it was not |
| Quiz.Session.FinalScore | src/routes/index.tsx:205-212 | when the results are shown every question has a submission and the count is the number answered correctly |
| Quiz.AnswerAndAdvance | src/routes/index.tsx:172-218 | choose, submit and "Next" on a question that is not the last: the next question starts clean and the count grows exactly when the choice was correct |
| Quiz.SevenQuestionRun | src/routes/index.tsx:172-219 | seven questions with correct answers A,A,C,A,C,C,A answered A,B,C,A,B,C,A end with the results shown, a count of 5 and `now` stored |

## Left out

- `useQuiz` (lines 51-56): the network fetch, the `QUIZ_URL` environment value and the date string derived with `toJSON().split("T")` only build and issue the request.
- Real `localStorage` and the system clock: storage is the `Streak.Store` object and the clock is the `now` parameter.
- `toISOString` and `new Date(string)` parsing: abstracted to integer milliseconds. A stored value that does not parse, where the code's arithmetic yields NaN, is not modelled.
- The empty string under `"lastDate"` is also treated as absent by `!lastDate`. Only `toISOString` output is ever written there, so the model's `None` stands for every falsy value.
- `Streak.GetStreak`: does not model floating-point rounding of `diffInMs / day`. `Math.floor` of the double quotient agrees with integer floor division until `diffInMs` reaches 2^53 ms, about 104 million days.
- Clock reads: the page reads the clock twice, in `updateStreak` during the click (line 60) and in `getStreak` when the results render (line 83). The model uses one `now` for both in `Streak.StreakAfterUpdate`. So the page can also show 2 when the stored instant was just under a day old at the update, and can show 0 or less when the clock is behind the stored instant (`Streak.StreakWithClockBehind`).
- Storage failures: `localStorage.getItem` and `setItem` can throw, when storage is disabled or full. `Streak.Store` never fails. In the source, a throwing `setItem` inside `updateStreak` leaves `"lastDate"` as it was after line 209 has already set the results flag, and the exception escapes the click handler.
- Rendering: the JSX, the CSS style objects beyond the option, button and label classification, the hard-coded "/7" counter text (line 166), the "Day Streak" text whose two branches are identical (line 300), the provenance list (lines 324-379) and the `head` metadata (lines 384-393).
- Qwik signal reactivity and re-rendering: the signals are plain fields of `Quiz.Session`. Once the results flag is set, the page stops rendering the question screen (line 423). The model states that fact as the precondition `!showResults` of `ChooseOption` and `PressButton`.
- The `colors` tables (lines 7-33 and `src/colors.ts`): constant data, no behaviour.
