# JellyStudyAid: a verified model of the study-aid pages

JellyStudyAid is a set of small browser pages plus one backend endpoint:
- a month calendar with per-day events;
- an earlier calendar page with single-date selection;
- a notes-to-quiz helper together with its quiz service;
- a countdown timer;
- a rich-text notepad.

This project models their logic in Dafny and proves properties of it. It covers:
- how the calendar grid is laid out;
- the event store behind the calendar's modal form, with its persistence;
- the modal's state machine;
- the quizzer's question count, cache hash, fallback questions, export text and HTML escaping;
- the quiz service's request clamp, blank-notes guard, reply clean-up and fallback;
- the timer's state machine and clock face;
- the notepad's counters, indent/unindent, plain-text import and escaping.

Modules:
- `Wrappers`: `Option` and `Result`.
- `Text`: the white-space classes of JavaScript `\s`/`trim()` and Python `str.isspace`; strip by set, split and join; `String(n)`, `n.toString(16)`, `padStart`, with readers that invert them.
- `Lines`: JavaScript `split(/\r?\n/)`, `match(/\S+/g)` and `replace(/\s/g, '')`.
- `Html`: escaping with either apostrophe entity, and an unescaper that inverts it. It also holds the calendar's five chained `replaceAll` passes, proved equal to the single-pass escaper.
- `Gregorian`:
  - the leap rule and month lengths;
  - a day number counted from 1 January of year 1, and the weekday;
  - the way `new Date(y, m, d)` reads a year 0..99 as 1900 + y;
  - `isoFromParts` and a reader for the keys it writes.
- `CalendarGrid`: `cell` and `buildMonthCells` of `src/js/calendar.js`. The method builds its leading days with a loop and is proved equal to the index-wise specification `MonthGrid`.
- `EventStore`: one day's event list (find, edit, filter, append); the chip summary; loading and persisting the whole index under one storage key.
- `CalendarView`: month navigation, `escapeHTML`, and the class `CalendarSession`, which holds the page's `state` object and the modal form's fields.
- `LegacyCalendar`: the earlier page `src/calendar.js`. Its three-loop `buildMonthCells` is proved to build exactly the same grid as the current page, and `selectDate` toggles the selection.
- `Quizzer`: `src/js/ai-quizzer.js`. `QuizBackend`: the pure part of `src/backend/main.py`.
- `Timer`: the class `CountdownTimer`, over whole milliseconds.
- `Notepad`: the string transforms of `src/js/notepad.js`.

Inputs the pages take from the outside world are parameters:
- the clock (`Date.now()` for new event ids, today's month at start-up, the export date, the time elapsed between animation frames);
- the stored values;
- the reply of the question generator.

Event ids come from the millisecond clock.
- `CalendarView.CalendarSession.SaveTrimmed` keeps ids unique only on a condition: when nothing is being edited, the clock value `now` must not already be an id. For distinct ids within the saved bucket it must be new to that bucket. For ids unique across the whole index (`EventStore.IdsUniqueAcross`) it must be new to every bucket.
- Nothing in the page ensures that condition. Two events saved on one date within the same millisecond share an id.
- `EventStore.DuplicateIdDeletesBoth` shows the effect: one row's Delete then removes both events, and an edit reaches only the first.

Two other behaviours of the page are kept as written:
- A row's Delete button does not clear the edit in progress. A later Save for the removed id saves nothing, but it still writes the bucket and clears the form.
- A save always assigns the bucket. A save on a date that had no events therefore creates a key even when it only edits.

## Model

| member | source | states |
|---|---|---|
| `Text.StripStartSpec` | src/js/calendar.js:210-211 | the start of `trim`: what it removes is a prefix of white-space characters, and what is left does not start with one |
| `Text.StripEndSpec` | src/backend/main.py:76 | `rstrip(chars)` and a trailing `[chars]+$` replaced by nothing: what is removed is a suffix of those characters, and what is left does not end with one |
| `Text.StripIdempotent` | src/js/calendar.js:210-211 | trimming an already trimmed value changes nothing |
| `Text.StripEmptyIff` | src/backend/main.py:34-37 | a string strips to nothing exactly when every character of it is strippable, in both directions |
| `Text.Split` | src/js/notepad.js:300 | there is always at least one part, even for the empty string |
| `Text.SplitPartsFree` | src/js/notepad.js:300 | no part holds a separator |
| `Text.SplitOfSeparatorFree` | src/js/notepad.js:300 | a string without separators splits into itself alone |
| `Text.SplitPrefix` | src/js/notepad.js:300 | a separator-free piece followed by a separator splits off as one part |
| `Text.JoinSplit` | src/js/notepad.js:300-302 | splitting at a character and joining with it again gives the string back |
| `Text.SplitCount` | src/js/notepad.js:300 | there is one part more than there are separators |
| `Text.PadStart` | src/js/calendar.js:159-160 | `padStart` with one pad character: the result has the width (or the string's own length when it is longer), ends with the string, and is padded in front |
| `Text.ToBase` | src/js/ai-quizzer.js:117 | `toString(radix)`: at least one digit of the base, lower-case, and no leading zero |
| `Text.ParseToBase` | src/js/ai-quizzer.js:117 | the digits read back in the same base give the number |
| `Text.ParseLeadingZeros` | src/js/calendar.js:159-160 | zeros in front do not change the value of a digit string |
| `Text.NatToString` | src/js/timer.js:112 | `String(n)` for `n >= 0` is a non-empty run of decimal digits |
| `Text.ParseIntToString` | src/js/timer.js:118 | the decimal text of any integer, sign included, reads back as that integer |
| `Text.IntToStringInjective` | src/js/timer.js:118 | different integers are written differently |
| `Text.Pad2` | src/js/timer.js:112 | `String(n).padStart(2, '0')`: two digits below 100, all digits and no padding above |
| `Text.Pad2Digits` | src/js/timer.js:112 | a number below 100 is written as its tens digit followed by its units digit |
| `Text.ParsePad2` | src/js/timer.js:112 | the padded field reads back as the number |
| `Lines.SplitConcat` | src/js/notepad.js:300 | cutting at a separator splits the parts of the two sides apart |
| `Lines.SplitJoinWith` | src/js/ai-quizzer.js:110 | separator-free parts joined with one separator split back into themselves |
| `Lines.JoinAppend` | src/js/ai-quizzer.js:110-112 | joining two runs of parts is joining each, with one separator between |
| `Lines.DropCRs` | src/js/notepad.js:300 | a `\r` just before a `\n` belongs to the cut: every part but the last loses one final `\r`, and the last is kept |
| `Lines.SplitLines` | src/js/notepad.js:300 | `split(/\r?\n/)`: as many lines as `\n`-cut parts, none holding a `\n` |
| `Lines.LineCount` | src/js/notepad.js:300 | one line more than there are `\n` characters |
| `Lines.JoinLF` | src/js/notepad.js:300 | lines joined with `\n`, of which only the last may end in `\r`, split back into themselves |
| `Lines.JoinCRLF` | src/js/notepad.js:300 | lines joined with `\r\n` (Windows line ends) split back into themselves |
| `Lines.NonEmpty` | src/js/ai-quizzer.js:121 | `filter(Boolean)`: no empty string remains, and there are never more strings than in the input |
| `Lines.NonEmptyMembers` | src/js/ai-quizzer.js:121 | every string the filter keeps is one of the input's strings |
| `Lines.NonEmptyConcat` | src/js/ai-quizzer.js:121 | the filter distributes over concatenation |
| `Lines.NonEmptyKeeps` | src/js/ai-quizzer.js:121 | a string is kept exactly when it is in the input and not empty |
| `Lines.LongerThan` | src/js/ai-quizzer.js:122 | `filter(l => l.length > n)`: only input lines longer than `n` remain |
| `Lines.LongerThanConcat` | src/js/ai-quizzer.js:122 | the length filter distributes over concatenation, so the kept lines stay in input order |
| `Lines.LongerThanKeeps` | src/js/ai-quizzer.js:122 | a line is kept exactly when it is in the input and longer than `n` |
| `Lines.Words` | src/js/notepad.js:22 | `match(/\S+/g)`, or no words on no match: every word is non-empty and free of white space |
| `Lines.WordsOfJoin` | src/js/notepad.js:22 | space-free words joined by single blanks are found again exactly |
| `Lines.WordsTrim` | src/js/notepad.js:22 | trimming before matching finds the same words |
| `Lines.WordsAreSqueeze` | src/js/notepad.js:22-23 | the characters kept by `replace(/\s/g, '')` are exactly the characters of the words, in order |
| `Lines.WordsAtMostChars` | src/js/notepad.js:22-23 | non-empty words are no more numerous than their characters |
| `Lines.Squeeze` | src/js/notepad.js:23 | the kept characters hold no white space and are no more than the input |
| `Html.Escape` | src/js/notepad.js:318-321 | no `<`, `>`, `"` or `'` is left, the result is at least as long, and a string without special characters is returned as it is |
| `Html.UnescapeEscape` | src/js/notepad.js:318-321 | unescaping the escaped string gives it back, with either apostrophe entity |
| `Html.EscapeInjective` | src/js/ai-quizzer.js:104-106 | different strings escape differently |
| `Html.ReplaceAllConcat` | src/js/calendar.js:239 | a global replacement of one character distributes over concatenation |
| `Html.ReplaceChainChar` | src/js/calendar.js:239 | on one character the five chained passes give that character's entity, because no later pass touches what an earlier pass wrote |
| `Html.ReplaceChainIsEscape` | src/js/calendar.js:238-240 | the five chained `replaceAll` passes equal the single-pass escaper with `&#039;` |
| `Gregorian.MonthLength` | src/js/calendar.js:156 | 28..31 days: 29 exactly for a leap February, 28 exactly for any other February, 30 exactly for April, June, September and November |
| `Gregorian.DaysInMonth` | src/calendar.js:153-156 | day 0 of the next month: the length of the month in the year `new Date` reads, always 28..31 |
| `Gregorian.Weekday` | src/js/calendar.js:127-128 | the weekday is 0..6, Sunday first |
| `Gregorian.FirstWeekday` | src/calendar.js:98-99 | `new Date(y, m, 1).getDay()` is 0..6 |
| `Gregorian.MonthsAddUp` | src/js/calendar.js:156 | the months before the next month are those before this one plus its length |
| `Gregorian.NextMonth` | src/js/calendar.js:146-147 | the month after, December wrapping to January of the next year: one month later in `12 * y + m` |
| `Gregorian.PrevMonth` | src/js/calendar.js:131-132 | the month before, January wrapping to December of the year before: one month earlier |
| `Gregorian.NextMonthStart` | src/js/calendar.js:146-149 | the next month's first day comes one month length after this month's first day |
| `Gregorian.NextMonthWeekday` | src/js/calendar.js:146-149 | the weekday of the next month's first day is this first weekday plus the month length, modulo 7 |
| `Gregorian.DayNumberInjective` | src/js/calendar.js:153-155 | distinct real dates have distinct day numbers |
| `Gregorian.ParseIsoFromParts` | src/js/calendar.js:158-162 | the key `IsoFromParts(y, m0, d)`, written `y-MM-DD`, has two dashes in fixed places from the end and reads back as the year, the 0-based month and the day it was built from |
| `Gregorian.IsoInjective` | src/calendar.js:162-167 | different dates never share a key |
| `Gregorian.KnownDates` | src/js/calendar.js:156 | February 2024 has 29 days and February 2023 has 28; 1 September 2025 is a Monday; one key written out |
| `CalendarGrid.Cell` | src/js/calendar.js:153-155 | `cell` keeps its year, month, day and flag, and its key is the key of those parts |
| `CalendarGrid.TrailingCount` | src/js/calendar.js:142-144 | the trailing count is below 7 and completes the last week |
| `CalendarGrid.MonthGrid` | src/js/calendar.js:126-152 | the index-wise description of the grid, one cell per position |
| `CalendarGrid.BuildMonthCells` | src/js/calendar.js:126-152 | the loop-built grid equals `MonthGrid`; its length is a multiple of 7 between 28 and 42 |
| `CalendarGrid.GridFromParts` | src/js/calendar.js:151 | the leading, current and trailing runs, each described by index, concatenate to the grid |
| `CalendarGrid.GridShape` | src/js/calendar.js:126-152 | leading padding is the weekday of the first, trailing padding is below 7, the length is whole weeks, four to six of them |
| `CalendarGrid.GridCells` | src/js/calendar.js:131-151 | every cell is a real date; the flagged cells are exactly one run of days 1..n of the month; leading cells are the last days of the previous month ending on its last day; trailing cells are days 1.. of the next month |
| `CalendarGrid.GridConsecutive` | src/js/calendar.js:126-152 | for years `new Date` reads as written, the grid is consecutive days, and column `k % 7` is the weekday |
| `CalendarGrid.ConsecutiveGridsAlign` | src/js/calendar.js:142-149 | a month's trailing padding is exactly the part of the next month's first week that that month's leading padding leaves |
| `CalendarGrid.InMonthCountIsMonthLength` | src/js/calendar.js:140 | exactly as many cells are flagged as the month has days |
| `CalendarGrid.FebruaryExamples` | src/js/calendar.js:156 | the February 2024 grid flags 29 cells and the February 2023 grid flags 28 |
| `CalendarGrid.GridKeysDistinct` | src/js/calendar.js:153-155 | no two cells of a grid share a key |
| `CalendarGrid.September2025` | src/js/calendar.js:126-152 | September 2025: 35 cells, from 31 August to 4 October |
| `EventStore.Bucket` | src/js/calendar.js:213 | `state.eventsByDate[iso]`, an empty list when the date has none |
| `EventStore.FindIndex` | src/js/calendar.js:215 | `findIndex`: the first position with the id, or -1 exactly when no event carries it |
| `EventStore.Edited` | src/js/calendar.js:214-216 | only the first event with the id gets the new title and notes; each event keeps its place and id; the length is kept; a missing id changes nothing |
| `EventStore.RemoveId` | src/js/calendar.js:235 | `filter`: the result is never longer than the list |
| `EventStore.RemoveIdGone` | src/js/calendar.js:235 | no event with the id remains |
| `EventStore.RemoveIdIds` | src/js/calendar.js:235 | every id left after the filter was an id of the list before |
| `EventStore.RemoveIdCount` | src/js/calendar.js:235 | exactly the events carrying the id are removed |
| `EventStore.RemoveIdMembers` | src/js/calendar.js:235 | an event remains exactly when it was there and carries another id |
| `EventStore.RemoveIdConcat` | src/js/calendar.js:235 | removal distributes over concatenation, so the others keep their order |
| `EventStore.RemoveIdAbsent` | src/js/calendar.js:235 | deleting an absent id leaves the bucket as it was |
| `EventStore.CountIdUnique` | src/js/calendar.js:235 | with distinct ids an id occurs once or not at all |
| `EventStore.RemoveIdRemovesOne` | src/js/calendar.js:233-237 | with distinct ids, deleting a present id removes exactly one event |
| `EventStore.AppendFreshKeepsIdsUnique` | src/js/calendar.js:218 | appending an event whose id is new to the bucket keeps the ids distinct |
| `EventStore.EditKeepsIdsUnique` | src/js/calendar.js:216 | an edit keeps the ids distinct |
| `EventStore.RemoveKeepsIdsUnique` | src/js/calendar.js:235 | a delete keeps the remaining ids distinct |
| `EventStore.DuplicateIdDeletesBoth` | src/js/calendar.js:218 | two events saved with the same clock value: the ids are not distinct, Delete removes both, and an edit reaches only the first |
| `EventStore.SavedBucket` | src/js/calendar.js:213-219 | editing gives `Edited` of the list (the first event with the id takes the new title and notes), keeping the length and every id; otherwise the list gets a new event stamped with the clock value at its end, the rest unchanged |
| `EventStore.SavedBucketKeepsIdsUnique` | src/js/calendar.js:213-219 | a save keeps the ids distinct, provided that a new event's clock value is new to its bucket |
| `EventStore.SavedBucketIds` | src/js/calendar.js:213-219 | every id of the saved bucket was already in it, or is the clock stamp of the event a save without an edit pushes |
| `EventStore.ReplaceBucketKeepsIdsUniqueAcross` | src/js/calendar.js:219 | assigning a bucket keeps every id unique across the index when the new list has distinct ids, each already in that bucket or in no bucket |
| `EventStore.SaveKeepsIdsUniqueAcross` | src/js/calendar.js:213-219 | a save keeps every id unique across the whole index, provided a new event's clock value is no id in any bucket |
| `EventStore.DeleteKeepsIdsUniqueAcross` | src/js/calendar.js:233-236 | a delete keeps every id unique across the whole index |
| `EventStore.EditWithOwnValues` | src/js/calendar.js:216 | editing an event to its own title and notes leaves the bucket as it was |
| `EventStore.ResaveUnchanged` | src/js/calendar.js:196-216 | opening an event for editing and saving the untouched form leaves its bucket as it was |
| `EventStore.SavedIsTrimmed` | src/js/calendar.js:210-211 | what a save stores is trimmed already |
| `EventStore.Tooltip` | src/js/calendar.js:103 | the title alone without notes; otherwise the title, ` — ` and the notes |
| `EventStore.ChipSummary` | src/js/calendar.js:99-112 | at most two chips, the first events by title with their tooltips; a `+k` chip exactly when there are more than two events, where shown plus `k` is the number of events |
| `EventStore.LoadEvents` | src/js/calendar.js:40-43 | the stored index; an empty index when the key is missing or its text does not parse |
| `EventStore.PersistEvents` | src/js/calendar.js:44-46 | the key holds the snapshot of the whole index afterwards; it is the only key added, and every other key keeps its value |
| `EventStore.LoadAfterPersist` | src/js/calendar.js:40-46 | loading after persisting gives back the index that was written |
| `EventStore.PersistTwice` | src/js/calendar.js:44-46 | persisting twice keeps only the last write |
| `CalendarView.StepMonth` | src/js/calendar.js:66-72 | the month stays in 0..11; within the year it moves by `delta`; one step forward or back is the next or previous month |
| `CalendarView.StepMonthRoundTrip` | src/js/calendar.js:66-72 | one month forward then back, or back then forward, returns to the start |
| `CalendarView.StepMonthTwelve` | src/js/calendar.js:66-72 | `k` forward steps advance `12 * y + m` by `k`, the month staying in 0..11 |
| `CalendarView.TwelveStepsNextYear` | src/js/calendar.js:66-72 | twelve presses of next-month advance the year by one and come back to the same month |
| `CalendarView.EscapeHTML` | src/js/calendar.js:238-240 | the chained passes escape each character once, with `&#039;`; the result reads back as the input and holds no `<`, `>`, `"` or `'` |
| `CalendarView.CalendarSession.constructor` | src/js/calendar.js:31-43 | the index is what loading the storage yields; the month is the month given for today; no modal, no edit |
| `CalendarView.CalendarSession.NavigateMonth` | src/js/calendar.js:66-72 | from a month in 0..11, the new (year, month) is `StepMonth` of the old one and again has a month in 0..11; the next and previous buttons give the next and previous month |
| `CalendarView.CalendarSession.OpenModal` | src/js/calendar.js:164-173 | the modal shows the date, nothing is being edited, and the form is empty |
| `CalendarView.CalendarSession.HideModal` | src/js/calendar.js:174-177 | the modal and the edit are cleared; nothing else may change |
| `CalendarView.CalendarSession.StartEditEvent` | src/js/calendar.js:196-206 | when the bucket holds the id, the edit and the form take the first such event; otherwise nothing changes |
| `CalendarView.CalendarSession.OnSaveEvent` | src/js/calendar.js:207-224 | a title that trims to nothing changes nothing; otherwise the form's bucket becomes the saved bucket of the trimmed values, the index is persisted, and the edit and form are cleared |
| `CalendarView.SaveIntoBucket` | src/js/calendar.js:213-218 | the bucket step of a save is the saved bucket of that list: the first event with the edited id gets the new title and notes in place, or a new event stamped with the clock goes at the end |
| `CalendarView.CalendarSession.ClearForm` | src/js/calendar.js:222 | no edit is in progress and the form's id, title and notes are empty |
| `CalendarView.CalendarSession.SaveTrimmed` | src/js/calendar.js:213-222 | the bucket is assigned even when the edited id is gone; the whole index is persisted; the ids of the bucket stay distinct when a new event's clock value is new to it, and ids unique across the index stay so when it is new to the index |
| `CalendarView.CalendarSession.DeleteEvent` | src/js/calendar.js:233-237 | only that bucket changes, to the filtered list; the index is persisted; the edit is not cleared; distinct ids stay distinct, within the bucket and across the index |
| `CalendarView.CalendarSession.OnDeleteEvent` | src/js/calendar.js:225-232 | with no id in the form (empty or 0) nothing happens; otherwise that id leaves the form's date and the edit and form are cleared |
| `LegacyCalendar.BuildMonthCells` | src/calendar.js:97-151 | the three-loop builder of the earlier page yields exactly the grid of the current page |
| `LegacyCalendar.Toggle` | src/calendar.js:169-181 | the selection becomes empty exactly when the date was selected already; otherwise it becomes the date |
| `LegacyCalendar.ToggleTwice` | src/calendar.js:169-181 | selecting a date twice restores the earlier selection exactly when it was empty or that date; from another date it ends empty |
| `LegacyCalendar.LegacyCalendarState.constructor` | src/calendar.js:19-25 | today's month on view, nothing selected |
| `LegacyCalendar.LegacyCalendarState.NavigateMonth` | src/calendar.js:42-50 | the new (year, month) is `StepMonth` of the old one |
| `LegacyCalendar.LegacyCalendarState.SelectDate` | src/calendar.js:169-181 | the selection becomes the toggle of the old one |
| `Quizzer.Tier` | src/js/ai-quizzer.js:32-36 | 1..5 questions, more than `k + 1` exactly when the word count reaches the `k`-th threshold of 120, 260, 420, 640 |
| `Quizzer.TierMonotone` | src/js/ai-quizzer.js:32-36 | more words never give fewer questions |
| `Quizzer.DecideNumQuestions` | src/js/ai-quizzer.js:30-37 | always 1..5 |
| `Quizzer.DecideCountsWords` | src/js/ai-quizzer.js:31 | the count is the tier of the number of words of the untrimmed text |
| `Quizzer.DecideMoreWords` | src/js/ai-quizzer.js:30-37 | appending a word adds exactly that word and never lowers the count |
| `Quizzer.HashStep` | src/js/ai-quizzer.js:116 | `>>> 0` keeps the state below 2^32 |
| `Quizzer.HornerHash` | src/js/ai-quizzer.js:116 | the loop state after any prefix is below 2^32 |
| `Quizzer.PolySumAppend` | src/js/ai-quizzer.js:116 | appending a character is one Horner step of the polynomial |
| `Quizzer.HornerIsPolynomial` | src/js/ai-quizzer.js:115-118 | wrapping at every step gives the polynomial `sum c_i * 31^(n-1-i)` modulo 2^32 |
| `Quizzer.HexLength` | src/js/ai-quizzer.js:117 | a number below 16^k has at most k hexadecimal digits |
| `Quizzer.SimpleHash` | src/js/ai-quizzer.js:115-118 | the loop keeps `h` below 2^32; the result is one to eight lower-case hexadecimal digits whose value is the polynomial hash modulo 2^32 |
| `Quizzer.Candidates` | src/js/ai-quizzer.js:121-122 | the trimmed, non-empty lines longer than ten characters; each is longer than ten characters |
| `Quizzer.CandidatesKeeps` | src/js/ai-quizzer.js:121-122 | a string is a `Candidates` entry exactly when it is some trimmed line of the text and longer than ten characters |
| `Quizzer.Seeds` | src/js/ai-quizzer.js:121-122 | at most ten seeds, each longer than ten characters, the first candidates in text order (all of them when fewer than ten) |
| `Quizzer.SeedIsTrimmedLine` | src/js/ai-quizzer.js:121 | every seed is a line of the text, trimmed |
| `Quizzer.Question` | src/js/ai-quizzer.js:126 | the question is `Explain: `, then the seed shortened, then one `?` |
| `Quizzer.QuestionQuotesSeed` | src/js/ai-quizzer.js:126 | what the question quotes is the seed less its trailing run of `: . ;`, and no longer ends with one of them |
| `Quizzer.QuestionsFrom` | src/js/ai-quizzer.js:123-128 | none for `n <= 0`; a failure for `n >= 1` and no seed; otherwise exactly `n` questions, question `i` from seed `i` modulo the number of seeds |
| `Quizzer.AskSeeds` | src/js/ai-quizzer.js:123-128 | the question loop computes `QuestionsFrom`, the read of `undefined` included |
| `Quizzer.FallbackQuestionsFrom` | src/js/ai-quizzer.js:120-129 | the questions are `QuestionsFrom` of the text's seeds |
| `Quizzer.Numbered` | src/js/ai-quizzer.js:110 | one line `i+1) q` per question, in order |
| `Quizzer.NumberedNewlineFree` | src/js/ai-quizzer.js:110 | the numbered lines hold no newline when the questions hold none |
| `Quizzer.ExportPrefix` | src/js/ai-quizzer.js:109-112 | the header and the question lines are the export's first lines, joined by newlines |
| `Quizzer.ExportWithoutAnswers` | src/js/ai-quizzer.js:108-113 | with blank answers, the lines of `FormatExport` are the head, the numbered questions and one empty last line (one final newline) |
| `Quizzer.ExportLinesBare` | src/js/ai-quizzer.js:108-113 | the same line structure, for answers that are empty after trimming |
| `Quizzer.ExportWithAnswers` | src/js/ai-quizzer.js:108-113 | with answers, `FormatExport` puts a blank line, `Answers:`, the lines of the trimmed answers and an empty last line after the questions |
| `Quizzer.ExportLinesAnswered` | src/js/ai-quizzer.js:111-112 | the same line structure, for any non-empty trimmed answers |
| `Quizzer.EscapeHtml` | src/js/ai-quizzer.js:104-106 | the result reads back as the input with `&#39;`; text without special characters is unchanged; no `<`, `>`, `"` or `'` is left |
| `QuizBackend.EffectiveN` | src/backend/main.py:35 | the count is always 1..5; 0 counts as 3; 1..5 are kept; below 1 gives 1 and above 5 gives 5 |
| `QuizBackend.CleanLines` | src/backend/main.py:71 | no more lines than pieces |
| `QuizBackend.CleanLinesFrom` | src/backend/main.py:71 | every cleaned line is a non-blank piece with white space stripped from both ends, then `-â€¢ ` stripped |
| `QuizBackend.CleanLinesConcat` | src/backend/main.py:71 | the clean-up works piece by piece, so the lines come out in the order of their pieces |
| `QuizBackend.BackendSeeds` | src/backend/main.py:71-72 | one to ten seeds, each longer than ten characters: the first candidates in order, or the default seed when there are none |
| `QuizBackend.BackendSeedIsCleanLine` | src/backend/main.py:71-72 | when there is a candidate, every seed is a line of the notes, stripped of white space and then of `-â€¢ `, longer than ten characters |
| `QuizBackend.BackendQuestion` | src/backend/main.py:76 | `Explain: ` followed by at most the seed |
| `QuizBackend.BackendQuestionQuotesSeed` | src/backend/main.py:76 | the question quotes the seed less its trailing run of `: . ? ;`, and its last character is none of them |
| `QuizBackend.FallbackQuestions` | src/backend/main.py:70-77 | exactly `n` questions (none for `n <= 0`), question `i` from seed `i` modulo the number of seeds |
| `QuizBackend.Normalise` | src/backend/main.py:60 | the first five replies, each stripped |
| `QuizBackend.MakeQuiz` | src/backend/main.py:32-68 | blank notes give no questions, and there are none exactly when the notes are blank; a non-empty reply gives its first five stripped; any other outcome gives the fallback for the stripped notes and the clamped count; non-blank notes always give 1..5 |
| `Timer.AfterTick` | src/js/timer.js:95-99 | the time left drops by `dt` and stops at zero; it keeps running exactly while time is left |
| `Timer.TickAdditive` | src/js/timer.js:90-107 | two ticks while running are one tick of their combined length |
| `Timer.ClockReadsBack` | src/js/timer.js:109-112 | `Clock`, the `mm:ss` face that `CountdownTimer.Display` shows, reads back as the whole seconds left: minutes, then two digits below 60 |
| `Timer.DialogDuration` | src/js/timer.js:56-62 | the submitted duration is at least one second and whole seconds |
| `Timer.DialogClamp` | src/js/timer.js:57-59 | seconds above 59 count as 59 and below 0 as 0, minutes below 0 as 0; in-range fields give `(m * 60 + s) * 1000`, or the one-second minimum for `0:00` |
| `Timer.PrefillSubmit` | src/js/timer.js:123-125 | for a duration of whole seconds, at least one, submitting the prefilled fields reproduces it |
| `Timer.CountdownTimer.constructor` | src/js/timer.js:26-28 | 25:00, full, stopped |
| `Timer.CountdownTimer.Start` | src/js/timer.js:73-79 | nothing while running; otherwise a countdown at zero refills, and the first tick runs from there |
| `Timer.CountdownTimer.Pause` | src/js/timer.js:80-83 | stops, keeps the timer valid, and may change nothing else |
| `Timer.CountdownTimer.Reset` | src/js/timer.js:84-89 | stops with the countdown full |
| `Timer.CountdownTimer.Tick` | src/js/timer.js:90-107 | nothing when stopped; otherwise `AfterTick` of the time left; the time left never grows and stays in 0..total |
| `Timer.CountdownTimer.ApplyNewDuration` | src/js/timer.js:116-121 | the duration is the larger of one second and the request, the countdown is full, and the stored text reads back as the duration |
| `Timer.CountdownTimer.ApplyPreset` | src/js/timer.js:47-53 | a preset of `s` seconds applies `s * 1000` milliseconds |
| `Timer.CountdownTimer.OpenDialog` | src/js/timer.js:123-125 | the fields show whole minutes and the seconds below 60 left over, which read back as the duration less its milliseconds |
| `Timer.CountdownTimer.SubmitDialog` | src/js/timer.js:56-62 | the duration becomes `DialogDuration` of the fields, the countdown is full and stored |
| `Notepad.CountsMeaning` | src/js/notepad.js:20-24 | `Counts(text)`: the word count is the number of maximal non-space runs, the character count is the number of characters in them, and there are never more words than characters |
| `Notepad.Indent` | src/js/notepad.js:239-242 | exactly four blanks in front of the value |
| `Notepad.LeadingBlanks` | src/js/notepad.js:237 | the match of `^ {1,limit}`: up to `limit` leading blanks, stopping only at the limit, the end or a non-blank |
| `Notepad.Unindent` | src/js/notepad.js:235-238 | between zero and four leading blanks are removed and nothing else; fewer than four only when no blank follows |
| `Notepad.UnindentIndent` | src/js/notepad.js:235-242 | unindenting an indented value gives it back |
| `Notepad.IndentUnindent` | src/js/notepad.js:235-242 | indenting an unindented value that had four blanks in front gives it back |
| `Notepad.IndentBlocks` | src/js/notepad.js:229-243 | every block's first text value is indented or unindented, and a block without text is skipped |
| `Notepad.EscapeHtml` | src/js/notepad.js:318-321 | the result reads back as the input with `&#039;`; text without special characters is unchanged; no `<`, `>`, `"` or `'` is left |
| `Notepad.UntilTag` | src/js/notepad.js:301 | the longest prefix without `<` |
| `Notepad.UntilTagPrefix` | src/js/notepad.js:301 | escaped text followed by a tag reads as that text |
| `Notepad.ReadParagraph` | src/js/notepad.js:301 | one paragraph reads back as its line |
| `Notepad.ReadEmptyParagraph` | src/js/notepad.js:301 | `<p><br></p>` reads back as an empty line |
| `Notepad.ReadTextParagraph` | src/js/notepad.js:301 | `<p>` + escaped line + `</p>` reads back as the line |
| `Notepad.ReadParagraphsOf` | src/js/notepad.js:301-302 | a run of paragraphs reads back as its lines, in order |
| `Notepad.ImportReadsBack` | src/js/notepad.js:299-303 | `ImportPlainText` writes one paragraph per line of the file, in order (one more than its `\n` characters), and each line can be read back exactly |

## Left out

- Rendering and the DOM: element creation, classes, `innerHTML`, focus, listeners and keyboard wiring; the "today" highlight; the rows of `renderExistingEventsList`; the notepad's `words • chars` status text; the timer's SVG ring, which uses floating point and `Math.PI`.
- Storage is an abstract map from key to `Corrupt` or `Snapshot(index)`, an absent key meaning never written. The JSON grammar of `JSON.parse`/`JSON.stringify` is not modelled. A stored value that parses but is not an index cannot be represented.
- The clock is a parameter: `Date.now()` for new ids, today's month for the initial view, the export date string, and the milliseconds between animation frames (`performance.now()`, `requestAnimationFrame`). Time is modelled as whole milliseconds, where JavaScript gives fractional ones.
- Bounded `Date` range: years and days are unbounded integers. A year 0..99 is read as 1900 + y, as `new Date` does. The grid's consecutive-days and distinct-keys lemmas therefore require a year whose neighbours are read as written.
- Strings are sequences of characters. JavaScript `length` and `charCodeAt` count UTF-16 code units, so `SimpleHash` and the length filters agree with the page only on text without characters outside the Basic Multilingual Plane.
- Regular expression classes are fixed character sets: `\s` and `trim()` are the ECMA-262 white space and line terminators; Python's `strip()` is `str.isspace`.
- QuizBackend.CleanLines: cuts at every `splitlines` boundary character separately. The empty piece inside `\r\n` and a trailing empty piece are blank and dropped, so the cleaned lines are those of `splitlines()`.
- The timer's restore of `timer.durationMs` at load, `parseInt` and `NaN`, the chime and the pulse animation. The dialog and preset fields are taken as integers already parsed.
- Notepad rich-text editing: `execCommand`, Selection/Range/TreeWalker traversal and block collection, caret placement, autosave, Blob export, `FileReader`, `confirm`, visibility hooks, and import of `.html` files. `IndentBlocks` works on an array holding each block's first text value, so it does not model that two blocks may share a text node.
- Network and service plumbing: `fetch`, the `lastQuiz` cache, the quiz flow of the page, downloads; FastAPI, CORS, dotenv and the generator client. `json.loads` of the reply is a parameter: the list of questions, or `None` when the call or parsing raised.
- QuizBackend.Normalise: takes the reply as strings, so `str(q)` of non-string items is not modelled.
