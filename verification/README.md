# Business-hours status widget, modelled in Dafny

The page script of a car-wash website shows a small widget that says whether
the shop is open now. If it is closed, the widget says when it opens next.
This project models that evaluator as pure functions and proves what it shows.

- `timeformat.dfy` (module `TimeFormat`): `formatTime`, which renders an HHMM
  integer (800 means 08:00) as zero-padded `HH:MM`. It is built from the
  JavaScript pieces it uses: `Math.floor(t / 100)`, the truncating `%`,
  `String(n)` and `padStart(2, "0")`. A parser `ParseTime` is its inverse.
- `schedule.dfy` (modules `Optional`, `Schedule`): the schedule records, the
  `schedule.find(s => s.day === day)` lookup, the shop's concrete schedule
  (Monday to Friday 08:00-17:00, Saturday 08:00-13:00) and the Portuguese
  weekday names.
- `status.dfy` (module `OpeningStatus`): `findNextOpen` and
  `checkOpeningStatus`.
  - `findNextOpen` is a forward search over `(day + i) % 7` for `i = 1..7`.
    It is modelled step by step as `SearchFrom`.
  - `checkOpeningStatus` is `CheckOpeningStatus(day, t, schedule)`. The
    clock reading is passed in, and `ClockTime` is the script's encoding
    `hours * 100 + minutes`.
  - The result `Status(isOpen, text)` is what the script hands to the page:
    the `is-open` class flag and the label text.
- `scenarios.dfy` (module `Scenarios`): what the widget shows for the shop's
  own schedule on Sunday, early in the morning, at the closing minute and in
  the evening.

Behaviour pinned down by the proofs:

- The shop is open exactly when today has a record and
  `open <= t <= close`. The closing minute itself counts as open.
- The forward search returns the first scheduled day in cyclic order after
  today. Today itself comes last, at step 7, so a schedule whose only record
  is today announces today. The search returns nothing only when no weekday
  has a record.
- The fallback label "FECHADO (Verifique horários)" can never be shown
  (`CheckHoursLabelNeverShown`). That branch runs only after closing on a
  scheduled day, and then the search always finds at least that same day.
- The search runs `i` from 1 to 7 (script.js:142). It is not limited to
  the six following days: it checks all seven weekdays, today last. The
  model follows this loop bound exactly.
- The code does not enforce one record per day. Lookup takes the first
  matching record in list order. `LookupFindsOwnRecord` and
  `StatusIgnoresRecordOrder` show that with one record per day the order
  of the records does not matter.

## Model

| member | source | states |
|---|---|---|
| TimeFormat.Digits | script.js:138 | `String(n)` of a natural number is all digits, has no leading zero, denotes `n`, and has one digit exactly below 10 and two exactly from 10 to 99 |
| TimeFormat.JsString | script.js:138 | `String(n)` of an integer: digits denoting `n` when `n >= 0`, a minus sign followed by digits denoting `-n` otherwise, with no leading zero in either case except the lone "0" |
| TimeFormat.PadStart2 | script.js:138 | `padStart(2, "0")` keeps the text as its suffix, adds only `'0'`s in front and brings the length to at least two |
| TimeFormat.FloorDiv100 | script.js:136 | `Math.floor(t / 100)` is the `q` with `100q <= t < 100q + 100`, negative values included |
| TimeFormat.JsRem100 | script.js:137 | the JavaScript `t % 100` differs from `t` by a multiple of 100, lies strictly between -100 and 100, and has the sign of `t` |
| TimeFormat.FormatTime | script.js:135-139 | for `0 <= t` with `t / 100 < 100` the text is the two digits of `t / 100`, a colon and the two digits of `t % 100`; it is never shorter than five characters |
| TimeFormat.FormatTimeLength | script.js:135-139 | for non-negative `t` the text has exactly five characters if and only if `t < 10000` |
| TimeFormat.PaddedIsTwoDigits | script.js:138 | padding `String(n)` for `0 <= n < 100` gives exactly the tens digit followed by the units digit |
| TimeFormat.FormatThenParse | script.js:135-139 | every `t` in 0..9999 is rendered as a well-formed `HH:MM` text that parses back to `t` |
| TimeFormat.ParseThenFormat | script.js:135-139 | every well-formed `HH:MM` text is the rendering of the value it parses to |
| TimeFormat.FormatTimeInjective | script.js:135-139 | two times in 0..9999 with the same rendering are equal |
| TimeFormat.RendersAs | script.js:135-139 | a time in 0..9999 renders as a given `HH:MM` text if and only if that text parses to the time |
| TimeFormat.FormatTimeExamples | script.js:135-139 | 800 is rendered "08:00" and 1305 is rendered "13:05" |
| Schedule.FirstMatch | script.js:160 | `find` stops at the first record whose day matches, and finds nothing exactly when no record matches |
| Schedule.Lookup | script.js:160 | the record found has the queried day, and nothing is found exactly when no record has that day |
| Schedule.LookupReturnsFirst | script.js:160 | when record `i` is the first one in list order whose day matches, lookup returns exactly that record |
| Schedule.LookupFindsOwnRecord | script.js:160 | in a schedule with one record per day, looking up a record's day returns that record wherever it sits |
| Schedule.LookupIgnoresOrder | script.js:160 | two schedules with one record per day that hold the same records in any order give the same lookups |
| Schedule.DayName | script.js:128-131 | the name of weekday `d` is entry `d` of the script's `daysOfWeek` table; the contract only bounds its length from below, and `DayNameInjective` and `MondayName` state what the names are |
| Schedule.DayNameInjective | script.js:128-131 | no two weekdays share a name, so the day name in a label identifies the day |
| Schedule.ShopScheduleWellFormed | script.js:119-126 | the shop's schedule has real weekdays, one record per day, and opens before it closes on every day |
| OpeningStatus.OpensTodayLabel | script.js:174 | the label starts with "FECHADO", holds the time at positions 17 to 17 + its length, is one character longer than that and ends with a closing parenthesis; the exact wording of characters 7 to 16 is the function's definition |
| OpeningStatus.OpensOnLabel | script.js:179 | the label starts with "FECHADO", holds the day name at positions 14 onwards, the time four characters after the day name, and ends with a closing parenthesis |
| OpeningStatus.OpensLabelsAreNotCheckHours | script.js:174-180 | neither opening announcement can be mistaken for "FECHADO (Verifique horários)" |
| OpeningStatus.ClockTime | script.js:159 | `hours * 100 + minutes` for a clock reading lies in 0..2359 and gives back the hours by `/ 100` and the minutes by `% 100` |
| OpeningStatus.ClockTimeOrder | script.js:159 | comparing encoded readings compares hours first and then minutes, which the window test relies on |
| OpeningStatus.ClockTimeRendering | script.js:159 | the schedule's times share the clock's HHMM encoding: a time written as `hours * 100 + minutes` is announced as its two-digit hours, a colon and its two-digit minutes |
| OpeningStatus.DayAfter | script.js:143 | `(d + i) % 7` is a weekday congruent to `d + i` modulo 7 |
| OpeningStatus.DaysUntil | script.js:142-143 | every weekday is reached from `d` in some step from 1 to 7 of the search |
| OpeningStatus.SearchFrom | script.js:142-153 | the loop from step `i` returns a step up to 7 that lands on a scheduled day with no scheduled day before it, or nothing when no step from `i` to 7 does |
| OpeningStatus.SearchFindsFirstOffset | script.js:142-153 | the loop stops exactly at the smallest step 1..7 whose day is scheduled, and runs out exactly when no weekday is scheduled |
| OpeningStatus.FindNextOpen | script.js:141-154 | null exactly when no weekday 0..6 is scheduled; otherwise the name of the day at the smallest scheduled step and the formatted opening time of that day's record |
| OpeningStatus.OnlyTodayScheduled | script.js:142-153 | when today is the only scheduled weekday the search wraps round and names today with today's opening time |
| OpeningStatus.CheckOpeningStatus | script.js:160-188 | open if and only if today has a record and `open <= t <= close`; the label is "ABERTO AGORA" exactly when open and starts with "FECHADO" otherwise |
| OpeningStatus.BeforeOpeningLabel | script.js:173-174 | before today's opening time the status is closed and the label gives today's own formatted opening time, with no search |
| OpeningStatus.AfterClosingLabel | script.js:176-181 | after today's closing time the status is closed and the label names the first scheduled day after today and its opening time |
| OpeningStatus.UnscheduledDayLabel | script.js:183-188 | on a day without a record the label names the first scheduled day after it, or is plain "FECHADO" when no weekday is scheduled |
| OpeningStatus.CheckHoursLabelNeverShown | script.js:176-181 | the "FECHADO (Verifique horários)" fallback is never the label |
| OpeningStatus.UnscheduledDayIgnoresTime | script.js:183-188 | on a day without a record the status does not depend on the time of day |
| OpeningStatus.FindNextOpenSameWeek | script.js:141-154 | two schedules that give every weekday the same record give the same search result |
| OpeningStatus.StatusFromLookups | script.js:160-188 | two schedules that agree on today's record and on the forward search give the same status |
| OpeningStatus.StatusIgnoresRecordOrder | script.js:160 | with one record per day, reordering the schedule's records changes no status |
| Scenarios.ShopLookup | script.js:119-126 | in the shop's schedule Sunday has no record and weekday `k` from 1 to 6 has record `k - 1` |
| Scenarios.ShopWorkingDay | script.js:119-126 | on each day from 1 to 6 the shop has a record that opens at 800 and closes at 1700, or 1300 on Saturday |
| Scenarios.ShopOpensAfterLabel | script.js:147-150 | every next opening the search can announce in the shop's schedule is the day's name with 08:00 |
| Scenarios.MondayName | script.js:128-131 | weekday 1 is named "Segunda-feira" |
| Scenarios.MondayLabel | script.js:147-150 | a search that lands on Monday announces "FECHADO (Abre Segunda-feira às 08:00)" |
| Scenarios.SundayAnnouncesMonday | script.js:183-187 | the only unscheduled day is Sunday, and on it at any time the shop is closed and Monday 08:00 is announced |
| Scenarios.EarlyMorning | script.js:173-174 | before 08:00 on Monday to Saturday the label announces 08:00 today |
| Scenarios.WorkingDayWindow | script.js:169 | on working days the shop is open from 800 to the closing minute inclusive: 1700 on Monday to Friday, 1300 on Saturday |
| Scenarios.NextWorkingDayIsFirst | script.js:142-150 | from a working day the search stops one step on, or two steps on from Saturday because Sunday has no record |
| Scenarios.EveningSearch | script.js:176-181 | after closing on a working day the status is closed and announces the day at the first scheduled step |
| Scenarios.EveningAnnouncesNextWorkingDay | script.js:176-181 | after closing the label announces 08:00 on the next working day; after 1300 on Saturday that is Monday |

## Left out

- The video modal controller (script.js:11-113) is not modelled. It holds DOM lookups, class toggling, focus handling, event listeners and the media element, and has no logic beyond mirroring the browser's `video.paused`.
- `playVideo`'s handling of a rejected autoplay promise (script.js:48-53) is not modelled. It is asynchronous and calls a browser API.
- `updateVolume` (script.js:69-75) is not modelled. It is floating-point work with `parseFloat`, `NaN` and clamping.
- The clock (script.js:157-159) is a parameter. `CheckOpeningStatus` takes the weekday and the HHMM time, and `ClockTime` models only the `hours * 100 + minutes` encoding.
- The weekday is a `Weekday` (0..6), the range of `Date.prototype.getDay`. Record days may be any integer.
- The writes to `statusIndicator` and `statusWidget` (script.js:190-191) are not modelled. `Status` is the value handed to them.
- The 60-second `setInterval` refresh and the initial call (script.js:194-195) are timer plumbing and are not modelled.
- The guard `if (statusWidget && statusIndicator)` (script.js:133) is not modelled. It only decides whether the widget exists.
- TimeFormat.FloorDiv100: models `Math.floor(t / 100)` on exact rationals. For integers beyond about 2^53 the floating-point quotient can round, and that is not modelled. Every time of day is far below that range.
- TimeFormat.JsString: JavaScript prints numbers of magnitude 10^21 and above in exponential notation (`String(1e21)` is "1e+21"). The model keeps printing plain digits there. No time of day comes near that range.
- TimeFormat.FormatTime: for negative values and for values of 10000 and above, the contract states only that the text has at least five characters. The exact text in those cases follows from the body, which is composed from `JsString`, `PadStart2`, `FloorDiv100` and `JsRem100` as in the script.
