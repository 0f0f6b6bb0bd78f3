# Autopilot schedule resolver, in Dafny

Autopilot joins a user's online classes by itself. Before it joins, it has to work out which meeting comes next. It also has to decide whether to sleep until that meeting's wake-up time or join straight away. This project models that decision logic and proves what it does:

- **the `Time` value type**: range-checked construction, one minute back, the 12-hour form, the sort key, and `H:MM` rendering and parsing;
- **the `Meeting` record**: equality by meeting ID, the stored dictionary form, and the weekday listing;
- **the weekly schedule**:
  - `schedule_of_day`, which filters the schedule by weekday and stable-sorts it;
  - `schedule_lookup`, `next` and `last`, which scan the week from now for the next meeting, or today for the last one that has started;
  - `infer_wake`;
- **the small pure helpers**: `parse_id`, `distribute_list`, `pseudo_markdown`, and the case-run split inside `type_password`;
- **the meeting-selection rule** of the command line: `figure_out_meeting_info` and its argument-swap retry `tries_twice`.

Everything is functional. Meetings are immutable records. The loaded schedule is a `seq<Meeting>` passed in. The fields the program writes into the cached schedule objects (`wake`, `is_right_now`) come back as an updated copy of the schedule.

Anything the program reads from outside is a parameter:
- the clock reading, as the ISO weekday plus hour, minute, second and microsecond;
- the command-line arguments;
- the prompt answers;
- the configured threshold;
- the stored recent meeting.

A wake-up time is "`k` days after today at `H:MM`". `Times.WakeText` renders such a time for a given calendar date as `M/D/YYYY H:MM:00`.

The modules follow the program:

| module | file | contents |
|---|---|---|
| `Common` | `common.dfy` | `Option`, `Result`, and the exceptions the code raises |
| `Text` | `text.dfy` | the parts of Python's `str` and `int()` that the core uses |
| `Times` | `times.dfy` | `Time` |
| `Meetings` | `meetings.dfy` | `Meeting` |
| `Schedule` | `schedule.dfy` | `schedule_of_day` |
| `Lookup` | `lookup.dfy` | `schedule_lookup`, `next`, `last` and `infer_wake` |
| `Utils` | `utils.dfy` | the `utils.py` helpers |
| `Parsing` | `parsing.dfy` | `parsing.py` |

The wake text pads the minute to two digits (`9:05:00`), because it is built from `Time.__repr__`.

## Model

| member | source | states |
|---|---|---|
| `Text.Split` | model.py:70 | `str.split(c)` gives one more piece than there are separators. No piece contains the separator, and the pieces joined with it give the input back. |
| `Text.SplitJoin` | model.py:70 | Splitting a join of separator-free pieces gives exactly those pieces. |
| `Text.ParseInt` | model.py:73 | `int()` succeeds exactly when the text, with the six C `isspace` characters skipped at both ends, is an optional sign followed by at least one decimal digit, and the result is that literal's value. |
| `Text.SeparatorRejected` | model.py:73 | The separators U+001C..U+001F are not skipped: one in front of any text makes `int()` fail. |
| `Text.ParseDigits` | model.py:73 | `int()` of a non-empty string of ASCII digits is its decimal value. |
| `Text.ParseIntRejects` | model.py:73 | `int()` fails on any string containing a character that is not a digit, a sign or white space. |
| `Text.StripSpec` | utils.py:64 | `strip(cs)` keeps one contiguous part of the input. It drops only characters of `cs` before and after that part, and neither end of the result is in `cs`. |
| `Text.Replace` | utils.py:64 | `replace(p, r)` on text that does not contain `p` returns it unchanged. |
| `Times.MakeTime` | model.py:30-34 | `Time(h, m)` succeeds exactly when 0 <= h <= 23 and 0 <= m <= 59, and then holds h and m. Otherwise it is a ValueError; it never clamps. |
| `Times.SubtractingMinute` | model.py:47-52 | The result is one minute earlier, modulo a day: 0:00 becomes 23:59. |
| `Times.SubtractingMinuteInverse` | model.py:47-52 | Stepping one minute back and one minute forward returns the starting time, in either order. |
| `Times.As12Hour` | model.py:42-45 | The 12-hour form has an hour in 1..12 that agrees with the hour modulo 12, and the same minute. It is PM exactly when the hour is 12 or later, so 0 is 12 AM and 12 is 12 PM. |
| `Times.As12HourRoundTrip` | model.py:42-45 | The 24-hour hour can be recovered from the 12-hour hour and the PM flag. |
| `Times.SortingKeyIsMinutes` | model.py:54-57 | `hour + minute/60` is the minute of the day divided by 60, computed exactly. |
| `Times.SortingKeyOrder` | model.py:54-57 | Sort keys compare as (hour, minute) pairs do lexicographically, and two keys are equal only for the same time. |
| `Times.AfterIsLaterMinute` | model.py:36-40 | Comparing `t.as_dt_time()` with a reading that has seconds: t is later exactly when its minute is later than the reading's minute. |
| `Times.AfterMidnight` | model.py:177 | Every time is later than `datetime.time()`, except 0:00. |
| `Times.Repr` | model.py:75-76 | `repr(t)` is the unpadded hour, ':' and a two-digit minute, 4 or 5 characters long. |
| `Times.FromString` | model.py:64-73 | 'auto' gives None, and it is the only text that does. Text without exactly one ':' is a ValueError. Otherwise the two pieces are read by `int()` into a range-checked `Time`, and every failure is a ValueError. |
| `Times.FromStringOf` | model.py:70-73 | Text that splits into two integers in range parses to exactly that time. |
| `Times.FromStringRepr` | model.py:64-76 | `from_string(repr(t))` gives back t. |
| `Times.WakeTextRoundTrip` | model.py:172 | The wake text `M/D/YYYY H:MM:00` can be read back into the date and the time it was built from. |
| `Meetings.EqualityByIdOnly` | model.py:197-201 | Meeting equality is an equivalence that compares the ID alone, and a meeting is never equal to None. |
| `Meetings.FromDict` | model.py:120-123 | `from_dict` fails exactly when the stored time is out of range, and then with ValueError. Otherwise the meeting has no wake, its right-now flag holds exactly when it has no time, and storing it again gives the same dictionary. |
| `Meetings.FromDictAsDict` | model.py:116-123 | Storing a meeting and loading it back gives the same meeting, with the wake dropped and the right-now flag recomputed. |
| `Meetings.WeekdayName` | model.py:113-114 | Indexing the name table succeeds exactly for -8..7, as Python list indexing does, and every name has three letters. |
| `Meetings.WeekdayNumbering` | model.py:113 | Sunday is both 0 and 7, and the days 1..7 have seven different names. |
| `Meetings.DayNames` | model.py:114 | The list of names succeeds exactly when every day is in -8..7, and its i-th name is that of the i-th day. |
| `Meetings.JoinBlocks` | model.py:114 | Three-letter names joined by ", " sit at offsets 5*i, with total length 5n-2. |
| `Meetings.FmtWeekdaysLayout` | model.py:112-114 | `fmt_weekdays` fails exactly on a day outside -8..7. No days give the empty text. Otherwise every day's name can be read back at offset 5*i. |
| `Schedule.PrecedesTotal` | model.py:138 | Two different schedule positions are ordered one way or the other by the stable order, never both ways. |
| `Schedule.Insert` | model.py:138 | Inserting into a sorted sequence keeps it sorted and adds exactly the one new element. |
| `Schedule.SortSlots` | model.py:138 | The sort returns a sorted arrangement with the same length and the same elements. |
| `Schedule.DaySlots` | model.py:134-137 | The filter keeps exactly the meetings whose days contain the weekday, in schedule order. |
| `Schedule.DayOrder` | model.py:132-139 | `schedule_of_day(d, reverse)` holds exactly the positions of meetings that recur on d. It is sorted by key, ascending or descending, with equal keys in schedule order. |
| `Schedule.SortedUnique` | model.py:138 | Two sorted sequences with the same elements are equal, so the stable order is determined. |
| `Schedule.DayOrderIsTheStableSort` | model.py:132-139 | Any sorted arrangement of exactly that day's meetings is the day's order. |
| `Schedule.DayOrderByTime` | model.py:133-139 | Ascending, the times never decrease; descending, they never increase. Meetings at the same time keep their schedule order. |
| `Schedule.DayOrderReadsTimesOnly` | model.py:133-139 | The day's order depends only on the meetings' times and days. |
| `Lookup.WeekdayAheadFormula` | model.py:157-179 | Stepping `w % 7 + 1` k times from weekday w gives `(w - 1 + k) % 7 + 1`, which is always in 1..7. |
| `Lookup.ScanNeverRevisits` | model.py:159-179 | The seven days of the scan are seven different weekdays, and today's is never examined again. |
| `Lookup.FirstAccepted` | model.py:162-173 | The inner loop stops at the first meeting of the day's order that passes the test of line 165, or finds none. |
| `Lookup.DayHit` | model.py:160-173 | A day's hit recurs that day, passes the test, and comes first among all that day's passing meetings in the stable order. No hit means no meeting of that day passes. |
| `Lookup.Search` | model.py:159-179 | The week scan stops on the first day that has a passing meeting, at the first such meeting. With no hit, no examined day had one. Reverse examines today only. |
| `Lookup.SearchReadsListingOnly` | model.py:159-179 | Where the scan stops depends only on times, days and IDs, not on wakes or right-now flags. |
| `Lookup.ScheduleLookup` | model.py:141-179 | The lookup returns None exactly when no day of the scan has a passing meeting. Otherwise it stamps the hit and changes only the right-now flag (in reverse) or the wake (going forward: days ahead, at the meeting's own time). With a target it stamps the target, matched by ID, and leaves the schedule alone; otherwise it writes the hit back into its schedule position only. |
| `Lookup.Next` | model.py:181-183 | `next()` returns a schedule object that has gained a wake and nothing else. |
| `Lookup.Last` | model.py:185-187 | `last()` returns a schedule object that has been marked right now and changed in nothing else. |
| `Lookup.LookupKeepsListing` | model.py:167-172 | A lookup writes nothing but wakes and right-now flags. |
| `Lookup.LastAfterNext` | model.py:181-187 | `last()` after `next()` stops at the same position as on the schedule as loaded. |
| `Lookup.NextIsSoonest` | model.py:154-179 | `next()` finds the soonest upcoming occurrence: today later than now's minute, or a later day at any time but 0:00. No earlier day has one, and no earlier meeting that day does. |
| `Lookup.LastIsLatestPassed` | model.py:160-176 | `last()` finds nothing exactly when every meeting today is still ahead. Otherwise it finds today's latest meeting that has started, the earliest in schedule order among equal times. |
| `Lookup.MidnightSkipped` | model.py:177 | A meeting at 0:00 is never chosen on a later day of the scan. |
| `Lookup.PassedWeeklyMeetingNotFound` | model.py:159-179 | A once-a-week meeting that has already started today is not found again within the week. |
| `Lookup.OutOfRangeDayNeverExamined` | model.py:157-179 | A meeting whose days all lie outside 1..7 is never a candidate. |
| `Lookup.InferWake` | model.py:94-110 | A right-now meeting is left alone. A scheduled one takes what a lookup targeted at it finds. Any other gets a wake at its own time, today if that time is still ahead and tomorrow otherwise. Nothing but the wake changes. |
| `Lookup.InferWakeIsNextOccurrence` | model.py:105-110 | The wake of a meeting given by hand is today exactly when its minute is later than now's minute, and tomorrow otherwise. |
| `Lookup.InferWakeOnSchedule` | model.py:102-104 | A stored scheduled meeting gets a wake exactly when some scheduled meeting with its ID comes up in the week. It keeps its own time. |
| `Utils.ParseCleaned` | utils.py:65-71 | Cleaned text that is not a link parses as `int()` does. A link succeeds exactly when it holds five digits in a row, and then yields the first maximal run of digits. Every failure is a ValueError. |
| `Utils.ParseId` | utils.py:62-71 | `parse_id(s)` follows those rules on s with ' ' and newline stripped from both ends and every space removed. |
| `Utils.FirstRunUnique` | utils.py:66 | The first run of five or more digits is unique. |
| `Utils.FirstRunIsMaximal` | utils.py:66-70 | That run is not preceded by a digit, so it is a whole run of digits. |
| `Utils.ParseIdSpacedDigits` | utils.py:62-71 | Digits separated by spaces (as in "123 456 789") parse as the number the digits spell. |
| `Utils.ParseIdLink` | utils.py:65-70 | In a link, a run of five or more digits preceded only by non-digits is the ID. |
| `Utils.DistributeList` | utils.py:86-98 | For n >= 1 the result has `len(xs) // n` chunks of exactly n items. Together they are `xs[:n * (len(xs) // n)]`, so the remainder is dropped. For n <= 0 the result is empty. |
| `Utils.DistributedChunks` | utils.py:86-98 | Chunk c is `xs[c*n : c*n + n]`. |
| `Utils.PseudoMarkdown` | utils.py:216-218 | Text without `<b>` and `</b>` is left unchanged. |
| `Utils.PseudoMarkdownIsOnePass` | utils.py:216-218 | The two chained replaces equal a single left-to-right pass that turns each `<b>` into ESC[1m and each `</b>` into ESC[0m. |
| `Utils.PlainTextUnchanged` | utils.py:216-218 | Text without '<' is never changed. |
| `Utils.SplitCaseRuns` | utils.py:161-171 | An empty password fails with IndexError. Otherwise the pieces are non-empty and concatenate to the password. Each piece has letters of one case (that of its first character), consecutive pieces alternate case, and every piece after the first starts with the letter that switched. |
| `Utils.CaseRunsUnique` | utils.py:161-171 | Only one split has that shape, so the loop's result is fully determined. |
| `Utils.DigitStaysInRun` | utils.py:163-170 | A digit stays in the current piece: "AB1c" splits as "AB1", "c". |
| `Utils.TypingPlan` | utils.py:173-179 | Each piece is typed in lower case, with shift held exactly when its first character is a capital. |
| `Utils.TypingReproducesLetters` | utils.py:173-179 | Typing the pieces of a split reproduces every letter of the password and sends every other character as itself. Shift alternates from piece to piece. |
| `Parsing.MeetingParseId` | model.py:189-195 | 'auto' gives no ID. Anything else gives what `utils.parse_id` gives, and its failures are ValueErrors. |
| `Parsing.ElapsedMinutes` | parsing.py:83 | `timedelta.seconds // 60` is always in 0..1439. |
| `Parsing.ElapsedSincePassed` | parsing.py:83 | For a meeting that started today, the elapsed minutes are now's minute of the day minus the meeting's. |
| `Parsing.AutoPick` | parsing.py:78-98 | Auto mode returns the last meeting, marked right now, when it exists and `--late` is set or fewer than `threshold` minutes have passed. With `--late` and nothing passed today, the run ends. Otherwise it returns the next meeting with its stored right-now flag, or ends with the empty-schedule exit. |
| `Parsing.AutoPickAsWritten` | parsing.py:78-98 | The code as written agrees with `AutoPick` except in one case: when it falls through to a next meeting that is the same schedule object `last()` found, that meeting comes back marked right now. |
| `Parsing.SameObjectMarkedRightNow` | parsing.py:79-92 | With one meeting that started today and recurs tomorrow, once the threshold has passed, the code as written returns tomorrow's meeting marked right now. The corrected rule does not. |
| `Parsing.AliasingExample` | parsing.py:79-92 | One concrete instance of that discrepancy. |
| `Parsing.FigureOut` | parsing.py:59-114 | Every failure of an attempt is a ValueError. A meeting built from positionals has a time exactly when the time positional is not 'auto'. |
| `Parsing.RecentComesFirst` | parsing.py:62-69 | With `--recent`, nothing else is read. A missing record ends the run, a stored time out of range is a ValueError, and otherwise the stored meeting comes back, as `infer_wake` leaves it. |
| `Parsing.InputComesNext` | parsing.py:71-76 | With `--input` (and no `--recent`), the positionals are ignored and the meeting is built from the two answers. A timed meeting is due today if its time is still ahead and tomorrow otherwise; a time answered 'auto' gives a meeting to join right now, without a wake. |
| `Parsing.AutoModeUsesSchedule` | parsing.py:78-98 | With both positionals 'auto' and no flag, the result is that of the corrected auto rule, `Parsing.AutoPick`. |
| `Parsing.ExplicitArgumentsTaken` | parsing.py:100-114 | With both positionals given, the meeting is built from exactly the parsed time and ID. It is due today if the time is still ahead and tomorrow otherwise. Either parse failing is a ValueError. |
| `Parsing.AutoTimeMeansRightNow` | parsing.py:104-111 | A time of 'auto' with an ID gives a meeting with no time and no wake, marked right now. |
| `Parsing.AutoIdIsAsked` | parsing.py:104-111 | A time with the ID 'auto' asks for the ID, and the answer goes into the meeting. |
| `Parsing.TriesTwice` | parsing.py:43-56 | The error exit is taken exactly when both orders fail. The swapped order is tried only when the given order fails, and the outcome is that of an order that parsed. |
| `Parsing.EitherOrder` | parsing.py:43-56 | An ID first and a time second give the same meeting as the time first and the ID second. |
| `Parsing.BadRecentRecordExits` | parsing.py:43-69 | A stored recent meeting with a time out of range fails both attempts, so the run ends at the parse-error exit. |

## Findings

| source | as written | input that shows it | evidently intended | confidence | as-written member | corrected member |
|---|---|---|---|---|---|---|
| parsing.py:79-92 | `meeting = Meeting.next()` and then `last = Meeting.last()` both return objects of the shared schedule cache, and `last()` sets `is_right_now` on the object it returns. When both return the same object and the branch falls through to `return meeting`, the next meeting comes back marked right now, and main.py:140 joins it at once instead of sleeping until its wake. | The schedule is one meeting with ID 111, at 9:00 on days [1, 2]. The clock reads Monday 10:00, the threshold is 15 minutes, and `--late` is not set. | The next meeting is returned as `next()` produced it (Tuesday 9:00, not right now), to be waited for. | not executed | Parsing.AutoPickAsWritten, Parsing.AliasingExample | Parsing.AutoPick |

`Parsing.FigureOut` uses the corrected `Parsing.AutoPick`. `Parsing.AutoPickAsWritten` states that the two rules give the same outcome except in the fall-through case, where the next meeting is the last meeting's own cache entry.

## Left out

- The `Config` class, `open_file`, the JSON files, `run`, `sudo` and the terminal loops (`never_trust_user_input`, `sometimes_trust_user_input`) are left out. They are file and terminal I/O. The threshold and the recent record are parameters instead.
- main.py and configtool.py are not part of this model. They hold GUI automation, waiting and menus. One consequence: the schedule is assumed to hold only meetings with a time and days (`Schedule.WellFormed`), as configtool.py always stores them.
- The pixel, keyboard and app functions of utils.py are left out, because they are foreign calls. So is what shift does to a key that is not a letter, which depends on the keyboard layout.
- The process-wide `_schedule` cache is the explicit `seq<Meeting>` parameter. Its loading (`Meeting.schedule`, model.py:125-130) is file I/O.
- Calendar arithmetic is left out: a wake is "days ahead plus a time". `Times.WakeText` renders a date that is given to it.
- The program reads the clock anew at each `utils.time()` call. The model uses one reading `now` for the whole run. `Time.now` (model.py:59-62) is that reading and is not modelled separately.
- Python's `int()` is modelled on ASCII only: optional sign, ASCII digits, and the six white-space characters of C's `isspace` at both ends. Non-ASCII white space, underscores and non-ASCII digits are left out, and so are non-ASCII digits for `\d` and non-ASCII cased letters.
- `from_dict` on a record with a missing key, or with a `time` that is not a pair, is not modelled. The first is the `recent` parameter being `None`; the second would be a TypeError.
- A missing recent-meeting file raises FileNotFoundError, which the program does not catch. It is left out.
- The `-q`, `-t`, `-c` and `--version` flags are left out, and so are the messages printed before each exit. None of them affects which meeting is chosen.
- `Schedule.ScheduleOfDay` carries no contract of its own. It only maps `Schedule.DayOrder` (which carries the contract) to the meeting objects.
- Lookup.ScheduleLookup: requires a forward target to have a time. In the program, a meeting without a time is right now, and `infer_wake` never looks it up. Otherwise the wake would render "None".
- Lookup.InferWakeOnSchedule: requires the meeting to have no wake yet. That is how it comes from `from_dict`, which is the only way a scheduled meeting reaches `infer_wake`.
- Utils.TypingPlan: requires non-empty pieces. `part[0]` would raise IndexError on an empty piece, and the split never produces one.
- Utils.DistributeList: states each chunk's contents through `Utils.DistributedChunks` rather than in its own contract.
- Parsing.FigureOut: its auto branch (parsing.py:78-98) is the corrected rule `Parsing.AutoPick`, not the code as written. The two differ in one case: the branch falls through and `next()` returned the cache entry that `last()` then marked right now. There the program returns the meeting marked right now, and the model returns it unmarked (see "## Findings").
- Parsing.AutoModeUsesSchedule: equates the auto mode with the corrected `Parsing.AutoPick`, for the same reason as `Parsing.FigureOut`. `Parsing.AutoPickAsWritten` states how the code as written differs.
- Parsing.TriesTwice: builds on `Parsing.FigureOut`, so its auto mode is also the corrected rule.
- Times.SortingKey: the float `hour + minute / 60` is modelled as an exact `real`. This changes no comparison. Distinct keys are at least 1/60 apart, far more than the rounding error of a double below 24, so the float keys sort exactly as the exact ones do, and equal floats come only from equal times.
