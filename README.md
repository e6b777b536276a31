# Study bot: session log, progress notes and personal reminders

A Dafny model of the state-changing core of a Discord study bot (`bot.py`).
The bot keeps two JSON documents:

- the study log: `active_sessions` (user id to start time), `logs` (one entry per
  finished session) and `progress` (free-text notes), changed by `/study_start`,
  `/study_stop` and `/progress_add` and read by `/progress_list` and `/study_summary`;
- the reminder registry: `users` (user id to an "HH:MM" time in UTC+7), changed by
  `/set_reminder` and `/remove_reminder` and read once a minute by `check_reminders`,
  which reminds every user whose stored time equals the current local "HH:MM".

Modules:

- `Wrappers` — `Option`.
- `Text` — the Python string operations the handlers use: `str(n)` (`IntToString`),
  `int(s)` (`ParseInt`), `s.split(sep)` (`Split`) and `sep.join(parts)` (`Join`),
  with the round trips between them.
- `Clock` — instants as integer microseconds since the epoch (UTC);
  `int(delta.total_seconds())` as truncation toward zero (`ElapsedSeconds`); the UTC
  calendar day (`UtcDay`); the UTC+7 minute of the day (`LocalMinuteOfDay`).
- `Duration` — `duration_hms` (`DurationHms`) and a reader for its output
  (`ParseDuration`) that serves as its inverse.
- `StudyLog` — the study-log document as the class `StudyStore`, whose methods are the
  three mutating commands, and the two queries as functions over the log sequences.
- `Reminders` — the time validation (`ParseTime`), `strftime("%H:%M")` (`FormatHHMM`),
  the registry as the class `ReminderRegistry` with `SetReminder`, `RemoveReminder` and
  the sweep loop `Sweep`.

Each handler loads a document, updates it in place and writes the whole document back.
The classes hold the document in fields, and a `saves` counter records each write, so
the contracts can say when a command writes nothing. The current time is a parameter
(`now`, and for `/study_stop` also `savedAt`, the handler's second clock reading).

On these points the code does something a reader might not expect, and the model follows the code:

- A stop whose end lies a second or more before its start yields a negative
  `duration_seconds`. Nothing clamps it to zero (`Clock.ElapsedSecondsSign`).
- A whole hour prints as "1h 0s", not "1h 0m 0s". The minutes part appears only when the
  minute count is nonzero (`Duration.WholeHourExample`).
- "07:5" and "7:30" pass validation because `int` accepts them. They are stored as typed.
  A stored "7:30" never equals the zero-padded sweep time, so it never fires
  (`Reminders.AcceptsUnpaddedMinute`, `Reminders.UnpaddedNeverMatches`).
- The file writes are plain overwrites; no atomic-write guarantee is modelled.

## Model

| member | source | states |
|---|---|---|
| `Text.IntToString` | bot.py:51-53 | the text of an integer holds only digits and a minus sign, so it never contains a space |
| `Text.ParseInt` | bot.py:209 | `int(s)` succeeds exactly on an optional sign followed by at least one ASCII digit |
| `Text.ParseIntOfIntToString` | bot.py:209 | `int(str(i)) == i` for every integer |
| `Text.SplitJoin` | bot.py:54 | splitting `sep.join(parts)` on `sep` returns `parts` when no part holds `sep` |
| `Text.JoinSplit` | bot.py:209 | joining the pieces of `s.split(sep)` with `sep` returns `s` |
| `Text.Split` | bot.py:209 | `s.split(sep)` always yields at least one piece, and no piece contains the separator |
| `Text.Join` | bot.py:54 | the joined text is as long as all the parts together plus one separator between each neighbouring pair |
| `Clock.TruncDiv` | bot.py:122 | `int()` of a quotient never changes its sign: non-negative for a non-negative dividend, non-positive for a non-positive one |
| `Clock.TruncDivBounds` | bot.py:122 | truncation toward zero: for `a >= 0`, `q*b <= a < (q+1)*b`; for `a < 0`, `(q-1)*b < a <= q*b` |
| `Clock.ElapsedSeconds` | bot.py:119-122 | exact truncation toward zero: forwards, the whole seconds `e` with `e s <= end - start < (e+1) s`; backwards, `(e-1) s < end - start <= e s` |
| `Clock.ElapsedSecondsSign` | bot.py:119-122 | the duration is non-negative and never over the elapsed time when end >= start; it is negative when end is a second or more before start (no clamp); zero within a second backwards |
| `Clock.ElapsedSecondsAntisymmetric` | bot.py:122 | swapping start and end negates the duration, which truncation toward zero gives and flooring would not |
| `Clock.UtcDay` | bot.py:185-187 | the day number `d` of an instant satisfies `d*86400 s <= t < (d+1)*86400 s`, so it names the UTC date the instant falls on |
| `Clock.UtcDayInterval` | bot.py:185-187 | an instant's UTC date is day `d` exactly when it lies in `[d*86400 s, (d+1)*86400 s)` |
| `Clock.LocalMinuteOfDay` | bot.py:243 | the UTC+7 wall-clock minute of the day lies in 0..1439 |
| `Clock.LocalMinuteAdvances` | bot.py:241-244 | one minute later the UTC+7 minute of the day is one more, wrapping at midnight |
| `Duration.HmsDecomposition` | bot.py:46-49 | `h*3600 + m*60 + s == seconds` with `0 <= m < 60` and `0 <= s < 60`, negative inputs included (floor division) |
| `Duration.DurationHms` | bot.py:46-54 | the text is never empty and always ends with the seconds unit |
| `Duration.ParseDurationHms` | bot.py:46-54 | reading the text back gives the same number of seconds, for every integer |
| `Duration.DurationHmsInjective` | bot.py:46-54 | two different durations never print the same text |
| `Duration.DurationHmsShape` | bot.py:50-54 | the seconds part is always present and last; an hours part leads exactly when hours are nonzero; a minutes part precedes the seconds exactly when minutes are nonzero |
| `Duration.SecondsOnlyExamples` | bot.py:46-54 | 0 prints "0s" and 59 prints "59s" |
| `Duration.MinutesExamples` | bot.py:46-54 | 60 prints "1m 0s", 65 prints "1m 5s", 125 prints "2m 5s" |
| `Duration.WholeHourExample` | bot.py:46-54 | 3600 prints "1h 0s" (no minutes part) |
| `Duration.HourMinuteSecondExample` | bot.py:46-54 | 3661 prints "1h 1m 1s" |
| `Duration.NegativeExample` | bot.py:46-54 | -1 prints "-1h 59m 59s" |
| `StudyLog.StudyStore.constructor` | bot.py:32-35 | a new document has no active sessions, no logs and no progress |
| `StudyLog.StudyStore.StudyStart` | bot.py:88-99 | with a running session: the existing start is returned, and sessions and saves are unchanged; otherwise exactly that user's key is added with `now`, other users' sessions are unchanged, and one save happens; logs and progress are untouched |
| `StudyLog.StudyStore.StudyStop` | bot.py:112-133 | without a running session: nothing changes and nothing is saved; otherwise the user's key is removed, exactly one entry is appended to the logs with start, end, truncated seconds, their human form and `saved_at`, earlier entries are kept, one save happens, and every entry stays consistent |
| `StudyLog.StudyStore.ProgressAdd` | bot.py:148-155 | exactly one note is appended at the end, earlier notes are kept, and one save happens |
| `StudyLog.UserProgress` | bot.py:165 | the filtered list holds only the given user's notes and is never longer than the whole progress list |
| `StudyLog.UserProgressMembers` | bot.py:165 | a user's note list holds exactly the notes with that user's id |
| `StudyLog.SliceFrom` | bot.py:166 | `items[start:]` is a suffix of `items`: for `start >= 0` it drops the first `min(start, n)` items, for `start < 0` it keeps the last `min(-start, n)` |
| `StudyLog.ProgressList` | bot.py:163-166 | for limit >= 1 the last `min(limit, n)` of the user's n notes, in chronological order; for limit 0 all n; for a negative limit all but the first `-limit` |
| `StudyLog.ProgressAddThenList` | bot.py:148-166 | after adding a note, its author's list ends with it, preceded by the author's earlier notes; every other user's list is unchanged |
| `StudyLog.ProgressListShown` | bot.py:166-175 | the notes listed by `/progress_list` are the window of `ProgressList` in reverse, newest first |
| `StudyLog.DefaultListShowsLatestFirst` | bot.py:161-175 | with the default limit of 10, at most ten notes are listed and the first is the user's latest note |
| `StudyLog.ProgressAddShownFirst` | bot.py:148-175 | right after `/progress_add` the author's list starts with the new note, for any positive limit |
| `StudyLog.TodaysLogs` | bot.py:187 | every selected entry belongs to the user and was saved on the given UTC day, and there are never more than log entries |
| `StudyLog.TodaysLogsMembers` | bot.py:187 | today's sessions of a user are exactly that user's log entries whose `saved_at` falls on today's UTC date |
| `StudyLog.TotalSeconds` | bot.py:191 | the sum over no sessions is 0, and a sum of non-negative durations is non-negative |
| `StudyLog.StudySummary` | bot.py:182-197 | no summary exactly when the user has no session saved today; otherwise the count, the sum of `duration_seconds`, its human form, and the last `min(5, count)` sessions in log order |
| `StudyLog.SummaryCountIsMatchingEntries` | bot.py:187-193 | the summary's count is the number of log positions holding one of the user's sessions saved today |
| `StudyLog.StopCountsInSummary` | bot.py:124-132 | a stop saved today adds one to that user's summary count and its seconds to the total, and it becomes the newest listed session |
| `StudyLog.StopLeavesOtherSummaries` | bot.py:187 | appending one user's session leaves every other user's summary unchanged |
| `StudyLog.LoggedDurationsReadBack` | bot.py:128-129 | in a consistent log every `duration_human` reads back as its `duration_seconds` |
| `StudyLog.StartStopScenario` | bot.py:88-133 | a session from 00:00:00Z to 00:01:05Z is logged as 65 seconds, "1m 5s"; a second start in between is refused and keeps the first start |
| `Reminders.ParseTime` | bot.py:208-211 | an accepted time has hour 0..23 and minute 0..59 |
| `Reminders.ParseTimeAccepts` | bot.py:209-211 | a time is accepted as (h, m) exactly when it is two integer literals around one colon, parsing to h in 0..23 and m in 0..59 |
| `Reminders.ParseTimeOfParts` | bot.py:209-211 | a string `a:b` with no other colon is judged on `int(a)` and `int(b)` alone: accepted exactly when they lie in 0..23 and 0..59 |
| `Reminders.FormatHHMM` | bot.py:244 | the sweep's current time is always five characters with a colon in the middle |
| `Reminders.ParseFormatHHMM` | bot.py:244 | every zero-padded "HH:MM" passes validation and reads back as the same hour and minute |
| `Reminders.LocalHHMM` | bot.py:241-244 | the sweep's current time is five characters, passes the reminder validation, and names the UTC+7 minute of the day at `now` |
| `Reminders.MatchesLocalTime` | bot.py:243-248 | a stored time equals the sweep's "HH:MM" exactly when it is zero-padded and names the current UTC+7 minute of the day |
| `Reminders.UnpaddedNeverMatches` | bot.py:209-248 | "7:30" is accepted as 7:30 but never equals the sweep's current time |
| `Reminders.AcceptsUnpaddedMinute` | bot.py:209-211 | "07:5" is accepted as 07:05 |
| `Reminders.RejectsHourOutOfRange` | bot.py:209-211 | "25:00" is rejected |
| `Reminders.RejectsSeconds` | bot.py:209-211 | "07:30:00" is rejected (three parts) |
| `Reminders.RejectsMissingColon` | bot.py:209-211 | "0730" is rejected (one part) |
| `Reminders.ReminderRegistry.constructor` | bot.py:21-23 | a new registry has no users |
| `Reminders.ReminderRegistry.SetReminder` | bot.py:208-218 | a rejected time leaves the registry and the save count unchanged; an accepted one upserts exactly the caller's key with the raw string, leaves the other keys unchanged, and saves once; every stored time passes validation |
| `Reminders.ReminderRegistry.RemoveReminder` | bot.py:230-238 | a present key is removed, the other keys are unchanged, and one save happens; an absent key changes nothing and saves nothing |
| `Reminders.ReminderRegistry.Sweep` | bot.py:243-248 | the users selected for a reminder are exactly those whose stored time equals the UTC+7 "HH:MM" at `now`; the registry is not modified |
| `Reminders.SweepScenario` | bot.py:241-248 | with `{"42": "07:30"}` the sweep at 07:30 UTC+7 reminds exactly user 42 and the sweep at 07:31 reminds nobody |

## Left out

- The Discord adapter: deferring and answering interactions, embeds, `tree.sync`, `on_ready` and `bot.run`. These are foreign-library I/O. Each result datatype holds the data a reply is built from, not the reply's text or layout.
- `fetch_user` and `user.send` in the sweep. `Sweep` returns the users selected for a reminder, not the users reached. Only `user.send` sits inside the `try` (bot.py:258-261). A failure of `int(uid)` or `bot.fetch_user` (bot.py:249) is not caught, so it ends that sweep and the users not yet visited get nothing that minute. The model does not capture this, nor the order of the sends (dictionary order).
- The display of `/progress_list` beyond its order and count: each note is shown with its `created_at` as the heading, which the model does not render. The default `limit` of 10 is `StudyLog.DEFAULT_LIST_LIMIT`.
- The random motivational line in the reminder DM. It is a nondeterministic choice that does not affect who is reminded.
- `daily_reminder`. It only looks up a channel and sends a fixed text at 19:00 UTC+7.
- The `tasks.loop` cadence, skipped ticks and interleaving of handlers with the sweep. The model does not capture lost updates between concurrent load/modify/save cycles.
- JSON persistence (`load_data`, `save_data`, `load_reminder`, `save_reminder`). The documents live in object fields, and a write is counted in `saves`. A corrupt or hand-edited file is not modelled.
- ISO-8601 text of timestamps. Instants are integers, so `start`, `end` and `saved_at` hold the instant, not its `isoformat()` string.
- Float rounding in `total_seconds()`. This is exact for all realistic session lengths; the model truncates the exact quotient.
- `Text.ParseInt`: models only a subset of Python's `int()`. Surrounding whitespace, underscores between digits and non-ASCII digits are not accepted by the model.
- Environment and configuration loading (token, client id, reminder channel id).
