# presence_tracker, modelled in Dafny

presence_tracker polls the Microsoft Graph presence of a configured list of users
during a scheduled time window. It records every stretch in which a user is "Away" or
"Offline" as an unavailability interval in a SQLite database. It sends a notification
when a high-severity user comes back after more than an hour. At the end of the window
it closes the intervals that are still open and reports each user's total
unavailability. A crash-recovery cleanup deletes intervals that have no start and
closes every interval that is left open. A separate script, `generate_timeline.py`,
reads the database back and draws one timeline per session: each user's intervals,
clipped to the session, on an axis with hourly ticks.

The model has these parts:

- **Tables.** The `user`, `session` and `presence` tables are sequences; table order
  is insertion order. Module `IntervalStore` gives each repository query and update as
  a function of the tables and proves what each one means.
- **Reconciliation.** Module `Reconciler` handles one polled availability label, a
  batch of labels, a sequence of polls and the end-of-schedule close-out, all as
  functions. It proves the invariant that keeps each user to at most one open
  interval.
- **Stateful layer.** Module `Tracker` holds two classes. `Database` plays the
  repository and `PresenceTracker` plays the tracker; their methods run the loops of
  the Python methods. Each method is proved to leave exactly the tables, failures and
  notifications that the functions specify.
- **Configuration and enrolment.** Module `Params` covers the severity parsing, the
  tracked-address list and the chunking. Module `Enrolment` covers how the tracked
  users are stored from directory responses.
- **Time.** Module `Timestamp` models the text timestamps and their parsing. Module
  `Clock` models the integer conversions of time differences: truncation, SQL `round`
  and `floor`.
- **Timeline.** Module `Timeline` computes what the timeline shows: the labels, the
  row order, the clipped segments and the ticks.

A time is an integer count of microseconds, the resolution of a Python `datetime`.
This keeps `int(delta.total_seconds())` (truncation toward zero) apart from SQL
`round` (halves away from zero).

The natural invariant is that no user has two intervals with a NULL end. One sample
does not preserve it: an open interval that is not the user's latest row gets a
second open interval beside it when the user is reported away again
(`Reconciler.OneOpenPerUserNotInductive`). The model therefore proves the stronger
invariant `OpenIsLatest`: an open interval is its user's latest row. It holds as long
as the clock never runs backwards, and it implies the natural one.

`get_user_availability` as written filters the presence window in the WHERE clause of
a LEFT JOIN. That drops idle users; see "## Findings". The corrected query moves the
same row condition (start in the window, or a NULL start) into the join's ON clause:
it sums the same rows for every group and only brings the lost groups back
(`IntervalStore.TotalsAsWrittenAgree`). The statistics report
(`PrintPresenceStatistics`) uses the corrected query.

## Model

| member | source | states |
|---|---|---|
| Text.LexLeTotal | generate_timeline.py:86 | any two labels are ordered one way or the other by Python string comparison |
| Text.LexLeTransitive | generate_timeline.py:86 | Python string comparison is transitive, so sorting by it is well defined |
| Clock.TruncSeconds | main.py:377 | `int()` of a difference in seconds: the whole seconds rounded toward zero, with the remainder bounds on each sign |
| Clock.TruncMinutes | generate_timeline.py:125 | `int()` of the session length in minutes: whole minutes rounded toward zero |
| Clock.RoundSeconds | main.py:249 | SQL `Round` of the difference in seconds: within half a second, halves away from zero |
| Clock.FloorSeconds | main.py:266 | `floor` of the window length in seconds: the greatest whole second not above it |
| Timestamp.ReplaceT | generate_timeline.py:29 | every 'T' becomes a space and every other character is kept |
| Timestamp.ParseTime | generate_timeline.py:30 | an accepted time has a microsecond field below one million |
| Timestamp.ParseIso | generate_timeline.py:30 | `fromisoformat` gives only date-times that pass the constructor's range checks |
| Timestamp.ParseTimestamp | generate_timeline.py:24-33 | a missing value gives None instead of raising; any result is a valid date-time |
| Timestamp.ParseFormat | generate_timeline.py:24-33 | the text the tracker stores for a date-time parses back to it, in both the space form and the 'T' form |
| Timestamp.ParseRejectsBadMonth | generate_timeline.py:31-33 | an out-of-range month gives None, not a raise |
| Timestamp.ParseRejectsText | generate_timeline.py:31-33 | text that is not a date gives None, and so does a NULL column |
| Timestamp.ToTicksMonotone | generate_timeline.py:95-97 | the tick count orders date-times as Python compares them, so `max`, `min` and `<=` give the same on ticks |
| Params.CountPlusAtStart | main.py:93-98 | the severity is the length of the leading run of '+': all '+' before it and no '+' right after |
| Params.SplitSeverity | main.py:75-78 | an address is exactly its '+' marker followed by the stripped address, which does not start with '+' |
| Params.Severities | main.py:75-78 | every configured address, stripped, is a key of the severity table, and every key comes from one |
| Params.SeverityOfLastOccurrence | main.py:75-78 | when stripped addresses repeat, the severity comes from the last occurrence |
| Params.Dedup | main.py:80 | the key list of a dict: the same elements, each exactly once |
| Params.DedupFirstOccurrenceOrder | main.py:80 | the keys keep insertion order: of two keys, the one whose first occurrence comes first is listed first |
| Params.TrackedEmailsAreSeverityKeys | main.py:75-80 | the tracked list has no repeats and holds exactly the keys of the severity table |
| Params.ChunkEmailsPartition | main.py:510-513 | chunks hold 1 to 15 addresses, all but the last exactly 15, and concatenated they give back the list |
| IntervalStore.IndexOfId | main.py:209-210 | the first position holding the id, or None exactly when no row has it |
| IntervalStore.GetUser | main.py:209-210 | `get_user` is a stored row with that id; None (the raise) exactly when no row has it |
| IntervalStore.AddUserUpserts | main.py:194-206 | the upsert fails only when a new id meets a stored address; otherwise ids and addresses stay unique, the id has the given name and title, and every other user is kept |
| IntervalStore.AddUserExisting | main.py:197-206 | for a known id the upsert succeeds, keeps the stored address and every other user, and refreshes name and title in place |
| IntervalStore.AddUserCreated | main.py:195-203 | a new id with a new address is appended with the address lower-cased, and constraints still hold |
| IntervalStore.UsersByEmails | main.py:238-239 | exactly the stored users whose address is in the list |
| IntervalStore.NextSessionId | main.py:190-191 | a new session gets a positive id that no session has |
| IntervalStore.SetSessionEnd | main.py:434-436 | the session with that id gets the end time; every other field and row is unchanged |
| IntervalStore.LastIndexIsLatest | main.py:213-217 | an index is found exactly when the user has a row, and every other row of the user sorts before it by start |
| IntervalStore.LastPresence | main.py:213-217 | `get_last_presence`: any row returned belongs to the user |
| IntervalStore.LastPresenceIsLatest | main.py:213-217 | the returned row is in the table, and no row of the user has a later start |
| IntervalStore.LastIndexUnique | main.py:215 | a row that every other row of its user sorts before is the one the query returns |
| IntervalStore.LastIndexAppendOther | main.py:227-235 | adding a row for another user does not move a user's latest row |
| IntervalStore.LastIndexSameKeys | main.py:220-224 | updating ends and durations does not move anyone's latest row |
| IntervalStore.CloseOpenMeaning | main.py:220-224 | every open row of the user gets the end and duration; other users' rows and closed rows are untouched; the user has no open row left |
| IntervalStore.OpenIsLatestGivesOneOpen | main.py:403-416 | the strong invariant implies that no user has two open intervals |
| IntervalStore.OpenRowIsLast | main.py:213-217 | under the invariant, an open interval is the row `get_last_presence` returns |
| IntervalStore.DeleteInvalid | main.py:242-243 | exactly the rows with a start are kept, and the count removed is the number with a NULL start |
| IntervalStore.DeleteInvalidKeepsCounts | main.py:242-243 | each row with a start is kept as many times as it occurs, and no row without a start survives |
| IntervalStore.CloseOutIncomplete | main.py:246-254 | each row with a start and no end is closed at `now` with its rounded length; every other row is unchanged; afterwards every row with a start has an end |
| IntervalStore.NoNullStart | main.py:242-243 | on a table without NULL starts the delete removes nothing |
| IntervalStore.NoIncomplete | main.py:246-254 | on a table without open rows the close-out updates nothing |
| IntervalStore.CleanupIdempotent | main.py:438-439 | after cleanup every row has a start and an end and closed rows are kept; a second cleanup deletes 0, updates 0 and changes nothing |
| IntervalStore.KeepBelow | main.py:264-267 | the HAVING clause keeps exactly the totals below the limit |
| IntervalStore.InsertDescSorted | main.py:268 | inserting into a list sorted by total, descending, keeps it sorted |
| IntervalStore.SortDesc | main.py:268 | `ORDER BY total_seconds DESC`: sorted by total, descending, and a permutation of its input |
| IntervalStore.Totals | main.py:258-263 | one row per listed user, carrying the sum of the durations of the user's rows that start in the window or have a NULL start |
| IntervalStore.AvailabilityMeaning | main.py:257-271 | the corrected query: exactly the listed users whose window total is below floor(window seconds) − 5, largest total first |
| IntervalStore.AvailabilityKeepsIdleUsers | main.py:257-271 | a listed user with no row that starts in the window or has a NULL start is reported with total 0 whenever floor(window seconds) − 5 is positive, that is for a window of at least 6 whole seconds |
| IntervalStore.WindowTotalOutside | main.py:258-262 | a user with no row starting in the window and none with a NULL start has total 0 (COALESCE) |
| IntervalStore.AvailabilityAsWrittenListed | main.py:258-263 | the query as written reports only users whose address is listed |
| IntervalStore.TotalsAsWrittenAgree | main.py:258-263 | the query as written gives, in the same order and with the same totals, exactly the corrected query's groups of users that have no row at all or a row the WHERE keeps |
| IntervalStore.NullStartCounted | main.py:261 | a row with a NULL start is summed by both queries |
| IntervalStore.AvailabilityAsWrittenDropsIdleUser | main.py:258-263 | the query as written leaves out a user whose only interval starts before the window; the corrected query reports that user with 0 |
| Enrolment.KnownMails | main.py:318 | the addresses of the chunk that already have a user row, exactly |
| Enrolment.Remaining | main.py:319 | the addresses of the chunk with no user row, exactly |
| Enrolment.Response | main.py:324-332 | the directory answer holds exactly the directory users whose address was asked for |
| Enrolment.AddUserGrows | main.py:194-206 | one upsert keeps the constraints and every stored (id, address) pair, and covers the new user |
| Enrolment.AddResponseGrows | main.py:334-338 | storing a response keeps the constraints and every stored pair, also when it stops at a raise; on success every returned user that was not known is covered |
| Enrolment.EnrolCovers | main.py:315-338 | a complete enrolment keeps the constraints and every stored pair, and leaves each tracked address the directory knows with a row for that address or for the directory user's id |
| Reconciler.ClosingInterval | main.py:412-416 | an interval is closed exactly when the user's latest row has a start and no end, and its start is the one used |
| Reconciler.ObserveUnavailable | main.py:403-408 | "Away"/"Offline" appends one open interval at the sample time with duration 0 exactly when the latest interval is absent or closed; otherwise nothing changes |
| Reconciler.ObserveAvailable | main.py:410-430 | any other label changes nothing unless the latest interval is open with a start; then only the user's open rows get end = sample time and the truncated length |
| Reconciler.ObserveTouchesOnlyUser | main.py:401-430 | a sample adds at most one row, which is the user's, and never changes another user's rows |
| Reconciler.ObservePreservesInvariant | main.py:403-416 | if each open interval is its user's latest row and no start lies after the sample time, this still holds after the sample, so no user has two open intervals |
| Reconciler.OneOpenPerUserNotInductive | main.py:403-408 | "no two open intervals per user" alone is not preserved: a table with an open row that is not the latest gets a second one |
| Reconciler.AwayThenAvailable | main.py:401-430 | going away at t1 and coming back at t2 leaves the table plus one closed interval [t1, t2] of truncated length |
| Reconciler.AbsenceAlert | main.py:426-428 | a notification is sent exactly when severity ≥ 3 and the truncated absence exceeds 3600 seconds, and it carries the name, the length and both ends |
| Reconciler.TrackBatchPreservesInvariant | main.py:348-355 | a batch of samples with non-decreasing times keeps the invariant and the clock bound |
| Reconciler.TrackPollsPreservesInvariant | main.py:340-346 | a whole tracking run with a clock that never runs backwards keeps the invariant, so no user ends with two open intervals |
| Reconciler.FirstPollUsesInitialTime | main.py:341-344 | on the first poll a known user away with no open interval gets an interval starting at `dt_initial`, whatever the clock reads |
| Reconciler.EndOfScheduleSnoc | main.py:372-378 | one more user in the close-out loop runs that user's close-out on the table so far |
| Reconciler.EndOfScheduleStops | main.py:372-378 | a raise stops the close-out loop: its result is the result of the whole close-out |
| Reconciler.EndOfScheduleStep | main.py:374-378 | closing the latest open interval touches only that row and leaves the user with no open row |
| Reconciler.NoOpenRow | main.py:374-376 | a user whose latest row is absent or closed has no open row under the invariant |
| Reconciler.ClosesAtTrans | main.py:372-378 | two rounds of closing open intervals at the scheduled end compose into one |
| Reconciler.CloseOutUserFrame | main.py:374-378 | one user's close-out never touches other users, and on success leaves that user with no open interval |
| Reconciler.EndOfScheduleFrame | main.py:371-378 | the close-out only closes open intervals with a start, at the scheduled end with their truncated length, leaves untracked users alone and keeps the invariant |
| Reconciler.EndOfScheduleClosesTracked | main.py:371-378 | on success no tracked user has an open interval left |
| Tracker.Database.constructor | main.py:185-187 | a fresh database has three empty tables |
| Tracker.Database.StartSession | main.py:190-191 | appends one open session started now, under an id no earlier session has |
| Tracker.Database.AddUser | main.py:194-206 | the user table becomes the upsert's result (unchanged on a constraint violation); constraints still hold; the id then names the given details |
| Tracker.Database.UpdatePresenceEndTimeAndDuration | main.py:220-224 | the presence table becomes `CloseOpen` of the old one; users and sessions are unchanged |
| Tracker.Database.AddPresence | main.py:227-235 | an unknown user raises and adds nothing; a known user gets exactly one row appended |
| Tracker.Database.DeleteInvalidPresenceRecords | main.py:242-243 | the NULL-start rows are removed, and the count returned is how many |
| Tracker.Database.CloseOutIncompletePresenceRecords | main.py:246-254 | the open rows with a start are closed at `now`, and the count returned is how many |
| Tracker.Database.SetSessionEnd | main.py:434-436 | the session row is re-stamped with the end time |
| Tracker.StatsNoticesMeaning | main.py:387-390 | the report raises exactly when a reported address has no severity; otherwise it notifies exactly the reported users of severity ≥ 3 |
| Tracker.ConfiguredStatsNeverFail | main.py:75-80 | severity table and tracked list come from one configured list, so the report never fails on a missing severity |
| Tracker.ConfiguredStatsNeverFailAsWritten | main.py:381-390 | with the query as written the report never fails on a missing severity either |
| Tracker.NotifyStats | main.py:387-390 | the loop over the report's rows yields exactly the raise and the notifications `StatsNotices` specifies |
| Tracker.PresenceTracker.constructor | main.py:275-286 | both tables are built from the configured list, and there is no session yet |
| Tracker.PresenceTracker.PopulateTrackedUsers | main.py:315-338 | the loops over chunks and responses store exactly the users `Enrol` specifies, keep the constraints and change no other table |
| Tracker.PresenceTracker.StartTracking | main.py:304 | a new open session with a fresh id becomes the current session |
| Tracker.PresenceTracker.EndUnavailabilityPresence | main.py:418-430 | an unknown user or a missing severity raises and changes nothing; otherwise the notification is decided and the user's open rows are closed with the truncated length |
| Tracker.PresenceTracker.HandleUserBecomingAvailable | main.py:412-416 | with no closing interval nothing happens; otherwise the interval is closed at the given time, or the step raises without writing |
| Tracker.PresenceTracker.TrackIndividualUser | main.py:394-410 | performs exactly the table update, raise and notification `TrackSample` specifies |
| Tracker.PresenceTracker.TrackUserPresence | main.py:348-355 | the loop over one presence response performs exactly `TrackBatch`, stopping at the first raise |
| Tracker.PresenceTracker.TrackUntilScheduledEnd | main.py:340-346 | the poll loop performs exactly `TrackPolls`, with `dt_initial` only on the first poll; with a clock that never runs backwards no user ends with two open intervals |
| Tracker.PresenceTracker.CloseOutTrackedUser | main.py:374-378 | performs exactly one user's close-out, a NULL start raising before any write |
| Tracker.PresenceTracker.EndOfScheduledTimeCleanup | main.py:371-378 | the loop over the tracked users performs exactly `EndOfSchedule` |
| Tracker.PresenceTracker.CleanupAsync | main.py:432-439 | re-stamps the session end, deletes the NULL-start rows and closes the rest at `now`; afterwards every interval has a start and an end |
| Tracker.PresenceTracker.PrintPresenceStatistics | main.py:380-392 | notifies exactly as `StatsNotices` on the availability rows, and never raises for a tracker built by its constructor |
| Tracker.PresenceTracker.RunSession | main.py:521-530 | the users, alerts and notifications are exactly those of `SessionRun` (enrol, track, close out and report unless stopped or a step raised), the presence table is its rows after one cleanup, and, when enrolment succeeds, the session table gains one fresh session, stamped by both cleanups; a stop during polling skips the close-out and the report, so nobody is notified; afterwards every interval has a start and an end, and the second cleanup finds nothing to do |
| Tracker.SessionRunKeepsInvariant | main.py:294-313 | with a clock that never runs backwards a run leaves at most one open interval per user, and a run that reached the report left no tracked user open |
| Timeline.LabelsMeaning | generate_timeline.py:36-47 | every user id has a label, nothing else does, and the label comes from the last row with that id |
| Timeline.GetTrackedUsers | generate_timeline.py:36-47 | the loop builds exactly that dictionary: display name, or the address when the name is empty |
| Timeline.InsertByKey | generate_timeline.py:86 | one insertion step of the sort adds exactly the element |
| Timeline.InsertByKeySorted | generate_timeline.py:86 | inserting into a list sorted by lower-cased label keeps it sorted |
| Timeline.SortByKeySorted | generate_timeline.py:85-86 | the row order is sorted by lower-cased label ("User <id>" for an unknown id) and is a permutation of the ids |
| Timeline.DistinctUsers | generate_timeline.py:85 | each user id of the records exactly once |
| Timeline.Clip | generate_timeline.py:93-101 | a segment exists exactly when both ends parsed and the interval overlaps the session; it lies inside the session, is non-empty and covers exactly the overlap |
| Timeline.UserSegmentsInside | generate_timeline.py:95-101 | every drawn segment has offset ≥ 0, positive length, and ends within the session |
| Timeline.UnparseableHasNoSegment | generate_timeline.py:89-94 | an open interval or an unparseable start contributes no segment |
| Timeline.BuildSegments | generate_timeline.py:88-101 | the loop fills one list per user, holding exactly that user's clipped segments in record order |
| Timeline.FirstTick | generate_timeline.py:128-129 | the first tick lies in [0, 59] |
| Timeline.FirstTickIsNextHour | generate_timeline.py:128-129 | the first tick is the smallest minute offset that lands on a full hour |
| Timeline.XTicks | generate_timeline.py:132-138 | the hourly ticks from the first tick that lie below the total, then the total; strictly increasing, always ending at the total |
| Timeline.LayOut | generate_timeline.py:85-138 | the figure has the sorted distinct users, their clipped segments, the length in whole minutes and as ticks exactly the hourly ticks from the first full hour that lie below the length, then the length |
| Timeline.TicksDetermined | generate_timeline.py:132-138 | the tick clauses fix the ticks: two figures of the same session and first tick have the same ticks |
| Timeline.PlotSessionTimeline | generate_timeline.py:72-154 | no figure exactly when the session start or end does not parse; otherwise the figure `LayOut` gives, its first tick the first full hour after the parsed start |

## Left out

- Microsoft Graph (the client, its authentication and its requests) is not modelled. The directory's answers and the presence responses are parameters: `directory` in enrolment, the samples of each poll.
- Gotify delivery, the `ThreadPoolExecutor` and `requests.post` are out: they are network I/O and concurrency. A notification is a returned `Alert` or a returned list of reported users.
- The asyncio sleeps, the wait for the start time and `_get_start_and_end_time` are out. `datetime.now()` becomes parameters: the clock reading of each poll and sample, and the `now` of cleanup.
- Logging, `configure_logger`, `_format_time`, the "was unavailable" log line, `Params._load_params` and `_is_valid_file` are left out: they are output and file I/O.
- Lifecycle notifications (main.py:306, main.py:310) are left out: they are network output.
- The `async with` entry and exit plumbing is left out. The exit cleanup is modelled as the second `CleanupAsync` in `RunSession`.
- `RunSession` does not state that the session end is set exactly once; both cleanups re-stamp it.
- `Tracker.PresenceTracker.PrintPresenceStatistics` runs the corrected availability query, not the one main.py:257-271 runs. With the query as written, a listed user whose intervals all start outside the window would get no report row and so no notification (see "## Findings"). `Tracker.ConfiguredStatsNeverFailAsWritten` shows that the query as written never makes the report fail either.
- `IntervalStore.LastIndex`: when two rows of a user have the same start, the later-inserted row counts as the latest. SQLite leaves the order of ties under `ORDER BY start_time DESC` unspecified. `OpenIsLatest` relies on this rule for a user with equal starts, which a clock that never runs backwards allows.
- `Tracker.PresenceTracker.RunSession` models a stop (Ctrl-C or a cancellation) only while polling. A stop during enrolment, during the wait for the start time, or during the close-out or the report is not modelled.
- `Enrolment.Response` matches each address exactly, with case. A Graph `mail in (...)` filter is case-insensitive; the model does not capture that.
- Peewee and SQLite specifics are left out. The tables are sequences, and the order in which a query yields rows is table order.
- `Tracker.Database.CloseOutIncompletePresenceRecords`: SQLite's `julianday` rounds each timestamp to whole milliseconds and computes the difference in floating point; the model rounds the exact microsecond difference.
- `Text.Lower` folds ASCII letters only; Python's `str.lower()` also folds the rest of Unicode.
- `Timestamp.ParseIso` accepts "YYYY-MM-DD" alone, or followed by a space and "HH:MM", "HH:MM:SS" or "HH:MM:SS.f" with one to six fraction digits. It does not accept the other forms `fromisoformat` takes, such as time zones, week dates and compact forms.
- `Timeline.DistinctUsers`: `list(set(...))` has an unspecified order. The model takes first-occurrence order; only the sorted order is drawn.
- Drawing (matplotlib, PdfPages, labels, colours) and the float minute values are out. Segments are kept in microseconds and ticks in whole minutes.
- `get_sessions` and `get_presence_for_session` are out: they are plain SQL reads. Their rows are the parameters of `PlotSessionTimeline`.
- `generate_report.py` and `report.py` are out: they are aggregate reporting scripts outside the tracker's core.

## Findings

| source | as written | input that shows it | evidently intended | confidence | as-written member | corrected member |
|---|---|---|---|---|---|---|
| main.py:258-263 | the window filter sits in the WHERE clause of a LEFT OUTER JOIN, so a user whose intervals all start outside the window loses every joined row and forms no group | user alice with one interval from 0 s to 600 s; window from 86 400 s to 90 000 s | every listed user is reported, with total 0 when no row meets the row condition (the COALESCE at main.py:259 is there for that case) | not executed | IntervalStore.AvailabilityAsWrittenDropsIdleUser | IntervalStore.AvailabilityKeepsIdleUsers |
