/**
 * The stateful layer of main.py: `Repository` (main.py:183-271) as a class over the
 * three tables, and `PresenceTracker` (main.py:274-513) as a class whose methods run
 * the same steps as the Python methods and are proved to produce exactly the table
 * updates, failures and notifications that the functions of Reconciler and
 * IntervalStore specify.
 */
module Tracker {
  import opened Wrappers
  import opened Clock
  import opened IntervalStore
  import opened Reconciler
  import Params
  import Enrolment

  /** The `user`, `session` and `presence` tables behind `Repository`. */
  class Database {
    var users: seq<User>
    var sessions: seq<Session>
    var presences: seq<Presence>

    /** The UNIQUE constraints on the user id and the address (main.py:109-110). */
    ghost predicate Valid()
      reads this
    {
      UniqueKeys(users)
    }

    /** `init_db` on a fresh file: three empty tables. */
    constructor ()
      ensures Valid() && users == [] && sessions == [] && presences == []
    {
      users := [];
      sessions := [];
      presences := [];
    }

    /** `start_session` (main.py:190-191): a new open session, started now, under a fresh id. */
    method StartSession(now: Time) returns (id: nat)
      modifies this
      ensures forall i :: 0 <= i < |old(sessions)| ==> old(sessions)[i].id != id
      ensures sessions == old(sessions) + [Session(id, now, None)]
      ensures users == old(users) && presences == old(presences)
    {
      id := NextSessionId(sessions);
      sessions := sessions + [Session(id, now, None)];
    }

    /**
     * `add_user` (main.py:194-206): `get_or_create` by id, then a refresh of the name and
     * title of an existing user. `ok` is false when the insert would break the UNIQUE
     * address constraint (peewee raises there) and then nothing changes.
     */
    method AddUser(id: UserId, mail: string, name: string, title: Option<string>) returns (ok: bool)
      requires Valid()
      modifies this
      ensures Valid()
      ensures ok == IntervalStore.AddUser(old(users), id, mail, name, title).Some?
      ensures users == if ok then IntervalStore.AddUser(old(users), id, mail, name, title).value else old(users)
      ensures ok ==> GetUser(users, id).Some? && GetUser(users, id).value.displayName == name && GetUser(users, id).value.jobTitle == title
      ensures sessions == old(sessions) && presences == old(presences)
    {
      AddUserUpserts(users, id, mail, name, title);
      var existing := IndexOfId(users, id);
      if existing.Some? {
        var i := existing.value;
        if users[i].displayName != name || users[i].jobTitle != title {
          users := users[i := users[i].(displayName := name, jobTitle := title)];
        }
        ok := true;
      } else if HasMail(users, Text.Lower(mail)) {
        ok := false;
      } else {
        users := users + [User(id, Text.Lower(mail), name, title)];
        ok := true;
      }
    }

    /**
     * `update_presence_end_time_and_duration` (main.py:220-224): every row of the user
     * with a NULL end gets the given end and duration; no other row changes.
     */
    method UpdatePresenceEndTimeAndDuration(u: UserId, end: Time, duration: int)
      modifies this
      ensures presences == CloseOpen(old(presences), u, end, duration)
      ensures users == old(users) && sessions == old(sessions)
    {
      presences := CloseOpen(presences, u, end, duration);
    }

    /**
     * `add_presence` (main.py:227-235): appends one row for a known user; `get_user`
     * raises for an unknown id, which is the failure, and then nothing is added.
     */
    method AddPresence(session: nat, u: UserId, start: Option<Time>, end: Option<Time>, duration: int) returns (failure: Option<Failure>)
      modifies this
      ensures GetUser(old(users), u).None? ==> failure == Some(UnknownUser(u)) && presences == old(presences)
      ensures GetUser(old(users), u).Some? ==> failure.None? && presences == old(presences) + [Presence(session, u, start, end, duration)]
      ensures users == old(users) && sessions == old(sessions)
    {
      if GetUser(users, u).None? {
        return Some(UnknownUser(u));
      }
      presences := presences + [Presence(session, u, start, end, duration)];
      failure := None;
    }

    /** `delete_invalid_presence_records` (main.py:242-243): drops the rows with no start, returning how many. */
    method DeleteInvalidPresenceRecords() returns (count: nat)
      modifies this
      ensures presences == DeleteInvalid(old(presences))
      ensures count == NullStartCount(old(presences)) && count == |old(presences)| - |presences|
      ensures users == old(users) && sessions == old(sessions)
    {
      count := NullStartCount(presences);
      presences := DeleteInvalid(presences);
    }

    /**
     * `close_out_incomplete_presence_records` (main.py:246-254): closes every row with a
     * start and no end at `now` with its rounded length, returning how many.
     */
    method CloseOutIncompletePresenceRecords(now: Time) returns (count: nat)
      modifies this
      ensures presences == CloseOutIncomplete(old(presences), now)
      ensures count == IncompleteCount(old(presences))
      ensures users == old(users) && sessions == old(sessions)
    {
      count := IncompleteCount(presences);
      presences := CloseOutIncomplete(presences, now);
    }

    /** `session.end_time = now; session.save()` (main.py:435-436). */
    method SetSessionEnd(id: nat, now: Time)
      modifies this
      ensures sessions == IntervalStore.SetSessionEnd(old(sessions), id, now)
      ensures users == old(users) && presences == old(presences)
    {
      sessions := IntervalStore.SetSessionEnd(sessions, id, now);
    }
  }

  lemma AppendAssoc<T>(a: seq<T>, b: seq<T>, c: seq<T>)
    ensures a + (b + c) == (a + b) + c
  {
  }

  /** The outcome of `_print_presence_statistics`: a raise, and the users notified before it. */
  datatype Stats = Stats(failure: Option<Failure>, notified: seq<UserTotal>)

  /**
   * main.py:387-390: walk the availability rows in order, look each address up in the
   * severity table (a miss raises and stops the walk) and notify severity 3 and above.
   */
  function StatsNotices(ts: seq<UserTotal>, severity: map<string, nat>): Stats
  {
    if ts == [] then Stats(None, [])
    else if ts[0].user.mail !in severity then Stats(Some(UnknownSeverity(ts[0].user.mail)), [])
    else
      var rest := StatsNotices(ts[1..], severity);
      Stats(rest.failure, (if severity[ts[0].user.mail] >= Params.AlertSeverity then [ts[0]] else []) + rest.notified)
  }

  /**
   * The walk raises exactly when some reported address has no severity; otherwise it
   * notifies exactly the reported users of severity 3 or more, and never anyone else.
   */
  lemma {:induction false} StatsNoticesMeaning(ts: seq<UserTotal>, severity: map<string, nat>)
    ensures StatsNotices(ts, severity).failure.None? <==> forall i :: 0 <= i < |ts| ==> ts[i].user.mail in severity
    ensures StatsNotices(ts, severity).failure.None? ==>
      forall x :: x in StatsNotices(ts, severity).notified <==> x in ts && severity[x.user.mail] >= Params.AlertSeverity
    ensures forall x :: x in StatsNotices(ts, severity).notified ==> x in ts
    decreases |ts|
  {
    if ts != [] && ts[0].user.mail in severity {
      StatsNoticesMeaning(ts[1..], severity);
      assert forall i :: 1 <= i < |ts| ==> ts[i] == ts[1..][i - 1];
      assert ts == [ts[0]] + ts[1..];
    }
  }

  /**
   * With the severity table and the tracked list built from the same configured list,
   * every reported user has a severity, so the statistics never raise.
   */
  lemma ConfiguredStatsNeverFail(users: seq<User>, rows: seq<Presence>, configured: seq<string>, a: Time, b: Time)
    ensures StatsNotices(Availability(users, rows, Params.TrackedEmails(configured), a, b), Params.Severities(configured)).failure.None?
  {
    var ts := Availability(users, rows, Params.TrackedEmails(configured), a, b);
    AvailabilityMeaning(users, rows, Params.TrackedEmails(configured), a, b);
    Params.TrackedEmailsAreSeverityKeys(configured);
    forall i | 0 <= i < |ts| ensures ts[i].user.mail in Params.Severities(configured) {
      assert ts[i] in ts;
    }
    StatsNoticesMeaning(ts, Params.Severities(configured));
  }

  /**
   * The same holds for the availability query as written: its rows are listed users
   * too, so the walk over them never raises either.
   */
  lemma ConfiguredStatsNeverFailAsWritten(users: seq<User>, rows: seq<Presence>, configured: seq<string>, a: Time, b: Time)
    ensures StatsNotices(AvailabilityAsWritten(users, rows, Params.TrackedEmails(configured), a, b), Params.Severities(configured)).failure.None?
  {
    var ts := AvailabilityAsWritten(users, rows, Params.TrackedEmails(configured), a, b);
    AvailabilityAsWrittenListed(users, rows, Params.TrackedEmails(configured), a, b);
    Params.TrackedEmailsAreSeverityKeys(configured);
    forall i | 0 <= i < |ts| ensures ts[i].user.mail in Params.Severities(configured) {
      assert ts[i] in ts;
    }
    StatsNoticesMeaning(ts, Params.Severities(configured));
  }

  /** The loop of main.py:387-390 over the availability rows. */
  method NotifyStats(ts: seq<UserTotal>, severity: map<string, nat>) returns (failure: Option<Failure>, notified: seq<UserTotal>)
    ensures Stats(failure, notified) == StatsNotices(ts, severity)
  {
    notified := [];
    var i := 0;
    assert ts[i..] == ts;
    while i < |ts|
      invariant 0 <= i <= |ts|
      invariant var rest := StatsNotices(ts[i..], severity);
        StatsNotices(ts, severity) == Stats(rest.failure, notified + rest.notified)
    {
      assert ts[i..][0] == ts[i] && ts[i..][1..] == ts[i + 1..];
      ghost var rest := StatsNotices(ts[i + 1..], severity);
      if ts[i].user.mail !in severity {
        return Some(UnknownSeverity(ts[i].user.mail)), notified;
      }
      var head := if severity[ts[i].user.mail] >= Params.AlertSeverity then [ts[i]] else [];
      assert StatsNotices(ts[i..], severity) == Stats(rest.failure, head + rest.notified);
      AppendAssoc(notified, head, rest.notified);
      notified := notified + head;
      i := i + 1;
    }
    failure := None;
  }

  /**
   * What one run of `main` leaves before its two cleanups: the user table after
   * enrolment, whether enrolment succeeded, the presence rows, the absence alerts, whether
   * the close-out succeeded and the report ran, and the users the report notified.
   */
  datatype Run = Run(users: seq<User>, enrolled: bool, rows: seq<Presence>, alerts: seq<Alert>, reported: bool, notified: seq<UserTotal>)

  /**
   * `track_async` (main.py:294-313) on the tables `users` and `rows` under session `sid`:
   * enrol the tracked addresses; if that raised, nothing more. Otherwise poll (a raise
   * while polling ends the polls and is caught); if the process was stopped while
   * polling, nothing more; otherwise close out the tracked users and, if that did not
   * raise, report on [startDt, endDt].
   */
  function SessionRun(users: seq<User>, rows: seq<Presence>, severity: map<string, nat>, tracked: seq<string>,
                      directory: seq<User>, sid: nat, startDt: Time, endDt: Time, initialClock: Time,
                      polls: seq<Poll>, stopped: bool): Run
  {
    var e := Enrolment.Enrol(users, Params.ChunkEmails(tracked), directory);
    if !e.ok then Run(e.users, false, rows, [], false, [])
    else
      var t := TrackPolls(e.users, severity, rows, sid, polls, endDt, Some(initialClock));
      if stopped then Run(e.users, true, t.rows, t.alerts, false, [])
      else
        var c := EndOfSchedule(t.rows, UsersByEmails(e.users, tracked), endDt);
        if c.failure.Some? then Run(e.users, true, c.rows, t.alerts, false, [])
        else Run(e.users, true, c.rows, t.alerts, true,
                 StatsNotices(Availability(e.users, c.rows, tracked, startDt, endDt), severity).notified)
  }

  /**
   * With a clock that never runs backwards, a run keeps at most one open interval per
   * user (the latest one), and a run that reported has closed every tracked user's rows.
   */
  lemma SessionRunKeepsInvariant(users: seq<User>, rows: seq<Presence>, severity: map<string, nat>, tracked: seq<string>,
                                 directory: seq<User>, sid: nat, startDt: Time, endDt: Time, initialClock: Time,
                                 polls: seq<Poll>, stopped: bool)
    requires OpenIsLatest(rows) && StartsAtMost(rows, initialClock)
    requires NonDecreasing([initialClock] + PollTimes(polls, Some(initialClock)))
    ensures var r := SessionRun(users, rows, severity, tracked, directory, sid, startDt, endDt, initialClock, polls, stopped);
      OpenIsLatest(r.rows) && OneOpenPerUser(r.rows)
    ensures var r := SessionRun(users, rows, severity, tracked, directory, sid, startDt, endDt, initialClock, polls, stopped);
      r.reported ==> forall p :: p in r.rows && p.user in UserIds(UsersByEmails(r.users, tracked)) ==> p.end.Some?
  {
    var r := SessionRun(users, rows, severity, tracked, directory, sid, startDt, endDt, initialClock, polls, stopped);
    var e := Enrolment.Enrol(users, Params.ChunkEmails(tracked), directory);
    if e.ok {
      var t := TrackPolls(e.users, severity, rows, sid, polls, endDt, Some(initialClock));
      TrackPollsPreservesInvariant(e.users, severity, rows, sid, polls, endDt, Some(initialClock), initialClock);
      if !stopped {
        var tu := UsersByEmails(e.users, tracked);
        var c := EndOfSchedule(t.rows, tu, endDt);
        EndOfScheduleFrame(t.rows, tu, endDt);
        EndOfScheduleClosesTracked(t.rows, tu, endDt);
        if r.reported {
          forall p | p in r.rows && p.user in UserIds(tu) ensures p.end.Some? {
            var i :| 0 <= i < |c.rows| && c.rows[i] == p;
            assert t.rows[i].user == p.user;
          }
        }
      }
    }
    OpenIsLatestGivesOneOpen(r.rows);
  }

  /** `PresenceTracker`: the configured severities and addresses, the database and the current session. */
  class PresenceTracker {
    const db: Database
    ghost const configured: seq<string>
    const severity: map<string, nat>
    const trackedEmails: seq<string>
    var session: Option<nat>

    /** main.py:75-80: both tables are derived from the one configured list. */
    ghost predicate Configured()
    {
      severity == Params.Severities(configured) && trackedEmails == Params.TrackedEmails(configured)
    }

    /** `__init__` (main.py:275-286) without the logger and the Graph client: no session yet. */
    constructor (db: Database, emails: seq<string>)
      ensures this.db == db && configured == emails && Configured() && session.None?
    {
      this.db := db;
      configured := emails;
      severity := Params.Severities(emails);
      trackedEmails := Params.TrackedEmails(emails);
      session := None;
    }

    /**
     * `_populate_tracked_users_async` (main.py:315-338) against `directory`, the users the
     * directory returns for a query on a list of addresses. `ok` is false when `add_user`
     * raised; the users stored before that stay stored.
     */
    method PopulateTrackedUsers(directory: seq<User>) returns (ok: bool)
      requires db.Valid()
      modifies db
      ensures var r := Enrolment.Enrol(old(db.users), Params.ChunkEmails(trackedEmails), directory);
        db.users == r.users && ok == r.ok
      ensures db.Valid()
      ensures db.presences == old(db.presences) && db.sessions == old(db.sessions)
    {
      var chunks := Params.ChunkEmails(trackedEmails);
      ghost var whole := Enrolment.Enrol(db.users, chunks, directory);
      for c := 0 to |chunks|
        invariant db.Valid()
        invariant db.presences == old(db.presences) && db.sessions == old(db.sessions)
        invariant whole == Enrolment.Enrol(db.users, chunks[c..], directory)
      {
        assert chunks[c..][0] == chunks[c] && chunks[c..][1..] == chunks[c + 1..];
        var known := Enrolment.KnownMails(db.users, chunks[c]);
        var remaining := Enrolment.Remaining(db.users, chunks[c]);
        if remaining == [] {
          continue;
        }
        var response := Enrolment.Response(directory, remaining);
        ghost var step := Enrolment.AddResponse(db.users, response, known);
        for k := 0 to |response|
          invariant db.Valid()
          invariant db.presences == old(db.presences) && db.sessions == old(db.sessions)
          invariant step == Enrolment.AddResponse(db.users, response[k..], known)
        {
          assert response[k..][0] == response[k] && response[k..][1..] == response[k + 1..];
          var d := response[k];
          if d.mail in known {
            continue;
          }
          var added := db.AddUser(d.id, d.mail, d.displayName, d.jobTitle);
          if !added {
            return false;
          }
        }
      }
      ok := true;
    }

    /** main.py:304: the session row that `track_async` opens before it starts polling. */
    method StartTracking(now: Time)
      modifies this, db
      ensures session.Some? && db.sessions == old(db.sessions) + [Session(session.value, now, None)]
      ensures forall i :: 0 <= i < |old(db.sessions)| ==> old(db.sessions)[i].id != session.value
      ensures db.users == old(db.users) && db.presences == old(db.presences)
    {
      var id := db.StartSession(now);
      session := Some(id);
    }

    /**
     * `_end_unavailability_presence` (main.py:418-430): look the user up (a miss raises),
     * look the address up in the severity table (a miss raises), decide the alert on the
     * truncated length and close the user's open rows.
     */
    method EndUnavailabilityPresence(u: UserId, start: Time, end: Time) returns (failure: Option<Failure>, alerts: seq<Alert>)
      modifies db
      ensures var user := GetUser(old(db.users), u);
        if user.None? then
          failure == Some(UnknownUser(u)) && alerts == [] && db.presences == old(db.presences)
        else if user.value.mail !in severity then
          failure == Some(UnknownSeverity(user.value.mail)) && alerts == [] && db.presences == old(db.presences)
        else
          failure.None? && alerts == AbsenceAlert(user.value, severity[user.value.mail], start, end) &&
          db.presences == CloseOpen(old(db.presences), u, end, TruncSeconds(end - start))
      ensures db.users == old(db.users) && db.sessions == old(db.sessions)
    {
      var user := GetUser(db.users, u);
      if user.None? {
        return Some(UnknownUser(u)), [];
      }
      if user.value.mail !in severity {
        return Some(UnknownSeverity(user.value.mail)), [];
      }
      var duration := TruncSeconds(end - start);
      alerts := AbsenceAlert(user.value, severity[user.value.mail], start, end);
      db.UpdatePresenceEndTimeAndDuration(u, end, duration);
      failure := None;
    }

    /**
     * `_handle_user_becoming_available` (main.py:412-416): only a latest interval with a
     * start and no end is closed; otherwise nothing happens.
     */
    method HandleUserBecomingAvailable(u: UserId, t: Time) returns (failure: Option<Failure>, alerts: seq<Alert>)
      modifies db
      ensures ClosingInterval(old(db.presences), u).None? ==> failure.None? && alerts == [] && db.presences == old(db.presences)
      ensures (ClosingInterval(old(db.presences), u).Some? && GetUser(old(db.users), u).Some? &&
               GetUser(old(db.users), u).value.mail in severity) ==>
        var user := GetUser(old(db.users), u).value;
        var start := ClosingInterval(old(db.presences), u).value;
        failure.None? && alerts == AbsenceAlert(user, severity[user.mail], start, t) &&
        db.presences == CloseOpen(old(db.presences), u, t, TruncSeconds(t - start))
      ensures failure.None? || (ClosingInterval(old(db.presences), u).Some? && db.presences == old(db.presences))
      ensures db.users == old(db.users) && db.sessions == old(db.sessions)
    {
      var last := LastPresence(db.presences, u);
      if last.Some? && last.value.start.Some? && last.value.end.None? {
        failure, alerts := EndUnavailabilityPresence(u, last.value.start.value, t);
      } else {
        failure, alerts := None, [];
      }
    }

    /**
     * `_track_individual_user` (main.py:394-410): exactly the step `TrackSample`
     * specifies, failures and notifications included.
     */
    method TrackIndividualUser(s: Sample, dtInitial: Option<Time>) returns (failure: Option<Failure>, alerts: seq<Alert>)
      requires session.Some?
      modifies db
      ensures var st := TrackSample(old(db.users), severity, old(db.presences), session.value, s, dtInitial);
        db.presences == st.rows && failure == st.failure && alerts == st.alerts
      ensures db.users == old(db.users) && db.sessions == old(db.sessions)
    {
      var user := GetUser(db.users, s.user);
      if user.None? {
        return Some(UnknownUser(s.user)), [];
      }
      if user.value.mail !in severity {
        return Some(UnknownSeverity(user.value.mail)), [];
      }
      var t := if dtInitial.Some? then dtInitial.value else s.clock;
      if IsUnavailableLabel(s.availability) {
        var last := LastPresence(db.presences, s.user);
        if last.None? || last.value.end.Some? {
          failure := db.AddPresence(session.value, s.user, Some(t), None, 0);
        } else {
          failure := None;
        }
        alerts := [];
      } else {
        failure, alerts := HandleUserBecomingAvailable(s.user, t);
      }
    }

    /**
     * `_track_user_presence_async` (main.py:348-355) from the presence response on: the
     * samples in order, stopping at the first raise.
     */
    method TrackUserPresence(samples: seq<Sample>, dtInitial: Option<Time>) returns (failure: Option<Failure>, alerts: seq<Alert>)
      requires session.Some?
      modifies db
      ensures var st := TrackBatch(old(db.users), severity, old(db.presences), session.value, samples, dtInitial);
        db.presences == st.rows && failure == st.failure && alerts == st.alerts
      ensures db.users == old(db.users) && db.sessions == old(db.sessions)
    {
      ghost var users, sid, whole := db.users, session.value, TrackBatch(db.users, severity, db.presences, session.value, samples, dtInitial);
      alerts := [];
      var i := 0;
      while i < |samples|
        invariant 0 <= i <= |samples|
        invariant db.users == users && db.sessions == old(db.sessions)
        invariant var rest := TrackBatch(users, severity, db.presences, sid, samples[i..], dtInitial);
          whole == Step(rest.rows, rest.failure, alerts + rest.alerts)
      {
        assert samples[i..][0] == samples[i] && samples[i..][1..] == samples[i + 1..];
        ghost var before := alerts;
        ghost var st := TrackSample(users, severity, db.presences, sid, samples[i], dtInitial);
        ghost var rest := TrackBatch(users, severity, st.rows, sid, samples[i + 1..], dtInitial);
        assert TrackBatch(users, severity, db.presences, sid, samples[i..], dtInitial)
          == if st.failure.Some? then st else Step(rest.rows, rest.failure, st.alerts + rest.alerts);
        var f, a := TrackIndividualUser(samples[i], dtInitial);
        alerts := alerts + a;
        if f.Some? {
          return f, alerts;
        }
        AppendAssoc(before, a, rest.alerts);
        i := i + 1;
      }
      failure := None;
    }

    /**
     * `_track_until_scheduled_end_time_async` (main.py:340-346): poll while the clock is
     * before `endDt`, the first poll with `dt_initial` set to the clock at entry and every
     * later one with `None`. With a clock that never runs backwards the run keeps at most
     * one open interval per user.
     */
    method TrackUntilScheduledEnd(endDt: Time, initialClock: Time, polls: seq<Poll>) returns (failure: Option<Failure>, alerts: seq<Alert>)
      requires session.Some?
      modifies db
      ensures var st := TrackPolls(old(db.users), severity, old(db.presences), session.value, polls, endDt, Some(initialClock));
        db.presences == st.rows && failure == st.failure && alerts == st.alerts
      ensures (OpenIsLatest(old(db.presences)) && StartsAtMost(old(db.presences), initialClock) &&
               NonDecreasing([initialClock] + PollTimes(polls, Some(initialClock)))) ==> OneOpenPerUser(db.presences)
      ensures db.users == old(db.users) && db.sessions == old(db.sessions)
    {
      var dtInitial := Some(initialClock);
      ghost var users, sid := db.users, session.value;
      ghost var whole := TrackPolls(users, severity, db.presences, sid, polls, endDt, dtInitial);
      alerts := [];
      failure := None;
      var i := 0;
      while i < |polls| && polls[i].clock < endDt
        invariant 0 <= i <= |polls|
        invariant dtInitial == if i == 0 then Some(initialClock) else None
        invariant db.users == users && db.sessions == old(db.sessions)
        invariant var rest := TrackPolls(users, severity, db.presences, sid, polls[i..], endDt, dtInitial);
          whole == Step(rest.rows, rest.failure, alerts + rest.alerts)
      {
        assert polls[i..][0] == polls[i] && polls[i..][1..] == polls[i + 1..];
        ghost var before := alerts;
        ghost var st := TrackBatch(users, severity, db.presences, sid, polls[i].samples, dtInitial);
        ghost var rest := TrackPolls(users, severity, st.rows, sid, polls[i + 1..], endDt, None);
        assert TrackPolls(users, severity, db.presences, sid, polls[i..], endDt, dtInitial)
          == if st.failure.Some? then st else Step(rest.rows, rest.failure, st.alerts + rest.alerts);
        var f, a := TrackUserPresence(polls[i].samples, dtInitial);
        alerts := alerts + a;
        if f.Some? {
          failure := f;
          break;
        }
        AppendAssoc(before, a, rest.alerts);
        dtInitial := None;
        i := i + 1;
      }
      if OpenIsLatest(old(db.presences)) && StartsAtMost(old(db.presences), initialClock) &&
        NonDecreasing([initialClock] + PollTimes(polls, Some(initialClock)))
      {
        TrackPollsPreservesInvariant(old(db.users), severity, old(db.presences), session.value, polls, endDt, Some(initialClock), initialClock);
      }
    }

    /**
     * One pass of the loop of `_end_of_scheduled_time_cleanup` (main.py:374-378): if the
     * user's latest row is open, close the user's open rows at `endDt` with the truncated
     * length; a NULL start raises before anything is written.
     */
    method CloseOutTrackedUser(u: UserId, endDt: Time) returns (failure: Option<Failure>)
      modifies db
      ensures var st := CloseOutUser(old(db.presences), u, endDt);
        db.presences == st.rows && failure == st.failure
      ensures db.users == old(db.users) && db.sessions == old(db.sessions)
    {
      var last := LastPresence(db.presences, u);
      if last.Some? && last.value.end.None? {
        if last.value.start.None? {
          return Some(MissingStart(u));
        }
        db.UpdatePresenceEndTimeAndDuration(u, endDt, TruncSeconds(endDt - last.value.start.value));
      }
      failure := None;
    }

    /**
     * `_end_of_scheduled_time_cleanup` (main.py:371-378): the tracked users in table
     * order, stopping at the first raise. `EndOfScheduleClosesTracked` shows that on
     * success no tracked user is left open.
     */
    method EndOfScheduledTimeCleanup(endDt: Time) returns (failure: Option<Failure>)
      modifies db
      ensures var st := EndOfSchedule(old(db.presences), UsersByEmails(old(db.users), trackedEmails), endDt);
        db.presences == st.rows && failure == st.failure
      ensures db.users == old(db.users) && db.sessions == old(db.sessions)
    {
      var tracked := UsersByEmails(db.users, trackedEmails);
      for k := 0 to |tracked|
        invariant db.users == old(db.users) && db.sessions == old(db.sessions)
        invariant EndOfSchedule(old(db.presences), tracked[..k], endDt) == Step(db.presences, None, [])
      {
        EndOfScheduleSnoc(old(db.presences), tracked, k, endDt);
        failure := CloseOutTrackedUser(tracked[k].id, endDt);
        if failure.Some? {
          EndOfScheduleStops(old(db.presences), tracked, k + 1, endDt);
          return;
        }
      }
      assert tracked[..|tracked|] == tracked;
      failure := None;
    }

    /**
     * The database steps of `cleanup_async` (main.py:432-439): re-stamp the session end,
     * delete the rows with no start, close the rest at `now`. Afterwards every row has a
     * start and an end.
     */
    method CleanupAsync(now: Time) returns (deleted: nat, updated: nat)
      modifies db
      ensures session.Some? ==> db.sessions == IntervalStore.SetSessionEnd(old(db.sessions), session.value, now)
      ensures session.None? ==> db.sessions == old(db.sessions)
      ensures db.presences == Cleanup(old(db.presences), now).rows
      ensures deleted == Cleanup(old(db.presences), now).deleted && updated == Cleanup(old(db.presences), now).updated
      ensures forall p :: p in db.presences ==> p.start.Some? && p.end.Some?
      ensures db.users == old(db.users)
    {
      if session.Some? {
        db.SetSessionEnd(session.value, now);
      }
      deleted := db.DeleteInvalidPresenceRecords();
      updated := db.CloseOutIncompletePresenceRecords(now);
      CleanupIdempotent(old(db.presences), now, now);
    }

    /**
     * `_print_presence_statistics` (main.py:380-392) without the log lines: the users the
     * stats notification goes to, from the corrected availability query. A tracker built
     * by its constructor never raises here.
     */
    method PrintPresenceStatistics(startDt: Time, endDt: Time) returns (failure: Option<Failure>, notified: seq<UserTotal>)
      ensures Stats(failure, notified) == StatsNotices(Availability(db.users, db.presences, trackedEmails, startDt, endDt), severity)
      ensures Configured() ==> failure.None?
    {
      var ts := Availability(db.users, db.presences, trackedEmails, startDt, endDt);
      if Configured() {
        ConfiguredStatsNeverFail(db.users, db.presences, configured, startDt, endDt);
      }
      failure, notified := NotifyStats(ts, severity);
    }

    /**
     * `main` (main.py:521-530) around `track_async` (main.py:294-313): enrol the tracked
     * users, open the session, poll until `endDt` (a raise there is caught), close out
     * the schedule and report; a raise in enrolment, close-out or report abandons the
     * rest. `stopped` says that the process was stopped (Ctrl-C or a cancellation, which
     * main.py:309 does not catch) while polling: `polls` then holds the polls made
     * before the stop, and the close-out and the report are skipped. Then the `finally`
     * cleanup and the `__aexit__` cleanup both run: afterwards every interval has a start
     * and an end, and the second cleanup finds nothing to do.
     */
    method RunSession(directory: seq<User>, startDt: Time, endDt: Time, sessionStart: Time, initialClock: Time,
                      polls: seq<Poll>, stopped: bool, finallyNow: Time, exitNow: Time)
      returns (alerts: seq<Alert>, notified: seq<UserTotal>, deleted: nat, updated: nat)
      requires db.Valid()
      modifies this, db
      ensures var r := SessionRun(old(db.users), old(db.presences), severity, trackedEmails, directory,
                                  if session.Some? then session.value else 0, startDt, endDt, initialClock, polls, stopped);
        db.users == r.users && db.presences == Cleanup(r.rows, finallyNow).rows &&
        alerts == r.alerts && notified == r.notified
      ensures var e := Enrolment.Enrol(old(db.users), Params.ChunkEmails(trackedEmails), directory).ok;
        e ==> session.Some? && (forall i :: 0 <= i < |old(db.sessions)| ==> old(db.sessions)[i].id != session.value)
      ensures var e := Enrolment.Enrol(old(db.users), Params.ChunkEmails(trackedEmails), directory).ok;
        e ==> db.sessions == IntervalStore.SetSessionEnd(IntervalStore.SetSessionEnd(
          old(db.sessions) + [Session(session.value, sessionStart, None)], session.value, finallyNow), session.value, exitNow)
      ensures var e := Enrolment.Enrol(old(db.users), Params.ChunkEmails(trackedEmails), directory).ok;
        !e ==> session == old(session)
      ensures var e := Enrolment.Enrol(old(db.users), Params.ChunkEmails(trackedEmails), directory).ok;
        !e && session.Some? ==> db.sessions == IntervalStore.SetSessionEnd(IntervalStore.SetSessionEnd(
          old(db.sessions), session.value, finallyNow), session.value, exitNow)
      ensures var e := Enrolment.Enrol(old(db.users), Params.ChunkEmails(trackedEmails), directory).ok;
        !e && session.None? ==> db.sessions == old(db.sessions)
      ensures stopped ==> notified == []
      ensures forall p :: p in db.presences ==> p.start.Some? && p.end.Some?
      ensures deleted == 0 && updated == 0
    {
      alerts, notified := [], [];
      var enrolled := PopulateTrackedUsers(directory);
      if enrolled {
        StartTracking(sessionStart);
        var trackFailure;
        trackFailure, alerts := TrackUntilScheduledEnd(endDt, initialClock, polls);
        if !stopped {
          var closeFailure := EndOfScheduledTimeCleanup(endDt);
          if closeFailure.None? {
            var statsFailure;
            statsFailure, notified := PrintPresenceStatistics(startDt, endDt);
          }
        }
      }
      ghost var before := db.presences;
      deleted, updated := CleanupAsync(finallyNow);
      CleanupIdempotent(before, finallyNow, exitNow);
      deleted, updated := CleanupAsync(exitNow);
    }
  }
}
