/**
 * The presence state machine of `PresenceTracker` (main.py:340-430): how one polled
 * availability label, a batch of them and a sequence of polls change the presence
 * table, and the end-of-schedule close-out (main.py:371-378), as functions of the
 * tables. The class in tracker.dfy is proved to perform exactly these updates.
 */
module Reconciler {
  import opened Wrappers
  import opened Clock
  import opened IntervalStore
  import Params

  /** main.py:403: the two labels that mean "unavailable"; every other label means available. */
  predicate IsUnavailableLabel(avail: string)
  {
    avail == "Away" || avail == "Offline"
  }

  /** The interval `_handle_user_becoming_available` closes: the latest, if it has a start and no end. */
  function ClosingInterval(rows: seq<Presence>, u: UserId): (r: Option<Time>)
    ensures r.Some? <==> exists i :: 0 <= i < |rows| && LastIndex(rows, u) == Some(i) && rows[i].start.Some? && rows[i].end.None?
    ensures r.Some? ==> r.value == rows[LastIndex(rows, u).value].start.value
  {
    var last := LastPresence(rows, u);
    if last.Some? && last.value.start.Some? && last.value.end.None? then Some(last.value.start.value) else None
  }

  /**
   * The table update of `_track_individual_user` for user `u` reporting `avail` at time
   * `t`: an unavailable avail opens an interval unless the latest one is still open;
   * any other avail closes the open interval with its length truncated to seconds.
   */
  function Observe(rows: seq<Presence>, session: nat, u: UserId, avail: string, t: Time): seq<Presence>
  {
    if IsUnavailableLabel(avail) then
      var last := LastPresence(rows, u);
      if last.None? || last.value.end.Some? then rows + [Presence(session, u, Some(t), None, 0)] else rows
    else
      match ClosingInterval(rows, u)
      case None => rows
      case Some(start) => CloseOpen(rows, u, t, TruncSeconds(t - start))
  }

  /** An unavailable avail appends one open interval at `t` exactly when the latest is absent or closed. */
  lemma ObserveUnavailable(rows: seq<Presence>, session: nat, u: UserId, avail: string, t: Time)
    requires IsUnavailableLabel(avail)
    ensures var open := exists i :: 0 <= i < |rows| && LastIndex(rows, u) == Some(i) && rows[i].end.None?;
      Observe(rows, session, u, avail, t) == if open then rows else rows + [Presence(session, u, Some(t), None, 0)]
  {
  }

  /**
   * Any other avail leaves the table alone unless the latest interval is open with a
   * start; then it sets end `t` and the truncated length on the user's open rows only.
   */
  lemma ObserveAvailable(rows: seq<Presence>, session: nat, u: UserId, avail: string, t: Time)
    requires !IsUnavailableLabel(avail)
    ensures var r := Observe(rows, session, u, avail, t);
      |r| == |rows| &&
      (ClosingInterval(rows, u).None? ==> r == rows) &&
      (forall i :: 0 <= i < |rows| && (rows[i].user != u || rows[i].end.Some?) ==> r[i] == rows[i]) &&
      (ClosingInterval(rows, u).Some? ==> forall i :: 0 <= i < |rows| && rows[i].user == u && rows[i].end.None? ==>
        r[i] == rows[i].(end := Some(t), duration := TruncSeconds(t - ClosingInterval(rows, u).value)))
  {
  }

  /** Rows of other users are never touched, and a new row is always the user's. */
  lemma ObserveTouchesOnlyUser(rows: seq<Presence>, session: nat, u: UserId, avail: string, t: Time)
    ensures var r := Observe(rows, session, u, avail, t);
      |rows| <= |r| <= |rows| + 1 &&
      (forall i :: 0 <= i < |rows| && rows[i].user != u ==> r[i] == rows[i]) &&
      (forall i :: |rows| <= i < |r| ==> r[i].user == u && r[i].end.None? && r[i].start == Some(t))
  {
  }

  /**
   * The central invariant survives every sample: if each open interval is its user's
   * latest row before the sample, and no start lies after the sample time, the same
   * holds afterwards, so no user ever has two open intervals.
   */
  lemma ObservePreservesInvariant(rows: seq<Presence>, session: nat, u: UserId, avail: string, t: Time)
    requires OpenIsLatest(rows) && StartsAtMost(rows, t)
    ensures OpenIsLatest(Observe(rows, session, u, avail, t))
    ensures StartsAtMost(Observe(rows, session, u, avail, t), t)
    ensures OneOpenPerUser(Observe(rows, session, u, avail, t))
  {
    var r := Observe(rows, session, u, avail, t);
    if IsUnavailableLabel(avail) {
      var last := LastPresence(rows, u);
      if last.None? || last.value.end.Some? {
        var n := |rows|;
        forall i | 0 <= i < n && rows[i].user == u ensures rows[i].end.Some? {
          if rows[i].end.None? {
            OpenRowIsLast(rows, i);
          }
        }
        forall i, j | 0 <= i < |r| && 0 <= j < |r| && i != j && r[i].user == r[j].user && r[i].end.None?
          ensures r[j].end.Some? && Earlier(r[j].start, j, r[i].start, i)
        {
          if i < n && j < n {
            assert r[i] == rows[i] && r[j] == rows[j];
          } else if i == n {
            assert r[j] == rows[j];
          } else {
            assert false;
          }
        }
      }
    } else if ClosingInterval(rows, u).Some? {
      forall i, j | 0 <= i < |r| && 0 <= j < |r| && i != j && r[i].user == r[j].user && r[i].end.None?
        ensures r[j].end.Some? && Earlier(r[j].start, j, r[i].start, i)
      {
        assert rows[i].end.None?;
      }
    }
    OpenIsLatestGivesOneOpen(r);
  }

  /**
   * The plain "at most one open interval per user" is not enough on its own: a table
   * with an open row that is not the user's latest gets a second open row.
   */
  lemma OneOpenPerUserNotInductive()
    ensures var rows := [Presence(1, "u", Some(100), None, 0), Presence(1, "u", Some(200), Some(250), 0)];
      OneOpenPerUser(rows) && StartsAtMost(rows, 300) && !OneOpenPerUser(Observe(rows, 1, "u", "Away", 300))
  {
    var rows := [Presence(1, "u", Some(100), None, 0), Presence(1, "u", Some(200), Some(250), 0)];
    LastIndexUnique(rows, "u", 1);
    var r := Observe(rows, 1, "u", "Away", 300);
    assert r[0].end.None? && r[2].end.None? && r[0].user == r[2].user;
  }

  /**
   * Round trip: a user with no open interval who goes away at `t1` and comes back at
   * `t2` leaves exactly one new closed interval [t1, t2] of truncated length, and no
   * open interval.
   */
  lemma AwayThenAvailable(rows: seq<Presence>, session: nat, u: UserId, away: string, back: string, t1: Time, t2: Time)
    requires IsUnavailableLabel(away) && !IsUnavailableLabel(back)
    requires forall i :: 0 <= i < |rows| && rows[i].user == u ==> rows[i].end.Some?
    requires StartsAtMost(rows, t1)
    ensures Observe(Observe(rows, session, u, away, t1), session, u, back, t2)
      == rows + [Presence(session, u, Some(t1), Some(t2), TruncSeconds(t2 - t1))]
  {
    var n := |rows|;
    var r1 := Observe(rows, session, u, away, t1);
    assert r1 == rows + [Presence(session, u, Some(t1), None, 0)] by {
      var k := LastIndex(rows, u);
      assert k.Some? ==> rows[k.value].end.Some?;
    }
    LastIndexUnique(r1, u, n);
    var r2 := Observe(r1, session, u, back, t2);
    assert |r2| == |rows| + 1;
    forall i | 0 <= i <= n ensures r2[i] == (rows + [Presence(session, u, Some(t1), Some(t2), TruncSeconds(t2 - t1))])[i] {
      if i < n { assert r1[i] == rows[i]; }
    }
  }

  // ----------------------------------------------------------- batches

  /** One entry of the presence response, with the clock reading `datetime.now()` gives while handling it. */
  datatype Sample = Sample(user: UserId, availability: string, clock: Time)

  /** One iteration of the polling loop: the clock reading of the loop test and the response. */
  datatype Poll = Poll(clock: Time, samples: seq<Sample>)

  /** Why a step raised: `get_user` found no row, the address has no severity, or a start was NULL. */
  datatype Failure = UnknownUser(id: UserId) | UnknownSeverity(mail: string) | MissingStart(user: UserId)

  /** main.py:428: the presence notification for a long absence. */
  datatype Alert = Alert(displayName: string, seconds: int, start: Time, end: Time)

  /**
   * main.py:426-428: the notification sent when an absence closes, for a user of high
   * enough severity whose absence, truncated to seconds, exceeded an hour.
   */
  function AbsenceAlert(user: User, severity: nat, start: Time, end: Time): (r: seq<Alert>)
    ensures r != [] <==> severity >= Params.AlertSeverity && TruncSeconds(end - start) > 3600
    ensures r != [] ==> r == [Alert(user.displayName, TruncSeconds(end - start), start, end)]
  {
    if severity >= Params.AlertSeverity && Params.LongAbsence(TruncSeconds(end - start))
    then [Alert(user.displayName, TruncSeconds(end - start), start, end)] else []
  }

  datatype Step = Step(rows: seq<Presence>, failure: Option<Failure>, alerts: seq<Alert>)

  /** main.py:401: the first poll uses `dt_initial`, later polls the current time. */
  function SampleTime(s: Sample, dtInitial: Option<Time>): Time
  {
    if dtInitial.Some? then dtInitial.value else s.clock
  }

  /** `_track_individual_user` in full: its lookups, its table update and its notification. */
  function TrackSample(users: seq<User>, severity: map<string, nat>, rows: seq<Presence>, session: nat, s: Sample, dtInitial: Option<Time>): Step
  {
    match GetUser(users, s.user)
    case None => Step(rows, Some(UnknownUser(s.user)), [])
    case Some(user) =>
      if user.mail !in severity then Step(rows, Some(UnknownSeverity(user.mail)), [])
      else
        var t := SampleTime(s, dtInitial);
        var closing := if IsUnavailableLabel(s.availability) then None else ClosingInterval(rows, s.user);
        var alerts := if closing.Some? then AbsenceAlert(user, severity[user.mail], closing.value, t) else [];
        Step(Observe(rows, session, s.user, s.availability, t), None, alerts)
  }

  /** `_track_user_presence_async`: the samples in order; a raise stops the batch. */
  function TrackBatch(users: seq<User>, severity: map<string, nat>, rows: seq<Presence>, session: nat, samples: seq<Sample>, dtInitial: Option<Time>): Step
    decreases |samples|
  {
    if samples == [] then Step(rows, None, [])
    else
      var st := TrackSample(users, severity, rows, session, samples[0], dtInitial);
      if st.failure.Some? then st
      else
        var rest := TrackBatch(users, severity, st.rows, session, samples[1..], dtInitial);
        Step(rest.rows, rest.failure, st.alerts + rest.alerts)
  }

  /**
   * `_track_until_scheduled_end_time_async`: polls while the loop clock is before
   * `endDt`; the first uses `dt_initial`, later ones `None`. When the process is
   * stopped while polling, the list ends at the stop, its last poll holding only the
   * samples handled before it (`Tracker.PresenceTracker.RunSession` then skips the
   * close-out and the report).
   */
  function TrackPolls(users: seq<User>, severity: map<string, nat>, rows: seq<Presence>, session: nat, polls: seq<Poll>, endDt: Time, dtInitial: Option<Time>): Step
    decreases |polls|
  {
    if polls == [] || polls[0].clock >= endDt then Step(rows, None, [])
    else
      var st := TrackBatch(users, severity, rows, session, polls[0].samples, dtInitial);
      if st.failure.Some? then st
      else
        var rest := TrackPolls(users, severity, st.rows, session, polls[1..], endDt, None);
        Step(rest.rows, rest.failure, st.alerts + rest.alerts)
  }

  function UsedTimes(samples: seq<Sample>, dtInitial: Option<Time>): (r: seq<Time>)
    ensures |r| == |samples| && forall k :: 0 <= k < |samples| ==> r[k] == SampleTime(samples[k], dtInitial)
  {
    seq(|samples|, k requires 0 <= k < |samples| => SampleTime(samples[k], dtInitial))
  }

  /** Every time the polls would stamp, in order. */
  function PollTimes(polls: seq<Poll>, dtInitial: Option<Time>): seq<Time>
  {
    if polls == [] then [] else UsedTimes(polls[0].samples, dtInitial) + PollTimes(polls[1..], None)
  }

  ghost predicate NonDecreasing(s: seq<Time>)
  {
    forall i, j :: 0 <= i < j < |s| ==> s[i] <= s[j]
  }

  function LastTime(t: Time, s: seq<Time>): Time
  {
    if s == [] then t else s[|s| - 1]
  }

  lemma StartsAtMostWeaken(rows: seq<Presence>, t: Time, t': Time)
    requires StartsAtMost(rows, t) && t <= t'
    ensures StartsAtMost(rows, t')
  {
  }

  /** The first step of a non-decreasing run of times that starts at `t`. */
  lemma NonDecreasingCons(t: Time, s: seq<Time>)
    requires NonDecreasing([t] + s) && s != []
    ensures t <= s[0] && s[0] <= LastTime(t, s)
    ensures NonDecreasing([s[0]] + s[1..]) && LastTime(s[0], s[1..]) == LastTime(t, s)
  {
    var all := [t] + s;
    assert all[0] == t && all[1] == s[0] && all[|all| - 1] == s[|s| - 1];
    assert [s[0]] + s[1..] == all[1..];
  }

  /** A non-decreasing run from `t` splits after `a`, the second half starting at the end of the first. */
  lemma NonDecreasingSplit(t: Time, a: seq<Time>, b: seq<Time>)
    requires NonDecreasing([t] + (a + b))
    ensures NonDecreasing([t] + a) && NonDecreasing([LastTime(t, a)] + b)
  {
    var all := [t] + (a + b);
    assert [t] + a == all[..1 + |a|];
    assert all[|a|] == LastTime(t, a);
    assert [LastTime(t, a)] + b == all[|a|..];
  }

  lemma {:induction false} TrackBatchPreservesInvariant(users: seq<User>, severity: map<string, nat>, rows: seq<Presence>, session: nat, samples: seq<Sample>, dtInitial: Option<Time>, t: Time)
    requires OpenIsLatest(rows) && StartsAtMost(rows, t)
    requires NonDecreasing([t] + UsedTimes(samples, dtInitial))
    ensures OpenIsLatest(TrackBatch(users, severity, rows, session, samples, dtInitial).rows)
    ensures StartsAtMost(TrackBatch(users, severity, rows, session, samples, dtInitial).rows, LastTime(t, UsedTimes(samples, dtInitial)))
    decreases |samples|
  {
    if samples != [] {
      var used := UsedTimes(samples, dtInitial);
      var tau := SampleTime(samples[0], dtInitial);
      var tail := UsedTimes(samples[1..], dtInitial);
      assert used[0] == tau && used[1..] == tail;
      NonDecreasingCons(t, used);
      StartsAtMostWeaken(rows, t, tau);
      var st := TrackSample(users, severity, rows, session, samples[0], dtInitial);
      if st.failure.None? {
        ObservePreservesInvariant(rows, session, samples[0].user, samples[0].availability, tau);
        TrackBatchPreservesInvariant(users, severity, st.rows, session, samples[1..], dtInitial, tau);
      } else {
        StartsAtMostWeaken(rows, tau, LastTime(t, used));
      }
    }
  }

  /**
   * Over a whole tracking run, with a clock that never runs backwards, every open
   * interval stays its user's latest row, so no user gets a second open interval.
   */
  lemma {:induction false} TrackPollsPreservesInvariant(users: seq<User>, severity: map<string, nat>, rows: seq<Presence>, session: nat, polls: seq<Poll>, endDt: Time, dtInitial: Option<Time>, t: Time)
    requires OpenIsLatest(rows) && StartsAtMost(rows, t)
    requires NonDecreasing([t] + PollTimes(polls, dtInitial))
    ensures OpenIsLatest(TrackPolls(users, severity, rows, session, polls, endDt, dtInitial).rows)
    ensures OneOpenPerUser(TrackPolls(users, severity, rows, session, polls, endDt, dtInitial).rows)
    decreases |polls|
  {
    if polls != [] && polls[0].clock < endDt {
      var times := UsedTimes(polls[0].samples, dtInitial);
      var restTimes := PollTimes(polls[1..], None);
      NonDecreasingSplit(t, times, restTimes);
      TrackBatchPreservesInvariant(users, severity, rows, session, polls[0].samples, dtInitial, t);
      var st := TrackBatch(users, severity, rows, session, polls[0].samples, dtInitial);
      if st.failure.None? {
        TrackPollsPreservesInvariant(users, severity, st.rows, session, polls[1..], endDt, None, LastTime(t, times));
      }
    }
    OpenIsLatestGivesOneOpen(TrackPolls(users, severity, rows, session, polls, endDt, dtInitial).rows);
  }

  /**
   * The first poll anchors to `dt_initial`: a known user reported away who has no open
   * interval gets one starting at `dt_initial`, whatever the clock says.
   */
  lemma FirstPollUsesInitialTime(users: seq<User>, severity: map<string, nat>, rows: seq<Presence>, session: nat, s: Sample, t0: Time)
    requires GetUser(users, s.user).Some? && GetUser(users, s.user).value.mail in severity
    requires IsUnavailableLabel(s.availability)
    requires forall i :: 0 <= i < |rows| && rows[i].user == s.user ==> rows[i].end.Some?
    ensures TrackSample(users, severity, rows, session, s, Some(t0)).rows == rows + [Presence(session, s.user, Some(t0), None, 0)]
  {
    var k := LastIndex(rows, s.user);
    assert k.Some? ==> rows[k.value].end.Some?;
  }

  // ---------------------------------------------------- end of schedule

  /**
   * One pass of the loop of `_end_of_scheduled_time_cleanup` (main.py:373-378): if the
   * user's latest row is open, all of the user's open rows are closed at `endDt` with the
   * truncated length; a NULL start there makes the subtraction raise.
   */
  function CloseOutUser(rows: seq<Presence>, u: UserId, endDt: Time): Step
  {
    var last := LastPresence(rows, u);
    if last.None? || last.value.end.Some? then Step(rows, None, [])
    else if last.value.start.None? then Step(rows, Some(MissingStart(u)), [])
    else Step(CloseOpen(rows, u, endDt, TruncSeconds(endDt - last.value.start.value)), None, [])
  }

  /**
   * `_end_of_scheduled_time_cleanup` (main.py:371-378): the tracked users in order, as a
   * fold from the left; the first raise stops the loop.
   */
  function EndOfSchedule(rows: seq<Presence>, users: seq<User>, endDt: Time): Step
    decreases |users|
  {
    if users == [] then Step(rows, None, [])
    else
      var st := EndOfSchedule(rows, users[..|users| - 1], endDt);
      if st.failure.Some? then st else CloseOutUser(st.rows, users[|users| - 1].id, endDt)
  }

  /** Extending the processed prefix by one user runs that user's close-out. */
  lemma EndOfScheduleSnoc(rows: seq<Presence>, users: seq<User>, k: nat, endDt: Time)
    requires k < |users| && EndOfSchedule(rows, users[..k], endDt).failure.None?
    ensures EndOfSchedule(rows, users[..k + 1], endDt) == CloseOutUser(EndOfSchedule(rows, users[..k], endDt).rows, users[k].id, endDt)
  {
    var pre := users[..k + 1];
    assert pre[..|pre| - 1] == users[..k] && pre[|pre| - 1] == users[k];
  }

  /** A raise after the first `k` users is the result of the whole close-out. */
  lemma {:induction false} EndOfScheduleStops(rows: seq<Presence>, users: seq<User>, k: nat, endDt: Time)
    requires k <= |users| && EndOfSchedule(rows, users[..k], endDt).failure.Some?
    ensures EndOfSchedule(rows, users, endDt) == EndOfSchedule(rows, users[..k], endDt)
    decreases |users|
  {
    if k < |users| {
      var init := users[..|users| - 1];
      assert init[..k] == users[..k];
      EndOfScheduleStops(rows, init, k, endDt);
    } else {
      assert users[..k] == users;
    }
  }

  ghost predicate SameKeys(rows: seq<Presence>, rows': seq<Presence>)
  {
    |rows'| == |rows| &&
    forall i :: 0 <= i < |rows| ==> rows'[i].session == rows[i].session && rows'[i].user == rows[i].user && rows'[i].start == rows[i].start
  }

  /** One close-out step: closing the latest open interval keeps the invariant and touches only that row. */
  lemma EndOfScheduleStep(rows: seq<Presence>, u: UserId, endDt: Time, k: nat)
    requires OpenIsLatest(rows) && LastIndex(rows, u) == Some(k) && rows[k].start.Some? && rows[k].end.None?
    ensures var c := CloseOpen(rows, u, endDt, TruncSeconds(endDt - rows[k].start.value));
      SameKeys(rows, c) && OpenIsLatest(c) &&
      (forall i :: 0 <= i < |rows| && i != k ==> c[i] == rows[i]) &&
      c[k] == rows[k].(end := Some(endDt), duration := TruncSeconds(endDt - rows[k].start.value)) &&
      (forall i :: 0 <= i < |rows| && rows[i].user == u ==> c[i].end.Some?)
  {
    var c := CloseOpen(rows, u, endDt, TruncSeconds(endDt - rows[k].start.value));
    forall i | 0 <= i < |rows| && rows[i].user == u && rows[i].end.None? ensures i == k {
      OpenRowIsLast(rows, i);
    }
    forall i, j | 0 <= i < |c| && 0 <= j < |c| && i != j && c[i].user == c[j].user && c[i].end.None?
      ensures c[j].end.Some? && Earlier(c[j].start, j, c[i].start, i)
    {
      assert rows[i].end.None?;
    }
  }

  /** The close-out on a user with no open latest row changes nothing for that user. */
  lemma NoOpenRow(rows: seq<Presence>, u: UserId)
    requires OpenIsLatest(rows)
    requires LastPresence(rows, u).None? || LastPresence(rows, u).value.end.Some?
    ensures forall i :: 0 <= i < |rows| && rows[i].user == u ==> rows[i].end.Some?
  {
    forall i | 0 <= i < |rows| && rows[i].user == u ensures rows[i].end.Some? {
      if rows[i].end.None? { OpenRowIsLast(rows, i); }
    }
  }

  lemma UserIdsSnoc(users: seq<User>)
    requires users != []
    ensures forall x :: x in UserIds(users) <==> x == users[|users| - 1].id || x in UserIds(users[..|users| - 1])
  {
    assert UserIds(users) == UserIds(users[..|users| - 1]) + [users[|users| - 1].id];
  }

  /** `r` is `rows` with some open intervals that have a start closed at `endDt` with their own truncated length. */
  ghost predicate ClosesAt(rows: seq<Presence>, r: seq<Presence>, endDt: Time)
  {
    SameKeys(rows, r) &&
    forall i :: 0 <= i < |rows| ==>
      (r[i] == rows[i] ||
       (rows[i].start.Some? && rows[i].end.None? &&
        r[i] == rows[i].(end := Some(endDt), duration := TruncSeconds(endDt - rows[i].start.value))))
  }

  lemma ClosesAtTrans(rows: seq<Presence>, c: seq<Presence>, r: seq<Presence>, endDt: Time)
    requires ClosesAt(rows, c, endDt) && ClosesAt(c, r, endDt)
    ensures ClosesAt(rows, r, endDt)
  {
    forall i | 0 <= i < |rows|
      ensures r[i] == rows[i] ||
        (rows[i].start.Some? && rows[i].end.None? &&
         r[i] == rows[i].(end := Some(endDt), duration := TruncSeconds(endDt - rows[i].start.value)))
    {
      if c[i] != rows[i] { assert c[i].end.Some?; }
    }
  }

  /**
   * One user's close-out only closes that user's open intervals that have a start, at
   * `endDt`, keeps the invariant, and on success leaves the user with no open interval.
   */
  lemma CloseOutUserFrame(rows: seq<Presence>, u: UserId, endDt: Time)
    requires OpenIsLatest(rows)
    ensures var st := CloseOutUser(rows, u, endDt);
      ClosesAt(rows, st.rows, endDt) && OpenIsLatest(st.rows) &&
      (forall i :: 0 <= i < |rows| && rows[i].user != u ==> st.rows[i] == rows[i]) &&
      (st.failure.None? ==> forall i :: 0 <= i < |rows| && rows[i].user == u ==> st.rows[i].end.Some?)
  {
    var last := LastPresence(rows, u);
    if last.None? || last.value.end.Some? {
      NoOpenRow(rows, u);
    } else if last.value.start.Some? {
      var k := LastIndex(rows, u).value;
      EndOfScheduleStep(rows, u, endDt, k);
    }
  }

  /**
   * The close-out only closes open intervals that have a start, at `endDt` with their
   * own truncated length, never touches an untracked user, and keeps the invariant.
   */
  lemma {:induction false} EndOfScheduleFrame(rows: seq<Presence>, users: seq<User>, endDt: Time)
    requires OpenIsLatest(rows)
    ensures ClosesAt(rows, EndOfSchedule(rows, users, endDt).rows, endDt)
    ensures OpenIsLatest(EndOfSchedule(rows, users, endDt).rows)
    ensures forall i :: 0 <= i < |rows| && rows[i].user !in UserIds(users) ==> EndOfSchedule(rows, users, endDt).rows[i] == rows[i]
    decreases |users|
  {
    if users != [] {
      var init := users[..|users| - 1];
      var u := users[|users| - 1].id;
      var prev := EndOfSchedule(rows, init, endDt);
      EndOfScheduleFrame(rows, init, endDt);
      UserIdsSnoc(users);
      if prev.failure.None? {
        CloseOutUserFrame(prev.rows, u, endDt);
        ClosesAtTrans(rows, prev.rows, CloseOutUser(prev.rows, u, endDt).rows, endDt);
      }
    }
  }

  /** On success the close-out leaves no tracked user with an open interval. */
  lemma {:induction false} EndOfScheduleClosesTracked(rows: seq<Presence>, users: seq<User>, endDt: Time)
    requires OpenIsLatest(rows)
    ensures |EndOfSchedule(rows, users, endDt).rows| == |rows|
    ensures EndOfSchedule(rows, users, endDt).failure.None? ==>
      forall i :: 0 <= i < |rows| && rows[i].user in UserIds(users) ==> EndOfSchedule(rows, users, endDt).rows[i].end.Some?
    decreases |users|
  {
    EndOfScheduleFrame(rows, users, endDt);
    if users != [] {
      var init := users[..|users| - 1];
      var u := users[|users| - 1].id;
      var prev := EndOfSchedule(rows, init, endDt);
      EndOfScheduleClosesTracked(rows, init, endDt);
      EndOfScheduleFrame(rows, init, endDt);
      UserIdsSnoc(users);
      if prev.failure.None? {
        var st := CloseOutUser(prev.rows, u, endDt);
        CloseOutUserFrame(prev.rows, u, endDt);
        if st.failure.None? {
          forall i | 0 <= i < |rows| && rows[i].user in UserIds(users) ensures st.rows[i].end.Some? {
            assert prev.rows[i].user == rows[i].user;
            if rows[i].user != u {
              assert st.rows[i] == prev.rows[i];
            }
          }
        }
      }
    }
  }
}
