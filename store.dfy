/**
 * The interval store: the user, session and presence tables of main.py:109-136 as
 * in-memory sequences (table order = insertion order), and the meaning of every
 * query and update the repository runs on them (main.py:183-271).
 */
module IntervalStore {
  import opened Wrappers
  import opened Clock
  import Text

  type UserId = string

  datatype User = User(id: UserId, mail: string, displayName: string, jobTitle: Option<string>)

  datatype Session = Session(id: nat, start: Time, end: Option<Time>)

  /** One unavailability interval; `end == None` is an open interval. */
  datatype Presence = Presence(session: nat, user: UserId, start: Option<Time>, end: Option<Time>, duration: int)

  // ---------------------------------------------------------------- users

  function IndexOfId(users: seq<User>, id: UserId): (r: Option<nat>)
    ensures r.Some? ==> r.value < |users| && users[r.value].id == id
    ensures r.Some? ==> forall j :: 0 <= j < r.value ==> users[j].id != id
    ensures r.None? <==> forall j :: 0 <= j < |users| ==> users[j].id != id
  {
    if users == [] then None
    else if users[0].id == id then Some(0)
    else match IndexOfId(users[1..], id)
      case None => None
      case Some(k) => Some(k + 1)
  }

  /** `get_user`: the row with that id, if any. */
  function GetUser(users: seq<User>, id: UserId): (r: Option<User>)
    ensures r.Some? ==> r.value in users && r.value.id == id
    ensures r.None? <==> forall j :: 0 <= j < |users| ==> users[j].id != id
  {
    match IndexOfId(users, id)
    case None => None
    case Some(i) => Some(users[i])
  }

  ghost predicate UniqueKeys(users: seq<User>)
  {
    forall i, j :: 0 <= i < j < |users| ==> users[i].id != users[j].id && users[i].mail != users[j].mail
  }

  predicate HasMail(users: seq<User>, mail: string)
  {
    exists j :: 0 <= j < |users| && users[j].mail == mail
  }

  /**
   * `add_user` (main.py:194-206): `get_or_create` by id. A new user is stored with its
   * address lower-cased; creating a second user with an address already stored
   * violates the UNIQUE constraint on `mail` (None). An existing user keeps id and
   * address and has display name and title refreshed.
   */
  function AddUser(users: seq<User>, id: UserId, mail: string, name: string, title: Option<string>): (r: Option<seq<User>>)
  {
    match IndexOfId(users, id)
    case Some(i) =>
      if users[i].displayName != name || users[i].jobTitle != title
      then Some(users[i := users[i].(displayName := name, jobTitle := title)])
      else Some(users)
    case None =>
      if HasMail(users, Text.Lower(mail)) then None
      else Some(users + [User(id, Text.Lower(mail), name, title)])
  }

  /** The upsert keeps ids and addresses unique, and afterwards the id names exactly the given details. */
  lemma AddUserUpserts(users: seq<User>, id: UserId, mail: string, name: string, title: Option<string>)
    requires UniqueKeys(users)
    ensures AddUser(users, id, mail, name, title).None? <==> IndexOfId(users, id).None? && HasMail(users, Text.Lower(mail))
    ensures AddUser(users, id, mail, name, title).Some? ==>
      var rs := AddUser(users, id, mail, name, title).value;
      UniqueKeys(rs) &&
      GetUser(rs, id) == Some(User(id, if IndexOfId(users, id).Some? then users[IndexOfId(users, id).value].mail else Text.Lower(mail), name, title)) &&
      forall j :: 0 <= j < |users| && users[j].id != id ==> users[j] in rs
  {
    match IndexOfId(users, id)
    case Some(i) => AddUserExisting(users, id, mail, name, title, i);
    case None =>
      if !HasMail(users, Text.Lower(mail)) {
        AddUserCreated(users, id, mail, name, title);
      }
  }

  lemma AddUserExisting(users: seq<User>, id: UserId, mail: string, name: string, title: Option<string>, i: nat)
    requires UniqueKeys(users) && IndexOfId(users, id) == Some(i)
    ensures AddUser(users, id, mail, name, title).Some?
    ensures var rs := AddUser(users, id, mail, name, title).value;
      |rs| == |users| && rs[i] == User(id, users[i].mail, name, title) &&
      forall j :: 0 <= j < |users| && j != i ==> rs[j] == users[j]
    ensures var rs := AddUser(users, id, mail, name, title).value;
      UniqueKeys(rs) && GetUser(rs, id) == Some(User(id, users[i].mail, name, title)) &&
      forall j :: 0 <= j < |users| && users[j].id != id ==> users[j] in rs
  {
    var rs := AddUser(users, id, mail, name, title).value;
    assert |rs| == |users|;
    assert forall j :: 0 <= j < |users| && j != i ==> rs[j] == users[j];
    assert rs[i] == User(id, users[i].mail, name, title);
    assert forall j :: i < j < |users| ==> users[j].id != id;
  }

  lemma AddUserCreated(users: seq<User>, id: UserId, mail: string, name: string, title: Option<string>)
    requires UniqueKeys(users) && IndexOfId(users, id).None? && !HasMail(users, Text.Lower(mail))
    ensures AddUser(users, id, mail, name, title) == Some(users + [User(id, Text.Lower(mail), name, title)])
    ensures UniqueKeys(users + [User(id, Text.Lower(mail), name, title)])
    ensures GetUser(users + [User(id, Text.Lower(mail), name, title)], id) == Some(User(id, Text.Lower(mail), name, title))
  {
    var x := User(id, Text.Lower(mail), name, title);
    var rs := users + [x];
    forall i, j | 0 <= i < j < |rs| ensures rs[i].id != rs[j].id && rs[i].mail != rs[j].mail {
      assert rs[i] == users[i];
      if j < |users| {
        assert rs[j] == users[j];
      } else {
        assert rs[j] == x;
      }
    }
    assert rs[|users|] == x;
  }

  /** `get_users_by_emails`: the users whose stored address is in the list, in table order. */
  function UsersByEmails(users: seq<User>, emails: seq<string>): (r: seq<User>)
    ensures forall x :: x in r <==> x in users && x.mail in emails
    ensures |r| <= |users|
  {
    if users == [] then []
    else (if users[0].mail in emails then [users[0]] else []) + UsersByEmails(users[1..], emails)
  }

  function UserIds(users: seq<User>): (r: seq<UserId>)
    ensures |r| == |users| && forall i :: 0 <= i < |users| ==> r[i] == users[i].id
  {
    seq(|users|, i requires 0 <= i < |users| => users[i].id)
  }

  // ------------------------------------------------------------- sessions

  function MaxSessionId(sessions: seq<Session>): (m: nat)
    ensures forall i :: 0 <= i < |sessions| ==> sessions[i].id <= m
  {
    if sessions == [] then 0
    else var m := MaxSessionId(sessions[1..]);
      if sessions[0].id > m then sessions[0].id else m
  }

  /** The id SQLite gives the next session row: one past the largest in use. */
  function NextSessionId(sessions: seq<Session>): (id: nat)
    ensures id > 0 && forall i :: 0 <= i < |sessions| ==> sessions[i].id != id
  {
    MaxSessionId(sessions) + 1
  }

  /** `session.end_time = now; session.save()`: restamps the row with that id. */
  function SetSessionEnd(sessions: seq<Session>, id: nat, now: Time): (r: seq<Session>)
    ensures |r| == |sessions|
    ensures forall i :: 0 <= i < |sessions| ==> r[i].id == sessions[i].id && r[i].start == sessions[i].start
    ensures forall i :: 0 <= i < |sessions| ==> r[i].end == if sessions[i].id == id then Some(now) else sessions[i].end
  {
    seq(|sessions|, i requires 0 <= i < |sessions| =>
      if sessions[i].id == id then sessions[i].(end := Some(now)) else sessions[i])
  }

  // ------------------------------------------------------- latest interval

  /** SQL order on a nullable timestamp: NULL sorts below every time. */
  predicate StartLt(a: Option<Time>, b: Option<Time>)
  {
    b.Some? && (a.None? || a.value < b.value)
  }

  /**
   * Row `i` (start `a`) comes before row `j` (start `b`) in `ORDER BY start_time`;
   * equal starts are ordered by position, so the later-inserted row counts as latest.
   */
  predicate Earlier(a: Option<Time>, i: int, b: Option<Time>, j: int)
  {
    StartLt(a, b) || (a == b && i < j)
  }

  /** Position of the row `get_last_presence` returns: the user's row with the latest start. */
  function LastIndex(rows: seq<Presence>, u: UserId): (r: Option<nat>)
    ensures r.Some? ==> r.value < |rows| && rows[r.value].user == u
    decreases |rows|
  {
    if |rows| == 0 then None
    else
      var n := |rows| - 1;
      var prev := LastIndex(rows[..n], u);
      if rows[n].user != u then prev
      else if prev.None? || !StartLt(rows[n].start, rows[prev.value].start) then Some(n)
      else prev
  }

  /**
   * The position found is the user's latest row: there is none exactly when the user
   * has no row, and every other row of the user comes before it.
   */
  lemma {:induction false} LastIndexIsLatest(rows: seq<Presence>, u: UserId)
    ensures LastIndex(rows, u).None? <==> forall j :: 0 <= j < |rows| ==> rows[j].user != u
    ensures LastIndex(rows, u).Some? ==> forall j :: 0 <= j < |rows| && j != LastIndex(rows, u).value && rows[j].user == u ==>
      Earlier(rows[j].start, j, rows[LastIndex(rows, u).value].start, LastIndex(rows, u).value)
    decreases |rows|
  {
    if |rows| > 0 {
      var n := |rows| - 1;
      LastIndexIsLatest(rows[..n], u);
      assert forall j :: 0 <= j < n ==> rows[..n][j] == rows[j];
    }
  }

  /** `get_last_presence` (main.py:213-217): None when the user has no interval. */
  function LastPresence(rows: seq<Presence>, u: UserId): (r: Option<Presence>)
    ensures r.Some? ==> r.value.user == u
  {
    match LastIndex(rows, u)
    case None => None
    case Some(i) => Some(rows[i])
  }

  /** The row returned is one of the user's rows, with no start of the user's rows after its own. */
  lemma LastPresenceIsLatest(rows: seq<Presence>, u: UserId)
    ensures LastPresence(rows, u).None? <==> forall j :: 0 <= j < |rows| ==> rows[j].user != u
    ensures LastPresence(rows, u).Some? ==> LastPresence(rows, u).value in rows
    ensures LastPresence(rows, u).Some? ==>
      forall j :: 0 <= j < |rows| && rows[j].user == u ==> !StartLt(LastPresence(rows, u).value.start, rows[j].start)
  {
    LastIndexIsLatest(rows, u);
  }

  /** A row every other row of its user comes before is the one `get_last_presence` picks. */
  lemma LastIndexUnique(rows: seq<Presence>, u: UserId, i: nat)
    requires i < |rows| && rows[i].user == u
    requires forall j :: 0 <= j < |rows| && j != i && rows[j].user == u ==> Earlier(rows[j].start, j, rows[i].start, i)
    ensures LastIndex(rows, u) == Some(i)
  {
    var k := LastIndex(rows, u);
    LastIndexIsLatest(rows, u);
    if k != Some(i) {
      assert false;
    }
  }

  /** Appending a row of another user leaves a user's latest row where it was. */
  lemma LastIndexAppendOther(rows: seq<Presence>, p: Presence, u: UserId)
    requires p.user != u
    ensures LastIndex(rows + [p], u) == LastIndex(rows, u)
  {
    assert (rows + [p])[..|rows|] == rows;
  }

  /** The latest row depends only on users and starts. */
  lemma {:induction false} LastIndexSameKeys(rows: seq<Presence>, rows': seq<Presence>, u: UserId)
    requires |rows| == |rows'|
    requires forall i :: 0 <= i < |rows| ==> rows'[i].user == rows[i].user && rows'[i].start == rows[i].start
    ensures LastIndex(rows', u) == LastIndex(rows, u)
    decreases |rows|
  {
    if |rows| > 0 {
      LastIndexSameKeys(rows[..|rows| - 1], rows'[..|rows| - 1], u);
    }
  }

  // ------------------------------------------------------- closing intervals

  /**
   * `update_presence_end_time_and_duration` (main.py:220-224): every row of the user
   * with a NULL end gets the end time and duration; nothing else changes.
   */
  function CloseOpen(rows: seq<Presence>, u: UserId, end: Time, duration: int): (r: seq<Presence>)
    ensures |r| == |rows|
  {
    seq(|rows|, i requires 0 <= i < |rows| =>
      if rows[i].user == u && rows[i].end.None? then rows[i].(end := Some(end), duration := duration) else rows[i])
  }

  /**
   * Keys are kept, rows of other users and closed rows are untouched, and every open row
   * of the user gets the end and duration, so the user has no open row left.
   */
  lemma CloseOpenMeaning(rows: seq<Presence>, u: UserId, end: Time, duration: int)
    ensures var r := CloseOpen(rows, u, end, duration);
      (forall i :: 0 <= i < |rows| ==>
        r[i].session == rows[i].session && r[i].user == rows[i].user && r[i].start == rows[i].start) &&
      (forall i :: 0 <= i < |rows| && (rows[i].user != u || rows[i].end.Some?) ==> r[i] == rows[i]) &&
      (forall i :: 0 <= i < |rows| && rows[i].user == u && rows[i].end.None? ==>
        r[i].end == Some(end) && r[i].duration == duration) &&
      (forall i :: 0 <= i < |rows| && rows[i].user == u ==> r[i].end.Some?)
  {
  }

  // ------------------------------------------------------ the invariant

  /** The plain form: no user has two intervals with a NULL end. */
  ghost predicate OneOpenPerUser(rows: seq<Presence>)
  {
    forall i, j :: 0 <= i < j < |rows| && rows[i].user == rows[j].user ==> rows[i].end.Some? || rows[j].end.Some?
  }

  /**
   * The inductive form: an open interval is its user's latest row, so every other row
   * of that user is closed and comes before it.
   */
  ghost predicate OpenIsLatest(rows: seq<Presence>)
  {
    forall i, j :: 0 <= i < |rows| && 0 <= j < |rows| && i != j && rows[i].user == rows[j].user && rows[i].end.None? ==>
      rows[j].end.Some? && Earlier(rows[j].start, j, rows[i].start, i)
  }

  lemma OpenIsLatestGivesOneOpen(rows: seq<Presence>)
    requires OpenIsLatest(rows)
    ensures OneOpenPerUser(rows)
  {
  }

  /** Under the invariant, an open interval is the one `get_last_presence` returns. */
  lemma OpenRowIsLast(rows: seq<Presence>, i: nat)
    requires OpenIsLatest(rows) && i < |rows| && rows[i].end.None?
    ensures LastIndex(rows, rows[i].user) == Some(i)
  {
    LastIndexUnique(rows, rows[i].user, i);
  }

  /** No time in the table lies after `t`: the clock never runs backwards. */
  ghost predicate StartsAtMost(rows: seq<Presence>, t: Time)
  {
    forall i :: 0 <= i < |rows| && rows[i].start.Some? ==> rows[i].start.value <= t
  }

  // ------------------------------------------------------------- cleanup

  function NullStartCount(rows: seq<Presence>): nat
  {
    if rows == [] then 0 else (if rows[0].start.None? then 1 else 0) + NullStartCount(rows[1..])
  }

  /** `delete_invalid_presence_records` (main.py:242-243): drops exactly the rows with a NULL start. */
  function DeleteInvalid(rows: seq<Presence>): (r: seq<Presence>)
    ensures forall p :: p in r <==> p in rows && p.start.Some?
    ensures |r| == |rows| - NullStartCount(rows)
  {
    if rows == [] then []
    else (if rows[0].start.Some? then [rows[0]] else []) + DeleteInvalid(rows[1..])
  }

  /** Every row with a start is kept as often as it occurs, and no row without one. */
  lemma {:induction false} DeleteInvalidKeepsCounts(rows: seq<Presence>)
    ensures forall p :: multiset(DeleteInvalid(rows))[p] == if p.start.Some? then multiset(rows)[p] else 0
  {
    if rows != [] {
      DeleteInvalidKeepsCounts(rows[1..]);
      assert rows == [rows[0]] + rows[1..];
    }
  }

  function CloseOutRow(p: Presence, now: Time): Presence
  {
    if p.start.Some? && p.end.None? then p.(end := Some(now), duration := RoundSeconds(now - p.start.value)) else p
  }

  /** Rows with a start and a NULL end: what the close-out query updates. */
  function IncompleteCount(rows: seq<Presence>): nat
  {
    if rows == [] then 0 else (if rows[0].start.Some? && rows[0].end.None? then 1 else 0) + IncompleteCount(rows[1..])
  }

  /**
   * `close_out_incomplete_presence_records` (main.py:246-254): every row with a start and
   * a NULL end is closed at `now` with the rounded length in seconds.
   */
  function CloseOutIncomplete(rows: seq<Presence>, now: Time): (r: seq<Presence>)
    ensures |r| == |rows|
    ensures forall i :: 0 <= i < |rows| ==>
      r[i].session == rows[i].session && r[i].user == rows[i].user && r[i].start == rows[i].start
    ensures forall i :: 0 <= i < |rows| && (rows[i].start.None? || rows[i].end.Some?) ==> r[i] == rows[i]
    ensures forall i :: 0 <= i < |rows| && rows[i].start.Some? && rows[i].end.None? ==>
      r[i].end == Some(now) && r[i].duration == RoundSeconds(now - rows[i].start.value)
    ensures forall i :: 0 <= i < |rows| && rows[i].start.Some? ==> r[i].end.Some?
  {
    seq(|rows|, i requires 0 <= i < |rows| => CloseOutRow(rows[i], now))
  }

  datatype CleanupResult = CleanupResult(rows: seq<Presence>, deleted: nat, updated: nat)

  /** The two repository steps of `cleanup_async` (main.py:438-439), with their row counts. */
  function Cleanup(rows: seq<Presence>, now: Time): CleanupResult
  {
    var kept := DeleteInvalid(rows);
    CleanupResult(CloseOutIncomplete(kept, now), NullStartCount(rows), IncompleteCount(kept))
  }

  lemma {:induction false} NoIncomplete(rows: seq<Presence>)
    requires forall p :: p in rows ==> p.end.Some?
    ensures IncompleteCount(rows) == 0
  {
    if rows != [] {
      assert rows[0] in rows;
      assert forall p :: p in rows[1..] ==> p in rows;
      NoIncomplete(rows[1..]);
    }
  }

  lemma {:induction false} NoNullStart(rows: seq<Presence>)
    requires forall p :: p in rows ==> p.start.Some?
    ensures NullStartCount(rows) == 0 && DeleteInvalid(rows) == rows
  {
    if rows != [] {
      var t := rows[1..];
      assert rows[0] in rows;
      forall p | p in t ensures p.start.Some? {
        var i :| 0 <= i < |t| && t[i] == p;
        assert rows[i + 1] == p;
      }
      NoNullStart(t);
      assert DeleteInvalid(rows) == [rows[0]] + t;
      assert [rows[0]] + t == rows;
    }
  }

  /**
   * After cleanup every row has a start and an end; closed rows are kept as they were;
   * a second cleanup at any later time deletes nothing, updates nothing and changes nothing.
   */
  lemma CleanupIdempotent(rows: seq<Presence>, now: Time, later: Time)
    ensures forall p :: p in Cleanup(rows, now).rows ==> p.start.Some? && p.end.Some?
    ensures forall p :: p in rows && p.start.Some? && p.end.Some? ==> p in Cleanup(rows, now).rows
    ensures Cleanup(Cleanup(rows, now).rows, later) == CleanupResult(Cleanup(rows, now).rows, 0, 0)
  {
    var r := Cleanup(rows, now).rows;
    var kept := DeleteInvalid(rows);
    forall p | p in rows && p.start.Some? && p.end.Some? ensures p in r {
      var i :| 0 <= i < |kept| && kept[i] == p;
      assert r[i] == p;
    }
    NoNullStart(r);
    NoIncomplete(r);
    assert CloseOutIncomplete(r, later) == r;
  }

  // --------------------------------------------------- availability totals

  datatype UserTotal = UserTotal(user: User, total: int)

  /**
   * The row condition of main.py:261: the interval starts in the window
   * (`BETWEEN start_dt AND end_dt`), or its start is NULL.
   */
  predicate JoinKeeps(p: Presence, a: Time, b: Time)
  {
    p.start.None? || a <= p.start.value <= b
  }

  /** `SUM(duration_seconds)` over the user's rows that meet the row condition; 0 if none (COALESCE). */
  function WindowTotal(rows: seq<Presence>, u: UserId, a: Time, b: Time): int
  {
    if rows == [] then 0
    else (if rows[0].user == u && JoinKeeps(rows[0], a, b) then rows[0].duration else 0) + WindowTotal(rows[1..], u, a, b)
  }

  /** The HAVING bound of main.py:265-266: `floor(window seconds) - 5`. */
  function Threshold(a: Time, b: Time): int
  {
    FloorSeconds(b - a) - 5
  }

  function KeepBelow(ts: seq<UserTotal>, limit: int): (r: seq<UserTotal>)
    ensures forall x :: x in r <==> x in ts && x.total < limit
    ensures multiset(r) <= multiset(ts)
  {
    if ts == [] then []
    else
      assert ts == [ts[0]] + ts[1..];
      (if ts[0].total < limit then [ts[0]] else []) + KeepBelow(ts[1..], limit)
  }

  ghost predicate SortedDesc(ts: seq<UserTotal>)
  {
    forall i, j :: 0 <= i < j < |ts| ==> ts[i].total >= ts[j].total
  }

  function InsertDesc(x: UserTotal, ts: seq<UserTotal>): (r: seq<UserTotal>)
    ensures multiset(r) == multiset(ts) + multiset{x}
  {
    if ts == [] then [x]
    else if x.total >= ts[0].total then [x] + ts
    else
      assert ts == [ts[0]] + ts[1..];
      [ts[0]] + InsertDesc(x, ts[1..])
  }

  lemma {:induction false} InsertDescBound(x: UserTotal, ts: seq<UserTotal>, bound: int)
    requires x.total <= bound && forall i :: 0 <= i < |ts| ==> ts[i].total <= bound
    ensures forall i :: 0 <= i < |InsertDesc(x, ts)| ==> InsertDesc(x, ts)[i].total <= bound
  {
    if ts != [] && x.total < ts[0].total {
      InsertDescBound(x, ts[1..], bound);
    }
  }

  lemma {:induction false} InsertDescSorted(x: UserTotal, ts: seq<UserTotal>)
    requires SortedDesc(ts)
    ensures SortedDesc(InsertDesc(x, ts))
  {
    if ts != [] && x.total < ts[0].total {
      var rest := InsertDesc(x, ts[1..]);
      InsertDescSorted(x, ts[1..]);
      InsertDescBound(x, ts[1..], ts[0].total);
      var r := [ts[0]] + rest;
      assert forall i :: 1 <= i < |r| ==> r[i] == rest[i - 1];
    }
  }

  /** `ORDER BY total_seconds DESC`: a permutation of its input, largest total first. */
  function SortDesc(ts: seq<UserTotal>): (r: seq<UserTotal>)
    ensures SortedDesc(r) && multiset(r) == multiset(ts)
  {
    if ts == [] then []
    else
      assert ts == [ts[0]] + ts[1..];
      var rest := SortDesc(ts[1..]);
      InsertDescSorted(ts[0], rest);
      InsertDesc(ts[0], rest)
  }

  /** Per user with a listed address, in table order, the total of `WindowTotal`. */
  function Totals(users: seq<User>, rows: seq<Presence>, mails: seq<string>, a: Time, b: Time): (r: seq<UserTotal>)
    ensures forall x :: x in r <==> x.user in users && x.user.mail in mails && x.total == WindowTotal(rows, x.user.id, a, b)
  {
    if users == [] then []
    else
      (if users[0].mail in mails then [UserTotal(users[0], WindowTotal(rows, users[0].id, a, b))] else [])
      + Totals(users[1..], rows, mails, a, b)
  }

  /**
   * `get_user_availability` as evidently intended, the row condition moved into the ON
   * clause: every listed user, with the total of its rows that start in the window or
   * have a NULL start (0 if none), kept when below the threshold, largest total first.
   */
  function Availability(users: seq<User>, rows: seq<Presence>, mails: seq<string>, a: Time, b: Time): seq<UserTotal>
  {
    SortDesc(KeepBelow(Totals(users, rows, mails, a, b), Threshold(a, b)))
  }

  lemma AvailabilityMeaning(users: seq<User>, rows: seq<Presence>, mails: seq<string>, a: Time, b: Time)
    ensures SortedDesc(Availability(users, rows, mails, a, b))
    ensures forall x :: x in Availability(users, rows, mails, a, b) <==>
      x.user in users && x.user.mail in mails &&
      x.total == WindowTotal(rows, x.user.id, a, b) && x.total < Threshold(a, b)
  {
    var kept := KeepBelow(Totals(users, rows, mails, a, b), Threshold(a, b));
    var r := Availability(users, rows, mails, a, b);
    forall x ensures x in r <==> x in kept {
      assert x in r <==> x in multiset(r);
    }
  }

  /** A listed user with no row that starts in the window or has a NULL start is reported with total 0 when the window is long enough. */
  lemma {:induction false} AvailabilityKeepsIdleUsers(users: seq<User>, rows: seq<Presence>, mails: seq<string>, a: Time, b: Time, user: User)
    requires user in users && user.mail in mails
    requires forall i :: 0 <= i < |rows| ==> !(rows[i].user == user.id && JoinKeeps(rows[i], a, b))
    requires Threshold(a, b) > 0
    ensures UserTotal(user, 0) in Availability(users, rows, mails, a, b)
  {
    WindowTotalOutside(rows, user.id, a, b);
    AvailabilityMeaning(users, rows, mails, a, b);
  }

  lemma {:induction false} WindowTotalOutside(rows: seq<Presence>, u: UserId, a: Time, b: Time)
    requires forall i :: 0 <= i < |rows| ==> !(rows[i].user == u && JoinKeeps(rows[i], a, b))
    ensures WindowTotal(rows, u, a, b) == 0
  {
    if rows != [] {
      assert !(rows[0].user == u && JoinKeeps(rows[0], a, b));
      WindowTotalOutside(rows[1..], u, a, b);
    }
  }

  // ------------------------------------- availability totals, as written

  predicate HasRow(rows: seq<Presence>, u: UserId)
  {
    exists i :: 0 <= i < |rows| && rows[i].user == u
  }

  predicate HasJoinedRow(rows: seq<Presence>, u: UserId, a: Time, b: Time)
  {
    exists i :: 0 <= i < |rows| && rows[i].user == u && JoinKeeps(rows[i], a, b)
  }

  /**
   * The grouping main.py:258-263 performs: the LEFT JOIN yields one NULL row for a user
   * without intervals, which the WHERE keeps; a user whose intervals all start outside
   * the window loses every joined row to the WHERE and forms no group at all.
   */
  function TotalsAsWritten(users: seq<User>, rows: seq<Presence>, mails: seq<string>, a: Time, b: Time): seq<UserTotal>
  {
    if users == [] then []
    else
      var u := users[0];
      (if u.mail in mails && (!HasRow(rows, u.id) || HasJoinedRow(rows, u.id, a, b))
       then [UserTotal(u, WindowTotal(rows, u.id, a, b))] else [])
      + TotalsAsWritten(users[1..], rows, mails, a, b)
  }

  function AvailabilityAsWritten(users: seq<User>, rows: seq<Presence>, mails: seq<string>, a: Time, b: Time): seq<UserTotal>
  {
    SortDesc(KeepBelow(TotalsAsWritten(users, rows, mails, a, b), Threshold(a, b)))
  }

  /** The query as written also reports only listed users. */
  lemma {:induction false} TotalsAsWrittenListed(users: seq<User>, rows: seq<Presence>, mails: seq<string>, a: Time, b: Time)
    ensures forall x :: x in TotalsAsWritten(users, rows, mails, a, b) ==> x.user in users && x.user.mail in mails
    decreases |users|
  {
    if users != [] {
      TotalsAsWrittenListed(users[1..], rows, mails, a, b);
      assert forall x :: x in users[1..] ==> x in users;
    }
  }

  lemma AvailabilityAsWrittenListed(users: seq<User>, rows: seq<Presence>, mails: seq<string>, a: Time, b: Time)
    ensures forall x :: x in AvailabilityAsWritten(users, rows, mails, a, b) ==> x.user in users && x.user.mail in mails
  {
    var t := TotalsAsWritten(users, rows, mails, a, b);
    TotalsAsWrittenListed(users, rows, mails, a, b);
    var k := KeepBelow(t, Threshold(a, b));
    forall x | x in AvailabilityAsWritten(users, rows, mails, a, b) ensures x.user in users && x.user.mail in mails {
      assert x in multiset(SortDesc(k));
      assert x in k;
    }
  }

  /**
   * The two queries agree on the totals and the order of the groups: the query as
   * written lists exactly the listed users the corrected one does, minus those whose
   * joined rows the WHERE removed, with the same total.
   */
  lemma {:induction false} TotalsAsWrittenAgree(users: seq<User>, rows: seq<Presence>, mails: seq<string>, a: Time, b: Time)
    ensures TotalsAsWritten(users, rows, mails, a, b) ==
      Kept(Totals(users, rows, mails, a, b), rows, a, b)
    decreases |users|
  {
    if users != [] {
      TotalsAsWrittenAgree(users[1..], rows, mails, a, b);
      var head := if users[0].mail in mails then [UserTotal(users[0], WindowTotal(rows, users[0].id, a, b))] else [];
      KeptAppend(head, Totals(users[1..], rows, mails, a, b), rows, a, b);
    }
  }

  /** The groups that survive the WHERE of main.py:261: users with no row at all, or a row it keeps. */
  function Kept(ts: seq<UserTotal>, rows: seq<Presence>, a: Time, b: Time): seq<UserTotal>
  {
    if ts == [] then []
    else (if !HasRow(rows, ts[0].user.id) || HasJoinedRow(rows, ts[0].user.id, a, b) then [ts[0]] else [])
         + Kept(ts[1..], rows, a, b)
  }

  lemma {:induction false} KeptAppend(s: seq<UserTotal>, t: seq<UserTotal>, rows: seq<Presence>, a: Time, b: Time)
    ensures Kept(s + t, rows, a, b) == Kept(s, rows, a, b) + Kept(t, rows, a, b)
    decreases |s|
  {
    if s == [] {
      assert s + t == t;
    } else {
      assert (s + t)[0] == s[0] && (s + t)[1..] == s[1..] + t;
      KeptAppend(s[1..], t, rows, a, b);
    }
  }

  /** A row with a NULL start is summed by both queries, as the row condition of main.py:261 keeps it. */
  lemma NullStartCounted()
    ensures
      var bob := User("b1", "bob@example.com", "Bob", None);
      var rows := [Presence(1, "b1", Some(10 * TicksPerSecond), Some(70 * TicksPerSecond), 60), Presence(1, "b1", None, None, 100)];
      Totals([bob], rows, ["bob@example.com"], 0, 3600 * TicksPerSecond) == [UserTotal(bob, 160)] &&
      TotalsAsWritten([bob], rows, ["bob@example.com"], 0, 3600 * TicksPerSecond) == [UserTotal(bob, 160)]
  {
    var rows := [Presence(1, "b1", Some(10 * TicksPerSecond), Some(70 * TicksPerSecond), 60), Presence(1, "b1", None, None, 100)];
    assert rows[1..] == [rows[1]] && rows[1..][1..] == [];
    assert HasJoinedRow(rows, "b1", 0, 3600 * TicksPerSecond) by { assert JoinKeeps(rows[1], 0, 3600 * TicksPerSecond); }
    assert WindowTotal(rows[1..], "b1", 0, 3600 * TicksPerSecond) == 100;
    assert JoinKeeps(rows[0], 0, 3600 * TicksPerSecond);
    assert WindowTotal(rows, "b1", 0, 3600 * TicksPerSecond) == 160;
  }

  /**
   * A user with one interval the day before the window was never away during it:
   * the query as written leaves the user out, the intended query reports 0 seconds.
   */
  lemma AvailabilityAsWrittenDropsIdleUser()
    ensures
      var alice := User("a1", "alice@example.com", "Alice", None);
      var rows := [Presence(1, "a1", Some(0), Some(600 * TicksPerSecond), 600)];
      var a, b := 86400 * TicksPerSecond, 86400 * TicksPerSecond + 3600 * TicksPerSecond;
      AvailabilityAsWritten([alice], rows, ["alice@example.com"], a, b) == [] &&
      Availability([alice], rows, ["alice@example.com"], a, b) == [UserTotal(alice, 0)]
  {
    var alice := User("a1", "alice@example.com", "Alice", None);
    var rows := [Presence(1, "a1", Some(0), Some(600 * TicksPerSecond), 600)];
    var a, b := 86400 * TicksPerSecond, 86400 * TicksPerSecond + 3600 * TicksPerSecond;
    assert HasRow(rows, "a1") by { assert rows[0].user == "a1"; }
    assert !HasJoinedRow(rows, "a1", a, b);
    assert TotalsAsWritten([alice], rows, ["alice@example.com"], a, b) == [];
    assert WindowTotal(rows, "a1", a, b) == 0;
    assert Threshold(a, b) == 3595;
    assert Totals([alice], rows, ["alice@example.com"], a, b) == [UserTotal(alice, 0)];
    assert KeepBelow([UserTotal(alice, 0)], 3595) == [UserTotal(alice, 0)];
    assert SortDesc([UserTotal(alice, 0)]) == [UserTotal(alice, 0)];
  }
}
