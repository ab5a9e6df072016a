/**
 * The computations of the timeline script (generate_timeline.py) that decide what is
 * drawn: the user labels, the row order, each interval clipped to its session, and the
 * hourly x-ticks. Times are microsecond ticks (`Timestamp.ToTicks`), tick positions
 * whole minutes; the drawing itself is not modelled.
 */
module Timeline {
  import opened Wrappers
  import opened Clock
  import opened Text
  import opened Timestamp
  import opened IntervalStore
  import Params

  // --------------------------------------------------------------- labels

  /** generate_timeline.py:45: the display name, or the address when the name is empty. */
  function NameOf(u: User): string
  {
    if u.displayName != "" then u.displayName else u.mail
  }

  /** The dictionary `get_tracked_users` builds: one entry per id, later rows overwriting earlier ones. */
  function Labels(rows: seq<User>): map<UserId, string>
  {
    if rows == [] then map[] else Labels(rows[..|rows| - 1])[rows[|rows| - 1].id := NameOf(rows[|rows| - 1])]
  }

  /** Every id of a row has an entry, and nothing else does. */
  lemma {:induction false} LabelsKeys(rows: seq<User>)
    ensures forall id :: id in Labels(rows) <==> exists j :: 0 <= j < |rows| && rows[j].id == id
  {
    if rows != [] {
      var init := rows[..|rows| - 1];
      LabelsKeys(init);
      forall id | id in Labels(init) ensures exists j :: 0 <= j < |rows| && rows[j].id == id {
        var j :| 0 <= j < |init| && init[j].id == id;
        assert rows[j].id == id;
      }
      forall id | exists j :: 0 <= j < |rows| && rows[j].id == id ensures id in Labels(rows) {
        var j :| 0 <= j < |rows| && rows[j].id == id;
        if j < |init| {
          assert init[j].id == id;
        }
      }
    }
  }

  /** The entry of an id is the label of the last row with that id. */
  lemma {:induction false} LabelsLast(rows: seq<User>, j: nat)
    requires j < |rows| && forall k :: j < k < |rows| ==> rows[k].id != rows[j].id
    ensures rows[j].id in Labels(rows) && Labels(rows)[rows[j].id] == NameOf(rows[j])
    decreases |rows|
  {
    if j < |rows| - 1 {
      var init := rows[..|rows| - 1];
      assert init[j] == rows[j];
      assert forall k :: j < k < |init| ==> init[k] == rows[k];
      LabelsLast(init, j);
    }
  }

  /** Every id has an entry, labelled by the last row with that id. */
  lemma LabelsMeaning(rows: seq<User>)
    ensures forall id :: id in Labels(rows) <==> exists j :: 0 <= j < |rows| && rows[j].id == id
    ensures forall j :: 0 <= j < |rows| && (forall k :: j < k < |rows| ==> rows[k].id != rows[j].id) ==>
      Labels(rows)[rows[j].id] == NameOf(rows[j])
  {
    LabelsKeys(rows);
    forall j | 0 <= j < |rows| && (forall k :: j < k < |rows| ==> rows[k].id != rows[j].id)
      ensures Labels(rows)[rows[j].id] == NameOf(rows[j])
    {
      LabelsLast(rows, j);
    }
  }

  /** `get_tracked_users` (generate_timeline.py:36-47): the loop over the user rows. */
  method GetTrackedUsers(rows: seq<User>) returns (users: map<UserId, string>)
    ensures users == Labels(rows)
    ensures forall id :: id in users <==> exists j :: 0 <= j < |rows| && rows[j].id == id
  {
    users := map[];
    for i := 0 to |rows|
      invariant users == Labels(rows[..i])
    {
      assert rows[..i + 1][..i] == rows[..i];
      users := users[rows[i].id := NameOf(rows[i])];
    }
    assert rows[..|rows|] == rows;
    LabelsMeaning(rows);
  }

  /** generate_timeline.py:86 and 111: the label of a user id, "User <id>" when it has no row. */
  function Label(users: map<UserId, string>, uid: UserId): string
  {
    if uid in users then users[uid] else "User " + uid
  }

  /** The sort key: the label, lower-cased. */
  function Key(users: map<UserId, string>, uid: UserId): string
  {
    Lower(Label(users, uid))
  }

  // -------------------------------------------------------------- ordering

  ghost predicate SortedByKey(ids: seq<UserId>, users: map<UserId, string>)
  {
    forall i, j :: 0 <= i < j < |ids| ==> LexLe(Key(users, ids[i]), Key(users, ids[j]))
  }

  /** Insert `x` after every element whose key is not greater than its own (a stable insertion). */
  function InsertByKey(x: UserId, ids: seq<UserId>, users: map<UserId, string>): (r: seq<UserId>)
    ensures multiset(r) == multiset(ids) + multiset{x}
  {
    if ids == [] then [x]
    else if !LexLe(Key(users, ids[0]), Key(users, x)) then [x] + ids
    else
      assert ids == [ids[0]] + ids[1..];
      [ids[0]] + InsertByKey(x, ids[1..], users)
  }

  lemma {:induction false} InsertByKeySorted(x: UserId, ids: seq<UserId>, users: map<UserId, string>)
    requires SortedByKey(ids, users)
    ensures SortedByKey(InsertByKey(x, ids, users), users)
    decreases |ids|, 1
  {
    if ids != [] {
      if !LexLe(Key(users, ids[0]), Key(users, x)) {
        InsertFront(x, ids, users);
      } else {
        InsertBehind(x, ids, users);
      }
    }
  }

  lemma InsertFront(x: UserId, ids: seq<UserId>, users: map<UserId, string>)
    requires SortedByKey(ids, users) && ids != [] && !LexLe(Key(users, ids[0]), Key(users, x))
    ensures SortedByKey([x] + ids, users)
  {
    var r := [x] + ids;
    LexLeTotal(Key(users, ids[0]), Key(users, x));
    forall j | 0 < j < |r| ensures LexLe(Key(users, r[0]), Key(users, r[j])) {
      if j > 1 {
        LexLeTransitive(Key(users, x), Key(users, ids[0]), Key(users, ids[j - 1]));
      }
    }
  }

  lemma {:induction false} InsertBehind(x: UserId, ids: seq<UserId>, users: map<UserId, string>)
    requires SortedByKey(ids, users) && ids != [] && LexLe(Key(users, ids[0]), Key(users, x))
    ensures SortedByKey([ids[0]] + InsertByKey(x, ids[1..], users), users)
    decreases |ids|, 0
  {
    var tail := InsertByKey(x, ids[1..], users);
    InsertByKeySorted(x, ids[1..], users);
    HeadBelowInserted(x, ids, users);
    SortedCons(ids[0], tail, users);
  }

  /** The head of a sorted list is below every element of the tail with `x` inserted. */
  lemma HeadBelowInserted(x: UserId, ids: seq<UserId>, users: map<UserId, string>)
    requires SortedByKey(ids, users) && ids != [] && LexLe(Key(users, ids[0]), Key(users, x))
    ensures forall y :: y in InsertByKey(x, ids[1..], users) ==> LexLe(Key(users, ids[0]), Key(users, y))
  {
    var tail := InsertByKey(x, ids[1..], users);
    forall y | y in tail ensures LexLe(Key(users, ids[0]), Key(users, y)) {
      assert y in multiset(tail);
      if y != x {
        assert y in multiset(ids[1..]);
        var k :| 0 <= k < |ids[1..]| && ids[1..][k] == y;
        assert ids[k + 1] == y;
      }
    }
  }

  /** A sorted list stays sorted behind an element below all of it. */
  lemma SortedCons(a: UserId, t: seq<UserId>, users: map<UserId, string>)
    requires SortedByKey(t, users) && forall y :: y in t ==> LexLe(Key(users, a), Key(users, y))
    ensures SortedByKey([a] + t, users)
  {
    var r := [a] + t;
    forall i, j | 0 <= i < j < |r| ensures LexLe(Key(users, r[i]), Key(users, r[j])) {
      ConsIndex(a, t, i);
      ConsIndex(a, t, j);
      if i == 0 {
        HeadPair(a, t, users, j - 1);
      } else {
        TailPair(t, users, i - 1, j - 1);
      }
    }
  }

  lemma ConsIndex<T>(a: T, t: seq<T>, i: nat)
    requires i <= |t|
    ensures ([a] + t)[i] == if i == 0 then a else t[i - 1]
  {
  }

  lemma HeadPair(a: UserId, t: seq<UserId>, users: map<UserId, string>, j: nat)
    requires j < |t| && forall y :: y in t ==> LexLe(Key(users, a), Key(users, y))
    ensures LexLe(Key(users, a), Key(users, t[j]))
  {
    assert t[j] in t;
  }

  lemma TailPair(t: seq<UserId>, users: map<UserId, string>, i: nat, j: nat)
    requires SortedByKey(t, users) && i < j < |t|
    ensures LexLe(Key(users, t[i]), Key(users, t[j]))
  {
  }

  /** generate_timeline.py:86: `sort(key=...)`, ascending by lower-cased label, stable. */
  function SortByKey(ids: seq<UserId>, users: map<UserId, string>): (r: seq<UserId>)
    ensures multiset(r) == multiset(ids)
  {
    if ids == [] then []
    else
      assert ids == ids[..|ids| - 1] + [ids[|ids| - 1]];
      InsertByKey(ids[|ids| - 1], SortByKey(ids[..|ids| - 1], users), users)
  }

  /** The row order is sorted by lower-cased label and is a permutation of the ids. */
  lemma {:induction false} SortByKeySorted(ids: seq<UserId>, users: map<UserId, string>)
    ensures SortedByKey(SortByKey(ids, users), users)
    ensures multiset(SortByKey(ids, users)) == multiset(ids)
  {
    if ids != [] {
      SortByKeySorted(ids[..|ids| - 1], users);
      InsertByKeySorted(ids[|ids| - 1], SortByKey(ids[..|ids| - 1], users), users);
    }
  }

  // ------------------------------------------------------------- segments

  /** A row of `SELECT user_id, start_time, end_time FROM Presence`: text, or NULL. */
  datatype Record = Record(user: UserId, start: Option<string>, end: Option<string>)

  /** A drawn interval: its offset from the session start and its length, in ticks. */
  datatype Segment = Segment(offset: int, length: int)

  function UserIdsOf(records: seq<Record>): (r: seq<UserId>)
    ensures |r| == |records| && forall i :: 0 <= i < |records| ==> r[i] == records[i].user
  {
    seq(|records|, i requires 0 <= i < |records| => records[i].user)
  }

  /** generate_timeline.py:85: the distinct user ids of the records. */
  function DistinctUsers(records: seq<Record>): (r: seq<UserId>)
    ensures forall u :: u in r <==> exists i :: 0 <= i < |records| && records[i].user == u
    ensures forall i :: 0 <= i < |records| ==> records[i].user in r
    ensures forall i, j :: 0 <= i < j < |r| ==> r[i] != r[j]
  {
    var ids := UserIdsOf(records);
    var r := Params.Dedup(ids);
    assert forall u :: u in ids <==> exists i :: 0 <= i < |records| && records[i].user == u by {
      forall u | u in ids ensures exists i :: 0 <= i < |records| && records[i].user == u {
        var i :| 0 <= i < |ids| && ids[i] == u;
      }
    }
    r
  }

  /** `t` lies in the half-open span [a, b). */
  predicate InSpan(a: Time, b: Time, t: Time)
  {
    a <= t < b
  }

  /**
   * generate_timeline.py:93-101: the part of the interval [pStart, pEnd] inside the
   * session [sStart, sEnd], as a segment; None when either end is missing or the
   * overlap is empty.
   */
  function Clip(sStart: Time, sEnd: Time, pStart: Option<Time>, pEnd: Option<Time>): (r: Option<Segment>)
    ensures r.Some? <==> (pStart.Some? && pEnd.Some? &&
      pStart.value < pEnd.value && sStart < sEnd && pStart.value < sEnd && sStart < pEnd.value)
    ensures r.Some? ==> 0 <= r.value.offset && 0 < r.value.length && r.value.offset + r.value.length <= sEnd - sStart
    ensures r.Some? ==> forall t :: InSpan(sStart + r.value.offset, sStart + r.value.offset + r.value.length, t) <==>
      InSpan(pStart.value, pEnd.value, t) && InSpan(sStart, sEnd, t)
  {
    if pStart.None? || pEnd.None? then None
    else
      var effectiveStart := if pStart.value > sStart then pStart.value else sStart;
      var effectiveEnd := if pEnd.value < sEnd then pEnd.value else sEnd;
      if effectiveEnd <= effectiveStart then None
      else Some(Segment(effectiveStart - sStart, effectiveEnd - effectiveStart))
  }

  /** The tick of a text column, None when it is NULL or does not parse. */
  function TicksOf(text: Option<string>): Option<Time>
  {
    var t := ParseTimestamp(text);
    if t.Some? then Some(ToTicks(t.value)) else None
  }

  /** One record's segment, from its text columns. */
  function SegmentOf(sStart: Time, sEnd: Time, rec: Record): Option<Segment>
  {
    Clip(sStart, sEnd, TicksOf(rec.start), TicksOf(rec.end))
  }

  /** The segments of user `uid`, in record order. */
  function UserSegments(records: seq<Record>, uid: UserId, sStart: Time, sEnd: Time): seq<Segment>
  {
    if records == [] then []
    else
      var last := records[|records| - 1];
      var seg := SegmentOf(sStart, sEnd, last);
      UserSegments(records[..|records| - 1], uid, sStart, sEnd) + (if last.user == uid && seg.Some? then [seg.value] else [])
  }

  /** Every segment of a user lies inside the session and is non-empty. */
  lemma {:induction false} UserSegmentsInside(records: seq<Record>, uid: UserId, sStart: Time, sEnd: Time)
    ensures forall s :: s in UserSegments(records, uid, sStart, sEnd) ==>
      0 <= s.offset && 0 < s.length && s.offset + s.length <= sEnd - sStart
  {
    if records != [] {
      UserSegmentsInside(records[..|records| - 1], uid, sStart, sEnd);
    }
  }

  /** An open interval (NULL end) or an unparseable start contributes no segment. */
  lemma UnparseableHasNoSegment(sStart: Time, sEnd: Time, rec: Record)
    requires ParseTimestamp(rec.start).None? || ParseTimestamp(rec.end).None?
    ensures SegmentOf(sStart, sEnd, rec).None?
  {
  }

  /**
   * `user_segments` (generate_timeline.py:88-101): one list per user, filled by the loop
   * over the records; every segment lies inside the session.
   */
  method BuildSegments(records: seq<Record>, ids: seq<UserId>, sStart: Time, sEnd: Time) returns (segs: map<UserId, seq<Segment>>)
    requires forall i :: 0 <= i < |records| ==> records[i].user in ids
    ensures forall u :: u in segs <==> u in ids
    ensures forall u :: u in ids ==> segs[u] == UserSegments(records, u, sStart, sEnd)
    ensures forall u, s :: u in segs && s in segs[u] ==> 0 <= s.offset && 0 < s.length && s.offset + s.length <= sEnd - sStart
  {
    segs := map u | u in ids :: [];
    for i := 0 to |records|
      invariant forall u :: u in segs <==> u in ids
      invariant forall u :: u in ids ==> segs[u] == UserSegments(records[..i], u, sStart, sEnd)
    {
      assert records[..i + 1][..i] == records[..i];
      var rec := records[i];
      var seg := SegmentOf(sStart, sEnd, rec);
      if seg.Some? {
        segs := segs[rec.user := segs[rec.user] + [seg.value]];
      }
    }
    assert records[..|records|] == records;
    forall u | u in ids {
      UserSegmentsInside(records, u, sStart, sEnd);
    }
  }

  // ----------------------------------------------------------------- ticks

  /**
   * generate_timeline.py:128-129: minutes from the start's hour and minute to the next
   * full hour (0 when it starts on the hour).
   */
  predicate OnTheHour(hour: int, minute: int, k: int)
  {
    (hour * 60 + minute + k) % 60 == 0
  }

  function FirstTick(hour: int, minute: int): (r: int)
    requires 0 <= hour < 24 && 0 <= minute < 60
    ensures 0 <= r < 60
  {
    var hm := hour * 60 + minute;
    ((hm + 59) / 60) * 60 - hm
  }

  /** The first tick is the earliest minute offset that lands on a full hour. */
  lemma FirstTickIsNextHour(hour: int, minute: int)
    requires 0 <= hour < 24 && 0 <= minute < 60
    ensures OnTheHour(hour, minute, FirstTick(hour, minute))
    ensures forall k :: 0 <= k < FirstTick(hour, minute) ==> !OnTheHour(hour, minute, k)
  {
    var hm := hour * 60 + minute;
    if minute == 0 {
      DivUnique(hm + 59, 60, hour, 59);
      DivUnique(hm, 60, hour, 0);
    } else {
      DivUnique(hm + 59, 60, hour + 1, minute - 1);
      assert FirstTick(hour, minute) == 60 - minute;
      DivUnique(hm + 60 - minute, 60, hour + 1, 0);
      forall k | 0 <= k < 60 - minute ensures !OnTheHour(hour, minute, k) {
        DivUnique(hm + k, 60, hour, minute + k);
      }
    }
  }

  /** The `k`-th hourly tick after the first, in minutes. */
  function HourTick(first: int, k: nat): int
  {
    first + 60 * k
  }

  /**
   * generate_timeline.py:132-138: every 60 minutes from `first` while below `total`,
   * then `total` itself. The list is strictly increasing and ends at `total`.
   */
  method XTicks(first: int, total: int) returns (ticks: seq<int>)
    ensures |ticks| >= 1 && ticks[|ticks| - 1] == total
    ensures forall i :: 0 <= i < |ticks| - 1 ==> ticks[i] == HourTick(first, i) && ticks[i] < total
    ensures forall k: nat :: HourTick(first, k) < total <==> k < |ticks| - 1
    ensures forall i, j :: 0 <= i < j < |ticks| ==> ticks[i] < ticks[j]
  {
    ticks := [];
    var m := first;
    while m < total
      invariant m == HourTick(first, |ticks|)
      invariant forall i :: 0 <= i < |ticks| ==> ticks[i] == HourTick(first, i) && ticks[i] < total
      decreases total - m
    {
      ticks := ticks + [m];
      m := m + 60;
    }
    assert forall k: nat :: HourTick(first, k) < total <==> k < |ticks| by {
      forall k: nat ensures HourTick(first, k) < total <==> k < |ticks| {
        if k < |ticks| {
          assert ticks[k] == HourTick(first, k);
        } else {
          assert HourTick(first, k) >= m;
        }
      }
    }
    if total !in ticks {
      ticks := ticks + [total];
    }
    ticks := ticks[|ticks| - 1 := total];
  }

  // -------------------------------------------------------------- the plot

  /** What the figure of one session shows. */
  datatype Figure = Figure(order: seq<UserId>, segments: map<UserId, seq<Segment>>, totalMinutes: int, ticks: seq<int>)

  /** The rows: the distinct users, sorted by display name. */
  ghost predicate OrderDepicts(fig: Figure, records: seq<Record>, users: map<UserId, string>)
  {
    SortedByKey(fig.order, users) && multiset(fig.order) == multiset(DistinctUsers(records))
  }

  /** The bars: one entry per user with a record, holding that user's clipped segments. */
  ghost predicate SegmentsDepict(fig: Figure, records: seq<Record>, s: Time, e: Time)
  {
    (forall u :: u in fig.segments <==> exists i :: 0 <= i < |records| && records[i].user == u) &&
    (forall u :: u in fig.segments ==> fig.segments[u] == UserSegments(records, u, s, e))
  }

  /**
   * The axis: the session length in minutes, and the ticks: every hourly tick from
   * `first` that lies below the length, in order, then the length itself.
   */
  ghost predicate TicksDepict(fig: Figure, first: int, s: Time, e: Time)
  {
    fig.totalMinutes == TruncMinutes(e - s) &&
    |fig.ticks| >= 1 && fig.ticks[|fig.ticks| - 1] == fig.totalMinutes &&
    (forall i :: 0 <= i < |fig.ticks| - 1 ==> fig.ticks[i] == HourTick(first, i)) &&
    (forall k: nat :: HourTick(first, k) < fig.totalMinutes <==> k < |fig.ticks| - 1) &&
    (forall i, j :: 0 <= i < j < |fig.ticks| ==> fig.ticks[i] < fig.ticks[j])
  }

  /** The axis is determined: two figures of the same session and first tick have the same ticks. */
  lemma TicksDetermined(f: Figure, g: Figure, first: int, s: Time, e: Time)
    requires TicksDepict(f, first, s, e) && TicksDepict(g, first, s, e)
    ensures f.ticks == g.ticks
  {
    var n, m := |f.ticks| - 1, |g.ticks| - 1;
    assert n == m by {
      assert !(HourTick(first, n) < f.totalMinutes) && !(HourTick(first, m) < g.totalMinutes);
    }
    forall i | 0 <= i < |f.ticks| ensures f.ticks[i] == g.ticks[i] {
      if i < n {
        assert f.ticks[i] == HourTick(first, i) == g.ticks[i];
      }
    }
  }

  /**
   * The figure of the session [s, e]: the users sorted by label and each once, their
   * clipped segments, the length in whole minutes and the hourly x-ticks from `first`
   * below it, followed by the length.
   */
  ghost predicate Depicts(fig: Figure, records: seq<Record>, users: map<UserId, string>, first: int, s: Time, e: Time)
  {
    OrderDepicts(fig, records, users) && SegmentsDepict(fig, records, s, e) && TicksDepict(fig, first, s, e)
  }

  /**
   * `plot_session_timeline` (generate_timeline.py:72-154) without the drawing: no figure
   * when the session start or end does not parse; otherwise the figure `Depicts` says,
   * its first tick the first full hour after the start.
   */
  method PlotSessionTimeline(sessionStart: Option<string>, sessionEnd: Option<string>, records: seq<Record>, users: map<UserId, string>)
    returns (fig: Option<Figure>)
    ensures fig.None? <==> ParseTimestamp(sessionStart).None? || ParseTimestamp(sessionEnd).None?
    ensures fig.Some? ==> var st := ParseTimestamp(sessionStart).value;
      Depicts(fig.value, records, users, FirstTick(st.hour, st.minute), ToTicks(st), ToTicks(ParseTimestamp(sessionEnd).value))
  {
    var start := ParseTimestamp(sessionStart);
    var end := ParseTimestamp(sessionEnd);
    if start.None? || end.None? {
      return None;
    }
    var f := LayOut(start.value, ToTicks(start.value), ToTicks(end.value), records, users);
    fig := Some(f);
  }

  /** generate_timeline.py:85-138 for a session that parsed: the order, the segments and the ticks. */
  method LayOut(startDt: DateTime, s: Time, e: Time, records: seq<Record>, users: map<UserId, string>) returns (fig: Figure)
    requires Valid(startDt)
    ensures Depicts(fig, records, users, FirstTick(startDt.hour, startDt.minute), s, e)
  {
    var ids := DistinctUsers(records);
    var order := SortByKey(ids, users);
    SortByKeySorted(ids, users);
    var segs := BuildSegments(records, ids, s, e);
    var total := TruncMinutes(e - s);
    var first := FirstTick(startDt.hour, startDt.minute);
    var ticks := XTicks(first, total);
    fig := Figure(order, segs, total, ticks);
    assert OrderDepicts(fig, records, users);
    assert SegmentsDepict(fig, records, s, e);
    assert TicksDepict(fig, first, s, e);
  }
}
