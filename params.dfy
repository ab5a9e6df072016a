/**
 * The configuration-derived parts of the tracker: the severity marker on each
 * configured address, the deduplicated list of tracked addresses, the
 * notification thresholds and the batching of addresses for directory lookups.
 */
module Params {
  /** `_count_plus_at_start`: the length of the run of '+' that opens the address. */
  function CountPlusAtStart(mail: string): (n: nat)
    ensures n <= |mail|
    ensures forall i :: 0 <= i < n ==> mail[i] == '+'
    ensures n < |mail| ==> mail[n] != '+'
  {
    if |mail| > 0 && mail[0] == '+' then 1 + CountPlusAtStart(mail[1..]) else 0
  }

  /** `mail.lstrip("+")`. */
  function StripPlus(mail: string): string
  {
    if |mail| > 0 && mail[0] == '+' then StripPlus(mail[1..]) else mail
  }

  function Pluses(n: nat): (s: string)
    ensures |s| == n && forall i :: 0 <= i < n ==> s[i] == '+'
  {
    if n == 0 then [] else ['+'] + Pluses(n - 1)
  }

  /** Stripping drops exactly the leading run of '+'. */
  lemma {:induction false} StripPlusSuffix(mail: string)
    ensures StripPlus(mail) == mail[CountPlusAtStart(mail)..]
  {
    if |mail| > 0 && mail[0] == '+' {
      var tail := mail[1..];
      StripPlusSuffix(tail);
      assert tail[CountPlusAtStart(tail)..] == mail[CountPlusAtStart(mail)..];
    }
  }

  /** The address splits into its severity marker and the stripped address. */
  lemma SplitSeverity(mail: string)
    ensures Pluses(CountPlusAtStart(mail)) + StripPlus(mail) == mail
    ensures StripPlus(mail) == mail[CountPlusAtStart(mail)..]
    ensures |StripPlus(mail)| > 0 ==> StripPlus(mail)[0] != '+'
  {
    var n := CountPlusAtStart(mail);
    StripPlusSuffix(mail);
    assert Pluses(n) == mail[..n];
    assert mail[..n] + mail[n..] == mail;
  }

  /**
   * The dictionary comprehension of main.py:75-78: every stripped address maps to
   * the severity of its LAST occurrence in the configured list.
   */
  function Severities(emails: seq<string>): (m: map<string, nat>)
    ensures forall i :: 0 <= i < |emails| ==> StripPlus(emails[i]) in m
    ensures forall k :: k in m ==> exists i :: 0 <= i < |emails| && StripPlus(emails[i]) == k
  {
    if emails == [] then map[]
    else
      var last := emails[|emails| - 1];
      Severities(emails[..|emails| - 1])[StripPlus(last) := CountPlusAtStart(last)]
  }

  lemma {:induction false} SeverityOfLastOccurrence(emails: seq<string>, i: nat)
    requires i < |emails|
    requires forall j :: i < j < |emails| ==> StripPlus(emails[j]) != StripPlus(emails[i])
    ensures Severities(emails)[StripPlus(emails[i])] == CountPlusAtStart(emails[i])
    decreases |emails|
  {
    if i < |emails| - 1 {
      var init := emails[..|emails| - 1];
      SeverityOfLastOccurrence(init, i);
    }
  }

  /** The keys of a dict, in insertion order: first occurrences, without repeats. */
  function Dedup(s: seq<string>): (r: seq<string>)
    ensures forall x :: x in r <==> x in s
    ensures forall i, j :: 0 <= i < j < |r| ==> r[i] != r[j]
  {
    if s == [] then []
    else
      var d := Dedup(s[..|s| - 1]);
      assert forall x :: x in s <==> x in s[..|s| - 1] || x == s[|s| - 1];
      if s[|s| - 1] in d then d else d + [s[|s| - 1]]
  }

  /** `a` occurs in `s` before any occurrence of `b`. */
  ghost predicate FirstBefore(s: seq<string>, a: string, b: string)
  {
    exists i :: 0 <= i < |s| && s[i] == a && forall j :: 0 <= j <= i ==> s[j] != b
  }

  /** Dict keys keep insertion order: of two keys, the one first inserted comes first. */
  lemma {:induction false} DedupFirstOccurrenceOrder(s: seq<string>)
    ensures forall i, j :: 0 <= i < j < |Dedup(s)| ==> FirstBefore(s, Dedup(s)[i], Dedup(s)[j])
  {
    if s != [] {
      var init := s[..|s| - 1];
      var d := Dedup(init);
      DedupFirstOccurrenceOrder(init);
      forall i, j | 0 <= i < j < |d| ensures FirstBefore(s, d[i], d[j]) {
        assert FirstBefore(init, d[i], d[j]);
        var k :| 0 <= k < |init| && init[k] == d[i] && forall m :: 0 <= m <= k ==> init[m] != d[j];
        assert s[k] == d[i] && forall m :: 0 <= m <= k ==> s[m] == init[m];
      }
      var last := s[|s| - 1];
      if last !in d {
        forall i | 0 <= i < |d| ensures FirstBefore(s, d[i], last) {
          assert d[i] in init;
          var k :| 0 <= k < |init| && init[k] == d[i];
          assert s[k] == d[i] && forall m :: 0 <= m <= k ==> s[m] == init[m] && init[m] in init;
        }
        var r := d + [last];
        forall i, j | 0 <= i < j < |r| ensures FirstBefore(s, r[i], r[j]) {
          if j < |d| {
            assert r[i] == d[i] && r[j] == d[j];
          } else {
            assert r[i] == d[i] && r[j] == last;
          }
        }
      }
    }
  }

  function StripAll(emails: seq<string>): (r: seq<string>)
    ensures |r| == |emails| && forall i :: 0 <= i < |emails| ==> r[i] == StripPlus(emails[i])
  {
    seq(|emails|, i requires 0 <= i < |emails| => StripPlus(emails[i]))
  }

  /** main.py:80: the tracked addresses are the keys of the severity dictionary. */
  function TrackedEmails(emails: seq<string>): seq<string>
  {
    Dedup(StripAll(emails))
  }

  /** The tracked list has no repeats and holds exactly the keys of the severity map. */
  lemma TrackedEmailsAreSeverityKeys(emails: seq<string>)
    ensures forall i, j :: 0 <= i < j < |TrackedEmails(emails)| ==> TrackedEmails(emails)[i] != TrackedEmails(emails)[j]
    ensures forall k :: k in TrackedEmails(emails) <==> k in Severities(emails)
  {
    var t := TrackedEmails(emails);
    forall k ensures k in t <==> k in Severities(emails) {
      if k in t {
        var i :| 0 <= i < |emails| && StripAll(emails)[i] == k;
      }
    }
  }

  /** main.py:389 and main.py:427: notifications go only to users of severity 3 or more. */
  const AlertSeverity: nat := 3

  /** main.py:427: `(duration_seconds / 60) > 60` on integer seconds. */
  predicate LongAbsence(durationSeconds: int)
  {
    durationSeconds > 3600
  }

  /**
   * `_chunk_emails`, main.py:510-513: slices of at most 15 addresses. The bodies below
   * write the factor as the literal 15, which keeps the index arithmetic linear.
   */
  const ChunkLimit: nat := 15

  function ChunkEmails(emails: seq<string>): (chunks: seq<seq<string>>)
  {
    seq((|emails| + 14) / 15,
        k requires 0 <= k < (|emails| + 14) / 15 =>
          emails[15 * k .. if 15 * k + 15 <= |emails| then 15 * k + 15 else |emails|])
  }

  function Flatten(chunks: seq<seq<string>>): seq<string>
  {
    if chunks == [] then [] else chunks[0] + Flatten(chunks[1..])
  }

  lemma {:induction false} ChunkEmailsUnfold(emails: seq<string>)
    requires |emails| > 0
    ensures ChunkEmails(emails) == [emails[..if |emails| < ChunkLimit then |emails| else ChunkLimit]] + ChunkEmails(emails[if |emails| < ChunkLimit then |emails| else ChunkLimit..])
  {
    var n := if |emails| < ChunkLimit then |emails| else ChunkLimit;
    var c, rest := ChunkEmails(emails), ChunkEmails(emails[n..]);
    assert |c| == |rest| + 1;
    forall k | 1 <= k < |c| ensures c[k] == rest[k - 1] {
      assert n == 15;
      var lo := 15 * k;
      var hi := if 15 * k + 15 <= |emails| then 15 * k + 15 else |emails|;
      assert lo == 15 * (k - 1) + 15;
      var tail := emails[15..];
      var hi' := if 15 * (k - 1) + 15 <= |tail| then 15 * (k - 1) + 15 else |tail|;
      assert hi' == hi - 15;
      assert c[k] == emails[lo..hi];
      assert rest[k - 1] == tail[lo - 15..hi'];
      var piece := tail[lo - 15..hi'];
      assert forall m :: 0 <= m < hi - lo ==> piece[m] == emails[lo + m];
      assert tail[lo - 15..hi'] == emails[lo..hi];
    }
  }

  /**
   * The chunks are consecutive slices: every one holds 1 to 15 addresses, all but the
   * last exactly 15, and together they give back the input.
   */
  lemma {:induction false} ChunkEmailsPartition(emails: seq<string>)
    ensures Flatten(ChunkEmails(emails)) == emails
    ensures forall k :: 0 <= k < |ChunkEmails(emails)| ==> 0 < |ChunkEmails(emails)[k]| <= ChunkLimit
    ensures forall k :: 0 <= k < |ChunkEmails(emails)| - 1 ==> |ChunkEmails(emails)[k]| == ChunkLimit
    decreases |emails|
  {
    if |emails| > 0 {
      ChunkEmailsUnfold(emails);
      var n := if |emails| < ChunkLimit then |emails| else ChunkLimit;
      ChunkEmailsPartition(emails[n..]);
      assert emails[..n] + emails[n..] == emails;
    }
  }
}
