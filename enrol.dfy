/**
 * The database side of `_populate_tracked_users_async` (main.py:315-338): the tracked
 * addresses are looked up in chunks of 15; the addresses of a chunk that have no user
 * row yet are looked up in the directory, and every directory user returned is stored
 * with `add_user`. The directory is a parameter: the response to a query for a list of
 * addresses is the directory's users whose address is in that list, in directory order.
 */
module Enrolment {
  import opened Wrappers
  import opened IntervalStore

  /** The user table after the run, and whether it ran to the end (false: `add_user` raised). */
  datatype Enrolled = Enrolled(users: seq<User>, ok: bool)

  /** The (id, address) pairs stored; `add_user` never changes or removes one. */
  function Keys(users: seq<User>): set<(UserId, string)>
  {
    set x | x in users :: (x.id, x.mail)
  }

  /** main.py:318: the addresses of the chunk that already have a user row. */
  function KnownMails(users: seq<User>, chunk: seq<string>): (r: seq<string>)
    ensures forall m :: m in r <==> m in chunk && HasMail(users, m)
  {
    var stored := UsersByEmails(users, chunk);
    var r := seq(|stored|, i requires 0 <= i < |stored| => stored[i].mail);
    assert forall m :: m in chunk && HasMail(users, m) ==> m in r by {
      forall m | m in chunk && HasMail(users, m) ensures m in r {
        var j :| 0 <= j < |users| && users[j].mail == m;
        assert users[j] in stored;
        var k :| 0 <= k < |stored| && stored[k] == users[j];
        assert r[k] == m;
      }
    }
    r
  }

  /** main.py:319: the addresses of the chunk still to be looked up, in chunk order. */
  function Remaining(users: seq<User>, chunk: seq<string>): (r: seq<string>)
    ensures forall e :: e in r <==> e in chunk && !HasMail(users, e)
  {
    if chunk == [] then []
    else (if HasMail(users, chunk[0]) then [] else [chunk[0]]) + Remaining(users, chunk[1..])
  }

  /** main.py:324-332: the directory's answer to the query for `remaining`. */
  function Response(directory: seq<User>, remaining: seq<string>): (r: seq<User>)
    ensures forall d :: d in r <==> d in directory && d.mail in remaining
  {
    if directory == [] then []
    else (if directory[0].mail in remaining then [directory[0]] else []) + Response(directory[1..], remaining)
  }

  /** main.py:334-338: store each returned user whose address was not already known. */
  function AddResponse(users: seq<User>, response: seq<User>, known: seq<string>): Enrolled
    decreases |response|
  {
    if response == [] then Enrolled(users, true)
    else if response[0].mail in known then AddResponse(users, response[1..], known)
    else
      var d := response[0];
      match AddUser(users, d.id, d.mail, d.displayName, d.jobTitle)
      case None => Enrolled(users, false)
      case Some(next) => AddResponse(next, response[1..], known)
  }

  /** main.py:316-338: the chunks in order; a chunk with nothing remaining is skipped. */
  function Enrol(users: seq<User>, chunks: seq<seq<string>>, directory: seq<User>): Enrolled
    decreases |chunks|
  {
    if chunks == [] then Enrolled(users, true)
    else
      var remaining := Remaining(users, chunks[0]);
      if remaining == [] then Enrol(users, chunks[1..], directory)
      else
        var r := AddResponse(users, Response(directory, remaining), KnownMails(users, chunks[0]));
        if !r.ok then r else Enrol(r.users, chunks[1..], directory)
  }

  /** Address `e` has a user row, or the id has one. */
  ghost predicate Covered(users: seq<User>, e: string, id: UserId)
  {
    exists k :: k in Keys(users) && (k.0 == id || k.1 == e)
  }

  /** One upsert keeps the UNIQUE constraints, keeps every stored pair and stores the new id. */
  lemma AddUserGrows(users: seq<User>, id: UserId, mail: string, name: string, title: Option<string>)
    requires UniqueKeys(users) && AddUser(users, id, mail, name, title).Some?
    ensures var next := AddUser(users, id, mail, name, title).value;
      UniqueKeys(next) && Keys(users) <= Keys(next) && Covered(next, mail, id)
  {
    AddUserUpserts(users, id, mail, name, title);
    var next := AddUser(users, id, mail, name, title).value;
    var u := GetUser(next, id).value;
    assert (u.id, u.mail) in Keys(next);
    forall k | k in Keys(users) ensures k in Keys(next) {
      var x :| x in users && k == (x.id, x.mail);
      if x.id == id {
        var j :| 0 <= j < |users| && users[j] == x;
        assert IndexOfId(users, id) == Some(j);
      }
    }
  }

  /**
   * Storing a response keeps the UNIQUE constraints and every stored pair, also when it
   * stops at a raise; when it runs to the end every returned user with an address not
   * already known has its id stored.
   */
  lemma {:induction false} AddResponseGrows(users: seq<User>, response: seq<User>, known: seq<string>)
    requires UniqueKeys(users)
    ensures UniqueKeys(AddResponse(users, response, known).users)
    ensures Keys(users) <= Keys(AddResponse(users, response, known).users)
    ensures AddResponse(users, response, known).ok ==>
      forall d :: d in response && d.mail !in known ==> Covered(AddResponse(users, response, known).users, d.mail, d.id)
    decreases |response|
  {
    if response != [] {
      var d := response[0];
      assert forall x :: x in response ==> x == d || x in response[1..];
      if d.mail in known {
        AddResponseGrows(users, response[1..], known);
      } else if AddUser(users, d.id, d.mail, d.displayName, d.jobTitle).Some? {
        var next := AddUser(users, d.id, d.mail, d.displayName, d.jobTitle).value;
        AddUserGrows(users, d.id, d.mail, d.displayName, d.jobTitle);
        AddResponseGrows(next, response[1..], known);
        var final := AddResponse(next, response[1..], known).users;
        var k :| k in Keys(next) && (k.0 == d.id || k.1 == d.mail);
        assert k in Keys(final);
      }
    }
  }

  /**
   * A complete run keeps the UNIQUE constraints and every stored pair, and leaves every
   * tracked address that the directory knows with a user row for the address or for the
   * directory user's id.
   */
  lemma {:induction false} EnrolCovers(users: seq<User>, chunks: seq<seq<string>>, directory: seq<User>)
    requires UniqueKeys(users)
    ensures UniqueKeys(Enrol(users, chunks, directory).users)
    ensures Keys(users) <= Keys(Enrol(users, chunks, directory).users)
    ensures Enrol(users, chunks, directory).ok ==>
      forall c, e, d :: c in chunks && e in c && d in directory && d.mail == e ==> Covered(Enrol(users, chunks, directory).users, e, d.id)
    decreases |chunks|
  {
    if chunks != [] {
      var chunk := chunks[0];
      var remaining := Remaining(users, chunk);
      assert forall c :: c in chunks ==> c == chunk || c in chunks[1..];
      if remaining == [] {
        EnrolCovers(users, chunks[1..], directory);
        var final := Enrol(users, chunks, directory).users;
        forall e | e in chunk ensures exists k :: k in Keys(final) && k.1 == e {
          var j :| 0 <= j < |users| && users[j].mail == e;
          assert (users[j].id, e) in Keys(final);
        }
      } else {
        var known := KnownMails(users, chunk);
        var response := Response(directory, remaining);
        var r := AddResponse(users, response, known);
        AddResponseGrows(users, response, known);
        if r.ok {
          EnrolCovers(r.users, chunks[1..], directory);
          var final := Enrol(r.users, chunks[1..], directory).users;
          forall e, d | e in chunk && d in directory && d.mail == e ensures Covered(final, e, d.id) {
            if HasMail(users, e) {
              var j :| 0 <= j < |users| && users[j].mail == e;
              assert (users[j].id, e) in Keys(final);
            } else {
              assert d in response && d.mail !in known;
              var k :| k in Keys(r.users) && (k.0 == d.id || k.1 == e);
              assert k in Keys(final);
            }
          }
        }
      }
    }
  }
}
