/** The store's document as a value: the lookups it performs, the invariant that
    ties each user's counter to the submission history, and the two updates
    (registering a user, accepting a submission) as functions from the old
    document to the new one. */
module Ledger {
  import opened Types
  import opened Text
  import opened Search

  /** Minimum time between two accepted submissions of one user, in milliseconds. */
  const COOLDOWN: int := 2000

  datatype SubmitError = UserNotFound | RateLimited {
    /** The error text the store returns to its caller. */
    function Message(): string {
      match this
      case UserNotFound => "User not found"
      case RateLimited => "Please wait a moment before submitting again."
    }
  }

  /** The store's answer to a submission: the updated user, or why it was refused. */
  datatype SubmitOutcome = Success(user: User) | Failure(error: SubmitError)

  function UserIds(users: seq<User>): set<Id> {
    set k | 0 <= k < |users| :: users[k].id
  }

  function SubmissionIds(subs: seq<Submission>): set<Id> {
    set k | 0 <= k < |subs| :: subs[k].id
  }

  /** An identifier that no stored user and no stored submission carries yet
      (what `crypto.randomUUID()` is trusted to produce). */
  predicate FreshId(db: LocalDB, id: Id) {
    id !in UserIds(db.users) && id !in SubmissionIds(db.submissions)
  }

  /** Position of the first user named `name` up to case, or -1. */
  function IndexOfName(users: seq<User>, name: string): (r: int)
    ensures -1 <= r < |users|
    ensures r == -1 <==> forall k :: 0 <= k < |users| ==> Lower(users[k].username) != Lower(name)
    ensures 0 <= r ==> Lower(users[r].username) == Lower(name)
    ensures 0 <= r ==> forall k :: 0 <= k < r ==> Lower(users[k].username) != Lower(name)
  {
    FindIndex(users, (u: User) => Lower(u.username) == Lower(name))
  }

  /** Position of the first user with identifier `id`, or -1. */
  function IndexOfId(users: seq<User>, id: Id): (r: int)
    ensures -1 <= r < |users|
    ensures r == -1 <==> id !in UserIds(users)
    ensures 0 <= r ==> users[r].id == id && forall k :: 0 <= k < r ==> users[k].id != id
  {
    FindIndex(users, (u: User) => u.id == id)
  }

  /** The submissions made by user `id`. */
  function SubmissionsOf(subs: seq<Submission>, id: Id): (r: seq<Submission>)
    ensures forall x :: x in r <==> x in subs && x.user_id == id
  {
    if subs == [] then []
    else
      var last := subs[|subs| - 1];
      SubmissionsOf(subs[..|subs| - 1], id) + (if last.user_id == id then [last] else [])
  }

  /** How many stored submissions belong to user `id`. */
  function CountOf(subs: seq<Submission>, id: Id): nat {
    |SubmissionsOf(subs, id)|
  }

  /** The latest `created_at` among `subs` (what sorting by time, newest first,
      and taking the head yields), or None for no submissions. */
  function Latest(subs: seq<Submission>): (r: Option<Millis>)
    ensures r.None? <==> subs == []
    ensures r.Some? ==> exists k :: 0 <= k < |subs| && subs[k].created_at == r.value
    ensures r.Some? ==> forall k :: 0 <= k < |subs| ==> subs[k].created_at <= r.value
  {
    if subs == [] then None
    else
      match Latest(subs[1..])
      case None => Some(subs[0].created_at)
      case Some(t) => Some(if subs[0].created_at < t then t else subs[0].created_at)
  }

  /** The anti-spam rule: the user's newest submission is less than COOLDOWN old at `now`. */
  predicate TooSoon(subs: seq<Submission>, id: Id, now: nat) {
    match Latest(SubmissionsOf(subs, id))
    case None => false
    case Some(t) => now - t < COOLDOWN
  }

  /** No two users share an identifier. */
  ghost predicate UniqueUserIds(users: seq<User>) {
    forall i, j :: 0 <= i < |users| && 0 <= j < |users| && users[i].id == users[j].id ==> i == j
  }

  /** No two submissions share an identifier. */
  ghost predicate UniqueSubmissionIds(subs: seq<Submission>) {
    forall i, j :: 0 <= i < |subs| && 0 <= j < |subs| && subs[i].id == subs[j].id ==> i == j
  }

  /** The store's data invariant: identifiers are unique, every submission
      belongs to a stored user, and every user's counter equals the number of
      submissions that belong to it. */
  ghost predicate Consistent(db: LocalDB) {
    && UniqueUserIds(db.users)
    && UniqueSubmissionIds(db.submissions)
    && (forall k :: 0 <= k < |db.submissions| ==> db.submissions[k].user_id in UserIds(db.users))
    && (forall k :: 0 <= k < |db.users| ==> db.users[k].total_submissions == CountOf(db.submissions, db.users[k].id))
  }

  /** Log-in: return the first user whose name matches `name` up to case and
      leave the document as it is, or register a new user with `freshId`. */
  function GetOrCreate(db: LocalDB, name: string, freshId: Id, now: nat): (r: (LocalDB, User))
    ensures (exists k :: 0 <= k < |db.users| && Lower(db.users[k].username) == Lower(name)) ==>
      && r.0 == db
      && (exists i :: 0 <= i < |db.users| && r.1 == db.users[i]
            && forall k :: 0 <= k < i ==> Lower(db.users[k].username) != Lower(name))
      && Lower(r.1.username) == Lower(name)
    ensures (forall k :: 0 <= k < |db.users| ==> Lower(db.users[k].username) != Lower(name)) ==>
      && r.1 == User(freshId, name, 0, now)
      && r.0 == LocalDB(db.users + [r.1], db.submissions)
  {
    var i := IndexOfName(db.users, name);
    if i >= 0 then (db, db.users[i])
    else
      var newUser := User(freshId, name, 0, now);
      (LocalDB(db.users + [newUser], db.submissions), newUser)
  }

  /** Submission: refuse an unknown user or one inside the cooldown, otherwise
      append one submission stamped `now` and add one to that user's counter. */
  function Submit(db: LocalDB, userId: Id, subId: Id, now: nat): (r: (LocalDB, SubmitOutcome))
    ensures userId !in UserIds(db.users) ==> r == (db, Failure(UserNotFound))
    ensures userId in UserIds(db.users) && TooSoon(db.submissions, userId, now) ==> r == (db, Failure(RateLimited))
    ensures userId in UserIds(db.users) && !TooSoon(db.submissions, userId, now) ==>
      var i := IndexOfId(db.users, userId);
      && r.0.submissions == db.submissions + [Submission(subId, userId, now)]
      && |r.0.users| == |db.users|
      && r.0.users[i] == db.users[i].(total_submissions := db.users[i].total_submissions + 1)
      && (forall k :: 0 <= k < |db.users| && k != i ==> r.0.users[k] == db.users[k])
      && r.1 == Success(r.0.users[i])
  {
    var i := IndexOfId(db.users, userId);
    if i == -1 then (db, Failure(UserNotFound))
    else if TooSoon(db.submissions, userId, now) then (db, Failure(RateLimited))
    else
      var users := Incremented(db.users, i);
      (LocalDB(users, db.submissions + [Submission(subId, userId, now)]), Success(users[i]))
  }

  /** Appending a submission adds one to its owner's count and leaves every other count alone. */
  lemma CountOfAppend(subs: seq<Submission>, sub: Submission, id: Id)
    ensures CountOf(subs + [sub], id) == CountOf(subs, id) + (if sub.user_id == id then 1 else 0)
  {
    assert (subs + [sub])[..|subs|] == subs;
  }

  /** A user no submission refers to has a count of zero. */
  lemma {:induction false} CountOfUnreferenced(subs: seq<Submission>, id: Id)
    requires forall k :: 0 <= k < |subs| ==> subs[k].user_id != id
    ensures CountOf(subs, id) == 0
  {
    if subs != [] {
      var init := subs[..|subs| - 1];
      assert forall k :: 0 <= k < |init| ==> init[k] == subs[k];
      CountOfUnreferenced(init, id);
    }
  }

  /** The cooldown refuses a submission exactly when one of the user's earlier
      submissions is less than COOLDOWN old; with no earlier submission it never refuses. */
  lemma TooSoonIff(subs: seq<Submission>, id: Id, now: nat)
    ensures TooSoon(subs, id, now) <==>
      exists k :: 0 <= k < |subs| && subs[k].user_id == id && now - subs[k].created_at < COOLDOWN
  {
    var mine := SubmissionsOf(subs, id);
    if TooSoon(subs, id, now) {
      var t := Latest(mine).value;
      var j :| 0 <= j < |mine| && mine[j].created_at == t;
      assert mine[j] in subs;
      var k :| 0 <= k < |subs| && subs[k] == mine[j];
      assert subs[k].user_id == id && now - subs[k].created_at < COOLDOWN;
    }
    if exists k :: 0 <= k < |subs| && subs[k].user_id == id && now - subs[k].created_at < COOLDOWN {
      var k :| 0 <= k < |subs| && subs[k].user_id == id && now - subs[k].created_at < COOLDOWN;
      assert subs[k] in mine;
      var j :| 0 <= j < |mine| && mine[j] == subs[k];
      assert Latest(mine).Some?;
    }
  }

  /** Registering a user keeps the invariant, given a fresh identifier: the new
      user starts at 0 and no submission can refer to it yet. */
  lemma GetOrCreateKeepsConsistent(db: LocalDB, name: string, freshId: Id, now: nat)
    requires Consistent(db) && FreshId(db, freshId)
    ensures Consistent(GetOrCreate(db, name, freshId, now).0)
  {
    if IndexOfName(db.users, name) == -1 {
      AppendUserKeepsConsistent(db, User(freshId, name, 0, now));
    }
  }

  /** The create branch of GetOrCreate: a user with a fresh identifier and count 0 is appended. */
  lemma AppendUserKeepsConsistent(db: LocalDB, u: User)
    requires Consistent(db) && FreshId(db, u.id) && u.total_submissions == 0
    ensures Consistent(LocalDB(db.users + [u], db.submissions))
  {
    var users := db.users + [u];
    assert forall k :: 0 <= k < |db.submissions| ==> db.submissions[k].user_id != u.id;
    CountOfUnreferenced(db.submissions, u.id);
    assert forall k :: 0 <= k < |db.users| ==> users[k] == db.users[k];
    assert users[|db.users|] == u;
    assert UserIds(users) == UserIds(db.users) + {u.id};
  }

  /** No two users have names that are equal up to case. */
  ghost predicate UniqueNames(users: seq<User>) {
    forall i, j :: 0 <= i < j < |users| ==> Lower(users[i].username) != Lower(users[j].username)
  }

  /** Logging in never adds a second user whose name equals an existing one up to case. */
  lemma GetOrCreateKeepsUniqueNames(db: LocalDB, name: string, freshId: Id, now: nat)
    requires UniqueNames(db.users)
    ensures UniqueNames(GetOrCreate(db, name, freshId, now).0.users)
  {
    var users := GetOrCreate(db, name, freshId, now).0.users;
    if IndexOfName(db.users, name) == -1 {
      assert forall k :: 0 <= k < |db.users| ==> users[k] == db.users[k];
      assert users[|db.users|].username == name;
    }
  }

  /** Submissions do not change any user's name. */
  lemma SubmitKeepsUniqueNames(db: LocalDB, userId: Id, subId: Id, now: nat)
    requires UniqueNames(db.users)
    ensures UniqueNames(Submit(db, userId, subId, now).0.users)
  {
    var users := Submit(db, userId, subId, now).0.users;
    assert forall k :: 0 <= k < |db.users| ==> users[k].username == db.users[k].username;
  }

  /** Accepting a submission keeps the invariant, given a fresh submission identifier. */
  lemma SubmitKeepsConsistent(db: LocalDB, userId: Id, subId: Id, now: nat)
    requires Consistent(db) && FreshId(db, subId)
    ensures Consistent(Submit(db, userId, subId, now).0)
  {
    if userId in UserIds(db.users) && !TooSoon(db.submissions, userId, now) {
      var i := IndexOfId(db.users, userId);
      IncrementKeepsConsistent(db, i, Submission(subId, userId, now));
    }
  }

  /** The users after user `i`'s counter goes up by one. */
  function Incremented(users: seq<User>, i: nat): (r: seq<User>)
    requires i < |users|
    ensures |r| == |users| && r[i] == users[i].(total_submissions := users[i].total_submissions + 1)
    ensures forall k :: 0 <= k < |r| ==> r[k].id == users[k].id
    ensures forall k :: 0 <= k < |r| && k != i ==> r[k] == users[k]
  {
    users[i := users[i].(total_submissions := users[i].total_submissions + 1)]
  }

  /** The accepted branch of Submit: one new submission for user `i`, whose counter goes up by one. */
  lemma IncrementKeepsConsistent(db: LocalDB, i: nat, sub: Submission)
    requires Consistent(db)
    requires i < |db.users| && sub.user_id == db.users[i].id && sub.id !in SubmissionIds(db.submissions)
    ensures Consistent(LocalDB(Incremented(db.users, i), db.submissions + [sub]))
  {
    var users := Incremented(db.users, i);
    var subs := db.submissions + [sub];
    IncrementKeepsIds(db.users, i);
    AppendKeepsUniqueIds(db.submissions, sub);
    AppendKeepsOwners(db.submissions, sub, UserIds(users));
    forall k | 0 <= k < |users| ensures users[k].total_submissions == CountOf(subs, users[k].id) {
      CountOfAppend(db.submissions, sub, db.users[k].id);
    }
  }

  lemma IncrementKeepsIds(users: seq<User>, i: nat)
    requires i < |users| && UniqueUserIds(users)
    ensures UniqueUserIds(Incremented(users, i)) && UserIds(Incremented(users, i)) == UserIds(users)
  {
  }

  lemma AppendKeepsUniqueIds(subs: seq<Submission>, sub: Submission)
    requires UniqueSubmissionIds(subs) && sub.id !in SubmissionIds(subs)
    ensures UniqueSubmissionIds(subs + [sub])
  {
    assert forall k :: 0 <= k < |subs| ==> (subs + [sub])[k] == subs[k] && subs[k].id in SubmissionIds(subs);
  }

  lemma AppendKeepsOwners(subs: seq<Submission>, sub: Submission, ids: set<Id>)
    requires (forall k :: 0 <= k < |subs| ==> subs[k].user_id in ids) && sub.user_id in ids
    ensures forall k :: 0 <= k < |subs| + 1 ==> (subs + [sub])[k].user_id in ids
  {
  }

  /** Logging in twice with names that differ only in case yields the same user,
      the second call changes nothing, and at most one user is added in all. */
  lemma CaseInsensitiveLogin(db: LocalDB, a: string, b: string, id1: Id, id2: Id, t1: nat, t2: nat)
    requires EqualIgnoringCase(a, b)
    ensures var (db1, u1) := GetOrCreate(db, a, id1, t1);
            var (db2, u2) := GetOrCreate(db1, b, id2, t2);
            && u2.id == u1.id
            && db2 == db1
            && |db2.users| <= |db.users| + 1
  {
    LowerEqualIff(a, b);
    var (db1, u1) := GetOrCreate(db, a, id1, t1);
    if IndexOfName(db.users, a) == -1 {
      assert db1.users[|db.users|] == u1;
      assert forall k :: 0 <= k < |db.users| ==> db1.users[k] == db.users[k];
      assert IndexOfName(db1.users, b) == |db.users|;
    } else {
      assert IndexOfName(db1.users, b) == IndexOfName(db.users, a);
    }
  }

  /** A second submission less than COOLDOWN after an accepted one is refused
      and changes nothing (the accepted submission is at least as new as `t1`). */
  lemma RejectedWithinCooldown(db: LocalDB, userId: Id, s1: Id, s2: Id, t1: nat, t2: nat)
    requires Submit(db, userId, s1, t1).1.Success?
    requires t2 < t1 + COOLDOWN
    ensures var db1 := Submit(db, userId, s1, t1).0;
            Submit(db1, userId, s2, t2) == (db1, Failure(RateLimited))
  {
    var db1 := Submit(db, userId, s1, t1).0;
    var k := |db.submissions|;
    assert db1.submissions[k] == Submission(s1, userId, t1);
    TooSoonIff(db1.submissions, userId, t2);
    assert UserIds(db1.users) == UserIds(db.users) by {
      assert forall j :: 0 <= j < |db.users| ==> db1.users[j].id == db.users[j].id;
    }
  }

  /** With a clock that never runs backwards (no stored submission is newer
      than `t1`), a submission COOLDOWN or more after an accepted one is accepted. */
  lemma AcceptedAfterCooldown(db: LocalDB, userId: Id, s1: Id, s2: Id, t1: nat, t2: nat)
    requires forall k :: 0 <= k < |db.submissions| ==> db.submissions[k].created_at <= t1
    requires Submit(db, userId, s1, t1).1.Success?
    requires t2 >= t1 + COOLDOWN
    ensures var db1 := Submit(db, userId, s1, t1).0;
            Submit(db1, userId, s2, t2).1.Success?
  {
    var db1 := Submit(db, userId, s1, t1).0;
    assert forall k :: 0 <= k < |db1.submissions| ==> db1.submissions[k].created_at <= t1;
    TooSoonIff(db1.submissions, userId, t2);
    assert UserIds(db1.users) == UserIds(db.users) by {
      assert forall j :: 0 <= j < |db.users| ==> db1.users[j].id == db.users[j].id;
    }
  }

  /** Reordering the users does not change which identifiers are stored. */
  lemma UserIdsOfPermutation(a: seq<User>, b: seq<User>)
    requires multiset(a) == multiset(b)
    ensures UserIds(a) == UserIds(b)
  {
    forall x | x in UserIds(a) ensures x in UserIds(b) {
      var k :| 0 <= k < |a| && a[k].id == x;
      assert a[k] in multiset(b);
      var j :| 0 <= j < |b| && b[j] == a[k];
    }
    forall x | x in UserIds(b) ensures x in UserIds(a) {
      var k :| 0 <= k < |b| && b[k].id == x;
      assert b[k] in multiset(a);
      var j :| 0 <= j < |a| && a[j] == b[k];
    }
  }

  /** One call of the submission operation, with the identifier and clock reading it uses. */
  datatype SubmitCall = SubmitCall(userId: Id, subId: Id, now: nat)

  /** The document after a series of submission calls, each applied to the result of the one before. */
  function Replay(db: LocalDB, calls: seq<SubmitCall>): LocalDB
    decreases |calls|
  {
    if calls == [] then db
    else
      var c := calls[0];
      Replay(Submit(db, c.userId, c.subId, c.now).0, calls[1..])
  }

  /** How many of those calls were accepted for user `id`. */
  function AcceptedFor(db: LocalDB, calls: seq<SubmitCall>, id: Id): nat
    decreases |calls|
  {
    if calls == [] then 0
    else
      var c := calls[0];
      var (db', outcome) := Submit(db, c.userId, c.subId, c.now);
      (if outcome.Success? && c.userId == id then 1 else 0) + AcceptedFor(db', calls[1..], id)
  }

  /** Over any series of submission calls, each user's counter grows by exactly
      the number of that user's calls that were accepted; refused calls,
      including those the cooldown refuses, add nothing. */
  lemma {:induction false} ReplayCounts(db: LocalDB, calls: seq<SubmitCall>, k: nat)
    requires UniqueUserIds(db.users) && k < |db.users|
    ensures |Replay(db, calls).users| == |db.users|
    ensures Replay(db, calls).users[k].id == db.users[k].id
    ensures Replay(db, calls).users[k].total_submissions
            == db.users[k].total_submissions + AcceptedFor(db, calls, db.users[k].id)
    decreases |calls|
  {
    if calls != [] {
      var c := calls[0];
      var (db', outcome) := Submit(db, c.userId, c.subId, c.now);
      if outcome.Success? {
        IncrementKeepsIds(db.users, IndexOfId(db.users, c.userId));
      }
      assert UniqueUserIds(db'.users);
      assert db'.users[k].total_submissions
             == db.users[k].total_submissions + (if outcome.Success? && c.userId == db.users[k].id then 1 else 0);
      ReplayCounts(db', calls[1..], k);
    }
  }
}
