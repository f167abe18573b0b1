/** The storage service: one slot of browser storage holding the whole document
    as a blob, and the four operations the leaderboard calls. Each operation
    loads the document, works on it and, when it changed something, writes the
    whole document back. */
module StorageService {
  import opened Types
  import opened Search
  import opened Ranking
  import opened Ledger

  class Store {
    /** The storage slot: None until the first write. */
    var blob: Option<LocalDB>

    /** A store whose slot has never been written. */
    constructor ()
      ensures blob == None && Valid()
    {
      blob := None;
    }

    /** Loading: an absent blob reads as the empty document, a stored one as itself. */
    function GetDB(): (db: LocalDB)
      reads this
      ensures blob == None ==> db == EMPTY_DB
      ensures blob != None ==> blob == Some(db)
    {
      match blob
      case None => EMPTY_DB
      case Some(db) => db
    }

    /** Saving replaces the stored document wholesale. */
    method SaveDB(db: LocalDB)
      modifies this
      ensures blob == Some(db) && GetDB() == db
    {
      blob := Some(db);
    }

    /** The stored document satisfies the data invariant, and no two users
        have names equal up to case. */
    ghost predicate Valid()
      reads this
    {
      Consistent(GetDB()) && UniqueNames(GetDB().users)
    }

    /** All users in leaderboard order: a permutation of the stored users,
        highest count first, users with equal counts in stored order. The
        stored order itself is not changed. */
    function GetUsers(): (r: seq<User>)
      reads this
      ensures |r| == |GetDB().users| && multiset(r) == multiset(GetDB().users)
      ensures SortedDesc(r)
      ensures forall c :: WithCount(r, c) == WithCount(GetDB().users, c)
    {
      SortByCount(GetDB().users)
    }

    /** The 1-based leaderboard position of the user with `userId`, or 0 when no
        user has that identifier. */
    function GetRank(userId: Id): (r: int)
      reads this
      ensures 0 <= r <= |GetDB().users|
      ensures r == 0 <==> userId !in UserIds(GetDB().users)
      ensures r > 0 ==> GetUsers()[r - 1].id == userId
      ensures r > 0 ==> forall k :: 0 <= k < r - 1 ==> GetUsers()[k].id != userId
    {
      var users := GetDB().users;
      var ranked := SortByCount(users);
      UserIdsOfPermutation(ranked, users);
      IndexOfId(ranked, userId) + 1
    }

    /** Log-in by name: the first stored user whose name matches up to case,
        with nothing written; otherwise a new user with `freshId`, count 0 and
        `created_at == now`, appended and saved. */
    method GetOrCreateUser(username: string, freshId: Id, now: nat) returns (user: User)
      requires FreshId(GetDB(), freshId)
      modifies this
      ensures (GetDB(), user) == GetOrCreate(old(GetDB()), username, freshId, now)
      ensures IndexOfName(old(GetDB()).users, username) >= 0 ==> blob == old(blob)
      ensures IndexOfName(old(GetDB()).users, username) < 0 ==> blob == Some(GetDB())
      ensures old(Valid()) ==> Valid()
    {
      var db := GetDB();
      var i := IndexOfName(db.users, username);
      if i >= 0 {
        return db.users[i];
      }
      user := User(freshId, username, 0, now);
      if Consistent(db) {
        GetOrCreateKeepsConsistent(db, username, freshId, now);
      }
      if UniqueNames(db.users) {
        GetOrCreateKeepsUniqueNames(db, username, freshId, now);
      }
      db := LocalDB(db.users + [user], db.submissions);
      SaveDB(db);
    }

    /** One submission by `userId` at `now`: refused with nothing written when the
        user is unknown or inside the cooldown; otherwise the new submission is
        appended, the user's counter goes up by one, the document is saved and
        the updated user is returned. */
    method AddSubmission(userId: Id, subId: Id, now: nat) returns (result: SubmitOutcome)
      requires FreshId(GetDB(), subId)
      modifies this
      ensures (GetDB(), result) == Submit(old(GetDB()), userId, subId, now)
      ensures result.Failure? ==> blob == old(blob)
      ensures result.Success? ==> blob == Some(GetDB())
      ensures old(Valid()) ==> Valid()
    {
      var db := GetDB();
      var i := IndexOfId(db.users, userId);
      if i == -1 {
        return Failure(UserNotFound);
      }
      if TooSoon(db.submissions, userId, now) {
        return Failure(RateLimited);
      }
      if Consistent(db) {
        SubmitKeepsConsistent(db, userId, subId, now);
      }
      if UniqueNames(db.users) {
        SubmitKeepsUniqueNames(db, userId, subId, now);
      }
      var users := Incremented(db.users, i);
      db := LocalDB(users, db.submissions + [Submission(subId, userId, now)]);
      SaveDB(db);
      result := Success(db.users[i]);
    }
  }

  /** A user whose count is above every other user's is ranked first. */
  lemma TopUserRanksFirst(st: Store, u: User)
    requires u in st.GetDB().users
    requires forall v :: v in st.GetDB().users && v.id != u.id ==> v.total_submissions < u.total_submissions
    ensures st.GetRank(u.id) == 1
  {
    var ranked := st.GetUsers();
    assert u in multiset(ranked);
    var p :| 0 <= p < |ranked| && ranked[p] == u;
    assert ranked[0] in multiset(st.GetDB().users);
    assert ranked[0].id == u.id;
  }

  /** A user with a higher count is ranked strictly ahead of one with a lower count. */
  lemma HigherCountRanksAhead(st: Store, u: User, v: User)
    requires st.Valid()
    requires u in st.GetDB().users && v in st.GetDB().users
    requires u.total_submissions > v.total_submissions
    ensures 0 < st.GetRank(u.id) < st.GetRank(v.id)
  {
    HigherCountSortsAhead(st.GetDB().users, u, v);
  }

  /** The ranking order puts the first occurrence of a higher-count user's
      identifier before that of a lower-count user. */
  lemma HigherCountSortsAhead(users: seq<User>, u: User, v: User)
    requires UniqueUserIds(users)
    requires u in users && v in users
    requires u.total_submissions > v.total_submissions
    ensures var ranked := SortByCount(users);
            0 <= IndexOfId(ranked, u.id) < IndexOfId(ranked, v.id)
  {
    var ranked := SortByCount(users);
    UserIdsOfPermutation(ranked, users);
    assert u.id in UserIds(users) && v.id in UserIds(users);
    var pu, pv := IndexOfId(ranked, u.id), IndexOfId(ranked, v.id);
    var x, y := ranked[pu], ranked[pv];
    assert x in multiset(users) && y in multiset(users);
    SameIdSameUser(users, x, u);
    SameIdSameUser(users, y, v);
    SortedPositions(ranked, pu, pv);
  }

  /** In a list sorted by count, a strictly higher count sits strictly earlier. */
  lemma SortedPositions(s: seq<User>, i: nat, j: nat)
    requires SortedDesc(s) && i < |s| && j < |s|
    requires s[i].total_submissions > s[j].total_submissions
    ensures i < j
  {
  }

  /** With unique identifiers, a user in a permutation of the stored users is
      the stored user with the same identifier. */
  lemma SameIdSameUser(users: seq<User>, x: User, y: User)
    requires UniqueUserIds(users) && x in users && y in users && x.id == y.id
    ensures x == y
  {
  }

  /** Users with equal counts are ranked in the order they are stored in. */
  lemma EqualCountRanksInStoredOrder(st: Store, i: nat, j: nat)
    requires st.Valid()
    requires i < j < |st.GetDB().users|
    requires st.GetDB().users[i].total_submissions == st.GetDB().users[j].total_submissions
    ensures 0 < st.GetRank(st.GetDB().users[i].id) < st.GetRank(st.GetDB().users[j].id)
  {
    EqualCountSortsInStoredOrder(st.GetDB().users, i, j);
  }

  /** The ranking order keeps the stored order of two users with equal counts,
      and so does the position of their identifiers. */
  lemma EqualCountSortsInStoredOrder(users: seq<User>, i: nat, j: nat)
    requires UniqueUserIds(users)
    requires i < j < |users|
    requires users[i].total_submissions == users[j].total_submissions
    ensures var ranked := SortByCount(users);
            0 <= IndexOfId(ranked, users[i].id) < IndexOfId(ranked, users[j].id)
  {
    var ranked := SortByCount(users);
    var x, y := users[i], users[j];
    assert Before(users, x, y);
    SortKeepsOrderOfEqualCounts(users, x, y);
    var p, q :| 0 <= p < q < |ranked| && ranked[p] == x && ranked[q] == y;
    UniqueIdsOfPermutation(ranked, users);
    var a, b := IndexOfId(ranked, x.id), IndexOfId(ranked, y.id);
    assert x.id in UserIds(ranked) && y.id in UserIds(ranked);
    assert ranked[a].id == ranked[p].id && ranked[b].id == ranked[q].id;
    assert a == p && b == q;
  }

  /** Reordering users with unique identifiers keeps them unique. */
  lemma UniqueIdsOfPermutation(a: seq<User>, b: seq<User>)
    requires multiset(a) == multiset(b) && UniqueUserIds(b)
    ensures UniqueUserIds(a)
  {
    forall i, j | 0 <= i < |a| && 0 <= j < |a| && a[i].id == a[j].id ensures i == j {
      assert a[i] in multiset(b) && a[j] in multiset(b);
      SameIdSameUser(b, a[i], a[j]);
      var k :| 0 <= k < |b| && b[k] == a[i];
      OccursOnce(b, k);
      SinglePosition(a, i, j);
    }
  }

  /** With unique identifiers every stored user occurs exactly once. */
  lemma OccursOnce(s: seq<User>, i: nat)
    requires UniqueUserIds(s) && i < |s|
    ensures multiset(s)[s[i]] == 1
  {
    assert s == s[..i] + [s[i]] + s[i + 1..];
    assert s[i] !in s[..i];
    assert s[i] !in s[i + 1..];
  }

  /** A value that occurs once in `s` sits at one position only. */
  lemma SinglePosition(s: seq<User>, i: nat, j: nat)
    requires i < |s| && j < |s| && s[i] == s[j] && multiset(s)[s[i]] == 1
    ensures i == j
  {
    if i < j {
      TwoPositions(s, i, j);
    } else if j < i {
      TwoPositions(s, j, i);
    }
  }

  /** A value at two positions occurs at least twice. */
  lemma TwoPositions(s: seq<User>, i: nat, j: nat)
    requires i < j < |s| && s[i] == s[j]
    ensures multiset(s)[s[i]] >= 2
  {
    assert s == s[..j] + [s[j]] + s[j + 1..];
    assert s[..j][i] == s[i];
  }
}
