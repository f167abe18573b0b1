/** The leaderboard order: users sorted by `total_submissions`, highest first,
    with a stable sort (users with equal counts keep their stored order), as
    `users.sort((a, b) => b.total_submissions - a.total_submissions)` does. */
module Ranking {
  import opened Types

  /** Non-increasing by submission count. */
  ghost predicate SortedDesc(s: seq<User>) {
    forall i, j :: 0 <= i < j < |s| ==> s[i].total_submissions >= s[j].total_submissions
  }

  /** The users of `s` whose count is `c`, in the order they have in `s`. */
  function WithCount(s: seq<User>, c: nat): seq<User> {
    if s == [] then []
    else (if s[0].total_submissions == c then [s[0]] else []) + WithCount(s[1..], c)
  }

  /** Puts `u` in front of the first user of `s` whose count is not above its own. */
  function Insert(u: User, s: seq<User>): (r: seq<User>)
    requires SortedDesc(s)
    ensures SortedDesc(r)
    ensures |r| == |s| + 1 && multiset(r) == multiset(s) + multiset{u}
    ensures r[0] == u || (s != [] && r[0] == s[0])
  {
    if s == [] || s[0].total_submissions <= u.total_submissions then
      assert ([u] + s)[1..] == s;
      [u] + s
    else
      var rest := Insert(u, s[1..]);
      assert ([s[0]] + rest)[1..] == rest;
      assert s == [s[0]] + s[1..];
      assert multiset([s[0]] + rest) == multiset{s[0]} + multiset(rest);
      [s[0]] + rest
  }

  /** Among the users of `u`'s count, Insert puts `u` first; the users of every
      other count are left as they are. */
  lemma {:induction false} InsertKeepsGroups(u: User, s: seq<User>, c: nat)
    requires SortedDesc(s)
    ensures WithCount(Insert(u, s), c) == if c == u.total_submissions then [u] + WithCount(s, c) else WithCount(s, c)
  {
    if s == [] || s[0].total_submissions <= u.total_submissions {
      assert ([u] + s)[1..] == s;
    } else {
      var rest := Insert(u, s[1..]);
      assert ([s[0]] + rest)[1..] == rest;
      InsertKeepsGroups(u, s[1..], c);
    }
  }

  /** The stored users in leaderboard order: a permutation of `s`, sorted by
      count from highest to lowest, and stable (for every count, the users with
      that count appear in the same relative order as in `s`). */
  function SortByCount(s: seq<User>): (r: seq<User>)
    ensures |r| == |s| && multiset(r) == multiset(s)
    ensures SortedDesc(r)
    ensures forall c :: WithCount(r, c) == WithCount(s, c)
  {
    if s == [] then []
    else
      assert s == [s[0]] + s[1..];
      var rest := SortByCount(s[1..]);
      assert forall c :: WithCount(Insert(s[0], rest), c) == WithCount(s, c) by {
        forall c: nat ensures WithCount(Insert(s[0], rest), c) == WithCount(s, c) {
          InsertKeepsGroups(s[0], rest, c);
        }
      }
      Insert(s[0], rest)
  }

  /** WithCount keeps exactly the users with count `c`. */
  lemma {:induction false} WithCountMembers(s: seq<User>, c: nat, x: User)
    ensures x in WithCount(s, c) <==> x in s && x.total_submissions == c
  {
    if s != [] {
      WithCountMembers(s[1..], c, x);
      assert s == [s[0]] + s[1..];
    }
  }

  /** `x` occurs in `s` at some position before one where `y` occurs. */
  ghost predicate Before(s: seq<User>, x: User, y: User) {
    exists i, j :: 0 <= i < j < |s| && s[i] == x && s[j] == y
  }

  /** Two users with count `c` in a given order stay in that order among the users with count `c`. */
  lemma {:induction false} BeforeInWithCount(s: seq<User>, x: User, y: User, c: nat)
    requires Before(s, x, y) && x.total_submissions == c && y.total_submissions == c
    ensures Before(WithCount(s, c), x, y)
  {
    var i, j :| 0 <= i < j < |s| && s[i] == x && s[j] == y;
    var rest := WithCount(s[1..], c);
    if i == 0 {
      assert y in rest by {
        assert s[1..][j - 1] == y;
        WithCountMembers(s[1..], c, y);
      }
      var q :| 0 <= q < |rest| && rest[q] == y;
      assert WithCount(s, c) == [x] + rest;
      assert WithCount(s, c)[0] == x && WithCount(s, c)[q + 1] == y;
    } else {
      assert s[1..][i - 1] == x && s[1..][j - 1] == y;
      BeforeInWithCount(s[1..], x, y, c);
      var p, q :| 0 <= p < q < |rest| && rest[p] == x && rest[q] == y;
      var head := if s[0].total_submissions == c then [s[0]] else [];
      assert WithCount(s, c) == head + rest;
      assert WithCount(s, c)[|head| + p] == x && WithCount(s, c)[|head| + q] == y;
    }
  }

  /** The order among the users with count `c` is an order the users have in `s`. */
  lemma {:induction false} BeforeFromWithCount(s: seq<User>, x: User, y: User, c: nat)
    requires Before(WithCount(s, c), x, y)
    ensures Before(s, x, y)
  {
    var w := WithCount(s, c);
    var p, q :| 0 <= p < q < |w| && w[p] == x && w[q] == y;
    var rest := WithCount(s[1..], c);
    if s[0].total_submissions == c && p == 0 {
      assert w == [s[0]] + rest;
      assert y in s[1..] by {
        assert rest[q - 1] == y;
        WithCountMembers(s[1..], c, y);
      }
      var j :| 0 <= j < |s[1..]| && s[1..][j] == y;
      assert s[0] == x && s[j + 1] == y;
    } else {
      var head := if s[0].total_submissions == c then [s[0]] else [];
      assert w == head + rest;
      assert rest[p - |head|] == x && rest[q - |head|] == y;
      BeforeFromWithCount(s[1..], x, y, c);
      var i, j :| 0 <= i < j < |s[1..]| && s[1..][i] == x && s[1..][j] == y;
      assert s[i + 1] == x && s[j + 1] == y;
    }
  }

  /** A stable sort keeps the relative order of two users with equal counts. */
  lemma SortKeepsOrderOfEqualCounts(s: seq<User>, x: User, y: User)
    requires Before(s, x, y) && x.total_submissions == y.total_submissions
    ensures Before(SortByCount(s), x, y)
  {
    var c := x.total_submissions;
    BeforeInWithCount(s, x, y, c);
    BeforeFromWithCount(SortByCount(s), x, y, c);
  }

  /** The leaderboard order is the only one that is sorted by count and keeps,
      for each count, the stored order: any such arrangement is SortByCount. */
  lemma StableSortIsUnique(s: seq<User>, t: seq<User>)
    requires SortedDesc(t)
    requires forall c :: WithCount(t, c) == WithCount(s, c)
    ensures t == SortByCount(s)
  {
    SameGroupsSameSequence(t, SortByCount(s));
  }

  /** Two sequences sorted by count with the same users of each count, in the same order, are equal. */
  lemma {:induction false} SameGroupsSameSequence(a: seq<User>, b: seq<User>)
    requires SortedDesc(a) && SortedDesc(b)
    requires forall c :: WithCount(a, c) == WithCount(b, c)
    ensures a == b
  {
    if a == [] || b == [] {
      if a != [] {
        WithCountMembers(a, a[0].total_submissions, a[0]);
        WithCountMembers(b, a[0].total_submissions, a[0]);
      }
      if b != [] {
        WithCountMembers(b, b[0].total_submissions, b[0]);
        WithCountMembers(a, b[0].total_submissions, b[0]);
      }
    } else {
      var m := a[0].total_submissions;
      WithCountMembers(b, m, a[0]);
      WithCountMembers(a, b[0].total_submissions, b[0]);
      WithCountMembers(b, b[0].total_submissions, b[0]);
      WithCountMembers(a, m, a[0]);
      assert b[0].total_submissions == m;
      assert a[0] == b[0] by {
        assert WithCount(a, m)[0] == a[0] && WithCount(b, m)[0] == b[0];
      }
      forall c: nat ensures WithCount(a[1..], c) == WithCount(b[1..], c) {
        assert WithCount(a, c) == WithCount(b, c);
        if c == m {
          assert WithCount(a[1..], c) == WithCount(a, c)[1..];
          assert WithCount(b[1..], c) == WithCount(b, c)[1..];
        } else {
          assert WithCount(a[1..], c) == WithCount(a, c);
          assert WithCount(b[1..], c) == WithCount(b, c);
        }
      }
      SameGroupsSameSequence(a[1..], b[1..]);
      assert a == [a[0]] + a[1..] && b == [b[0]] + b[1..];
    }
  }
}
