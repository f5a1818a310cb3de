/** How the store lists records. Ids are handed out in increasing order,
    so "newest first" lists ids from the largest down. An ordering by a
    column (credibility) gets the primary key, ascending, as tie-break
    (Prisma appends it whenever `take` or a cursor is given); it is a
    stable sort of the oldest-first list, so equal values stay in id order. */
module Listing {
  predicate StrictlyDescending(s: seq<nat>) {
    forall i, j :: 0 <= i < j < |s| ==> s[i] > s[j]
  }

  predicate Distinct(s: seq<nat>) {
    forall i, j :: 0 <= i < j < |s| ==> s[i] != s[j]
  }

  /** The ids below n that have a record passing `keep`, newest first. */
  function NewestFirst<T>(m: map<nat, T>, keep: T -> bool, n: nat): (r: seq<nat>)
    ensures StrictlyDescending(r)
    ensures forall k :: 0 <= k < |r| ==> r[k] < n && r[k] in m && keep(m[r[k]])
    decreases n
  {
    if n == 0 then []
    else
      var rest := NewestFirst(m, keep, n - 1);
      if n - 1 in m && keep(m[n - 1]) then [n - 1] + rest else rest
  }

  /** Nothing that passes `keep` is missed. */
  lemma {:induction false} NewestFirstComplete<T>(m: map<nat, T>, keep: T -> bool, n: nat, i: nat)
    requires i < n && i in m && keep(m[i])
    ensures i in NewestFirst(m, keep, n)
    decreases n
  {
    if i < n - 1 {
      NewestFirstComplete(m, keep, n - 1, i);
    }
  }

  /** When no record passes `keep`, the listing is empty. */
  lemma {:induction false} NewestFirstNone<T>(m: map<nat, T>, keep: T -> bool, n: nat)
    requires forall i :: i in m ==> !keep(m[i])
    ensures NewestFirst(m, keep, n) == []
    decreases n
  {
    if n > 0 {
      NewestFirstNone(m, keep, n - 1);
    }
  }

  predicate StrictlyAscending(s: seq<nat>) {
    forall i, j :: 0 <= i < j < |s| ==> s[i] < s[j]
  }

  /** The newest-first ordering as a relation: `a` is listed before `b`. */
  predicate Newer(a: nat, b: nat) {
    a > b
  }

  /** The ids below n that have a record passing `keep`, oldest first. */
  function OldestFirst<T>(m: map<nat, T>, keep: T -> bool, n: nat): (r: seq<nat>)
    ensures StrictlyAscending(r)
    ensures forall k :: 0 <= k < |r| ==> r[k] < n && r[k] in m && keep(m[r[k]])
    decreases n
  {
    if n == 0 then []
    else
      var rest := OldestFirst(m, keep, n - 1);
      if n - 1 in m && keep(m[n - 1]) then rest + [n - 1] else rest
  }

  /** Nothing that passes `keep` is missed. */
  lemma {:induction false} OldestFirstComplete<T>(m: map<nat, T>, keep: T -> bool, n: nat, i: nat)
    requires i < n && i in m && keep(m[i])
    ensures i in OldestFirst(m, keep, n)
    decreases n
  {
    if i < n - 1 {
      OldestFirstComplete(m, keep, n - 1, i);
    }
  }

  lemma AscendingIsDistinct(s: seq<nat>)
    requires StrictlyAscending(s)
    ensures Distinct(s)
  {
  }

  lemma DescendingIsDistinct(s: seq<nat>)
    requires StrictlyDescending(s)
    ensures Distinct(s)
  {
  }

  /** Inserts x in front of the first element whose rank is not higher, so
      x stays ahead of the equal-ranked elements it preceded. */
  function Insert(x: nat, t: seq<nat>, rank: nat -> int): (r: seq<nat>)
    ensures multiset(r) == multiset(t) + multiset{x}
    decreases |t|
  {
    if |t| == 0 || rank(t[0]) <= rank(x) then [x] + t
    else
      assert t == [t[0]] + t[1..];
      [t[0]] + Insert(x, t[1..], rank)
  }

  /** Stable sort, highest rank first. */
  function SortByRank(s: seq<nat>, rank: nat -> int): (r: seq<nat>)
    ensures multiset(r) == multiset(s)
    decreases |s|
  {
    if |s| == 0 then []
    else
      assert s == [s[0]] + s[1..];
      Insert(s[0], SortByRank(s[1..], rank), rank)
  }

  predicate RankedDesc(s: seq<nat>, rank: nat -> int) {
    forall i, j :: 0 <= i < j < |s| ==> rank(s[i]) >= rank(s[j])
  }

  /** Any contiguous run of a ranked list is ranked. */
  lemma SliceRanked(s: seq<nat>, a: nat, b: nat, rank: nat -> int)
    requires RankedDesc(s, rank) && a <= b <= |s|
    ensures RankedDesc(s[a..b], rank)
  {
    forall i, j | 0 <= i < j < b - a ensures rank(s[a..b][i]) >= rank(s[a..b][j]) {
      assert s[a..b][i] == s[a + i] && s[a..b][j] == s[a + j];
    }
  }

  lemma {:induction false} InsertRanked(x: nat, t: seq<nat>, rank: nat -> int)
    requires RankedDesc(t, rank)
    ensures RankedDesc(Insert(x, t, rank), rank)
    ensures |Insert(x, t, rank)| > 0
    ensures Insert(x, t, rank)[0] == x || (|t| > 0 && Insert(x, t, rank)[0] == t[0])
    decreases |t|
  {
    if |t| > 0 && rank(t[0]) > rank(x) {
      InsertRanked(x, t[1..], rank);
      var r := Insert(x, t[1..], rank);
      assert forall k :: 0 <= k < |r| ==> rank(t[0]) >= rank(r[k]) by {
        forall k | 0 <= k < |r| ensures rank(t[0]) >= rank(r[k]) {
          assert r[k] in multiset(r);
          assert r[k] in multiset(t[1..]) + multiset{x};
          if r[k] != x {
            var j :| 0 <= j < |t[1..]| && t[1..][j] == r[k];
            assert t[j + 1] == r[k];
          }
        }
      }
    }
  }

  /** The sorted list is a permutation of the input, highest rank first. */
  lemma {:induction false} SortRanked(s: seq<nat>, rank: nat -> int)
    ensures RankedDesc(SortByRank(s, rank), rank)
    decreases |s|
  {
    if |s| > 0 {
      SortRanked(s[1..], rank);
      InsertRanked(s[0], SortByRank(s[1..], rank), rank);
    }
  }

  /** The elements of s that have rank c, in order. */
  function OfRank(s: seq<nat>, rank: nat -> int, c: int): seq<nat>
    decreases |s|
  {
    if |s| == 0 then [] else (if rank(s[0]) == c then [s[0]] else []) + OfRank(s[1..], rank, c)
  }

  lemma {:induction false} OfRankAppend(a: seq<nat>, b: seq<nat>, rank: nat -> int, c: int)
    ensures OfRank(a + b, rank, c) == OfRank(a, rank, c) + OfRank(b, rank, c)
    decreases |a|
  {
    if |a| > 0 {
      assert (a + b)[1..] == a[1..] + b;
      OfRankAppend(a[1..], b, rank, c);
    } else {
      assert a + b == b;
    }
  }

  lemma {:induction false} InsertOfRank(x: nat, t: seq<nat>, rank: nat -> int, c: int)
    ensures OfRank(Insert(x, t, rank), rank, c) == OfRank([x], rank, c) + OfRank(t, rank, c)
    decreases |t|
  {
    if |t| == 0 || rank(t[0]) <= rank(x) {
      OfRankAppend([x], t, rank, c);
    } else {
      InsertOfRank(x, t[1..], rank, c);
      var r := Insert(x, t[1..], rank);
      OfRankAppend([t[0]], r, rank, c);
      OfRankAppend([t[0]], t[1..], rank, c);
      assert [t[0]] + t[1..] == t;
      if rank(x) == c {
        assert OfRank([t[0]], rank, c) == [];
      }
    }
  }

  /** Stability: for every rank, the elements of that rank appear in the
      sorted list in the same order as in the input. */
  lemma {:induction false} SortStable(s: seq<nat>, rank: nat -> int, c: int)
    ensures OfRank(SortByRank(s, rank), rank, c) == OfRank(s, rank, c)
    decreases |s|
  {
    if |s| > 0 {
      SortStable(s[1..], rank, c);
      InsertOfRank(s[0], SortByRank(s[1..], rank), rank, c);
      OfRankAppend([s[0]], s[1..], rank, c);
      assert [s[0]] + s[1..] == s;
    }
  }

  /** Picking out one rank keeps an ascending list ascending, and picks
      only elements of the list. */
  lemma {:induction false} OfRankAscending(s: seq<nat>, rank: nat -> int, c: int)
    requires StrictlyAscending(s)
    ensures StrictlyAscending(OfRank(s, rank, c))
    ensures forall k :: 0 <= k < |OfRank(s, rank, c)| ==> OfRank(s, rank, c)[k] in s[..]
    decreases |s|
  {
    if |s| > 0 {
      var rest := OfRank(s[1..], rank, c);
      OfRankAscending(s[1..], rank, c);
      forall k | 0 <= k < |rest| ensures s[0] < rest[k] && rest[k] in s[..] {
        var j :| 0 <= j < |s[1..]| && s[1..][j] == rest[k];
        assert s[j + 1] == rest[k];
      }
    }
  }

  /** Sorting keeps a list of distinct ids distinct. */
  lemma DistinctByMultiset(r: seq<nat>, s: seq<nat>)
    requires multiset(r) == multiset(s) && Distinct(s)
    ensures Distinct(r)
  {
    forall i, j | 0 <= i < j < |r| ensures r[i] != r[j] {
      if r[i] == r[j] {
        var x := r[i];
        assert r == r[..i] + [x] + r[i + 1..j] + [x] + r[j + 1..];
        assert multiset(r)[x] >= 2;
        DistinctCount(s, x);
      }
    }
  }

  lemma {:induction false} DistinctCount(s: seq<nat>, x: nat)
    requires Distinct(s)
    ensures multiset(s)[x] <= 1
    decreases |s|
  {
    if |s| > 0 {
      assert s == [s[0]] + s[1..];
      assert Distinct(s[1..]) by {
        forall i, j | 0 <= i < j < |s[1..]| ensures s[1..][i] != s[1..][j] {
          assert s[1..][i] == s[i + 1] && s[1..][j] == s[j + 1];
        }
      }
      DistinctCount(s[1..], x);
      if s[0] == x {
        assert x !in s[1..] by {
          forall k | 0 <= k < |s[1..]| ensures s[1..][k] != x {
            assert s[1..][k] == s[k + 1];
          }
        }
      }
    }
  }
}
