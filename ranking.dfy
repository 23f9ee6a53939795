/** The display order (`rankSort`), the narrower merge rule (`isBetterResult`),
    and the ranked top-N view: sort with the comparator, keep the first n
    (api/leaderboard.js, lines 42-53, 152 and 186). */
module Ranking {
  import opened Wrappers
  import opened Records

  function Min(a: nat, b: nat): nat {
    if a <= b then a else b
  }

  function Sign(x: int): int {
    if x < 0 then -1 else if x == 0 then 0 else 1
  }

  // ---------------------------------------------------------------------
  // rankSort
  // ---------------------------------------------------------------------

  /** `a` goes first: higher score, else shorter duration, else earlier creation. */
  predicate KeyBefore(a: Entry, b: Entry) {
    || a.score > b.score
    || (a.score == b.score && a.durationMs < b.durationMs)
    || (a.score == b.score && a.durationMs == b.durationMs && a.createdAt < b.createdAt)
  }

  /** All three sort keys agree. */
  predicate SameRankKey(a: Entry, b: Entry) {
    a.score == b.score && a.durationMs == b.durationMs && a.createdAt == b.createdAt
  }

  /** `rankSort(a, b)`: negative when `a` is displayed before `b`, zero only
      when all three keys are equal. */
  function RankSort(a: Entry, b: Entry): int {
    if b.score != a.score then b.score - a.score
    else if a.durationMs != b.durationMs then a.durationMs - b.durationMs
    else a.createdAt - b.createdAt
  }

  /** The sign of `rankSort` is the lexicographic comparison of the three keys. */
  lemma RankSortMeaning(a: Entry, b: Entry)
    ensures RankSort(a, b) < 0 <==> KeyBefore(a, b)
    ensures RankSort(a, b) > 0 <==> KeyBefore(b, a)
    ensures RankSort(a, b) == 0 <==> SameRankKey(a, b)
  {
  }

  /** Swapping the arguments flips the sign. */
  lemma RankSortAntisymmetric(a: Entry, b: Entry)
    ensures Sign(RankSort(a, b)) == -Sign(RankSort(b, a))
  {
  }

  /** "Strictly before" and "before or tied" are both transitive. */
  lemma RankSortTransitive(a: Entry, b: Entry, c: Entry)
    ensures RankSort(a, b) < 0 && RankSort(b, c) < 0 ==> RankSort(a, c) < 0
    ensures RankSort(a, b) <= 0 && RankSort(b, c) <= 0 ==> RankSort(a, c) <= 0
  {
  }

  /** Any two rows are comparable. */
  lemma RankSortTotal(a: Entry, b: Entry)
    ensures RankSort(a, b) <= 0 || RankSort(b, a) <= 0
  {
  }

  // ---------------------------------------------------------------------
  // isBetterResult
  // ---------------------------------------------------------------------

  /** `isBetterResult(next, prev)`: anything beats no result; otherwise a
      higher score wins, and on equal scores only a strictly shorter duration. */
  predicate IsBetterResult(next: Merit, prev: Option<Merit>) {
    match prev
    case None => true
    case Some(p) =>
      if next.score > p.score then true
      else if next.score < p.score then false
      else next.durationMs < p.durationMs
  }

  /** An identical resubmission is not better, so it is not saved. */
  lemma EqualIsNotBetter(m: Merit)
    ensures IsBetterResult(m, None)
    ensures !IsBetterResult(m, Some(m))
  {
  }

  /** Of two different results exactly one beats the other. */
  lemma BetterTrichotomy(a: Merit, b: Merit)
    ensures a != b ==> (IsBetterResult(a, Some(b)) <==> !IsBetterResult(b, Some(a)))
    ensures IsBetterResult(a, Some(b)) ==> !IsBetterResult(b, Some(a))
  {
  }

  lemma BetterTransitive(a: Merit, b: Merit, c: Merit)
    requires IsBetterResult(a, Some(b)) && IsBetterResult(b, Some(c))
    ensures IsBetterResult(a, Some(c))
  {
  }

  /** The merge rule agrees with the display order wherever it decides:
      a better result is displayed first whatever the timestamps, and of two
      rows with different score or duration the one displayed first is better. */
  lemma BetterRanksEarlier(a: Entry, b: Entry)
    ensures IsBetterResult(EntryMerit(a), Some(EntryMerit(b))) ==> RankSort(a, b) < 0
    ensures EntryMerit(a) != EntryMerit(b) && RankSort(a, b) < 0 ==>
      IsBetterResult(EntryMerit(a), Some(EntryMerit(b)))
  {
  }

  // ---------------------------------------------------------------------
  // Sorting and the top-N view
  // ---------------------------------------------------------------------

  /** Every row is displayed no later than every row after it. */
  predicate SortedByRank(s: seq<Entry>) {
    forall i, j :: 0 <= i < j < |s| ==> RankSort(s[i], s[j]) <= 0
  }

  /** Up to index `i` the rows are sorted except that row `j` may be out of
      place; row `j` is displayed no later than the rows after it up to `i`. */
  ghost predicate SortedExcept(s: seq<Entry>, i: nat, j: nat) {
    && j <= i < |s|
    && (forall k, l :: 0 <= k < l <= i && k != j && l != j ==> RankSort(s[k], s[l]) <= 0)
    && (forall l :: j < l <= i ==> RankSort(s[j], s[l]) <= 0)
  }

  lemma SortedExceptStart(s: seq<Entry>, i: nat)
    requires i < |s| && SortedByRank(s[..i])
    ensures SortedExcept(s, i, i)
  {
    forall k, l | 0 <= k < l <= i && k != i && l != i
      ensures RankSort(s[k], s[l]) <= 0
    {
      assert s[k] == s[..i][k] && s[l] == s[..i][l];
    }
  }

  /** `s` with rows `j - 1` and `j` exchanged. */
  function Swapped(s: seq<Entry>, j: nat): seq<Entry>
    requires 0 < j < |s|
  {
    s[j - 1 := s[j]][j := s[j - 1]]
  }

  lemma SwapKeepsMultiset(s: seq<Entry>, j: nat)
    requires 0 < j < |s|
    ensures multiset(Swapped(s, j)) == multiset(s)
  {
  }

  /** Swapping row `j` with the row before it, which is displayed after it,
      moves the misplaced row one step left. */
  lemma SortedExceptSwap(s: seq<Entry>, i: nat, j: nat)
    requires SortedExcept(s, i, j) && 0 < j && RankSort(s[j - 1], s[j]) > 0
    ensures SortedExcept(Swapped(s, j), i, j - 1)
  {
    RankSortMeaning(s[j - 1], s[j]);
    RankSortMeaning(s[j], s[j - 1]);
  }

  lemma SortedExceptDone(s: seq<Entry>, i: nat, j: nat)
    requires SortedExcept(s, i, j) && (j == 0 || RankSort(s[j - 1], s[j]) <= 0)
    ensures SortedByRank(s[..i + 1])
  {
    forall k | 0 <= k < j
      ensures RankSort(s[k], s[j]) <= 0
    {
      RankSortTransitive(s[k], s[j - 1], s[j]);
    }
  }

  /** Moves `a[i]` left past every row displayed after it, so that the
      first `i + 1` rows become sorted. */
  method InsertIntoSorted(a: array<Entry>, i: nat)
    requires i < a.Length && SortedByRank(a[..i])
    modifies a
    ensures SortedByRank(a[..i + 1])
    ensures multiset(a[..]) == multiset(old(a[..]))
  {
    var j: nat := i;
    SortedExceptStart(a[..], i);
    while j > 0 && RankSort(a[j - 1], a[j]) > 0
      invariant SortedExcept(a[..], i, j)
      invariant multiset(a[..]) == multiset(old(a[..]))
    {
      ghost var before := a[..];
      SortedExceptSwap(before, i, j);
      SwapKeepsMultiset(before, j);
      a[j - 1], a[j] := a[j], a[j - 1];
      assert a[..] == Swapped(before, j);
      j := j - 1;
    }
    SortedExceptDone(a[..], i, j);
  }

  /** The sort of line 152, on the array in place: an insertion sort. */
  method SortByRank(a: array<Entry>)
    modifies a
    ensures SortedByRank(a[..])
    ensures multiset(a[..]) == multiset(old(a[..]))
  {
    var i := 0;
    while i < a.Length
      invariant 0 <= i <= a.Length
      invariant SortedByRank(a[..i])
      invariant multiset(a[..]) == multiset(old(a[..]))
    {
      InsertIntoSorted(a, i);
      i := i + 1;
    }
    assert a[..a.Length] == a[..];
  }

  /** `rows` are the first `n` of `all` in display order: sorted, drawn from
      `all`, as many as there are up to `n`, and each displayed no later than
      every row of `all` that was left out. */
  ghost predicate IsTopN(rows: seq<Entry>, all: seq<Entry>, n: nat) {
    && SortedByRank(rows)
    && multiset(rows) <= multiset(all)
    && |rows| == Min(n, |all|)
    && forall x, y :: x in rows && y in multiset(all) - multiset(rows) ==> RankSort(x, y) <= 0
  }

  /** The first `k` rows of a sorted sequence are sorted. */
  lemma SortedPrefix(s: seq<Entry>, k: nat)
    requires SortedByRank(s) && k <= |s|
    ensures SortedByRank(s[..k])
  {
    var top := s[..k];
    forall i, j | 0 <= i < j < |top|
      ensures RankSort(top[i], top[j]) <= 0
    {
      assert top[i] == s[i] && top[j] == s[j];
    }
  }

  /** In a sorted sequence every row before index `k` is displayed no later
      than every row from `k` on. */
  lemma PrefixBeforeRest(s: seq<Entry>, k: nat)
    requires SortedByRank(s) && k <= |s|
    ensures forall x, y :: x in s[..k] && y in s[k..] ==> RankSort(x, y) <= 0
  {
    forall x, y | x in s[..k] && y in s[k..]
      ensures RankSort(x, y) <= 0
    {
      var i :| 0 <= i < k && s[..k][i] == x;
      var j :| 0 <= j < |s| - k && s[k..][j] == y;
      assert s[i] == x && s[k + j] == y;
    }
  }

  /** The first `n` rows of a sorted sequence are its top `n`. */
  lemma TopPrefix(s: seq<Entry>, n: nat)
    requires SortedByRank(s)
    ensures IsTopN(s[..Min(n, |s|)], s, n)
  {
    var k := Min(n, |s|);
    var top, rest := s[..k], s[k..];
    assert s == top + rest;
    SortedPrefix(s, k);
    PrefixBeforeRest(s, k);
    assert multiset(s) == multiset(top) + multiset(rest);
    assert multiset(top) <= multiset(s) && |top| == k;
    forall x, y | x in top && y in multiset(s) - multiset(top)
      ensures RankSort(x, y) <= 0
    {
      assert y in multiset(rest);
    }
  }

  /** The top `m` of the top `n` of a sequence is its top `m`, for `m <= n`. */
  lemma TopOfTop(t: seq<Entry>, r: seq<Entry>, all: seq<Entry>, m: nat, n: nat)
    requires IsTopN(r, all, n) && IsTopN(t, r, m) && m <= n
    ensures IsTopN(t, all, m)
  {
    forall x, y | x in t && y in multiset(all) - multiset(t)
      ensures RankSort(x, y) <= 0
    {
      assert x in multiset(r);
      if multiset(r)[y] <= multiset(t)[y] {
        assert y in multiset(all) - multiset(r);
      } else {
        assert y in multiset(r) - multiset(t);
      }
    }
  }

  /** The first `n` rows in display order (lines 152 and 186). */
  method TakeTop(rows: seq<Entry>, n: nat) returns (top: seq<Entry>)
    ensures IsTopN(top, rows, n)
  {
    var a := new Entry[|rows|](i requires 0 <= i < |rows| => rows[i]);
    assert a[..] == rows;
    SortByRank(a);
    TopPrefix(a[..], n);
    top := a[..Min(n, a.Length)];
  }

  /** No two rows share all three sort keys. */
  predicate NoTies(s: seq<Entry>) {
    forall i, j :: 0 <= i < j < |s| ==> !SameRankKey(s[i], s[j])
  }

  lemma TailOf(s: seq<Entry>)
    requires s != []
    ensures multiset(s[1..]) == multiset(s) - multiset{s[0]}
    ensures SortedByRank(s) ==> SortedByRank(s[1..])
    ensures NoTies(s) ==> NoTies(s[1..])
  {
    assert s == [s[0]] + s[1..];
    var tail := s[1..];
    if SortedByRank(s) {
      forall i, j | 0 <= i < j < |tail|
        ensures RankSort(tail[i], tail[j]) <= 0
      {
        assert tail[i] == s[i + 1] && tail[j] == s[j + 1];
      }
    }
    if NoTies(s) {
      forall i, j | 0 <= i < j < |tail|
        ensures !SameRankKey(tail[i], tail[j])
      {
        assert tail[i] == s[i + 1] && tail[j] == s[j + 1];
      }
    }
  }

  /** Two sorted arrangements of the same rows, without ties, start alike. */
  lemma SameFirst(s: seq<Entry>, t: seq<Entry>)
    requires SortedByRank(s) && SortedByRank(t) && multiset(s) == multiset(t)
    requires NoTies(s) && s != []
    ensures t != [] && s[0] == t[0]
  {
    assert s[0] in multiset(t);
    var k :| 0 <= k < |t| && t[k] == s[0];
    assert t[0] in multiset(s);
    var m :| 0 <= m < |s| && s[m] == t[0];
    assert RankSort(t[0], s[0]) <= 0;
    assert RankSort(s[0], t[0]) <= 0;
    RankSortMeaning(s[0], t[0]);
    assert SameRankKey(s[0], s[m]);
  }

  /** When no two rows share all three keys, a sorted arrangement of them is
      unique: the display order leaves nothing to the sorting algorithm. */
  lemma {:induction false} SortedArrangementUnique(s: seq<Entry>, t: seq<Entry>)
    requires SortedByRank(s) && SortedByRank(t) && multiset(s) == multiset(t)
    requires NoTies(s)
    ensures s == t
  {
    if s == [] {
      assert |multiset(t)| == 0;
    } else {
      SameFirst(s, t);
      TailOf(s);
      TailOf(t);
      SortedArrangementUnique(s[1..], t[1..]);
      assert s == [s[0]] + s[1..] && t == [t[0]] + t[1..];
    }
  }
}
