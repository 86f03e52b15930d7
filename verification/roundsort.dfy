/** `schedule.sort((a, b) -> a.round - b.round)`: `List.sort` is a stable
    sort, so its result is fixed by two facts: it is ordered by round, and
    the matches of each round keep their relative order. Any stable sort
    meets both, so a stable insertion sort stands in for the library's
    merge sort. Rounds are small, so the comparator's subtraction never
    overflows and comparing rounds directly is exact. */
module RoundSort {
  import opened Fixtures

  /** Rounds never decrease along `s`. */
  predicate SortedByRound(s: seq<Match>) {
    forall j, k :: 0 <= j <= k < |s| ==> s[j].round <= s[k].round
  }

  /** The matches of `s` played in round `r`, in list order. */
  function InRound(s: seq<Match>, r: int): (ms: seq<Match>)
    ensures |ms| <= |s|
    ensures forall k :: 0 <= k < |ms| ==> ms[k].round == r
  {
    if s == [] then []
    else (if s[0].round == r then [s[0]] else []) + InRound(s[1..], r)
  }

  lemma {:induction false} InRoundAppend(a: seq<Match>, b: seq<Match>, r: int)
    ensures InRound(a + b, r) == InRound(a, r) + InRound(b, r)
  {
    if a == [] {
      assert a + b == b;
    } else {
      assert (a + b)[1..] == a[1..] + b;
      InRoundAppend(a[1..], b, r);
    }
  }

  /** Inserts `m` into `sorted` after every match whose round is not later
      than its own. */
  function Insert(sorted: seq<Match>, m: Match): seq<Match> {
    if sorted == [] || sorted[|sorted| - 1].round <= m.round then
      sorted + [m]
    else
      Insert(sorted[..|sorted| - 1], m) + [sorted[|sorted| - 1]]
  }

  /** Insertion adds `m` and nothing else. */
  lemma {:induction false} InsertMultiset(sorted: seq<Match>, m: Match)
    ensures multiset(Insert(sorted, m)) == multiset(sorted) + multiset{m}
  {
    if !(sorted == [] || sorted[|sorted| - 1].round <= m.round) {
      var init, last := sorted[..|sorted| - 1], sorted[|sorted| - 1];
      assert sorted == init + [last];
      InsertMultiset(init, m);
    }
  }

  /** A bound on every round survives insertion of a match within it. */
  lemma {:induction false} InsertBounded(sorted: seq<Match>, m: Match, b: int)
    requires forall k :: 0 <= k < |sorted| ==> sorted[k].round <= b
    requires m.round <= b
    ensures forall k :: 0 <= k < |Insert(sorted, m)| ==> Insert(sorted, m)[k].round <= b
  {
    if !(sorted == [] || sorted[|sorted| - 1].round <= m.round) {
      InsertBounded(sorted[..|sorted| - 1], m, b);
    }
  }

  /** Insertion into an ordered list keeps it ordered. */
  lemma {:induction false} InsertSorted(sorted: seq<Match>, m: Match)
    requires SortedByRound(sorted)
    ensures SortedByRound(Insert(sorted, m))
  {
    if !(sorted == [] || sorted[|sorted| - 1].round <= m.round) {
      var init, last := sorted[..|sorted| - 1], sorted[|sorted| - 1];
      InsertSorted(init, m);
      InsertBounded(init, m, last.round);
    }
  }

  /** Stable insertion sort by round: the result is ordered by round and
      holds exactly the input's matches. */
  function SortByRound(s: seq<Match>): (r: seq<Match>)
    ensures SortedByRound(r)
    ensures multiset(r) == multiset(s)
  {
    if s == [] then []
    else
      var init, last := s[..|s| - 1], s[|s| - 1];
      assert s == init + [last];
      InsertSorted(SortByRound(init), last);
      InsertMultiset(SortByRound(init), last);
      Insert(SortByRound(init), last)
  }

  /** Insertion keeps every round's matches in order, `m` after those of
      its own round. */
  lemma {:induction false} InsertStable(sorted: seq<Match>, m: Match, r: int)
    ensures InRound(Insert(sorted, m), r) == InRound(sorted, r) + InRound([m], r)
  {
    if sorted == [] || sorted[|sorted| - 1].round <= m.round {
      InRoundAppend(sorted, [m], r);
    } else {
      var init := sorted[..|sorted| - 1];
      var last := sorted[|sorted| - 1];
      assert sorted == init + [last];
      InsertStable(init, m, r);
      InRoundAppend(Insert(init, m), [last], r);
      InRoundAppend(init, [last], r);
      assert InRound([m], r) == [] || InRound([last], r) == [] by {
        assert InRound([m], r) == (if m.round == r then [m] else []);
        assert InRound([last], r) == (if last.round == r then [last] else []);
      }
    }
  }

  /** The sort is stable: the matches of every round come out in their
      input order. */
  lemma {:induction false} SortStable(s: seq<Match>, r: int)
    ensures InRound(SortByRound(s), r) == InRound(s, r)
  {
    if s != [] {
      var init := s[..|s| - 1];
      assert s == init + [s[|s| - 1]];
      SortStable(init, r);
      InsertStable(SortByRound(init), s[|s| - 1], r);
      InRoundAppend(init, [s[|s| - 1]], r);
    }
  }

  /** Sorting a list that is already ordered by round changes nothing. */
  lemma {:induction false} SortKeepsSorted(s: seq<Match>)
    requires SortedByRound(s)
    ensures SortByRound(s) == s
  {
    if s != [] {
      var init := s[..|s| - 1];
      var last := s[|s| - 1];
      assert SortedByRound(init);
      SortKeepsSorted(init);
      assert SortByRound(s) == Insert(init, last);
      assert init == [] || init[|init| - 1].round <= last.round;
      assert Insert(init, last) == init + [last];
      assert init + [last] == s;
    }
  }

  /** The generated schedule is already ordered, so the sort before printing
      leaves it exactly as generated. */
  lemma SortLeavesScheduleUnchanged(teams: seq<string>, n: nat)
    requires ValidSize(n) && |teams| >= n
    ensures SortByRound(Schedule(teams, n)) == Schedule(teams, n)
  {
    ScheduleSortedByRound(teams, n);
    SortKeepsSorted(Schedule(teams, n));
  }
}
