/** The fixture generator `generateSchedule`, as written, for any even number
    `n >= 2` of teams (the program fixes `n` at 8).

    The first half of the season has `n - 1` rounds of `n / 2` slots each.
    Slot 0 of every round pairs `teams[0]` with `teams[n - 1]`; every other
    slot `i` takes the indices `(round + i) % (n - 1)` and
    `(round + n - 1 - i) % (n - 1)`, the away index 0 being replaced by
    `n - 1`. The second half repeats every first-half match with home and
    away swapped, `n - 1` rounds later. */
module Fixtures {
  import Arith

  /** One fixture; `round` counts from 1. */
  datatype Match = Match(home: string, away: string, round: int)

  /** The team counts the generator's index arithmetic is meant for. */
  predicate ValidSize(n: int) {
    n >= 2 && n % 2 == 0
  }

  /** Number of matches in the first half of the season. */
  function FirstHalfSize(n: nat): nat {
    (n - 1) * (n / 2)
  }

  /** The indices into `teams` that slot `i` of round `round` (0-based)
      plays; the home index is in `0 .. n - 2`, the away index in
      `1 .. n - 1`, and they differ. */
  function SlotIndices(n: nat, round: nat, i: nat): (p: (nat, nat))
    requires ValidSize(n) && round < n - 1 && i < n / 2
    ensures p.0 <= n - 2 && 1 <= p.1 <= n - 1
    ensures p.0 != p.1
  {
    var m := n - 1;
    if i == 0 then
      (0, m)
    else
      var team1 := Arith.Wrap(round + i, m);
      var team2 := Arith.Wrap(round + m - i, m);
      (team1, if team2 == 0 then m else team2)
  }

  /** The match built for slot `i` of round `round` (0-based). */
  function SlotMatch(teams: seq<string>, n: nat, round: nat, i: nat): Match
    requires ValidSize(n) && |teams| >= n && round < n - 1 && i < n / 2
  {
    var p := SlotIndices(n, round, i);
    Match(teams[p.0], teams[p.1], round + 1)
  }

  /** The `n / 2` matches of first-half round `round` (0-based), in slot
      order. */
  function RoundMatches(teams: seq<string>, n: nat, round: nat): (ms: seq<Match>)
    requires ValidSize(n) && |teams| >= n && round < n - 1
    ensures |ms| == n / 2
    ensures forall i :: 0 <= i < |ms| ==> ms[i] == SlotMatch(teams, n, round, i)
  {
    seq(n / 2, i requires 0 <= i < n / 2 => SlotMatch(teams, n, round, i))
  }

  /** The first `rounds` rounds of the first half, in generation order. */
  function FirstHalf(teams: seq<string>, n: nat, rounds: nat): (ms: seq<Match>)
    requires ValidSize(n) && |teams| >= n && rounds <= n - 1
    ensures |ms| == rounds * (n / 2)
    ensures forall k :: 0 <= k < |ms| ==> 1 <= ms[k].round <= rounds
  {
    if rounds == 0 then []
    else FirstHalf(teams, n, rounds - 1) + RoundMatches(teams, n, rounds - 1)
  }

  /** The return fixture of `m`: home and away swapped, `n - 1` rounds later. */
  function Mirror(m: Match, n: nat): Match {
    Match(m.away, m.home, m.round + n - 1)
  }

  /** The second half of the season: the mirror of every first-half match,
      in the same order. */
  function SecondHalf(first: seq<Match>, n: nat): (ms: seq<Match>)
    ensures |ms| == |first|
    ensures forall k :: 0 <= k < |first| ==>
      ms[k].home == first[k].away && ms[k].away == first[k].home
      && ms[k].round == first[k].round + n - 1
  {
    seq(|first|, k requires 0 <= k < |first| => Mirror(first[k], n))
  }

  /** The whole season: `n * (n - 1)` matches, the first half followed by its
      mirror, every round in `1 .. 2 * (n - 1)`. */
  function Schedule(teams: seq<string>, n: nat): (s: seq<Match>)
    requires ValidSize(n) && |teams| >= n
    ensures |s| == 2 * FirstHalfSize(n) == n * (n - 1)
    ensures forall k :: 0 <= k < FirstHalfSize(n) ==>
      s[FirstHalfSize(n) + k] == Mirror(s[k], n)
    ensures forall k :: 0 <= k < |s| ==> 1 <= s[k].round <= 2 * (n - 1)
  {
    var first := FirstHalf(teams, n, n - 1);
    assert 2 * ((n - 1) * (n / 2)) == n * (n - 1) by {
      assert n == 2 * (n / 2);
    }
    first + SecondHalf(first, n)
  }

  /** `generateSchedule`: the two loops of the program, building the first
      half slot by slot and then appending the mirror of every match
      generated so far. */
  method GenerateSchedule(teams: seq<string>, n: nat) returns (s: seq<Match>)
    requires ValidSize(n) && |teams| >= n
    ensures s == Schedule(teams, n)
    ensures |s| == n * (n - 1)
  {
    s := [];
    var round := 0;
    while round < n - 1
      invariant 0 <= round <= n - 1
      invariant s == FirstHalf(teams, n, round)
    {
      ghost var built := s;
      ghost var slots := RoundMatches(teams, n, round);
      var i := 0;
      while i < n / 2
        invariant 0 <= i <= n / 2
        invariant s == built + slots[..i]
      {
        var team1, team2 := SlotTeams(n, round, i);
        assert Match(teams[team1], teams[team2], round + 1) == slots[i];
        Arith.PrefixStep(slots, i);
        Arith.SeqAssoc(built, slots[..i], [slots[i]]);
        s := s + [Match(teams[team1], teams[team2], round + 1)];
        i := i + 1;
      }
      assert slots[..n / 2] == slots;
      round := round + 1;
    }
    var first := s;
    ghost var mirrors := SecondHalf(first, n);
    var firstHalfSize := |s|;
    var i := 0;
    while i < firstHalfSize
      invariant 0 <= i <= firstHalfSize
      invariant s == first + mirrors[..i]
    {
      var earlier := s[i];
      assert Match(earlier.away, earlier.home, earlier.round + n - 1) == mirrors[i];
      Arith.PrefixStep(mirrors, i);
      Arith.SeqAssoc(first, mirrors[..i], [mirrors[i]]);
      s := s + [Match(earlier.away, earlier.home, earlier.round + n - 1)];
      i := i + 1;
    }
    assert mirrors[..firstHalfSize] == mirrors;
  }

  /** The indices the inner loop of `generateSchedule` computes for slot `i`
      of round `round`, with the program's `%`: slot 0 is fixed, the other
      slots rotate over `0 .. n - 2`, and index 0 on the away side stands
      for the fixed team `n - 1`. */
  method SlotTeams(n: nat, round: nat, i: nat) returns (team1: nat, team2: nat)
    requires ValidSize(n) && round < n - 1 && i < n / 2
    ensures (team1, team2) == SlotIndices(n, round, i)
    ensures team1 < n - 1 && 0 < team2 < n && team1 != team2
  {
    team1 := i;
    team2 := n - 1 - i;
    if i > 0 {
      team1 := (round + i) % (n - 1);
      team2 := (round + n - 1 - i) % (n - 1);
    }
    if team2 == 0 {
      team2 := n - 1;
    }
    SlotIndicesByRemainder(n, round, i);
  }

  /** `SlotIndices` is the program's computation with Java's `%`: every
      operand is below `2 * (n - 1)`, so the remainder wraps at most once. */
  lemma SlotIndicesByRemainder(n: nat, round: nat, i: nat)
    requires ValidSize(n) && round < n - 1 && i < n / 2
    ensures var team1 := if i > 0 then (round + i) % (n - 1) else i;
      var team2 := if i > 0 then (round + n - 1 - i) % (n - 1) else n - 1 - i;
      SlotIndices(n, round, i) == (team1, if team2 == 0 then n - 1 else team2)
  {
    if i > 0 {
      Arith.ModOnce(round + i, n - 1);
      Arith.ModOnce(round + n - 1 - i, n - 1);
    }
  }

  /** First-half match `k` is slot `k % (n / 2)` of round `k / (n / 2)`. */
  lemma {:induction false} FirstHalfSlot(teams: seq<string>, n: nat, rounds: nat, k: nat)
    requires ValidSize(n) && |teams| >= n && rounds <= n - 1
    requires k < rounds * (n / 2)
    ensures k / (n / 2) < rounds
    ensures FirstHalf(teams, n, rounds)[k] == SlotMatch(teams, n, k / (n / 2), k % (n / 2))
  {
    var h := n / 2;
    var prefix := FirstHalf(teams, n, rounds - 1);
    if k < |prefix| {
      FirstHalfSlot(teams, n, rounds - 1, k);
    } else {
      var i := k - |prefix|;
      assert k == (rounds - 1) * h + i;
      Arith.RowMajor(rounds - 1, h, i);
    }
  }

  /** The first half of the schedule, match by match: match `k` is slot
      `k % (n / 2)` of round `k / (n / 2) + 1`, built from the slot's team
      indices. */
  lemma ScheduleFirstHalf(teams: seq<string>, n: nat, k: nat)
    requires ValidSize(n) && |teams| >= n && k < FirstHalfSize(n)
    ensures k / (n / 2) < n - 1
    ensures var p := SlotIndices(n, k / (n / 2), k % (n / 2));
      Schedule(teams, n)[k] == Match(teams[p.0], teams[p.1], k / (n / 2) + 1)
  {
    FirstHalfSlot(teams, n, n - 1, k);
  }

  /** Rounds `1 .. n - 1` each hold exactly the `n / 2` consecutive matches
      `(r - 1) * (n / 2) .. r * (n / 2) - 1` of the first half. */
  lemma FirstHalfRoundBlocks(teams: seq<string>, n: nat, r: nat, k: nat)
    requires ValidSize(n) && |teams| >= n && 1 <= r <= n - 1 && k < FirstHalfSize(n)
    ensures Schedule(teams, n)[k].round == r <==> (r - 1) * (n / 2) <= k < r * (n / 2)
  {
    ScheduleFirstHalf(teams, n, k);
    Arith.RowBounds(k, n / 2, r - 1);
  }

  /** Slot 0 of every first-half round is `teams[0]` at home to
      `teams[n - 1]`: that pairing is never rotated. */
  lemma SlotZeroPinned(teams: seq<string>, n: nat, r: nat)
    requires ValidSize(n) && |teams| >= n && r < n - 1
    ensures r * (n / 2) < FirstHalfSize(n)
    ensures Schedule(teams, n)[r * (n / 2)] == Match(teams[0], teams[n - 1], r + 1)
  {
    var h := n / 2;
    Arith.RowMajor(r, h, 0);
    assert r * h < (n - 1) * h by { Arith.MulMonoLe(r + 1, n - 1, h); }
    ScheduleFirstHalf(teams, n, r * h);
  }

  /** The schedule comes out ordered by round: rounds never decrease along
      the list. */
  lemma ScheduleSortedByRound(teams: seq<string>, n: nat)
    requires ValidSize(n) && |teams| >= n
    ensures forall j, k :: 0 <= j <= k < |Schedule(teams, n)| ==>
      Schedule(teams, n)[j].round <= Schedule(teams, n)[k].round
  {
    var s := Schedule(teams, n);
    var f := FirstHalfSize(n);
    var h := n / 2;
    forall j, k | 0 <= j <= k < |s|
      ensures s[j].round <= s[k].round
    {
      var j' := if j < f then j else j - f;
      var k' := if k < f then k else k - f;
      ScheduleFirstHalf(teams, n, j');
      ScheduleFirstHalf(teams, n, k');
      if j < f && k >= f {
        assert s[j].round <= n - 1;
      } else {
        assert j' <= k';
        Arith.DivMono(j', k', h);
      }
    }
  }

  /** With pairwise distinct team names, no team is ever drawn against
      itself. */
  lemma NoSelfMatch(teams: seq<string>, n: nat, k: nat)
    requires ValidSize(n) && |teams| >= n && k < n * (n - 1)
    requires forall a, b :: 0 <= a < b < n ==> teams[a] != teams[b]
    ensures Schedule(teams, n)[k].home != Schedule(teams, n)[k].away
  {
    var f := FirstHalfSize(n);
    var k' := if k < f then k else k - f;
    ScheduleFirstHalf(teams, n, k');
  }

  /** The matches of first-half round `r + 1` are the slice
      `r * (n / 2) .. (r + 1) * (n / 2)` of the schedule, in slot order. */
  lemma ScheduleRound(teams: seq<string>, n: nat, r: nat)
    requires ValidSize(n) && |teams| >= n && r < n - 1
    ensures (r + 1) * (n / 2) <= FirstHalfSize(n)
    ensures Schedule(teams, n)[r * (n / 2)..(r + 1) * (n / 2)] == RoundMatches(teams, n, r)
  {
    var h := n / 2;
    Arith.MulMonoLe(r + 1, n - 1, h);
    assert (r + 1) * h == r * h + h;
    var s := Schedule(teams, n);
    var slice := s[r * h..(r + 1) * h];
    forall i | 0 <= i < h
      ensures slice[i] == RoundMatches(teams, n, r)[i]
    {
      Arith.RowMajor(r, h, i);
      ScheduleFirstHalf(teams, n, r * h + i);
    }
  }

  /** Every round `1 .. 2 * (n - 1)` has at least one match. */
  lemma EveryRoundPlayed(teams: seq<string>, n: nat, r: int)
    requires ValidSize(n) && |teams| >= n && 1 <= r <= 2 * (n - 1)
    ensures exists k :: 0 <= k < |Schedule(teams, n)| && Schedule(teams, n)[k].round == r
  {
    var s := Schedule(teams, n);
    var f := FirstHalfSize(n);
    if r <= n - 1 {
      var k := (r - 1) * (n / 2);
      SlotZeroPinned(teams, n, r - 1);
      assert k < |s| && s[k].round == r;
    } else {
      SlotZeroReturn(teams, n, r - n);
      var k := f + (r - n) * (n / 2);
      assert k < |s| && s[k].round == r;
    }
  }

  /** Slot 0 of round `r + 1` of the second half is the fixed pair reversed. */
  lemma SlotZeroReturn(teams: seq<string>, n: nat, r: nat)
    requires ValidSize(n) && |teams| >= n && r < n - 1
    ensures FirstHalfSize(n) + r * (n / 2) < |Schedule(teams, n)|
    ensures Schedule(teams, n)[FirstHalfSize(n) + r * (n / 2)] == Match(teams[n - 1], teams[0], r + n)
  {
    var s := Schedule(teams, n);
    var f := FirstHalfSize(n);
    var k := r * (n / 2);
    SlotZeroPinned(teams, n, r);
    assert 0 <= k < f && s[k] == Match(teams[0], teams[n - 1], r + 1);
    assert s[f + k] == Mirror(s[k], n);
  }
}
