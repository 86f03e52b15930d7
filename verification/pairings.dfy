/** Which teams meet, and how often: the reading of "each team plays against
    others once" per half, and "twice" per season, as a statement about
    pairs of teams. It is proved for the corrected season of `RoundRobin`:
    every pair meets exactly once in the first half, and over the season
    each team hosts each other team exactly once. */
module Pairings {
  import opened Fixtures
  import RoundRobin

  /** The number of matches of `ms` with `x` at home and `y` away. */
  function Hosted(ms: seq<Match>, x: string, y: string): (c: nat)
    ensures c <= |ms|
    ensures c == 0 <==> forall k :: 0 <= k < |ms| ==> !(ms[k].home == x && ms[k].away == y)
  {
    if ms == [] then 0
    else (if ms[0].home == x && ms[0].away == y then 1 else 0) + Hosted(ms[1..], x, y)
  }

  /** Do `x` and `y` play each other in `m`, either way round? */
  predicate Meets(m: Match, x: string, y: string) {
    (m.home == x && m.away == y) || (m.home == y && m.away == x)
  }

  /** The number of matches of `ms` between `x` and `y`, either way round. */
  function Meetings(ms: seq<Match>, x: string, y: string): (c: nat)
    ensures c <= |ms|
  {
    if ms == [] then 0
    else (if Meets(ms[0], x, y) then 1 else 0) + Meetings(ms[1..], x, y)
  }

  /** Between two different teams, the meetings are the matches each of them
      hosts against the other. */
  lemma {:induction false} MeetingsAreHostings(ms: seq<Match>, x: string, y: string)
    requires x != y
    ensures Meetings(ms, x, y) == Hosted(ms, x, y) + Hosted(ms, y, x)
  {
    if ms != [] {
      MeetingsAreHostings(ms[1..], x, y);
    }
  }

  lemma {:induction false} HostedAppend(a: seq<Match>, b: seq<Match>, x: string, y: string)
    ensures Hosted(a + b, x, y) == Hosted(a, x, y) + Hosted(b, x, y)
  {
    if a == [] {
      assert a + b == b;
    } else {
      assert (a + b)[1..] == a[1..] + b;
      HostedAppend(a[1..], b, x, y);
    }
  }

  lemma {:induction false} MeetingsAppend(a: seq<Match>, b: seq<Match>, x: string, y: string)
    ensures Meetings(a + b, x, y) == Meetings(a, x, y) + Meetings(b, x, y)
  {
    if a == [] {
      assert a + b == b;
    } else {
      assert (a + b)[1..] == a[1..] + b;
      MeetingsAppend(a[1..], b, x, y);
    }
  }

  /** The return fixtures swap the hosts: `x` hosts `y` in the second half
      exactly as often as `y` hosts `x` in the first. */
  lemma {:induction false} HostedMirror(ms: seq<Match>, n: nat, x: string, y: string)
    ensures Hosted(SecondHalf(ms, n), x, y) == Hosted(ms, y, x)
  {
    if ms != [] {
      var mirrored := SecondHalf(ms, n);
      assert mirrored[1..] == SecondHalf(ms[1..], n);
      HostedMirror(ms[1..], n, x, y);
    }
  }

  /** A pair found in exactly one match meets once. */
  lemma {:induction false} MeetingsOnce(ms: seq<Match>, x: string, y: string, k0: nat)
    requires k0 < |ms| && Meets(ms[k0], x, y)
    requires forall k :: 0 <= k < |ms| && k != k0 ==> !Meets(ms[k], x, y)
    ensures Meetings(ms, x, y) == 1
  {
    if k0 == 0 {
      MeetingsNone(ms[1..], x, y);
    } else {
      assert !Meets(ms[0], x, y);
      assert ms[1..][k0 - 1] == ms[k0];
      MeetingsOnce(ms[1..], x, y, k0 - 1);
    }
  }

  /** A pair found in no match does not meet. */
  lemma {:induction false} MeetingsNone(ms: seq<Match>, x: string, y: string)
    requires forall k :: 0 <= k < |ms| ==> !Meets(ms[k], x, y)
    ensures Meetings(ms, x, y) == 0
  {
    if ms != [] {
      assert !Meets(ms[0], x, y);
      MeetingsNone(ms[1..], x, y);
    }
  }

  /** The round (0-based) in which the circle method pairs indices `a < b`.
      Index 0 meets the team at position `round`, index `b` sits at position
      `b - 1`; two rotating positions `p` and `q` meet in the round `r` with
      `2 * r == p + q` modulo `n - 1`, which is odd. */
  function MeetRound(n: nat, a: nat, b: nat): (r: nat)
    requires ValidSize(n) && a < b < n
    ensures r < n - 1
  {
    var m := n - 1;
    if a == 0 then b - 1
    else
      var s := (a - 1) + (b - 1);
      if s % 2 == 0 then s / 2
      else if s < m then (s + m) / 2
      else (s - m) / 2
  }

  /** Is slot `i` of circle round `round` the pair `a`, `b`, either way round? */
  predicate SlotPairs(n: nat, round: nat, i: nat, a: nat, b: nat)
    requires ValidSize(n) && round < n - 1 && i < n / 2
  {
    var p := RoundRobin.CircleSlotIndices(n, round, i);
    (p.0 == a && p.1 == b) || (p.0 == b && p.1 == a)
  }

  /** Indices `a < b` are paired by some slot of round `MeetRound(n, a, b)`. */
  lemma PairMeetsInItsRound(n: nat, a: nat, b: nat) returns (i: nat)
    requires ValidSize(n) && a < b < n
    ensures i < n / 2 && SlotPairs(n, MeetRound(n, a, b), i, a, b)
  {
    var m := n - 1;
    var r := MeetRound(n, a, b);
    if a == 0 {
      i := 0;
    } else {
      var p := a - 1;
      var q := b - 1;
      assert 2 * r == p + q || 2 * r == p + q + m || 2 * r == p + q - m;
      var d := if p >= r then p - r else p - r + m;
      assert d != 0;
      if d < n / 2 {
        i := d;
      } else {
        i := m - d;
      }
    }
  }

  /** Indices `a < b` are paired only in round `MeetRound(n, a, b)`. */
  lemma PairMeetsOnlyThere(n: nat, round: nat, i: nat, a: nat, b: nat)
    requires ValidSize(n) && round < n - 1 && i < n / 2 && a < b < n
    requires SlotPairs(n, round, i, a, b)
    ensures round == MeetRound(n, a, b)
  {
    var m := n - 1;
    var r := MeetRound(n, a, b);
    if i > 0 {
      var p := a - 1;
      var q := b - 1;
      assert 2 * r == p + q || 2 * r == p + q + m || 2 * r == p + q - m;
      assert p + q == 2 * round || p + q == 2 * round + m || p + q == 2 * round - m;
      assert m % 2 == 1;
    }
  }

  /** With distinct names, teams `a < b` meet once in circle round
      `MeetRound(n, a, b)` and in no other round. */
  lemma RoundMeetings(teams: seq<string>, n: nat, round: nat, a: nat, b: nat)
    requires ValidSize(n) && |teams| >= n && round < n - 1 && a < b < n
    requires forall x, y :: 0 <= x < y < n ==> teams[x] != teams[y]
    ensures Meetings(RoundRobin.CircleRound(teams, n, round), teams[a], teams[b]) ==
      if round == MeetRound(n, a, b) then 1 else 0
  {
    var ms := RoundRobin.CircleRound(teams, n, round);
    forall k | 0 <= k < |ms|
      ensures Meets(ms[k], teams[a], teams[b]) <==> SlotPairs(n, round, k, a, b)
    {
      SlotMeets(teams, n, round, k, a, b);
    }
    if round == MeetRound(n, a, b) {
      var i0 := PairMeetsInItsRound(n, a, b);
      forall k | 0 <= k < |ms| && k != i0
        ensures !Meets(ms[k], teams[a], teams[b])
      {
        RoundRobin.CircleSlotsDisjoint(n, round, i0, k, a);
      }
      MeetingsOnce(ms, teams[a], teams[b], i0);
    } else {
      forall k | 0 <= k < |ms|
        ensures !Meets(ms[k], teams[a], teams[b])
      {
        if SlotPairs(n, round, k, a, b) {
          PairMeetsOnlyThere(n, round, k, a, b);
        }
      }
      MeetingsNone(ms, teams[a], teams[b]);
    }
  }

  /** With distinct names, the match of slot `i` is between `teams[a]` and
      `teams[b]` exactly when the slot pairs indices `a` and `b`. */
  lemma SlotMeets(teams: seq<string>, n: nat, round: nat, i: nat, a: nat, b: nat)
    requires ValidSize(n) && |teams| >= n && round < n - 1 && i < n / 2 && a < b < n
    requires forall x, y :: 0 <= x < y < n ==> teams[x] != teams[y]
    ensures Meets(RoundRobin.CircleRound(teams, n, round)[i], teams[a], teams[b]) <==>
      SlotPairs(n, round, i, a, b)
  {
    var p := RoundRobin.CircleSlotIndices(n, round, i);
    assert RoundRobin.CircleRound(teams, n, round)[i] == Match(teams[p.0], teams[p.1], round + 1);
  }

  /** In the first `k` circle rounds, teams `a < b` meet once if their round
      is among them and not at all otherwise. */
  lemma {:induction false} FirstRoundsMeetings(teams: seq<string>, n: nat, k: nat, a: nat, b: nat)
    requires ValidSize(n) && |teams| >= n && k <= n - 1 && a < b < n
    requires forall x, y :: 0 <= x < y < n ==> teams[x] != teams[y]
    ensures Meetings(RoundRobin.Concat(RoundRobin.CircleRounds(teams, n)[..k]), teams[a], teams[b]) ==
      if MeetRound(n, a, b) < k then 1 else 0
  {
    var blocks := RoundRobin.CircleRounds(teams, n);
    if k > 0 {
      FirstRoundsMeetings(teams, n, k - 1, a, b);
      var shorter := blocks[..k];
      assert shorter[..k - 1] == blocks[..k - 1];
      assert shorter[k - 1] == RoundRobin.CircleRound(teams, n, k - 1);
      MeetingsAppend(RoundRobin.Concat(blocks[..k - 1]), shorter[k - 1], teams[a], teams[b]);
      RoundMeetings(teams, n, k - 1, a, b);
    }
  }

  /** Corrected: with distinct names, every two teams meet exactly once in
      the first half of the corrected season. */
  lemma CircleFirstHalfMeetsOnce(teams: seq<string>, n: nat, a: nat, b: nat)
    requires ValidSize(n) && |teams| >= n && a < b < n
    requires forall x, y :: 0 <= x < y < n ==> teams[x] != teams[y]
    ensures Meetings(RoundRobin.Concat(RoundRobin.CircleRounds(teams, n)), teams[a], teams[b]) == 1
  {
    var blocks := RoundRobin.CircleRounds(teams, n);
    FirstRoundsMeetings(teams, n, n - 1, a, b);
    assert blocks[..n - 1] == blocks;
  }

  /** Corrected: with distinct names, over the corrected season each team
      hosts each other team exactly once, so every two teams meet twice. */
  lemma CircleSeasonIsDoubleRoundRobin(teams: seq<string>, n: nat, a: nat, b: nat)
    requires ValidSize(n) && |teams| >= n && a < b < n
    requires forall x, y :: 0 <= x < y < n ==> teams[x] != teams[y]
    ensures Hosted(RoundRobin.CircleSchedule(teams, n), teams[a], teams[b]) == 1
    ensures Hosted(RoundRobin.CircleSchedule(teams, n), teams[b], teams[a]) == 1
    ensures Meetings(RoundRobin.CircleSchedule(teams, n), teams[a], teams[b]) == 2
  {
    var x, y := teams[a], teams[b];
    var first := RoundRobin.Concat(RoundRobin.CircleRounds(teams, n));
    var second := SecondHalf(first, n);
    assert RoundRobin.CircleSchedule(teams, n) == first + second;
    CircleFirstHalfMeetsOnce(teams, n, a, b);
    MeetingsAreHostings(first, x, y);
    HostedAppend(first, second, x, y);
    HostedAppend(first, second, y, x);
    HostedMirror(first, n, x, y);
    HostedMirror(first, n, y, x);
    MeetingsAreHostings(first + second, x, y);
  }
}
