/** What the generator's comments promise, "each team plays against others
    once" per half season, measured round by round: in a proper round-robin
    round every team plays exactly once.

    The generator as written keeps that promise only in round 1 and in its
    return round `n`. In first-half rounds `2 .. n - 1`, and so in their
    return rounds `n + 1 .. 2 * (n - 1)`, one team is idle and another plays
    twice (`WrittenSeasonRounds`), because slot 0 always pairs index 0 with
    index `n - 1` while index 0 is also a position of the rotating circle.

    `CircleSlotIndices` is the evidently intended circle method: the
    rotating positions `0 .. n - 2` stand for `teams[1 .. n - 1]`, and slot 0
    pairs `teams[0]` with the team at position `round`. */
module RoundRobin {
  import Arith
  import opened Fixtures
  import RoundSort

  /** Does team `t` play in match `m`? */
  predicate Plays(m: Match, t: string) {
    m.home == t || m.away == t
  }

  /** The number of matches of `ms` that team `t` plays in. */
  function Appearances(ms: seq<Match>, t: string): (c: nat)
    ensures c <= |ms|
    ensures c == 0 <==> forall k :: 0 <= k < |ms| ==> !Plays(ms[k], t)
  {
    if ms == [] then 0
    else (if Plays(ms[0], t) then 1 else 0) + Appearances(ms[1..], t)
  }

  /** A team found in exactly one match appears once. */
  lemma {:induction false} AppearancesOnce(ms: seq<Match>, t: string, k0: nat)
    requires k0 < |ms| && Plays(ms[k0], t)
    requires forall k :: 0 <= k < |ms| && k != k0 ==> !Plays(ms[k], t)
    ensures Appearances(ms, t) == 1
  {
    if k0 == 0 {
      assert forall k :: 0 <= k < |ms[1..]| ==> !Plays(ms[1..][k], t) by {
        forall k | 0 <= k < |ms[1..]|
          ensures !Plays(ms[1..][k], t)
        {
          assert ms[1..][k] == ms[k + 1];
        }
      }
    } else {
      assert !Plays(ms[0], t);
      forall k | 0 <= k < |ms[1..]| && k != k0 - 1
        ensures !Plays(ms[1..][k], t)
      {
        assert ms[1..][k] == ms[k + 1];
      }
      AppearancesOnce(ms[1..], t, k0 - 1);
    }
  }

  /** A team found in two different matches appears at least twice. */
  lemma {:induction false} AppearancesTwice(ms: seq<Match>, t: string, k1: nat, k2: nat)
    requires k1 < k2 < |ms| && Plays(ms[k1], t) && Plays(ms[k2], t)
    ensures Appearances(ms, t) >= 2
  {
    assert ms[1..][k2 - 1] == ms[k2];
    if k1 == 0 {
      assert Appearances(ms[1..], t) >= 1;
    } else {
      assert ms[1..][k1 - 1] == ms[k1];
      AppearancesTwice(ms[1..], t, k1 - 1, k2 - 1);
    }
  }

  /** Every round after the first leaves index `round` unused. */
  lemma RotatedRoundSkipsIndex(n: nat, round: nat, i: nat)
    requires ValidSize(n) && 1 <= round <= n - 2 && i < n / 2
    ensures SlotIndices(n, round, i).0 != round
    ensures SlotIndices(n, round, i).1 != round
  {
  }

  /** Every round after the first uses index 0 or index `n - 1` in a second
      slot besides slot 0: `n - 1` while `round < n / 2`, 0 afterwards. */
  lemma RotatedRoundRepeatsIndex(n: nat, round: nat)
    requires ValidSize(n) && 1 <= round <= n - 2
    ensures round < n / 2 ==> SlotIndices(n, round, round).1 == n - 1
    ensures round >= n / 2 ==> SlotIndices(n, round, n - 1 - round).0 == 0
  {
  }

  /** As written: in round `round + 1` of the first half, for every
      `1 <= round <= n - 2`, team `teams[round]` does not play at all, and
      one team (`teams[n - 1]` or `teams[0]`) plays twice. */
  lemma RotatedRoundIsNotRoundRobin(teams: seq<string>, n: nat, round: nat)
    requires ValidSize(n) && |teams| >= n && 1 <= round <= n - 2
    requires forall a, b :: 0 <= a < b < n ==> teams[a] != teams[b]
    ensures Appearances(RoundMatches(teams, n, round), teams[round]) == 0
    ensures round < n / 2 ==> Appearances(RoundMatches(teams, n, round), teams[n - 1]) >= 2
    ensures round >= n / 2 ==> Appearances(RoundMatches(teams, n, round), teams[0]) >= 2
  {
    var ms := RoundMatches(teams, n, round);
    forall i | 0 <= i < |ms|
      ensures !Plays(ms[i], teams[round])
    {
      RotatedRoundSkipsIndex(n, round, i);
    }
    RotatedRoundRepeatsIndex(n, round);
    if round < n / 2 {
      AppearancesTwice(ms, teams[n - 1], 0, round);
    } else {
      AppearancesTwice(ms, teams[0], 0, n - 1 - round);
    }
  }

  /** The first round as written is a proper round: every team plays once. */
  lemma FirstRoundIsRoundRobin(teams: seq<string>, n: nat, j: nat)
    requires ValidSize(n) && |teams| >= n && j < n
    requires forall a, b :: 0 <= a < b < n ==> teams[a] != teams[b]
    ensures Appearances(RoundMatches(teams, n, 0), teams[j]) == 1
  {
    var ms := RoundMatches(teams, n, 0);
    var m := n - 1;
    var h := n / 2;
    assert forall i :: 0 < i < h ==> SlotIndices(n, 0, i) == (i, m - i);
    var k0 := if j == 0 || j == m then 0 else if j < h then j else m - j;
    forall k | 0 <= k < |ms| && k != k0
      ensures !Plays(ms[k], teams[j])
    {
    }
    AppearancesOnce(ms, teams[j], k0);
  }

  /** The intended circle method: slot 0 pairs `teams[0]` with the team at
      rotating position `round`; slot `i > 0` pairs the teams at positions
      `round + i` and `round - i` (mod `n - 1`). Position `p` is
      `teams[p + 1]`. */
  function CircleSlotIndices(n: nat, round: nat, i: nat): (p: (nat, nat))
    requires ValidSize(n) && round < n - 1 && i < n / 2
    ensures p.0 < n && p.1 < n && p.0 != p.1
  {
    var m := n - 1;
    if i == 0 then
      (0, 1 + round)
    else
      (1 + Arith.Wrap(round + i, m), 1 + Arith.Wrap(round + m - i, m))
  }

  /** Does index `j` take part in slot `i` of the circle method? */
  predicate InCircleSlot(n: nat, round: nat, i: nat, j: nat)
    requires ValidSize(n) && round < n - 1 && i < n / 2
  {
    CircleSlotIndices(n, round, i).0 == j || CircleSlotIndices(n, round, i).1 == j
  }

  /** Two different slots of one circle-method round share no index. */
  lemma CircleSlotsDisjoint(n: nat, round: nat, i: nat, i': nat, j: nat)
    requires ValidSize(n) && round < n - 1 && i < n / 2 && i' < n / 2 && i != i'
    ensures !(InCircleSlot(n, round, i, j) && InCircleSlot(n, round, i', j))
  {
  }

  /** Every index takes part in some slot of every circle-method round. */
  lemma CircleSlotsCover(n: nat, round: nat, j: nat) returns (i: nat)
    requires ValidSize(n) && round < n - 1 && j < n
    ensures i < n / 2 && InCircleSlot(n, round, i, j)
  {
    var m := n - 1;
    var h := n / 2;
    if j == 0 || j == 1 + round {
      i := 0;
    } else {
      var p := j - 1;
      var d := if p > round then p - round else p + m - round;
      if d < h {
        i := d;
      } else {
        i := m - d;
      }
    }
  }

  /** The matches of round `round` (0-based) under the circle method. */
  function CircleRound(teams: seq<string>, n: nat, round: nat): (ms: seq<Match>)
    requires ValidSize(n) && |teams| >= n && round < n - 1
    ensures |ms| == n / 2
    ensures forall i :: 0 <= i < |ms| ==>
      ms[i] == Match(teams[CircleSlotIndices(n, round, i).0],
                     teams[CircleSlotIndices(n, round, i).1], round + 1)
  {
    seq(n / 2, i requires 0 <= i < n / 2 =>
      var p := CircleSlotIndices(n, round, i);
      Match(teams[p.0], teams[p.1], round + 1))
  }

  /** Corrected: with distinct team names, every team plays exactly once in
      every round of the circle method. */
  lemma CircleRoundIsRoundRobin(teams: seq<string>, n: nat, round: nat, j: nat)
    requires ValidSize(n) && |teams| >= n && round < n - 1 && j < n
    requires forall a, b :: 0 <= a < b < n ==> teams[a] != teams[b]
    ensures Appearances(CircleRound(teams, n, round), teams[j]) == 1
  {
    var ms := CircleRound(teams, n, round);
    var i0 := CircleSlotsCover(n, round, j);
    forall k | 0 <= k < |ms| && k != i0
      ensures !Plays(ms[k], teams[j])
    {
      CircleSlotsDisjoint(n, round, i0, k, j);
    }
    AppearancesOnce(ms, teams[j], i0);
  }

  /** The blocks of `blocks` one after another. */
  function Concat(blocks: seq<seq<Match>>): seq<Match> {
    if blocks == [] then []
    else Concat(blocks[..|blocks| - 1]) + blocks[|blocks| - 1]
  }

  /** Block `q` holds only matches of round `q + 1`. */
  predicate NumberedBlocks(blocks: seq<seq<Match>>) {
    forall q, k :: 0 <= q < |blocks| && 0 <= k < |blocks[q]| ==> blocks[q][k].round == q + 1
  }

  /** The circle-method rounds of the corrected first half. */
  function CircleRounds(teams: seq<string>, n: nat): (blocks: seq<seq<Match>>)
    requires ValidSize(n) && |teams| >= n
    ensures |blocks| == n - 1 && NumberedBlocks(blocks)
  {
    seq(n - 1, q requires 0 <= q < n - 1 => CircleRound(teams, n, q))
  }

  /** The corrected season: the circle-method rounds followed, as in the
      program, by the mirror of every first-half match. */
  function CircleSchedule(teams: seq<string>, n: nat): seq<Match>
    requires ValidSize(n) && |teams| >= n
  {
    var first := Concat(CircleRounds(teams, n));
    first + SecondHalf(first, n)
  }

  /** A list whose matches all belong to round `r0` keeps all of them when
      filtered for `r0` and none when filtered for another round. */
  lemma {:induction false} InRoundUniform(ms: seq<Match>, r0: int, r: int)
    requires forall k :: 0 <= k < |ms| ==> ms[k].round == r0
    ensures RoundSort.InRound(ms, r) == if r == r0 then ms else []
  {
    if ms != [] {
      InRoundUniform(ms[1..], r0, r);
      assert ms == [ms[0]] + ms[1..];
    }
  }

  /** Filtering numbered blocks for round `r` gives block `r - 1`, and
      nothing for a round no block has. */
  lemma {:induction false} ConcatInRound(blocks: seq<seq<Match>>, r: int)
    requires NumberedBlocks(blocks)
    ensures RoundSort.InRound(Concat(blocks), r) ==
      if 1 <= r <= |blocks| then blocks[r - 1] else []
  {
    if blocks != [] {
      var q := |blocks| - 1;
      var prefix := blocks[..q];
      assert NumberedBlocks(prefix) by {
        forall p, k | 0 <= p < q && 0 <= k < |prefix[p]|
          ensures prefix[p][k].round == p + 1
        {
          assert prefix[p] == blocks[p];
        }
      }
      ConcatInRound(prefix, r);
      InRoundUniform(blocks[q], q + 1, r);
      if 1 <= r <= q {
        assert prefix[r - 1] == blocks[r - 1];
      }
      InRoundBlock(Concat(prefix), blocks[q], RoundSort.InRound(Concat(prefix), r),
                   RoundSort.InRound(blocks[q], r), r);
    }
  }

  /** Filtering a list made of an earlier part and a final block for round
      `r`, when at most one of the two parts has matches of round `r`. */
  lemma InRoundBlock(prefix: seq<Match>, last: seq<Match>, a: seq<Match>, b: seq<Match>, r: int)
    requires RoundSort.InRound(prefix, r) == a && RoundSort.InRound(last, r) == b
    requires a == [] || b == []
    ensures RoundSort.InRound(prefix + last, r) == if a == [] then b else a
  {
    RoundSort.InRoundAppend(prefix, last, r);
    if a == [] {
      assert a + b == b;
    } else {
      assert a + b == a;
    }
  }

  /** The second half lists first-half matches as mirrors, so its round `r`
      is the mirror of first-half round `r - (n - 1)`. */
  lemma {:induction false} SecondHalfInRound(first: seq<Match>, n: nat, r: int)
    ensures RoundSort.InRound(SecondHalf(first, n), r) ==
      SecondHalf(RoundSort.InRound(first, r - (n - 1)), n)
  {
    if first != [] {
      var mirrored := SecondHalf(first, n);
      assert mirrored[1..] == SecondHalf(first[1..], n);
      SecondHalfInRound(first[1..], n, r);
      var kept := RoundSort.InRound(first[1..], r - (n - 1));
      if first[0].round == r - (n - 1) {
        assert SecondHalf([first[0]] + kept, n) == [Mirror(first[0], n)] + SecondHalf(kept, n);
      }
    }
  }

  /** Mirroring swaps home and away, so every team plays in as many matches
      as before. */
  lemma {:induction false} MirrorKeepsAppearances(ms: seq<Match>, n: nat, t: string)
    ensures Appearances(SecondHalf(ms, n), t) == Appearances(ms, t)
  {
    if ms != [] {
      var mirrored := SecondHalf(ms, n);
      assert mirrored[1..] == SecondHalf(ms[1..], n);
      MirrorKeepsAppearances(ms[1..], n, t);
    }
  }

  /** Corrected: with distinct team names, every team plays exactly once in
      every round `1 .. 2 * (n - 1)` of the corrected season, first half and
      return half alike. */
  lemma CircleSeasonRoundsAreProper(teams: seq<string>, n: nat, r: int, j: nat)
    requires ValidSize(n) && |teams| >= n && 1 <= r <= 2 * (n - 1) && j < n
    requires forall a, b :: 0 <= a < b < n ==> teams[a] != teams[b]
    ensures Appearances(RoundSort.InRound(CircleSchedule(teams, n), r), teams[j]) == 1
  {
    var ms := RoundSort.InRound(CircleSchedule(teams, n), r);
    var q := if r <= n - 1 then r - 1 else r - n;
    var played := if r <= n - 1 then CircleRound(teams, n, q) else SecondHalf(CircleRound(teams, n, q), n);
    assert ms == played by { CircleScheduleInRound(teams, n, r); }
    if r <= n - 1 {
      CircleRoundIsRoundRobin(teams, n, q, j);
    } else {
      ReturnRoundIsRoundRobin(teams, n, q, j);
    }
  }

  /** The mirror of a circle-method round still has every team play once. */
  lemma ReturnRoundIsRoundRobin(teams: seq<string>, n: nat, round: nat, j: nat)
    requires ValidSize(n) && |teams| >= n && round < n - 1 && j < n
    requires forall a, b :: 0 <= a < b < n ==> teams[a] != teams[b]
    ensures Appearances(SecondHalf(CircleRound(teams, n, round), n), teams[j]) == 1
  {
    MirrorKeepsAppearances(CircleRound(teams, n, round), n, teams[j]);
    CircleRoundIsRoundRobin(teams, n, round, j);
  }

  /** A season laid out as numbered first-half rounds followed by their
      mirrors: its round `r` is block `r - 1`, or the mirror of block
      `r - n` in the second half. */
  lemma MirroredSeasonInRound(blocks: seq<seq<Match>>, n: nat, r: int)
    requires NumberedBlocks(blocks) && n >= 2 && |blocks| == n - 1 && 1 <= r <= 2 * (n - 1)
    ensures var first := Concat(blocks);
      RoundSort.InRound(first + SecondHalf(first, n), r) ==
      if r <= n - 1 then blocks[r - 1] else SecondHalf(blocks[r - n], n)
  {
    var first := Concat(blocks);
    var second := SecondHalf(first, n);
    var a := RoundSort.InRound(first, r);
    var b := RoundSort.InRound(second, r);
    if r <= n - 1 {
      assert a == blocks[r - 1] by { ConcatInRound(blocks, r); }
      assert b == [] by {
        SecondHalfInRound(first, n, r);
        ConcatInRound(blocks, r - (n - 1));
        assert RoundSort.InRound(first, r - (n - 1)) == [];
      }
    } else {
      assert a == [] by { ConcatInRound(blocks, r); }
      assert b == SecondHalf(blocks[r - n], n) by {
        SecondHalfInRound(first, n, r);
        ConcatInRound(blocks, r - (n - 1));
      }
    }
    InRoundBlock(first, second, a, b, r);
  }

  /** Round `r` of the corrected season is circle-method round `r` in the
      first half and the mirror of circle-method round `r - (n - 1)` in the
      second. */
  lemma CircleScheduleInRound(teams: seq<string>, n: nat, r: int)
    requires ValidSize(n) && |teams| >= n && 1 <= r <= 2 * (n - 1)
    ensures RoundSort.InRound(CircleSchedule(teams, n), r) ==
      if r <= n - 1 then CircleRound(teams, n, r - 1)
      else SecondHalf(CircleRound(teams, n, r - n), n)
  {
    var blocks := CircleRounds(teams, n);
    var q := if r <= n - 1 then r - 1 else r - n;
    assert blocks[q] == CircleRound(teams, n, q);
    MirroredSeasonInRound(blocks, n, r);
  }

  /** The rounds of the first half as written, one block per round. */
  function WrittenRounds(teams: seq<string>, n: nat): (blocks: seq<seq<Match>>)
    requires ValidSize(n) && |teams| >= n
    ensures |blocks| == n - 1 && NumberedBlocks(blocks)
  {
    seq(n - 1, q requires 0 <= q < n - 1 => RoundMatches(teams, n, q))
  }

  /** The outer loop of the generator lays the rounds out one after another. */
  lemma {:induction false} FirstHalfIsConcat(teams: seq<string>, n: nat, k: nat)
    requires ValidSize(n) && |teams| >= n && k <= n - 1
    ensures FirstHalf(teams, n, k) == Concat(WrittenRounds(teams, n)[..k])
  {
    if k > 0 {
      var blocks := WrittenRounds(teams, n);
      var shorter := blocks[..k];
      assert shorter[..k - 1] == blocks[..k - 1];
      FirstHalfIsConcat(teams, n, k - 1);
    }
  }

  /** Round `r` of the season as written is first-half round `r` or the
      mirror of first-half round `r - (n - 1)`. */
  lemma ScheduleInRound(teams: seq<string>, n: nat, r: int)
    requires ValidSize(n) && |teams| >= n && 1 <= r <= 2 * (n - 1)
    ensures RoundSort.InRound(Schedule(teams, n), r) ==
      if r <= n - 1 then RoundMatches(teams, n, r - 1)
      else SecondHalf(RoundMatches(teams, n, r - n), n)
  {
    var blocks := WrittenRounds(teams, n);
    var first := Concat(blocks);
    var q := if r <= n - 1 then r - 1 else r - n;
    assert Schedule(teams, n) == first + SecondHalf(first, n) by {
      FirstHalfIsConcat(teams, n, n - 1);
      assert blocks[..n - 1] == blocks;
    }
    assert blocks[q] == RoundMatches(teams, n, q);
    MirroredSeasonInRound(blocks, n, r);
  }

  /** As written, over the whole season: with distinct names, rounds 1 and
      `n` (the return of round 1) are proper rounds. In every other round,
      coming from first-half round `q + 1` with `q >= 1`, team `teams[q]` does
      not play and `teams[n - 1]` (for `q < n / 2`) or `teams[0]` (otherwise)
      plays twice. */
  lemma WrittenSeasonRounds(teams: seq<string>, n: nat, r: int)
    requires ValidSize(n) && |teams| >= n && 1 <= r <= 2 * (n - 1)
    requires forall a, b :: 0 <= a < b < n ==> teams[a] != teams[b]
    ensures var ms := RoundSort.InRound(Schedule(teams, n), r);
      var q := if r <= n - 1 then r - 1 else r - n;
      (q == 0 ==> forall j :: 0 <= j < n ==> Appearances(ms, teams[j]) == 1)
      && (q > 0 ==> Appearances(ms, teams[q]) == 0)
      && (0 < q < n / 2 ==> Appearances(ms, teams[n - 1]) >= 2)
      && (q >= n / 2 ==> Appearances(ms, teams[0]) >= 2)
  {
    var ms := RoundSort.InRound(Schedule(teams, n), r);
    var q := if r <= n - 1 then r - 1 else r - n;
    var written := RoundMatches(teams, n, q);
    ScheduleInRound(teams, n, r);
    forall t
      ensures Appearances(ms, t) == Appearances(written, t)
    {
      if r > n - 1 {
        MirrorKeepsAppearances(written, n, t);
      }
    }
    if q == 0 {
      forall j | 0 <= j < n
        ensures Appearances(ms, teams[j]) == 1
      {
        FirstRoundIsRoundRobin(teams, n, j);
      }
    } else {
      RotatedRoundIsNotRoundRobin(teams, n, q);
    }
  }
}
