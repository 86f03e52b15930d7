/** The console program `TournamentScheduler`: eight teams named `T1` ..
    `T8`, a season of `(8 - 1) * 2 == 14` rounds and 56 matches, meant to be
    a double round-robin (`RoundTwoAsWritten` shows it is not one), printed
    round by round. */
module TournamentScheduler {
  import Arith
  import opened Fixtures
  import RoundSort
  import RoundRobin
  import Display

  const NumTeams: nat := 8
  /** Two halves of `NumTeams - 1` rounds each. */
  const Rounds: nat := (NumTeams - 1) * 2

  /** The names `main` fills in: `"T" + (i + 1)` for every index `i`. */
  function DefaultTeams(): (teams: seq<string>)
    ensures |teams| == NumTeams
  {
    seq(NumTeams, i requires 0 <= i < NumTeams => "T" + Display.NatString(i + 1))
  }

  /** The default names are pairwise distinct. */
  lemma DefaultTeamsDistinct()
    ensures forall a, b :: 0 <= a < b < NumTeams ==> DefaultTeams()[a] != DefaultTeams()[b]
  {
    var teams := DefaultTeams();
    forall a, b | 0 <= a < b < NumTeams
      ensures teams[a] != teams[b]
    {
      assert teams[a][1] == ('0' as int + a + 1) as char;
      assert teams[b][1] == ('0' as int + b + 1) as char;
    }
  }

  /** `generateSchedule` with the program's eight teams: 56 matches, 28 per
      half, every round in `1 .. Rounds`, every match of the second half the
      return fixture of the match 28 places before it. */
  method GenerateSchedule(teams: seq<string>) returns (schedule: seq<Match>)
    requires |teams| >= NumTeams
    ensures schedule == Schedule(teams, NumTeams)
    ensures |schedule| == 56 && FirstHalfSize(NumTeams) == 28
    ensures forall k :: 0 <= k < |schedule| ==> 1 <= schedule[k].round <= Rounds
    ensures forall k :: 0 <= k < 28 ==> schedule[28 + k] == Mirror(schedule[k], NumTeams)
  {
    schedule := Fixtures.GenerateSchedule(teams, NumTeams);
  }

  /** `printSchedule`: sorts the list by round in place (`sorted` is the
      caller's list afterwards) and writes the console text. */
  method PrintSchedule(schedule: seq<Match>) returns (sorted: seq<Match>, output: string)
    ensures RoundSort.SortedByRound(sorted) && multiset(sorted) == multiset(schedule)
    ensures forall r :: RoundSort.InRound(sorted, r) == RoundSort.InRound(schedule, r)
    ensures output == Display.Render(Display.ScheduleLines(schedule), true)
    ensures output == Display.Render(Display.ScheduleLines(schedule), false)
  {
    sorted := RoundSort.SortByRound(schedule);
    forall r {
      RoundSort.SortStable(schedule, r);
    }
    output := PrintSorted(sorted);
    Display.ConsoleMatchesWindow(Display.ScheduleLines(schedule));
  }

  /** The loop of `printSchedule` over the sorted list: a header and a rule
      whenever the round changes, then `home vs away`. */
  method PrintSorted(sorted: seq<Match>) returns (output: string)
    ensures output == Display.Render(Display.Lines(sorted, 0), true)
  {
    var currentRound := 0;
    output := "";
    var i := 0;
    while i < |sorted|
      invariant 0 <= i <= |sorted|
      invariant output + Display.Render(Display.Lines(sorted[i..], currentRound), true)
             == Display.Render(Display.Lines(sorted, 0), true)
    {
      var m := sorted[i];
      ghost var step := Display.Render(Display.Step(m, currentRound), true);
      ghost var rest := Display.Render(Display.Lines(sorted[i + 1..], m.round), true);
      Display.LinesStep(sorted, i, currentRound);
      Display.RenderAppend(Display.Step(m, currentRound), Display.Lines(sorted[i + 1..], m.round), true);
      Display.RenderStep(m, currentRound, true);
      var printed := "";
      if currentRound != m.round {
        currentRound := m.round;
        printed := Display.ConsoleText(Display.Header(currentRound)) + Display.ConsoleText(Display.Rule);
      }
      printed := printed + Display.ConsoleText(Display.FixtureLine(m));
      assert printed == step;
      Arith.SeqAssoc(output, printed, rest);
      output := output + printed;
      i := i + 1;
    }
    assert sorted[i..] == [];
  }

  /** `main`: generate the season for `T1` .. `T8` and print it. The output
      is a header for each of the rounds `1 .. 14` in turn, each followed by
      that round's fixtures in generation order. */
  method RunProgram() returns (output: string)
    ensures output == Display.Render(Display.ByRounds(seq(Rounds, i => i + 1),
                                                      Schedule(DefaultTeams(), NumTeams)), true)
  {
    var teams := DefaultTeams();
    var schedule := GenerateSchedule(teams);
    var sorted;
    sorted, output := PrintSchedule(schedule);
    Display.ScheduleLinesByRound(teams, NumTeams);
  }

  /** As written, round 2 of the eight-team season is `T1`-`T8`, `T3`-`T8`,
      `T4`-`T7`, `T5`-`T6` (by index: (0,7), (2,7), (3,6), (4,5)): with
      distinct names, `teams[1]` does not play and `teams[7]` plays twice. */
  lemma RoundTwoAsWritten(teams: seq<string>)
    requires |teams| >= NumTeams
    ensures Schedule(teams, NumTeams)[4..8] ==
      [Match(teams[0], teams[7], 2), Match(teams[2], teams[7], 2),
       Match(teams[3], teams[6], 2), Match(teams[4], teams[5], 2)]
    ensures (forall a, b :: 0 <= a < b < NumTeams ==> teams[a] != teams[b]) ==>
      RoundRobin.Appearances(Schedule(teams, NumTeams)[4..8], teams[1]) == 0
      && RoundRobin.Appearances(Schedule(teams, NumTeams)[4..8], teams[7]) >= 2
  {
    var ms := RoundMatches(teams, NumTeams, 1);
    ScheduleRound(teams, NumTeams, 1);
    assert Schedule(teams, NumTeams)[4..8] == ms;
    RoundTwoMatches(teams);
    if forall a, b :: 0 <= a < b < NumTeams ==> teams[a] != teams[b] {
      RoundRobin.RotatedRoundIsNotRoundRobin(teams, NumTeams, 1);
    }
  }

  /** The four matches of round 2, slot by slot. */
  lemma RoundTwoMatches(teams: seq<string>)
    requires |teams| >= NumTeams
    ensures RoundMatches(teams, NumTeams, 1) ==
      [Match(teams[0], teams[7], 2), Match(teams[2], teams[7], 2),
       Match(teams[3], teams[6], 2), Match(teams[4], teams[5], 2)]
  {
    var ms := RoundMatches(teams, NumTeams, 1);
    assert SlotIndices(8, 1, 1) == (2, 7);
    assert SlotIndices(8, 1, 2) == (3, 6);
    assert SlotIndices(8, 1, 3) == (4, 5);
    assert ms[0] == SlotMatch(teams, 8, 1, 0);
  }

  /** The names `main` gives the teams. */
  lemma DefaultTeamNames()
    ensures DefaultTeams() == ["T1", "T2", "T3", "T4", "T5", "T6", "T7", "T8"]
  {
    var teams := DefaultTeams();
    assert forall k :: 0 <= k < NumTeams ==> teams[k] == ['T', ('1' as int + k) as char];
  }

  /** The default season as printed: its second round leaves `T2` idle and
      gives `T8` two matches. */
  lemma DefaultRoundTwo()
    ensures Schedule(DefaultTeams(), NumTeams)[4..8] ==
      [Match("T1", "T8", 2), Match("T3", "T8", 2), Match("T4", "T7", 2), Match("T5", "T6", 2)]
    ensures RoundRobin.Appearances(Schedule(DefaultTeams(), NumTeams)[4..8], "T2") == 0
    ensures RoundRobin.Appearances(Schedule(DefaultTeams(), NumTeams)[4..8], "T8") >= 2
  {
    DefaultTeamsDistinct();
    DefaultTeamNames();
    RoundTwoAsWritten(DefaultTeams());
  }
}
