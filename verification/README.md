# Tournament scheduler — a Dafny model

This project models the core of the Java program `tournament_scheduler`.
The program builds a 14-round, 56-match season for eight teams, meant to be
a double round-robin (it is not one; see Findings), and prints it round by
round. It has two front ends:

- `TournamentScheduler`, a console program. It names the teams `T1` .. `T8`
  and prints the season.
- `TournamentSchedulerGUI`, a JavaFX window. It collects eight team names one
  click at a time, keeps them in a database table, and shows the season in a
  text area.

Both front ends carry their own, textually identical copy of
`generateSchedule`. Both sort the list by round and run the same
header-per-round printing loop.

The model is split into these modules:

- `Fixtures` (`fixtures.dfy`): the generator, for any even number `n >= 2`
  of teams. The program's `NUM_TEAMS = 8` is one instance of it. It holds
  the generator as a pure function (`Schedule`), the two nested loops as a
  method (`GenerateSchedule`) proved equal to it, and the structure of the
  result: size, rounds, slot 0, mirror and order.
- `RoundRobin` (`roundrobin.dfy`): what "each team plays against others once"
  means for one round, measured with `Appearances`. It proves that the
  generator as written keeps this in round 1 and its return round `n`, and
  breaks it in every other round. It also defines a corrected circle method
  and a corrected season built from it, and proves that every team plays
  exactly once in every round of that season.
- `Pairings` (`pairings.dfy`): the same promise read as a statement about
  pairs of teams. Over the corrected season every two teams meet once in
  the first half, and each hosts the other exactly once.
- `RoundSort` (`roundsort.dfy`): `schedule.sort((a, b) -> a.round - b.round)`.
  `List.sort` is stable, so it is modelled as a stable insertion sort. The
  model proves the result is ordered and a permutation, keeps each round's
  matches in order, and leaves an already ordered list unchanged.
- `Display` (`display.dfy`): the printing loop as a sequence of lines
  (header, rule, fixture). It is proved equal to an independent run-by-run
  layout and to a round-by-round reference rendering. Both printers' text
  is produced from those lines.
- `TournamentScheduler` (`scheduler.dfy`): the console program with
  `NUM_TEAMS = 8` and `ROUNDS = 14`, its `main`, and the concrete second
  round that shows the defect.
- `TournamentSchedulerGui` (`gui.dfy`): `String.trim`, the "Next" handler
  `processTeamName` as a state transition, runs of clicks from a fresh
  window, the window's copy of the generator, and `displaySchedule`.
- `Arith` (`arith.dfy`): facts about division and sequences used by the
  proofs.

The model follows the code, not the intended algorithm. As written, slot 0
of every first-half round is `teams[0]` against `teams[n - 1]`. The rotating
slots index `teams` directly, so index 0 is also one of the rotating
positions. Each team playing exactly once per round and each pair meeting
exactly twice are therefore not proved about the generator. What the code
does instead is proved, and is listed under Findings. The corrected season
(`RoundRobin.CircleSchedule`) keeps the program's mirrored second half and
builds the first half with the circle method. Every team plays once in
each of its rounds, and every two teams meet once per half and twice per
season, each hosting the other once.

The generator performs no input validation. It reads `teams[0 .. n - 1]`
and fails with an index error on a shorter array. The model states this as
the precondition `|teams| >= n`. There is no error result, because the code
has no error path.

## Model

| member | source | states |
|---|---|---|
| Fixtures.SlotIndices | src/tournament/scheduler/TournamentScheduler.java:39-48 | the team indices of a slot are in range: home in `0 .. n-2`, away in `1 .. n-1`; they always differ |
| Fixtures.SlotIndicesByRemainder | src/tournament/scheduler/TournamentScheduler.java:39-48 | the division-free slot indices equal the program's computation with `%`: `(round + i) % (n-1)` at home and `(round + n-1-i) % (n-1)` away, a zero away index replaced by `n - 1`, slot 0 fixed at `(0, n-1)` |
| Fixtures.SlotTeams | src/tournament/scheduler/TournamentScheduler.java:39-48 | the inner loop's index computation, written with `%` as in the program, yields `SlotIndices(n, round, i)`: home below `n-1`, away in `1 .. n-1`, never equal |
| Fixtures.FirstHalf | src/tournament/scheduler/TournamentScheduler.java:37-52 | after `rounds` rounds the list has `rounds * (n/2)` matches, every round number in `1 .. rounds` |
| Fixtures.Schedule | src/tournament/scheduler/TournamentScheduler.java:33-66 | the season has `n * (n-1)` matches; match `F + k` is the mirror of match `k` (`F` = first-half size); every round is in `1 .. 2(n-1)` |
| Fixtures.GenerateSchedule | src/tournament/scheduler/TournamentScheduler.java:33-66 | the nested slot loop followed by the mirror loop returns exactly `Schedule(teams, n)`, of size `n * (n-1)` |
| Fixtures.ScheduleFirstHalf | src/tournament/scheduler/TournamentScheduler.java:37-50 | first-half match `k` is slot `k % (n/2)` of round `k / (n/2) + 1` |
| Fixtures.FirstHalfRoundBlocks | src/tournament/scheduler/TournamentScheduler.java:37-50 | first-half match `k` is in round `r` if and only if `(r-1)(n/2) <= k < r(n/2)` |
| Fixtures.SlotZeroPinned | src/tournament/scheduler/TournamentScheduler.java:39-48 | slot 0 of every first-half round is `teams[0]` at home to `teams[n-1]`; it is never rotated |
| Fixtures.SlotZeroReturn | src/tournament/scheduler/TournamentScheduler.java:55-63 | slot 0 of every second-half round is `teams[n-1]` at home to `teams[0]`, in round `r + n` |
| Fixtures.ScheduleSortedByRound | src/tournament/scheduler/TournamentScheduler.java:33-66 | round numbers never decrease along the generated list |
| Fixtures.NoSelfMatch | src/tournament/scheduler/TournamentScheduler.java:39-61 | with distinct names, no team is drawn against itself, in either half |
| Fixtures.ScheduleRound | src/tournament/scheduler/TournamentScheduler.java:37-51 | the matches of first-half round `r + 1` are the contiguous slice `r(n/2) .. (r+1)(n/2)`, in slot order |
| Fixtures.EveryRoundPlayed | src/tournament/scheduler/TournamentScheduler.java:33-66 | every round `1 .. 2(n-1)` has at least one match |
| Arith.ModOnce | src/tournament/scheduler/TournamentScheduler.java:44-45 | for `0 <= a < 2m`, `a % m` is `a` or `a - m`; every operand of the generator's `%` is in that range and non-negative, so Java's `%` agrees |
| RoundRobin.RotatedRoundSkipsIndex | src/tournament/scheduler/TournamentScheduler.java:43-48 | in every round `2 .. n-1`, index `round` is used by no slot |
| RoundRobin.RotatedRoundRepeatsIndex | src/tournament/scheduler/TournamentScheduler.java:39-48 | in every round `2 .. n-1` a second slot uses index `n-1` (early rounds) or index 0 (late rounds), besides slot 0 |
| RoundRobin.RotatedRoundIsNotRoundRobin | src/tournament/scheduler/TournamentScheduler.java:36-51 | as written, with distinct names, in every round `2 .. n-1` one team does not play and another plays at least twice |
| RoundRobin.FirstRoundIsRoundRobin | src/tournament/scheduler/TournamentScheduler.java:37-51 | the first round as written is a proper round: every team plays exactly once |
| RoundRobin.CircleSlotIndices | src/tournament/scheduler/TournamentScheduler.java:42-48 | corrected slot indices: both in `0 .. n-1` and distinct |
| RoundRobin.CircleSlotsDisjoint | src/tournament/scheduler/TournamentScheduler.java:38-48 | corrected: two different slots of a round share no team |
| RoundRobin.CircleSlotsCover | src/tournament/scheduler/TournamentScheduler.java:38-48 | corrected: every team index is used by some slot of every round |
| RoundRobin.CircleRoundIsRoundRobin | src/tournament/scheduler/TournamentScheduler.java:36-51 | corrected: with distinct names, every team plays exactly once in every round |
| RoundRobin.CircleRounds | src/tournament/scheduler/TournamentScheduler.java:36-52 | corrected first half: `n - 1` rounds, the matches of round block `q` all numbered `q + 1` |
| RoundRobin.ConcatInRound | src/tournament/scheduler/TournamentScheduler.java:36-52 | filtering consecutive round blocks for round `r` yields exactly block `r - 1`, or nothing when `r` is outside `1 .. blocks` |
| RoundRobin.SecondHalfInRound | src/tournament/scheduler/TournamentScheduler.java:55-63 | the return matches of round `r` are the mirrors of the first-half matches of round `r - (n-1)`, in order |
| RoundRobin.MirrorKeepsAppearances | src/tournament/scheduler/TournamentScheduler.java:58-61 | swapping home and away leaves how often each team plays unchanged |
| RoundRobin.CircleScheduleInRound | src/tournament/scheduler/TournamentScheduler.java:33-66 | corrected season: round `r <= n-1` is circle round `r`; round `r >= n` is the mirror of circle round `r - (n-1)` |
| RoundRobin.CircleSeasonRoundsAreProper | src/tournament/scheduler/TournamentScheduler.java:33-66 | corrected season: with distinct names, every team plays exactly once in every round `1 .. 2(n-1)`, first and return half alike |
| RoundRobin.ReturnRoundIsRoundRobin | src/tournament/scheduler/TournamentScheduler.java:55-63 | corrected: the mirror of a circle round still has every team play exactly once |
| RoundRobin.MirroredSeasonInRound | src/tournament/scheduler/TournamentScheduler.java:33-66 | for any season laid out as numbered rounds followed by their mirrors, round `r` is block `r - 1`, or the mirror of block `r - n` in the second half |
| RoundRobin.WrittenRounds | src/tournament/scheduler/TournamentScheduler.java:37-52 | the first half as written is `n - 1` blocks, block `q` all in round `q + 1` |
| RoundRobin.FirstHalfIsConcat | src/tournament/scheduler/TournamentScheduler.java:37-52 | the outer loop lays its rounds out one after another |
| RoundRobin.ScheduleInRound | src/tournament/scheduler/TournamentScheduler.java:33-66 | as written: season round `r <= n-1` is first-half round `r`; round `r >= n` is the mirror of first-half round `r - (n-1)` |
| RoundRobin.WrittenSeasonRounds | src/tournament/scheduler/TournamentScheduler.java:33-66 | as written, over all `2(n-1)` rounds: rounds 1 and `n` are proper; in every other round, coming from first-half round `q + 1`, `teams[q]` is idle and `teams[n-1]` or `teams[0]` plays twice |
| Pairings.MeetingsAreHostings | src/tournament/scheduler/TournamentScheduler.java:55-63 | between two different teams, the matches between them are those each hosts against the other |
| Pairings.HostedMirror | src/tournament/scheduler/TournamentScheduler.java:55-63 | in the return half `x` hosts `y` as often as `y` hosts `x` in the first half |
| Pairings.PairMeetsInItsRound | src/tournament/scheduler/TournamentScheduler.java:36-52 | corrected: indices `a < b` are paired by some slot of round `MeetRound(n, a, b)` |
| Pairings.PairMeetsOnlyThere | src/tournament/scheduler/TournamentScheduler.java:36-52 | corrected: indices `a < b` are paired in no other round |
| Pairings.SlotMeets | src/tournament/scheduler/TournamentScheduler.java:36-52 | with distinct names, a slot's match is between `teams[a]` and `teams[b]` exactly when the slot pairs `a` and `b` |
| Pairings.RoundMeetings | src/tournament/scheduler/TournamentScheduler.java:36-52 | corrected, distinct names: `teams[a]` and `teams[b]` meet once in their round and never in another |
| Pairings.FirstRoundsMeetings | src/tournament/scheduler/TournamentScheduler.java:36-52 | corrected, distinct names: in the first `k` rounds two teams meet once if their round is among them, else not at all |
| Pairings.CircleFirstHalfMeetsOnce | src/tournament/scheduler/TournamentScheduler.java:36 | corrected, distinct names: every two teams meet exactly once in the first half ("each team plays against others once") |
| Pairings.CircleSeasonIsDoubleRoundRobin | src/tournament/scheduler/TournamentScheduler.java:5 | corrected, distinct names: over the season each team hosts each other team exactly once, so every two teams meet exactly twice ("each team plays against others twice") |
| RoundSort.SortByRound | src/tournament/scheduler/TournamentScheduler.java:70 | the sorted list is ordered by round and is a permutation of the input |
| RoundSort.SortStable | src/tournament/scheduler/TournamentScheduler.java:70 | the sort is stable: each round's matches keep their input order |
| RoundSort.SortKeepsSorted | src/tournament/scheduler/TournamentScheduler.java:70 | sorting a list already ordered by round changes nothing |
| RoundSort.SortLeavesScheduleUnchanged | src/tournament/scheduler/TournamentScheduler.java:70 | the generated season is already ordered, so the sort before printing is the identity on it |
| Display.LinesShowEveryMatch | src/tournament/scheduler/TournamentScheduler.java:72-80 | the loop prints a fixture line for every match, in order, and no other fixture line |
| Display.LinesAreLayout | src/tournament/scheduler/TournamentScheduler.java:72-80 | entered with a `currentRound` different from the first match's round, the loop prints the run-by-run layout: one header and rule per maximal run of a round, then the run's lines |
| Display.LayoutHeaderIff | src/tournament/scheduler/TournamentScheduler.java:74-78 | a round gets a header if and only if some match of the list is played in it |
| Display.LayoutHeadersAscending | src/tournament/scheduler/TournamentScheduler.java:70-78 | for a list ordered by round the headers are strictly ascending, so no round gets two headers |
| Display.LayoutIsByRounds | src/tournament/scheduler/TournamentScheduler.java:70-80 | for an ordered list the layout equals the round-by-round rendering of its header rounds |
| Display.LayoutGroupsByRound | src/tournament/scheduler/TournamentScheduler.java:70-80 | for an ordered list: strictly ascending headers, exactly one per round played, each followed by exactly that round's matches |
| Display.PrintedByRound | src/tournament/scheduler/TournamentScheduler.java:68-81 | sort then loop, for any list without a round-0 match: one header per distinct round, ascending, each followed by that round's matches in original list order |
| Display.ScheduleLinesByRound | src/tournament/scheduler/TournamentScheduler.java:68-81 | the printout of a generated season has headers exactly `1, 2, .., 2(n-1)` in order, each followed by that round's matches in generation order |
| Display.ConsoleMatchesWindow | src/tournament/scheduler/TournamentSchedulerGUI.java:111-116 | the buffer text of `displaySchedule` equals the console text of `printSchedule` for the same lines, with "\n" as the line separator |
| TournamentScheduler.DefaultTeams | src/tournament/scheduler/TournamentScheduler.java:9-12 | `main` creates `NUM_TEAMS` names |
| TournamentScheduler.DefaultTeamNames | src/tournament/scheduler/TournamentScheduler.java:9-12 | the names are exactly `T1` .. `T8` |
| TournamentScheduler.DefaultTeamsDistinct | src/tournament/scheduler/TournamentScheduler.java:9-12 | the default names are pairwise distinct |
| TournamentScheduler.GenerateSchedule | src/tournament/scheduler/TournamentScheduler.java:4-5 | with eight teams: 56 matches, 28 per half, every round in `1 .. ROUNDS` (14), second half mirroring the first |
| TournamentScheduler.PrintSorted | src/tournament/scheduler/TournamentScheduler.java:72-80 | the `currentRound` loop writes exactly the rendering of the loop's lines |
| TournamentScheduler.PrintSchedule | src/tournament/scheduler/TournamentScheduler.java:68-81 | the list is left sorted and permuted, each round in its original order; the console text, with "\n" as the line separator, is the text the window shows for the same list |
| TournamentScheduler.RunProgram | src/tournament/scheduler/TournamentScheduler.java:7-19 | `main` prints rounds `1 .. 14` in order, each header followed by that round's fixtures in generation order |
| TournamentScheduler.RoundTwoMatches | src/tournament/scheduler/TournamentScheduler.java:39-50 | round 2 for eight teams is, by index, (0,7), (2,7), (3,6), (4,5) |
| TournamentScheduler.RoundTwoAsWritten | src/tournament/scheduler/TournamentScheduler.java:37-50 | those are schedule entries 4 .. 7; with distinct names `teams[1]` does not play and `teams[7]` plays twice |
| TournamentScheduler.DefaultRoundTwo | src/tournament/scheduler/TournamentScheduler.java:7-15 | in the default season round 2 is T1-T8, T3-T8, T4-T7, T5-T6: T2 idle, T8 twice |
| TournamentSchedulerGui.TrimStart | src/tournament/scheduler/TournamentSchedulerGUI.java:66 | all characters before the start are `<= ' '`; the character at the start is not |
| TournamentSchedulerGui.TrimEnd | src/tournament/scheduler/TournamentSchedulerGUI.java:66 | all characters from the end on are `<= ' '`; the last kept character is not |
| TournamentSchedulerGui.Trim | src/tournament/scheduler/TournamentSchedulerGUI.java:66 | the trimmed name is no longer than the input, and neither starts nor ends with a character `<= ' '` |
| TournamentSchedulerGui.TrimBlankIff | src/tournament/scheduler/TournamentSchedulerGUI.java:66-71 | a name is rejected as empty if and only if every character of the field is `<= ' '` |
| TournamentSchedulerGui.TrimSplits | src/tournament/scheduler/TournamentSchedulerGUI.java:66 | the trimmed name is a contiguous slice of the field with only such characters around it |
| TournamentSchedulerGui.TrimIdempotent | src/tournament/scheduler/TournamentSchedulerGUI.java:66 | trimming a trimmed name changes nothing |
| TournamentSchedulerGui.ProcessTeamName | src/tournament/scheduler/TournamentSchedulerGUI.java:65-86 | blank: warning "Please enter a team name", nothing else changes; otherwise the trimmed name is appended, the counter goes up by one, the prompt asks for the next team below eight, and at eight the schedule of the saved names is shown |
| TournamentSchedulerGui.StartConsistent | src/tournament/scheduler/TournamentSchedulerGUI.java:24-36 | the fresh window (table emptied, prompt for team 1) is a consistent state |
| TournamentSchedulerGui.ProcessKeepsConsistent | src/tournament/scheduler/TournamentSchedulerGUI.java:65-86 | one click keeps the counter equal to the number of saved names, at most eight, with the schedule showing exactly at eight |
| TournamentSchedulerGui.RunKeepsConsistent | src/tournament/scheduler/TournamentSchedulerGUI.java:65-86 | any sequence of clicks keeps the state consistent |
| TournamentSchedulerGui.RunSavesAccepted | src/tournament/scheduler/TournamentSchedulerGUI.java:73-84 | clicks save exactly the trimmed non-blank names, in order, up to the eighth |
| TournamentSchedulerGui.RunFromStart | src/tournament/scheduler/TournamentSchedulerGUI.java:65-103 | from a fresh window the schedule is showing if and only if at least eight non-blank names were entered; it is then the season of the first eight; otherwise the prompt asks for the next team |
| TournamentSchedulerGui.GenerateSchedule | src/tournament/scheduler/TournamentSchedulerGUI.java:142-175 | the window's copy returns the same season as the console program's copy for the same names |
| TournamentSchedulerGui.DisplaySorted | src/tournament/scheduler/TournamentSchedulerGUI.java:109-117 | the buffer loop builds exactly the window rendering of the loop's lines |
| TournamentSchedulerGui.DisplaySchedule | src/tournament/scheduler/TournamentSchedulerGUI.java:105-120 | the list is left sorted and permuted, each round in its original order; the area text equals the console program's text for the same list, with "\n" as the console's line separator |
| TournamentSchedulerGui.GenerateAndDisplaySchedule | src/tournament/scheduler/TournamentSchedulerGUI.java:88-103 | the area shows rounds `1 .. 14` in order, each header followed by that round's fixtures of the saved names' season |

## Left out

- The database (`DatabaseManager`, JDBC, SQLite) is not modelled. The team table is the list of saved names in the order they were saved. `deleteAllTeams` empties it, `saveTeam` appends to it, and `getAllTeams` returns it in that order. `SELECT id, name FROM teams` has no `ORDER BY`, so insertion order is an assumption.
- `saveTeam` throws a `RuntimeException` when a name is already in the table, because the column is `UNIQUE`. That exception, and any other SQL failure, are not modelled. In the model a duplicate name is simply appended.
- JavaFX is not modelled: layout, visibility of individual controls, `setWrapText`, the alert dialog's title and modality, and clearing the text field. A click is modelled by the field text it reads. The schedule area being shown stands for the input controls being hidden, so no further clicks are processed.
- `Team`, `MainApplication`, `Country`, `League`, `CountryManagerGUI`, `LeagueManagerGUI` and `MasterDataManager` are not part of this model.
- `println` and `printf("%n")` write the platform's line separator. The model uses "\n", as on Unix-like platforms. So `Display.ConsoleMatchesWindow`, and the equal-text clauses of `TournamentScheduler.PrintSchedule` and `TournamentSchedulerGui.DisplaySchedule`, hold only where the separator is "\n"; elsewhere the console text differs from the window's "\n"-separated text in its line ends.
- The comparator `a.round - b.round` could overflow for rounds far apart. Rounds here are `1 .. 14`, so the model compares rounds directly.
- Display.PrintedByRound: requires that no match is in round 0. The loop starts with `currentRound = 0`, so round-0 matches would be printed without a header. The generator never produces round 0.
- Each team playing once per round is not claimed for the generator as written, because it is false; see Findings and `RoundRobin.WrittenSeasonRounds`. It is proved for the corrected season (`RoundRobin.CircleSeasonRoundsAreProper`). Each pair meeting once per half and each team hosting each other team once is proved for the corrected season (`Pairings.CircleSeasonIsDoubleRoundRobin`). How often each pair meets in the season as written is not counted. Only its most visible symptom is proved: `teams[0]` meets `teams[n-1]` in every first-half round (`Fixtures.SlotZeroPinned`).
- The generator has no validation. An odd count, a count below 2, or duplicate names produce no error. The model takes `n` even and at least 2. Distinct names are assumed only where a property needs them.

## Findings

| source | as written | input that shows it | evidently intended | confidence | as-written member | corrected member |
|---|---|---|---|---|---|---|
| src/tournament/scheduler/TournamentScheduler.java:39-48 (same code at src/tournament/scheduler/TournamentSchedulerGUI.java:148-157) | slot 0 is always `teams[0]` vs `teams[7]`, and the rotating slots index `teams` directly, so index 0 is both the fixed team and a rotating position | eight distinct names, round 2: pairs (0,7), (2,7), (3,6), (4,5). `teams[1]` is idle and `teams[7]` plays twice. Every round from 2 to 7 has an idle team and a double-booked team, and `teams[0]`-`teams[7]` is played in all seven first-half rounds | circle method: the rotating positions `0 .. n-2` stand for `teams[1 .. n-1]`, and slot 0 pairs `teams[0]` with the team at position `round`, so every team plays exactly once per round, every two teams meet once per half, and each team hosts each other team once per season ("each team plays against others once" per half, "twice" per season) | not executed; high | RoundRobin.RotatedRoundIsNotRoundRobin | Pairings.CircleSeasonIsDoubleRoundRobin |
