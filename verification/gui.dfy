/** The window program `TournamentSchedulerGUI`. Names are entered one at a
    time: each click of "Next" trims the text field, rejects a blank name
    with a warning, and otherwise saves the name and moves on to the next
    team. Once eight names are saved, the input controls are hidden and the
    season, generated by its own copy of `generateSchedule`, is shown in a
    text area.

    The team table of the database is modelled as the list of saved names
    in the order they were saved; `start` empties it. */
module TournamentSchedulerGui {
  import Arith
  import opened Fixtures
  import RoundSort
  import Display
  import TournamentScheduler

  const NumTeams: nat := 8

  datatype Option<T> = None | Some(value: T)

  /** Characters `String.trim` strips: every code point up to the space. */
  predicate IsSpace(c: char) {
    c <= ' '
  }

  /** The start of the trimmed part: the first non-space character, or `|s|`
      if there is none. */
  function TrimStart(s: string): (i: nat)
    ensures i <= |s|
    ensures forall k :: 0 <= k < i ==> IsSpace(s[k])
    ensures i < |s| ==> !IsSpace(s[i])
  {
    if s == [] || !IsSpace(s[0]) then 0
    else
      var i := 1 + TrimStart(s[1..]);
      assert forall k :: 1 <= k < i ==> s[k] == s[1..][k - 1];
      i
  }

  /** The end of the trimmed part: just past the last non-space character
      at or after `lo`, or `lo` if there is none. */
  function TrimEnd(s: string, lo: nat): (j: nat)
    requires lo <= |s|
    ensures lo <= j <= |s|
    ensures forall k :: j <= k < |s| ==> IsSpace(s[k])
    ensures j > lo ==> !IsSpace(s[j - 1])
    decreases |s|
  {
    if |s| == lo || !IsSpace(s[|s| - 1]) then |s|
    else TrimEnd(s[..|s| - 1], lo)
  }

  /** `String.trim`: `s` without its leading and trailing spaces and control
      characters. */
  function Trim(s: string): (t: string)
    ensures |t| <= |s|
    ensures t != [] ==> !IsSpace(t[0]) && !IsSpace(t[|t| - 1])
  {
    var i := TrimStart(s);
    s[i..TrimEnd(s, i)]
  }

  /** A name is rejected exactly when the field holds nothing but spaces
      and control characters. */
  lemma TrimBlankIff(s: string)
    ensures Trim(s) == [] <==> forall k :: 0 <= k < |s| ==> IsSpace(s[k])
  {
    var i := TrimStart(s);
    var j := TrimEnd(s, i);
    if i < |s| {
      assert j > i;
    }
  }

  /** Trimming keeps the middle of `s` and strips only spaces around it. */
  lemma TrimSplits(s: string)
    ensures exists a, b :: (0 <= a <= b <= |s| && Trim(s) == s[a..b]
      && (forall k :: 0 <= k < a ==> IsSpace(s[k]))
      && (forall k :: b <= k < |s| ==> IsSpace(s[k])))
  {
    var i := TrimStart(s);
    var j := TrimEnd(s, i);
    assert Trim(s) == s[i..j];
  }

  /** Trimming twice is trimming once. */
  lemma TrimIdempotent(s: string)
    ensures Trim(Trim(s)) == Trim(s)
  {
    var t := Trim(s);
    if t != [] {
      assert TrimStart(t) == 0;
      var j := TrimEnd(t, 0);
      assert j == |t|;
      assert t[0..|t|] == t;
    } else {
      TrimBlankIff(t);
    }
  }

  /** The schedule area: hidden while names are being entered, showing the
      season once it is generated (the input controls are hidden then). */
  datatype Area = Hidden | Showing(text: string)

  /** The state the window's handlers work on: the saved names, the counter
      `currentTeamIndex`, the prompt label and the schedule area. */
  datatype Gui = Gui(saved: seq<string>, currentTeamIndex: nat, prompt: string, area: Area)

  /** The state after one click of "Next", and the warning shown, if any. */
  datatype Click = Click(gui: Gui, alert: Option<string>)

  const BlankAlert := "Please enter a team name"

  function PromptFor(index: nat): string {
    "Enter name for Team " + Display.NatString(index + 1) + ":"
  }

  /** `start`: the team table is emptied and the prompt asks for team 1. */
  function Start(): Gui {
    Gui([], 0, "Enter name for Team 1:", Hidden)
  }

  /** The text `displaySchedule` puts in the area for the saved names. */
  function ScheduleText(teamNames: seq<string>): string
    requires |teamNames| >= NumTeams
  {
    Display.Render(Display.ScheduleLines(Schedule(teamNames, NumTeams)), false)
  }

  /** `processTeamName`, for the text `field` in the name field. A blank
      name raises the warning and changes nothing. Otherwise the trimmed
      name is saved and the counter advances; below eight the prompt asks
      for the next team, at eight the schedule is generated from the saved
      names and shown. */
  function ProcessTeamName(g: Gui, field: string): (c: Click)
    requires |g.saved| == g.currentTeamIndex
    ensures Trim(field) == [] ==> c == Click(g, Some(BlankAlert))
    ensures Trim(field) != [] ==> (c.alert == None
      && c.gui.saved == g.saved + [Trim(field)]
      && c.gui.currentTeamIndex == g.currentTeamIndex + 1)
    ensures Trim(field) != [] && c.gui.currentTeamIndex < NumTeams ==>
      c.gui.prompt == PromptFor(c.gui.currentTeamIndex) && c.gui.area == g.area
    ensures Trim(field) != [] && c.gui.currentTeamIndex >= NumTeams ==>
      c.gui.area == Showing(ScheduleText(c.gui.saved))
  {
    var teamName := Trim(field);
    if teamName == [] then
      Click(g, Some(BlankAlert))
    else
      var saved := g.saved + [teamName];
      var index := g.currentTeamIndex + 1;
      if index < NumTeams then
        Click(g.(saved := saved, currentTeamIndex := index, prompt := PromptFor(index)), None)
      else
        Click(g.(saved := saved, currentTeamIndex := index, area := Showing(ScheduleText(saved))), None)
  }

  /** A sequence of clicks, field text by field text; once the schedule is
      showing, the button is hidden and further input has no effect. */
  function Run(g: Gui, fields: seq<string>): Gui
    requires |g.saved| == g.currentTeamIndex
    decreases |fields|
  {
    if fields == [] || g.area.Showing? then g
    else Run(ProcessTeamName(g, fields[0]).gui, fields[1..])
  }

  /** The names the clicks on `fields` would save, trimmed, blanks dropped. */
  function Accepted(fields: seq<string>): seq<string> {
    if fields == [] then []
    else (if Trim(fields[0]) == [] then [] else [Trim(fields[0])]) + Accepted(fields[1..])
  }

  function Take(names: seq<string>, n: nat): (t: seq<string>)
    ensures |t| == if |names| <= n then |names| else n
    ensures t <= names
  {
    if |names| <= n then names else names[..n]
  }

  /** The counter counts the saved names, at most eight, and the schedule
      shows exactly at eight. */
  predicate Counted(g: Gui) {
    && |g.saved| == g.currentTeamIndex <= NumTeams
    && (g.area.Showing? <==> g.currentTeamIndex == NumTeams)
  }

  /** The states reachable from `Start`: counted; the schedule shown is
      generated from the saved names; before that the prompt asks for the
      next team. */
  predicate Consistent(g: Gui) {
    && Counted(g)
    && (g.area.Showing? ==> g.area.text == ScheduleText(g.saved))
    && (g.area.Hidden? ==> g.prompt == PromptFor(g.currentTeamIndex))
  }

  lemma StartConsistent()
    ensures Consistent(Start())
  {
    assert Display.NatString(1) == "1";
  }

  /** One click keeps the state consistent. */
  lemma ProcessKeepsConsistent(g: Gui, field: string)
    requires Consistent(g) && g.area.Hidden?
    ensures Consistent(ProcessTeamName(g, field).gui)
  {
  }

  /** Clicking through `fields` keeps the state consistent. */
  lemma {:induction false} RunKeepsConsistent(g: Gui, fields: seq<string>)
    requires Consistent(g)
    ensures Consistent(Run(g, fields))
    decreases |fields|
  {
    if fields != [] && g.area.Hidden? {
      ProcessKeepsConsistent(g, fields[0]);
      RunKeepsConsistent(ProcessTeamName(g, fields[0]).gui, fields[1..]);
    }
  }

  /** Clicking through `fields` saves the accepted names in order, up to
      the eighth; everything after the eighth is ignored. */
  lemma {:induction false} RunSavesAccepted(g: Gui, fields: seq<string>)
    requires Counted(g)
    ensures Counted(Run(g, fields))
    ensures Run(g, fields).saved == Take(g.saved + Accepted(fields), NumTeams)
    decreases |fields|
  {
    if fields == [] {
      assert g.saved + Accepted(fields) == g.saved;
    } else if g.area.Showing? {
      assert (g.saved + Accepted(fields))[..NumTeams] == g.saved;
    } else {
      ClickStep(g, fields);
      RunSavesAccepted(ProcessTeamName(g, fields[0]).gui, fields[1..]);
    }
  }

  /** One click inside `Run`: the names saved so far plus the names still
      to be accepted stay the same. */
  lemma ClickStep(g: Gui, fields: seq<string>)
    requires Counted(g) && fields != [] && g.area.Hidden?
    ensures var c := ProcessTeamName(g, fields[0]);
      && Counted(c.gui)
      && g.saved + Accepted(fields) == c.gui.saved + Accepted(fields[1..])
  {
    var c := ProcessTeamName(g, fields[0]);
    var head := if Trim(fields[0]) == [] then [] else [Trim(fields[0])];
    assert c.gui.saved == g.saved + head;
    assert Accepted(fields) == head + Accepted(fields[1..]);
    Arith.SeqAssoc(g.saved, head, Accepted(fields[1..]));
    assert Counted(c.gui);
  }

  /** From a fresh window: the schedule is showing exactly when at least
      eight non-blank names were entered, and then it is the season of the
      first eight of them; otherwise the prompt asks for the next team. */
  lemma RunFromStart(fields: seq<string>)
    ensures var g := Run(Start(), fields);
      && g.saved == Take(Accepted(fields), NumTeams)
      && (g.area.Showing? <==> |Accepted(fields)| >= NumTeams)
      && (g.area.Showing? ==> g.area.text == ScheduleText(Accepted(fields)[..NumTeams]))
      && (g.area.Hidden? ==> g.prompt == PromptFor(|Accepted(fields)|))
  {
    var g := Run(Start(), fields);
    StartConsistent();
    RunKeepsConsistent(Start(), fields);
    RunSavesAccepted(Start(), fields);
    assert Start().saved + Accepted(fields) == Accepted(fields);
    if g.area.Showing? {
      assert g.saved == Accepted(fields)[..NumTeams];
    }
  }

  /** The window's copy of `generateSchedule`: the same code with the same
      number of teams, so the same season as the console program's. */
  method GenerateSchedule(teams: seq<string>) returns (schedule: seq<Match>)
    requires |teams| >= NumTeams
    ensures schedule == Schedule(teams, TournamentScheduler.NumTeams)
    ensures |schedule| == NumTeams * (NumTeams - 1)
  {
    schedule := Fixtures.GenerateSchedule(teams, NumTeams);
  }

  /** `displaySchedule`: sorts the list by round in place (`sorted` is the
      caller's list afterwards) and builds the text for the area, which is
      the text the console program prints for the same list where the line
      separator is "\n". */
  method DisplaySchedule(schedule: seq<Match>) returns (sorted: seq<Match>, text: string)
    ensures RoundSort.SortedByRound(sorted) && multiset(sorted) == multiset(schedule)
    ensures forall r :: RoundSort.InRound(sorted, r) == RoundSort.InRound(schedule, r)
    ensures text == Display.Render(Display.ScheduleLines(schedule), false)
    ensures text == Display.Render(Display.ScheduleLines(schedule), true)
  {
    sorted := RoundSort.SortByRound(schedule);
    forall r {
      RoundSort.SortStable(schedule, r);
    }
    text := DisplaySorted(sorted);
    Display.ConsoleMatchesWindow(Display.ScheduleLines(schedule));
  }

  /** The loop of `displaySchedule` over the sorted list, appending to a
      buffer: a header and a rule whenever the round changes, then
      `home vs away`. */
  method DisplaySorted(sorted: seq<Match>) returns (text: string)
    ensures text == Display.Render(Display.Lines(sorted, 0), false)
  {
    var sb := "";
    var currentRound := 0;
    var i := 0;
    while i < |sorted|
      invariant 0 <= i <= |sorted|
      invariant sb + Display.Render(Display.Lines(sorted[i..], currentRound), false)
             == Display.Render(Display.Lines(sorted, 0), false)
    {
      var m := sorted[i];
      ghost var step := Display.Render(Display.Step(m, currentRound), false);
      ghost var rest := Display.Render(Display.Lines(sorted[i + 1..], m.round), false);
      Display.LinesStep(sorted, i, currentRound);
      Display.RenderAppend(Display.Step(m, currentRound), Display.Lines(sorted[i + 1..], m.round), false);
      Display.RenderStep(m, currentRound, false);
      var appended := "";
      if currentRound != m.round {
        currentRound := m.round;
        appended := Display.BufferText(Display.Header(currentRound)) + Display.BufferText(Display.Rule);
      }
      appended := appended + Display.BufferText(Display.FixtureLine(m));
      assert appended == step;
      Arith.SeqAssoc(sb, appended, rest);
      sb := sb + appended;
      i := i + 1;
    }
    assert sorted[i..] == [];
    text := sb;
  }

  /** `generateAndDisplaySchedule`: the season of the saved names, shown
      round by round: a header for each of the rounds `1 .. 14` in turn,
      each followed by that round's fixtures in generation order. */
  method GenerateAndDisplaySchedule(saved: seq<string>) returns (text: string)
    requires |saved| >= NumTeams
    ensures text == ScheduleText(saved)
    ensures text == Display.Render(Display.ByRounds(seq(TournamentScheduler.Rounds, i => i + 1),
                                                    Schedule(saved, NumTeams)), false)
  {
    var schedule := GenerateSchedule(saved);
    var sorted;
    sorted, text := DisplaySchedule(schedule);
    Display.ScheduleLinesByRound(saved, NumTeams);
  }
}
