/** The schedule printers: `printSchedule` on the console and
    `displaySchedule` in the window run the same loop over the sorted list.
    A `currentRound` variable starts at 0; whenever a match's round differs
    from it, a `Round r:` header and a rule are emitted and `currentRound`
    takes the new round; then the match's `home vs away` line follows. The
    loop is modelled as a sequence of `Line`s, and the two printers as two
    renderings of that sequence to text. */
module Display {
  import Arith
  import opened Fixtures
  import RoundSort

  datatype Line = Header(round: int) | Rule | Fixture(home: string, away: string)

  function FixtureLine(m: Match): Line {
    Fixture(m.home, m.away)
  }

  /** One fixture line per match, in list order. */
  function FixtureLines(ms: seq<Match>): (ls: seq<Line>)
    ensures |ls| == |ms|
    ensures forall k :: 0 <= k < |ms| ==> ls[k] == FixtureLine(ms[k])
  {
    seq(|ms|, k requires 0 <= k < |ms| => FixtureLine(ms[k]))
  }

  /** The rounds of the headers among `ls`, in order. */
  function Headers(ls: seq<Line>): seq<int> {
    if ls == [] then []
    else (if ls[0].Header? then [ls[0].round] else []) + Headers(ls[1..])
  }

  /** The fixture lines among `ls`, in order. */
  function Shown(ls: seq<Line>): seq<Line> {
    if ls == [] then []
    else (if ls[0].Fixture? then [ls[0]] else []) + Shown(ls[1..])
  }

  lemma {:induction false} HeadersAppend(a: seq<Line>, b: seq<Line>)
    ensures Headers(a + b) == Headers(a) + Headers(b)
  {
    if a == [] {
      assert a + b == b;
    } else {
      var ab := a + b;
      assert ab[0] == a[0];
      assert ab[1..] == a[1..] + b;
      HeadersAppend(a[1..], b);
    }
  }

  lemma {:induction false} ShownAppend(a: seq<Line>, b: seq<Line>)
    ensures Shown(a + b) == Shown(a) + Shown(b)
  {
    if a == [] {
      assert a + b == b;
    } else {
      var ab := a + b;
      assert ab[0] == a[0];
      assert ab[1..] == a[1..] + b;
      ShownAppend(a[1..], b);
    }
  }

  lemma {:induction false} FixtureLinesHaveNoHeaders(ms: seq<Match>)
    ensures Headers(FixtureLines(ms)) == []
    ensures Shown(FixtureLines(ms)) == FixtureLines(ms)
  {
    if ms != [] {
      assert FixtureLines(ms)[1..] == FixtureLines(ms[1..]);
      FixtureLinesHaveNoHeaders(ms[1..]);
    }
  }

  /** The printing loop over `s`, entered with `currentRound == current`. */
  function Lines(s: seq<Match>, current: int): seq<Line> {
    if s == [] then []
    else
      (if current != s[0].round then [Header(s[0].round), Rule] else [])
      + [FixtureLine(s[0])] + Lines(s[1..], s[0].round)
  }

  /** Every match gets its `home vs away` line, in list order, and no other
      fixture line is printed. */
  lemma {:induction false} LinesShowEveryMatch(s: seq<Match>, current: int)
    ensures Shown(Lines(s, current)) == FixtureLines(s)
  {
    if s != [] {
      var rest := Lines(s[1..], s[0].round);
      calc {
        Shown(Lines(s, current));
        { LinesStep(s, 0, current); assert s[0..] == s; }
        Shown(Step(s[0], current) + rest);
        { ShownAppend(Step(s[0], current), rest); }
        Shown(Step(s[0], current)) + Shown(rest);
        { ShownStep(s[0], current); LinesShowEveryMatch(s[1..], s[0].round); }
        [FixtureLine(s[0])] + FixtureLines(s[1..]);
      }
      assert FixtureLines(s) == [FixtureLine(s[0])] + FixtureLines(s[1..]);
    }
  }

  /** One pass of the loop shows exactly the match's own line. */
  lemma ShownStep(m: Match, current: int)
    ensures Shown(Step(m, current)) == [FixtureLine(m)]
  {
    var head := if current != m.round then [Header(m.round), Rule] else [];
    ShownAppend(head, [FixtureLine(m)]);
    assert [FixtureLine(m)][1..] == [];
    if current != m.round {
      assert head[1..] == [Rule];
      assert head[1..][1..] == [];
    }
  }

  /** The number of leading matches of `s` played in round `r`. */
  function RunLength(s: seq<Match>, r: int): (len: nat)
    ensures len <= |s|
    ensures len < |s| ==> s[len].round != r
  {
    if s == [] || s[0].round != r then 0 else 1 + RunLength(s[1..], r)
  }

  /** Every match of the run is played in the run's round. */
  lemma {:induction false} RunIsOneRound(s: seq<Match>, r: int, k: nat)
    requires k < RunLength(s, r)
    ensures s[k].round == r
  {
    if k > 0 {
      RunIsOneRound(s[1..], r, k - 1);
    }
  }

  /** The intended layout, built independently of `currentRound`: split the
      list into maximal runs of one round and print each run under a header
      for its round. */
  function Layout(s: seq<Match>): seq<Line>
    decreases |s|
  {
    if s == [] then []
    else
      var len := RunLength(s, s[0].round);
      [Header(s[0].round), Rule] + FixtureLines(s[..len]) + Layout(s[len..])
  }

  /** What the loop prints from `s` inside a run of round `r`. */
  predicate PrintsRunThenLayout(s: seq<Match>, r: int) {
    var len := RunLength(s, r);
    Lines(s, r) == FixtureLines(s[..len]) + Layout(s[len..])
  }

  /** Inside a run of round `r` the loop prints only fixture lines until the
      run ends, and then lays out the rest. */
  lemma {:induction false} LinesWithinRun(s: seq<Match>, r: int)
    ensures PrintsRunThenLayout(s, r)
  {
    if s == [] {
    } else if s[0].round == r {
      LinesWithinRun(s[1..], r);
      RunContinues(s, r);
    } else {
      LinesWithinRun(s[1..], s[0].round);
      RunStarts(s, r);
    }
  }

  lemma RunContinues(s: seq<Match>, r: int)
    requires s != [] && s[0].round == r && PrintsRunThenLayout(s[1..], r)
    ensures PrintsRunThenLayout(s, r)
  {
    var len := RunLength(s[1..], r);
    var first: seq<Line> := [FixtureLine(s[0])];
    var run := FixtureLines(s[1..][..len]);
    var rest := Layout(s[1..][len..]);
    calc {
      Lines(s, r);
      first + Lines(s[1..], r);
      first + (run + rest);
      { Arith.SeqAssoc(first, run, rest); }
      first + run + rest;
      { RunPrefix(s, len); }
      FixtureLines(s[..1 + len]) + Layout(s[1 + len..]);
    }
    assert RunLength(s, r) == 1 + len;
  }

  lemma RunStarts(s: seq<Match>, r: int)
    requires s != [] && s[0].round != r && PrintsRunThenLayout(s[1..], s[0].round)
    ensures PrintsRunThenLayout(s, r)
  {
    var r0 := s[0].round;
    var len := RunLength(s[1..], r0);
    var head: seq<Line> := [Header(r0), Rule];
    var first: seq<Line> := [FixtureLine(s[0])];
    var run := FixtureLines(s[1..][..len]);
    var rest := Layout(s[1..][len..]);
    calc {
      Lines(s, r);
      head + first + Lines(s[1..], r0);
      head + first + (run + rest);
      { Arith.SeqAssoc(head + first, run, rest); }
      head + first + run + rest;
      { Arith.SeqAssoc(head, first, run); }
      head + (first + run) + rest;
      { RunLengthStep(s); LayoutUnfold(s); RunPrefix(s, len); }
      Layout(s);
    }
    assert RunLength(s, r) == 0;
    assert s[..0] == [] && s[0..] == s;
  }

  lemma RunLengthStep(s: seq<Match>)
    requires 0 < |s|
    ensures RunLength(s, s[0].round) == 1 + RunLength(s[1..], s[0].round)
  {
  }

  lemma LayoutUnfold(s: seq<Match>)
    requires 0 < |s|
    ensures var len := RunLength(s, s[0].round);
      Layout(s) == [Header(s[0].round), Rule] + FixtureLines(s[..len]) + Layout(s[len..])
  {
  }

  lemma RunPrefix(s: seq<Match>, len: nat)
    requires 0 < |s| && len < |s|
    ensures FixtureLines(s[..1 + len]) == [FixtureLine(s[0])] + FixtureLines(s[1..][..len])
    ensures s[1 + len..] == s[1..][len..]
  {
    assert s[..1 + len] == [s[0]] + s[1..][..len];
  }

  /** Entered with a `currentRound` that differs from the first match's
      round, the loop prints exactly the run-by-run layout. */
  lemma LinesAreLayout(s: seq<Match>, current: int)
    requires s == [] || s[0].round != current
    ensures Lines(s, current) == Layout(s)
  {
    LinesWithinRun(s, current);
  }

  /** Reference rendering by rounds: for each round of `rounds` in turn, a
      header, a rule, and the fixture lines of that round's matches in list
      order. */
  function ByRounds(rounds: seq<int>, s: seq<Match>): seq<Line> {
    if rounds == [] then []
    else
      [Header(rounds[0]), Rule] + FixtureLines(RoundSort.InRound(s, rounds[0]))
      + ByRounds(rounds[1..], s)
  }

  lemma {:induction false} ByRoundsAgree(rounds: seq<int>, a: seq<Match>, b: seq<Match>)
    requires forall k :: 0 <= k < |rounds| ==>
      RoundSort.InRound(a, rounds[k]) == RoundSort.InRound(b, rounds[k])
    ensures ByRounds(rounds, a) == ByRounds(rounds, b)
  {
    if rounds != [] {
      assert RoundSort.InRound(a, rounds[0]) == RoundSort.InRound(b, rounds[0]);
      ByRoundsAgree(rounds[1..], a, b);
    }
  }

  lemma {:induction false} InRoundAll(s: seq<Match>, r: int)
    requires forall k :: 0 <= k < |s| ==> s[k].round == r
    ensures RoundSort.InRound(s, r) == s
  {
    if s != [] {
      InRoundAll(s[1..], r);
    }
  }

  lemma {:induction false} InRoundNone(s: seq<Match>, r: int)
    requires forall k :: 0 <= k < |s| ==> s[k].round != r
    ensures RoundSort.InRound(s, r) == []
  {
    if s != [] {
      InRoundNone(s[1..], r);
    }
  }

  /** Splitting an ordered list at the end of its first run: the run holds
      round `s[0].round` only, every later match has a later round. */
  lemma SortedSplit(s: seq<Match>, len: nat)
    requires RoundSort.SortedByRound(s) && s != [] && len == RunLength(s, s[0].round)
    ensures 1 <= len <= |s| && s == s[..len] + s[len..]
    ensures RoundSort.SortedByRound(s[len..])
    ensures forall k :: 0 <= k < len ==> s[..len][k].round == s[0].round
    ensures forall k :: 0 <= k < |s| - len ==> s[len..][k].round > s[0].round
  {
    RunPart(s, len);
    RestLater(s, len);
    RestSorted(s, len);
  }

  lemma RunPart(s: seq<Match>, len: nat)
    requires s != [] && len == RunLength(s, s[0].round)
    ensures 1 <= len <= |s| && s == s[..len] + s[len..]
    ensures forall k :: 0 <= k < len ==> s[..len][k].round == s[0].round
  {
    forall k | 0 <= k < len
      ensures s[..len][k].round == s[0].round
    {
      RunIsOneRound(s, s[0].round, k);
    }
  }

  lemma RestLater(s: seq<Match>, len: nat)
    requires RoundSort.SortedByRound(s) && s != [] && len == RunLength(s, s[0].round)
    ensures forall k :: 0 <= k < |s| - len ==> s[len..][k].round > s[0].round
  {
    forall k | 0 <= k < |s| - len
      ensures s[len..][k].round > s[0].round
    {
      assert s[len..][k] == s[len + k];
      assert s[len].round != s[0].round;
      assert s[0].round <= s[len].round;
      assert s[len].round <= s[len + k].round;
    }
  }

  lemma RestSorted(s: seq<Match>, len: nat)
    requires RoundSort.SortedByRound(s) && len <= |s|
    ensures RoundSort.SortedByRound(s[len..])
  {
    var rest := s[len..];
    forall j, k | 0 <= j <= k < |rest|
      ensures rest[j].round <= rest[k].round
    {
      assert rest[j] == s[len + j] && rest[k] == s[len + k];
    }
  }

  lemma HeadersOfHead(r: int)
    ensures Headers([Header(r), Rule]) == [r]
  {
    assert [Header(r), Rule][1..] == [Rule];
    assert [Rule][1..] == [];
  }

  /** The headers of a layout: the first match's round, then the headers
      of the layout of what follows its run. */
  lemma LayoutHeadersStep(s: seq<Match>)
    requires s != []
    ensures var len := RunLength(s, s[0].round);
      Headers(Layout(s)) == [s[0].round] + Headers(Layout(s[len..]))
  {
    var r0 := s[0].round;
    var len := RunLength(s, r0);
    var head: seq<Line> := [Header(r0), Rule];
    var run := FixtureLines(s[..len]);
    var rest := Layout(s[len..]);
    calc {
      Headers(Layout(s));
      { LayoutUnfold(s); }
      Headers(head + run + rest);
      { HeadersAppend(head + run, rest); }
      Headers(head + run) + Headers(rest);
      { HeadersAppend(head, run); FixtureLinesHaveNoHeaders(s[..len]); }
      Headers(head) + Headers(rest);
      { HeadersOfHead(r0); }
      [r0] + Headers(rest);
    }
  }

  /** A round has a header in the layout exactly when some match of the
      list is played in it. */
  lemma {:induction false} LayoutHeaderIff(s: seq<Match>, r: int)
    ensures r in Headers(Layout(s)) <==> exists k :: 0 <= k < |s| && s[k].round == r
    decreases |s|
  {
    if s != [] {
      var r0 := s[0].round;
      var len := RunLength(s, r0);
      RunPart(s, len);
      var rest := s[len..];
      LayoutHeaderIff(rest, r);
      LayoutHeadersStep(s);
      assert Headers(Layout(s)) == [r0] + Headers(Layout(rest));
      RoundInRunOrRest(s, len, r);
    }
  }

  /** A round is played in `s` exactly when it is the round of the first
      run or is played after that run. */
  lemma RoundInRunOrRest(s: seq<Match>, len: nat, r: int)
    requires 1 <= len <= |s|
    requires forall k :: 0 <= k < len ==> s[..len][k].round == s[0].round
    ensures (exists k :: 0 <= k < |s| && s[k].round == r)
        <==> r == s[0].round || exists k :: 0 <= k < |s[len..]| && s[len..][k].round == r
  {
    if k :| 0 <= k < |s[len..]| && s[len..][k].round == r {
      assert s[len + k].round == r;
    }
    if k :| 0 <= k < |s| && s[k].round == r {
      if k >= len {
        assert s[len..][k - len].round == r;
      } else {
        assert s[..len][k].round == s[0].round;
      }
    }
  }

  /** For a list ordered by round, the layout's headers are strictly
      ascending. */
  lemma {:induction false} LayoutHeadersAscending(s: seq<Match>)
    requires RoundSort.SortedByRound(s)
    ensures var hs := Headers(Layout(s));
      forall j, k :: 0 <= j < k < |hs| ==> hs[j] < hs[k]
    decreases |s|
  {
    if s != [] {
      var r0 := s[0].round;
      var len := RunLength(s, r0);
      SortedSplit(s, len);
      var rest := s[len..];
      LayoutHeadersAscending(rest);
      LayoutHeadersStep(s);
      var tail := Headers(Layout(rest));
      forall t | t in tail
        ensures t > r0
      {
        LayoutHeaderIff(rest, t);
      }
      var hs := Headers(Layout(s));
      assert hs == [r0] + tail;
      forall j, k | 0 <= j < k < |hs|
        ensures hs[j] < hs[k]
      {
        assert hs[k] == tail[k - 1];
        if j > 0 {
          assert hs[j] == tail[j - 1];
        } else {
          assert tail[k - 1] in tail;
        }
      }
    }
  }

  /** For a list ordered by round, the layout is the rendering by rounds
      over its own headers: each header is followed by the fixture lines of
      exactly that round's matches, in list order. */
  lemma {:induction false} LayoutIsByRounds(s: seq<Match>)
    requires RoundSort.SortedByRound(s)
    ensures Layout(s) == ByRounds(Headers(Layout(s)), s)
    decreases |s|
  {
    if s != [] {
      var r0 := s[0].round;
      var len := RunLength(s, r0);
      SortedSplit(s, len);
      var run, rest := s[..len], s[len..];
      LayoutIsByRounds(rest);
      LayoutHeadersStep(s);
      var tail := Headers(Layout(rest));
      assert RoundSort.InRound(s, r0) == run by {
        InRoundAll(run, r0);
        InRoundNone(rest, r0);
        RoundSort.InRoundAppend(run, rest, r0);
      }
      forall k | 0 <= k < |tail|
        ensures RoundSort.InRound(rest, tail[k]) == RoundSort.InRound(s, tail[k])
      {
        LayoutHeaderIff(rest, tail[k]);
        assert tail[k] in tail;
        var j :| 0 <= j < |rest| && rest[j].round == tail[k];
        InRoundNone(run, tail[k]);
        RoundSort.InRoundAppend(run, rest, tail[k]);
      }
      ByRoundsAgree(tail, rest, s);
      var hs := Headers(Layout(s));
      assert hs[0] == r0 && hs[1..] == tail;
    }
  }

  /** For a list ordered by round, the layout has one header per distinct
      round, in strictly ascending order, each followed by the fixture lines
      of exactly that round's matches in list order. */
  lemma LayoutGroupsByRound(s: seq<Match>)
    requires RoundSort.SortedByRound(s)
    ensures var hs := Headers(Layout(s));
      && (forall j, k :: 0 <= j < k < |hs| ==> hs[j] < hs[k])
      && (forall r :: r in hs <==> exists k :: 0 <= k < |s| && s[k].round == r)
      && Layout(s) == ByRounds(hs, s)
  {
    LayoutHeadersAscending(s);
    forall r
      ensures r in Headers(Layout(s)) <==> exists k :: 0 <= k < |s| && s[k].round == r
    {
      LayoutHeaderIff(s, r);
    }
    LayoutIsByRounds(s);
  }

  /** Decimal notation of an integer, as Java's string concatenation
      writes it. */
  function IntString(i: int): string {
    if i < 0 then "-" + NatString(-i) else NatString(i)
  }

  function NatString(n: nat): string {
    var digit := ('0' as int + n % 10) as char;
    if n < 10 then [digit] else NatString(n / 10) + [digit]
  }

  /** The text `displaySchedule` appends to its buffer for one line. */
  function BufferText(l: Line): string {
    match l
    case Header(r) => "\nRound " + IntString(r) + ":\n"
    case Rule => "-------------------\n"
    case Fixture(home, away) => home + " vs " + away + "\n"
  }

  /** The text `printSchedule` writes to the console for one line. Both
      `println` and `%n` end a line with the platform's line separator, which
      is taken to be "\n" here, as on Unix-like platforms. */
  function ConsoleText(l: Line): string {
    match l
    case Header(r) => ("\nRound " + IntString(r) + ":") + "\n"
    case Rule => "-------------------" + "\n"
    case Fixture(home, away) => home + " vs " + away + "\n"
  }

  /** The text of one line on the console or in the window. */
  function LineText(l: Line, console: bool): string {
    if console then ConsoleText(l) else BufferText(l)
  }

  function Render(ls: seq<Line>, console: bool): string {
    if ls == [] then ""
    else LineText(ls[0], console) + Render(ls[1..], console)
  }

  /** Both printers write the same text for the same lines, where the
      platform's line separator is "\n". */
  lemma {:induction false} ConsoleMatchesWindow(ls: seq<Line>)
    ensures Render(ls, true) == Render(ls, false)
  {
    if ls != [] {
      ConsoleMatchesWindow(ls[1..]);
      match ls[0]
      case Header(r) =>
        assert ("\nRound " + IntString(r) + ":") + "\n" == "\nRound " + IntString(r) + ":\n";
      case Rule =>
      case Fixture(_, _) =>
    }
  }

  lemma {:induction false} RenderAppend(a: seq<Line>, b: seq<Line>, console: bool)
    ensures Render(a + b, console) == Render(a, console) + Render(b, console)
  {
    if a == [] {
      assert a + b == b;
    } else {
      var ab := a + b;
      assert ab[0] == a[0];
      assert ab[1..] == a[1..] + b;
      RenderAppend(a[1..], b, console);
    }
  }

  /** One pass of the printing loop at match `i`: an optional header and
      rule, then the match's line. */
  function Step(m: Match, current: int): seq<Line> {
    (if current != m.round then [Header(m.round), Rule] else []) + [FixtureLine(m)]
  }

  lemma RenderOne(l: Line, console: bool)
    ensures Render([l], console) == LineText(l, console)
  {
    assert [l][1..] == [];
  }

  /** The text of one pass of the printing loop. */
  lemma RenderStep(m: Match, current: int, console: bool)
    ensures Render(Step(m, current), console) ==
      (if current != m.round then LineText(Header(m.round), console) + LineText(Rule, console) else "")
      + LineText(FixtureLine(m), console)
  {
    var head := if current != m.round then [Header(m.round), Rule] else [];
    RenderAppend(head, [FixtureLine(m)], console);
    RenderOne(FixtureLine(m), console);
    if current != m.round {
      RenderAppend([Header(m.round)], [Rule], console);
      RenderOne(Header(m.round), console);
      RenderOne(Rule, console);
      assert head == [Header(m.round)] + [Rule];
    }
  }

  lemma LinesStep(s: seq<Match>, i: nat, current: int)
    requires i < |s|
    ensures Lines(s[i..], current) == Step(s[i], current) + Lines(s[i + 1..], s[i].round)
  {
    assert s[i..][1..] == s[i + 1..];
  }

  /** The lines both printers produce: sort by round, then run the loop
      from `currentRound == 0`. */
  function ScheduleLines(schedule: seq<Match>): seq<Line> {
    Lines(RoundSort.SortByRound(schedule), 0)
  }

  /** Whatever list is printed, provided no match is in round 0 (the value
      `currentRound` starts from): one header per distinct round of the
      list, in strictly ascending order, each followed by the lines of
      exactly that round's matches in their original list order. */
  lemma PrintedByRound(s: seq<Match>)
    requires forall k :: 0 <= k < |s| ==> s[k].round != 0
    ensures var hs := Headers(ScheduleLines(s));
      && (forall j, k :: 0 <= j < k < |hs| ==> hs[j] < hs[k])
      && (forall r :: r in hs <==> exists k :: 0 <= k < |s| && s[k].round == r)
      && ScheduleLines(s) == ByRounds(hs, s)
  {
    var t := RoundSort.SortByRound(s);
    assert ScheduleLines(s) == Layout(t) by {
      if t != [] {
        assert t[0] in multiset(s);
      }
      LinesAreLayout(t, 0);
    }
    LayoutGroupsByRound(t);
    var hs := Headers(Layout(t));
    forall r
      ensures r in hs <==> exists k :: 0 <= k < |s| && s[k].round == r
    {
      SameRounds(s, t, r);
    }
    forall k | 0 <= k < |hs|
      ensures RoundSort.InRound(t, hs[k]) == RoundSort.InRound(s, hs[k])
    {
      RoundSort.SortStable(s, hs[k]);
    }
    ByRoundsAgree(hs, t, s);
  }

  /** Two lists holding the same matches play the same rounds. */
  lemma SameRounds(s: seq<Match>, t: seq<Match>, r: int)
    requires multiset(t) == multiset(s)
    ensures (exists k :: 0 <= k < |t| && t[k].round == r)
        <==> (exists k :: 0 <= k < |s| && s[k].round == r)
  {
    if k :| 0 <= k < |t| && t[k].round == r {
      assert t[k] in multiset(s);
      var k' :| 0 <= k' < |s| && s[k'] == t[k];
    }
    if k :| 0 <= k < |s| && s[k].round == r {
      assert s[k] in multiset(t);
      var k' :| 0 <= k' < |t| && t[k'] == s[k];
    }
  }

  /** The printout of a generated season: headers for rounds
      `1, 2, .., 2 * (n - 1)` in that order, each followed by the lines of
      that round's matches in generation order. */
  lemma ScheduleLinesByRound(teams: seq<string>, n: nat)
    requires ValidSize(n) && |teams| >= n
    ensures var s := Schedule(teams, n);
      var rounds := seq(2 * (n - 1), i => i + 1);
      && Headers(ScheduleLines(s)) == rounds
      && ScheduleLines(s) == ByRounds(rounds, s)
  {
    var s := Schedule(teams, n);
    PrintedByRound(s);
    var hs := Headers(ScheduleLines(s));
    forall r
      ensures r in hs <==> 1 <= r <= 2 * (n - 1)
    {
      if 1 <= r <= 2 * (n - 1) {
        EveryRoundPlayed(teams, n, r);
      }
    }
    Arith.AscendingRange(hs, 2 * (n - 1));
  }
}
