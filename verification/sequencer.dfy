/** The PPMS sequence editor and the sequence runner of the PPMS control tab.

    The editor is an ordered list of (command, value, rate) rows with at most
    one selected row. The runner walks the rows in order; each step sends one
    command to the PPMS and then polls a status until it reaches the step's
    target or a stop is requested. The controller is modelled by the finite
    list of status strings its polls return, and a stop request by the index
    of the first `should_stop` read that sees it; the stop handler runs just
    before that read. */
module Sequencer {
  import opened Wrappers
  import opened Text
  import opened Tree

  /** The labels of the command drop-down, in order; a row's command index
      is its label's position here. */
  const SequenceCommands: seq<string> := [
    "Set temperature (fast settle)", "Set field driven", "Set field persistent",
    "Wait minutes", "Shutdown in PotOps mode", "Shutdown in continuous mode"]

  /** Seconds between two status polls (the widget's default `check_interval`). */
  const CheckInterval := 30.0

  // ----- Editing -----

  /** One row of the sequence tree, as the texts typed into the form. */
  datatype Row = Row(command: string, value: string, rate: string)

  /** The sequence tree under single selection. */
  datatype Editor = Editor(rows: seq<Row>, selected: Option<nat>)

  /** The selection always names an existing row. */
  predicate Valid(e: Editor)
  {
    e.selected.Some? ==> e.selected.value < |e.rows|
  }

  /** `add_command`: nothing happens without a value; otherwise the row goes
      to the bottom when nothing is selected, or directly below the selected
      row, which stays selected. */
  function AddCommand(e: Editor, command: string, value: string, rate: string): (r: Editor)
    requires Valid(e)
    ensures Valid(r)
    ensures value == "" ==> r == e
    ensures value != "" ==> |r.rows| == |e.rows| + 1 && r.selected == e.selected
    ensures value != "" && e.selected.None? ==> r.rows[..|e.rows|] == e.rows && r.rows[|e.rows|] == Row(command, value, rate)
    ensures value != "" && e.selected.Some? ==>
      var i := e.selected.value;
      r.rows[..i + 1] == e.rows[..i + 1] && r.rows[i + 1] == Row(command, value, rate) && r.rows[i + 2..] == e.rows[i + 1..]
  {
    if value == "" then e
    else
      var item := Row(command, value, rate);
      match e.selected
      case None => Editor(InsertAt(e.rows, |e.rows|, item), None)
      case Some(i) =>
        var rows := InsertAt(e.rows, i + 1, item);
        assert rows[..i + 1] == e.rows[..i + 1];
        assert rows[i + 2..] == e.rows[i + 1..];
        Editor(rows, Some(i))
  }

  /** `remove_command`: the selected row goes, or the bottom row when
      nothing is selected; an empty tree stays empty. */
  function RemoveCommand(e: Editor): (r: Editor)
    requires Valid(e)
    ensures Valid(r) && r.selected.None?
    ensures |e.rows| > 0 ==> |r.rows| == |e.rows| - 1
    ensures |e.rows| == 0 ==> r.rows == []
    ensures e.selected.None? ==> r.rows == e.rows[..|r.rows|]
    ensures e.selected.Some? ==>
      var i := e.selected.value;
      r.rows[..i] == e.rows[..i] && r.rows[i..] == e.rows[i + 1..]
  {
    match e.selected
    case None => if |e.rows| == 0 then e else Editor(RemoveAt(e.rows, |e.rows| - 1), None)
    case Some(i) =>
      var rows := RemoveAt(e.rows, i);
      assert rows[..i] == e.rows[..i];
      assert rows[i..] == e.rows[i + 1..];
      Editor(rows, None)
  }

  /** `clear_sequence`. */
  function ClearSequence(e: Editor): (r: Editor)
    ensures Valid(r) && r.rows == []
  {
    Editor([], None)
  }

  /** With nothing selected, removing right after adding undoes the add. */
  lemma RemoveUndoesAppend(e: Editor, command: string, value: string, rate: string)
    requires Valid(e) && e.selected.None? && value != ""
    ensures RemoveCommand(AddCommand(e, command, value, rate)) == e
  {
    var r := AddCommand(e, command, value, rate);
    assert r.rows[..|e.rows|] == e.rows;
  }

  /** With a row selected, removing right after adding takes out the
      selected row, not the new one: the new row takes its place. */
  lemma RemoveAfterInsertReplaces(e: Editor, command: string, value: string, rate: string)
    requires Valid(e) && e.selected.Some? && value != ""
    ensures var i := e.selected.value;
      RemoveCommand(AddCommand(e, command, value, rate)).rows
        == e.rows[..i] + [Row(command, value, rate)] + e.rows[i + 1..]
  {
    var i := e.selected.value;
    var a := AddCommand(e, command, value, rate);
    var r := RemoveCommand(a);
    var want := e.rows[..i] + [Row(command, value, rate)] + e.rows[i + 1..];
    assert a.rows[..i] == e.rows[..i] by {
      assert a.rows[..i] == a.rows[..i + 1][..i];
    }
    assert r.rows[..i] == want[..i];
    assert r.rows[i..] == a.rows[i + 1..];
    assert a.rows[i + 1..] == [a.rows[i + 1]] + a.rows[i + 2..];
    assert want[i..] == [Row(command, value, rate)] + e.rows[i + 1..];
    assert r.rows == r.rows[..i] + r.rows[i..];
    assert want == want[..i] + want[i..];
  }

  // ----- Decoding a row -----

  /** Python's `xs.index(x)`: the first position of `x`, else ValueError. */
  function IndexOf<T(==)>(xs: seq<T>, x: T): (r: Result<nat>)
    ensures r.Ok? <==> x in xs
    ensures r.Ok? ==> r.value < |xs| && xs[r.value] == x && x !in xs[..r.value]
    ensures r.Err? ==> r.error == Unparsable
  {
    if |xs| == 0 then Err(Unparsable)
    else if xs[0] == x then Ok(0)
    else
      match IndexOf(xs[1..], x)
      case Err(f) => Err(f)
      case Ok(k) =>
        assert xs[..k + 1] == [xs[0]] + xs[1..][..k];
        Ok(k + 1)
  }

  /** What `run_sequence` takes from a row: the command index and the value
      and rate as floats. */
  datatype Command = Command(index: nat, value: real, rate: real)

  function ParseRow(row: Row): (r: Result<Command>)
    ensures r.Ok? <==> row.command in SequenceCommands && ParseDecimal(row.value).Some? && ParseDecimal(row.rate).Some?
    ensures r.Ok? ==> r.value.index < |SequenceCommands| && SequenceCommands[r.value.index] == row.command
    ensures r.Ok? ==> r.value.value == ParseDecimal(row.value).value && r.value.rate == ParseDecimal(row.rate).value
    ensures r.Err? ==> r.error == Unparsable
  {
    var index :- IndexOf(SequenceCommands, row.command);
    match (ParseDecimal(row.value), ParseDecimal(row.rate))
    case (Some(v), Some(t)) => Ok(Command(index, v, t))
    case _ => Err(Unparsable)
  }

  /** The drop-down labels are distinct, so the index names the command. */
  lemma CommandLabelsDistinct()
    ensures Distinct(SequenceCommands)
  {
    var s := SequenceCommands;
    assert |s[0]| == 29 && |s[1]| == 16 && |s[2]| == 20 && |s[3]| == 12 && |s[4]| == 23 && |s[5]| == 27;
  }

  lemma CommandIndexOfLabel(k: nat)
    requires k < |SequenceCommands|
    ensures IndexOf(SequenceCommands, SequenceCommands[k]) == Ok(k)
  {
    CommandLabelsDistinct();
  }

  /** A "Wait minutes" row typed without a rate cannot be run: the rate is
      parsed for every command. */
  lemma WaitNeedsRate(value: string)
    ensures ParseRow(Row(SequenceCommands[3], value, "")).Err?
  {
  }

  // ----- Running one step -----

  datatype Channel = TemperatureStatus | MagnetStatus

  /** What the runner asks of the PPMS. */
  datatype Event =
    | Begin(step: nat)
    | SetTemperature(value: real, rate: real)
    | SetFieldDriven(value: real, rate: real)
    | SetFieldPersistent(value: real, rate: real)
    | ShutdownPotOps
    | ShutdownContinuous
    | Poll(channel: Channel)
    | Sleep(seconds: real)

  /** The status a polling command waits for; the wait command polls nothing. */
  function Target(index: nat): (r: Option<(Channel, string)>)
    ensures index < |SequenceCommands| ==> (r.None? <==> index == 3)
    ensures index >= |SequenceCommands| ==> r.None?
    ensures r.Some? ==> (r.value.0 == MagnetStatus <==> index == 1 || index == 2)
  {
    if index == 0 then Some((TemperatureStatus, "Stable"))
    else if index == 1 then Some((MagnetStatus, "Driven mode stable"))
    else if index == 2 then Some((MagnetStatus, "Persistent mode stable"))
    else if index == 4 || index == 5 then Some((TemperatureStatus, "Standby"))
    else None
  }

  /** The instrument call that starts a command. */
  function Send(c: Command): (r: seq<Event>)
    ensures |r| <= 1
    ensures r == [] <==> Target(c.index).None?
    ensures c.index < 3 ==>
      |r| == 1 && (r[0].SetTemperature? || r[0].SetFieldDriven? || r[0].SetFieldPersistent?) &&
      r[0].value == c.value && r[0].rate == c.rate
  {
    if c.index == 0 then [SetTemperature(c.value, c.rate)]
    else if c.index == 1 then [SetFieldDriven(c.value, c.rate)]
    else if c.index == 2 then [SetFieldPersistent(c.value, c.rate)]
    else if c.index == 4 then [ShutdownPotOps]
    else if c.index == 5 then [ShutdownContinuous]
    else []
  }

  datatype StepEnd =
    | Reached          // `step_finished` became true
    | StopSeen         // `should_stop` ended the step first
    | NoMoreStatuses   // the recorded status list ran out
    | Failed(f: Failure)

  /** The result of `run_step`: the events, how many statuses it consumed
      and how many `should_stop` reads it made. */
  datatype StepOut = StepOut(events: seq<Event>, polled: nat, checks: nat, outcome: StepEnd)

  /** A polling loop of `run_step`: read `should_stop`, poll, and sleep
      `CheckInterval` before polling again. */
  function PollUntil(ch: Channel, target: string, statuses: seq<string>, checks: nat, stopAt: nat): (r: StepOut)
    ensures r.polled <= |statuses| && r.checks > checks
    ensures !r.outcome.Failed?
    ensures r.outcome == Reached <==>
      r.polled > 0 && statuses[r.polled - 1] == target && checks + r.polled <= stopAt
    ensures r.outcome == Reached ==> target !in statuses[..r.polled - 1]
    ensures r.outcome == StopSeen ==> target !in statuses[..r.polled] && checks + r.polled >= stopAt
    ensures r.outcome == NoMoreStatuses ==> r.polled == |statuses| && target !in statuses
    ensures r.checks == checks + r.polled + (if r.outcome == Reached then 0 else 1)
    decreases |statuses|
  {
    if checks >= stopAt then StepOut([], 0, checks + 1, StopSeen)
    else if |statuses| == 0 then StepOut([], 0, checks + 1, NoMoreStatuses)
    else if statuses[0] == target then StepOut([Poll(ch)], 1, checks + 1, Reached)
    else
      var rest := PollUntil(ch, target, statuses[1..], checks + 1, stopAt);
      assert statuses[1..][..rest.polled] == statuses[1..rest.polled + 1];
      assert rest.outcome == Reached ==> statuses[..rest.polled] == [statuses[0]] + statuses[1..][..rest.polled - 1];
      assert statuses[..rest.polled + 1] == [statuses[0]] + statuses[1..][..rest.polled];
      assert statuses == [statuses[0]] + statuses[1..];
      StepOut([Poll(ch), Sleep(CheckInterval)] + rest.events, rest.polled + 1, rest.checks, rest.outcome)
  }

  /** `run_step`. `step_finished` starts false and becomes true only when
      the target status is polled; the wait command sleeps `value` minutes
      once unless a stop is already requested. */
  function RunStep(c: Command, statuses: seq<string>, checks: nat, stopAt: nat): (r: StepOut)
    requires c.index < |SequenceCommands|
    ensures r.polled <= |statuses| && r.checks > checks
    ensures c.index == 3 ==> r.polled == 0 && r.checks == checks + 1
    ensures c.index == 3 && checks >= stopAt ==> r.outcome == StopSeen && r.events == []
    ensures c.index == 3 && checks < stopAt ==>
      (if c.value < 0.0 then r.outcome == Failed(NegativeSleep) else r.outcome == Reached && r.events == [Sleep(c.value * 60.0)])
    ensures c.index != 3 ==> (r.outcome == Reached <==>
      r.polled > 0 && statuses[r.polled - 1] == Target(c.index).value.1 && checks + r.polled <= stopAt)
    ensures c.index != 3 ==> |r.events| >= 1 && r.events[0] == Send(c)[0]
  {
    match Target(c.index)
    case None =>
      if checks >= stopAt then StepOut([], 0, checks + 1, StopSeen)
      else if c.value * 60.0 < 0.0 then StepOut([], 0, checks + 1, Failed(NegativeSleep))
      else StepOut([Sleep(c.value * 60.0)], 0, checks + 1, Reached)
    case Some((ch, target)) =>
      var p := PollUntil(ch, target, statuses, checks, stopAt);
      StepOut(Send(c) + p.events, p.polled, p.checks, p.outcome)
  }

  // ----- Running the sequence -----

  /** The flags `stop_sequence` looks at. */
  datatype Flags = Flags(currentStep: nat, stepFinished: bool)

  datatype End =
    | Completed
    | Stopped(step: nat)
    | Crashed(step: nat, f: Failure)
    | OutOfStatuses(step: nat)
    | EmptySequence    // the final clean-up checks a row that does not exist

  /** The events, the flags when the run ends, the flags the stop handler
      saw (if the stop came during the run), and how the run ended. */
  datatype Run = Run(events: seq<Event>, flags: Flags, atStop: Option<Flags>, outcome: End)

  /** After a step, `run_sequence` goes on only when the step reached its
      target and the `should_stop` read that follows it is clear. */
  predicate GoesOn(s: StepOut, stopAt: nat)
  {
    s.outcome == Reached && s.checks < stopAt
  }

  /** Every row decoded as `run_sequence` decodes it when it reaches it. */
  function Commands(rows: seq<Row>): (cs: seq<Result<Command>>)
    ensures |cs| == |rows|
    ensures forall k | 0 <= k < |rows| :: cs[k] == ParseRow(rows[k])
    ensures Decoded(cs)
  {
    seq(|rows|, k requires 0 <= k < |rows| => ParseRow(rows[k]))
  }

  /** Decoded rows name commands of the drop-down. */
  predicate Decoded(cs: seq<Result<Command>>)
  {
    forall k | 0 <= k < |cs| :: cs[k].Ok? ==> cs[k].value.index < |SequenceCommands|
  }

  /** `run_sequence` from row `j` on, after `checks` reads of `should_stop`;
      `cs` holds the decoded rows and `finished` the `step_finished` flag the
      previous row left (false before the first row). A row that fails to
      decode stops the run after `current_step` has moved to it but before
      `run_step` clears `step_finished`. */
  function RunFrom(cs: seq<Result<Command>>, j: nat, finished: bool, statuses: seq<string>, checks: nat, stopAt: nat): (r: Run)
    requires j < |cs| && Decoded(cs)
    ensures r.flags.currentStep < |cs| && j <= r.flags.currentStep
    ensures |r.events| > 0 && r.events[0] == Begin(j)
    ensures r.outcome != EmptySequence
    ensures r.outcome == Completed ==> r.flags == Flags(|cs| - 1, true) && r.atStop == None
    ensures r.outcome.Stopped? ==> r.outcome.step == r.flags.currentStep && r.atStop == Some(r.flags)
    ensures r.atStop.Some? <==> r.outcome.Stopped?
    ensures Begun(r.events) == Range(j, r.flags.currentStep)
    ensures r.outcome.Crashed? ==> r.outcome.step == r.flags.currentStep
    ensures r.outcome.Crashed? && cs[r.flags.currentStep].Err? ==>
      r.outcome == Crashed(r.flags.currentStep, cs[r.flags.currentStep].error) &&
      r.flags.stepFinished == (r.flags.currentStep > j || finished)
    decreases |cs| - j
  {
    BegunAppend([Begin(j)], []);
    match cs[j]
    case Err(f) => Run([Begin(j)], Flags(j, finished), None, Crashed(j, f))
    case Ok(c) =>
      var s := RunStep(c, statuses, checks, stopAt);
      var events := [Begin(j)] + s.events;
      NoBeginInStep(c, statuses, checks, stopAt);
      BegunAppend([Begin(j)], s.events);
      var flags := Flags(j, s.outcome == Reached);
      if s.outcome == NoMoreStatuses then Run(events, flags, None, OutOfStatuses(j))
      else if s.outcome.Failed? then Run(events, flags, None, Crashed(j, s.outcome.f))
      else if !GoesOn(s, stopAt) then Run(events, flags, Some(flags), Stopped(j))
      else if j + 1 == |cs| then Run(events, flags, None, Completed)
      else
        var rest := RunFrom(cs, j + 1, true, statuses[s.polled..], s.checks + 1, stopAt);
        BegunAppend(events, rest.events);
        assert Range(j, rest.flags.currentStep) == [j] + Range(j + 1, rest.flags.currentStep);
        Run(events + rest.events, rest.flags, rest.atStop, rest.outcome)
  }

  /** `run_sequence`: the flags start at step 0, unfinished, not stopped. */
  function RunSequence(rows: seq<Row>, statuses: seq<string>, stopAt: nat): (r: Run)
    ensures |rows| == 0 <==> r.outcome == EmptySequence
    ensures |rows| > 0 ==> r.flags.currentStep < |rows|
    ensures |rows| > 0 ==> Begun(r.events) == Range(0, r.flags.currentStep)
    ensures r.outcome == Completed ==> r.flags == Flags(|rows| - 1, true)
    ensures r.atStop.Some? <==> r.outcome.Stopped?
    ensures r.outcome.Crashed? ==> r.outcome.step == r.flags.currentStep
    ensures r.outcome.Crashed? && ParseRow(rows[r.flags.currentStep]).Err? ==>
      r.flags == Flags(r.outcome.step, r.outcome.step > 0)
  {
    if |rows| == 0 then Run([], Flags(0, false), None, EmptySequence)
    else RunFrom(Commands(rows), 0, false, statuses, 0, stopAt)
  }

  /** The steps started, in the order the events show them. */
  function Begun(events: seq<Event>): seq<nat>
  {
    if |events| == 0 then []
    else (if events[0].Begin? then [events[0].step] else []) + Begun(events[1..])
  }

  lemma {:induction false} BegunAppend(a: seq<Event>, b: seq<Event>)
    ensures Begun(a + b) == Begun(a) + Begun(b)
    decreases |a|
  {
    if |a| > 0 {
      assert (a + b)[1..] == a[1..] + b;
      BegunAppend(a[1..], b);
    } else {
      assert a + b == b;
    }
  }

  /** Numbers `lo`, `lo + 1`, ..., `hi`. */
  function Range(lo: nat, hi: nat): (r: seq<nat>)
    requires lo <= hi
    ensures |r| == hi - lo + 1 && r[0] == lo
    ensures forall k | 0 <= k < |r| :: r[k] == lo + k
    decreases hi - lo
  {
    if lo == hi then [lo] else [lo] + Range(lo + 1, hi)
  }

  lemma NoBeginInStep(c: Command, statuses: seq<string>, checks: nat, stopAt: nat)
    requires c.index < |SequenceCommands|
    ensures Begun(RunStep(c, statuses, checks, stopAt).events) == []
  {
    var s := RunStep(c, statuses, checks, stopAt);
    if Target(c.index).Some? {
      var t := Target(c.index).value;
      NoBeginInPolls(t.0, t.1, statuses, checks, stopAt);
      BegunAppend(Send(c), PollUntil(t.0, t.1, statuses, checks, stopAt).events);
    }
  }

  lemma {:induction false} NoBeginInPolls(ch: Channel, target: string, statuses: seq<string>, checks: nat, stopAt: nat)
    ensures Begun(PollUntil(ch, target, statuses, checks, stopAt).events) == []
    decreases |statuses|
  {
    if checks < stopAt && |statuses| > 0 && statuses[0] != target {
      var rest := PollUntil(ch, target, statuses[1..], checks + 1, stopAt);
      NoBeginInPolls(ch, target, statuses[1..], checks + 1, stopAt);
      BegunAppend([Poll(ch), Sleep(CheckInterval)], rest.events);
    }
  }

  // ----- Stopping -----

  datatype StopReport = AbortedAfterFinishing | MarkedStopped(row: nat)

  /** `stop_sequence`'s decision, taken on the flags it sees. */
  function StopSequence(f: Flags, count: nat): (r: StopReport)
    ensures r == AbortedAfterFinishing <==> f.currentStep + 1 == count && f.stepFinished
    ensures r.MarkedStopped? ==> r.row == f.currentStep
  {
    if f.currentStep == count - 1 && f.stepFinished then AbortedAfterFinishing else MarkedStopped(f.currentStep)
  }

  /** A stop during the run reports "aborted after finishing" exactly when it
      came after the last step had reached its target; otherwise it marks
      the step that was running. */
  lemma StopReportDuringRun(rows: seq<Row>, statuses: seq<string>, stopAt: nat)
    requires RunSequence(rows, statuses, stopAt).atStop.Some?
    ensures var r := RunSequence(rows, statuses, stopAt);
      StopSequence(r.atStop.value, |rows|) == AbortedAfterFinishing
      <==> r.outcome == Stopped(|rows| - 1) && r.flags.stepFinished
  {
  }

  /** A stop pressed after the run crashed on an unreadable last row reports
      "aborted after finishing", although that row never ran: the flag still
      holds the previous row's completion. */
  lemma StopAfterUnreadableLastRow(rows: seq<Row>, statuses: seq<string>, stopAt: nat)
    requires |rows| > 1 && ParseRow(rows[|rows| - 1]).Err?
    requires RunSequence(rows, statuses, stopAt).outcome.Crashed?
    requires RunSequence(rows, statuses, stopAt).outcome.step == |rows| - 1
    ensures StopSequence(RunSequence(rows, statuses, stopAt).flags, |rows|) == AbortedAfterFinishing
  {
  }

  /** A stop pressed after a completed run always reports "aborted after
      finishing". */
  lemma StopAfterCompletion(rows: seq<Row>, statuses: seq<string>, stopAt: nat)
    requires RunSequence(rows, statuses, stopAt).outcome == Completed
    ensures StopSequence(RunSequence(rows, statuses, stopAt).flags, |rows|) == AbortedAfterFinishing
  {
  }
}
