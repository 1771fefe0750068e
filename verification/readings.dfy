/** The range check of the lock-in drivers with every `ask("MAG")` answered
    afresh.

    The loop reads MAG up to four times per pass. Each test
    `abs(MAG) > 9000 or abs(MAG) < low` reads it once, and a second time
    only when the first answer is not over range. Choosing the direction
    reads it once or twice more. A signal that is still settling can answer
    differently each time. Here the k-th read of one call answers
    `mag(k, sen)`, any value, where `sen` is the index in force.
    `AutoRange.AutoRange` is the special case in which the answer depends on
    `sen` alone (`FromProfile`).
 */
module StreamRange {
  import opened Wrappers
  import opened Numbers
  import opened AutoRange

  /** The answer to the k-th MAG query of one call, at a given SEN index. */
  type Readings = (nat, int) -> int

  /** The readings of an instrument that answers from its profile only. */
  function FromProfile(prof: Profile): Readings
  {
    (k: nat, s: int) => prof(s)
  }

  datatype BandTest = BandTest(out: bool, next: nat)

  /** `abs(int(ask("MAG"))) > 9000 or abs(int(ask("MAG"))) < low` with its
      first read at `k`; `next` is the first read not yet made. */
  function OutOfBand(mag: Readings, k: nat, sen: int, low: int): (t: BandTest)
    ensures t.next == k + 1 <==> Abs(mag(k, sen)) > High
    ensures t.next == k + 1 || t.next == k + 2
    ensures t.out <==> Abs(mag(k, sen)) > High || Abs(mag(k + 1, sen)) < low
  {
    if Abs(mag(k, sen)) > High then BandTest(true, k + 1)
    else BandTest(Abs(mag(k + 1, sen)) < low, k + 2)
  }

  datatype PassOut = PassOut(events: seq<Event>, sen: int, next: nat)

  /** The body of the `while`: force TC when the policy does so inside the
      loop, then read MAG again to choose the direction. A reading that is
      back in the band by now writes no SEN at all. */
  function PassOf(p: Policy, mag: Readings, sen: int, k: nat): (r: PassOut)
    ensures r.sen == sen + 1 <==> Abs(mag(k, sen)) > High
    ensures r.sen == sen - 1 <==> Abs(mag(k, sen)) <= High && Abs(mag(k + 1, sen)) < Low
    ensures r.sen == sen <==> Abs(mag(k, sen)) <= High && Abs(mag(k + 1, sen)) >= Low
    ensures r.events == TcEvents(p) + (if r.sen == sen then [] else [WriteSen(r.sen)]) + [Sleep(StepPause)]
    ensures r.next == k + 1 || r.next == k + 2
  {
    if Abs(mag(k, sen)) > High then PassOut(IterationEvents(p, sen + 1), sen + 1, k + 1)
    else if Abs(mag(k + 1, sen)) < Low then PassOut(IterationEvents(p, sen - 1), sen - 1, k + 2)
    else PassOut(TcEvents(p) + [Sleep(StepPause)], sen, k + 2)
  }

  datatype Looped = Looped(trace: seq<Event>, sen: int, tc: int, saved: Option<int>, next: nat, converged: bool, passes: nat)

  /** The `while` loop, run for at most `fuel` passes. `saved` is the
      variable `current_tc`, unbound until a pass assigns it. */
  function LoopOf(p: Policy, mag: Readings, sen: int, tc: int, saved: Option<int>, k: nat, fuel: nat): (r: Looped)
    ensures !OutOfBand(mag, k, sen, Low).out <==> r.converged && r.passes == 0
    ensures !r.converged ==> r.passes == fuel
    ensures r.passes <= fuel
    ensures p.tcInside && r.passes > 0 ==> r.tc == p.fastTc && r.saved.Some?
    ensures !p.tcInside || r.passes == 0 ==> r.tc == tc && r.saved == saved
    decreases fuel
  {
    var t := OutOfBand(mag, k, sen, Low);
    if !t.out then Looped([], sen, tc, saved, t.next, true, 0)
    else if fuel == 0 then Looped([], sen, tc, saved, t.next, false, 0)
    else
      var pass := PassOf(p, mag, sen, t.next);
      var rest := LoopOf(p, mag, pass.sen, if p.tcInside then p.fastTc else tc,
                         if p.tcInside then Some(tc) else saved, pass.next, fuel - 1);
      Looped(pass.events + rest.trace, rest.sen, rest.tc, rest.saved, rest.next, rest.converged, rest.passes + 1)
  }

  datatype Checked = Checked(trace: seq<Event>, sen: int, tc: int, finished: bool)

  /** One call of the range check. A driver method whose first test reads
      out of band and whose `while` test then reads in band never assigns
      `current_tc`, and the restore raises UnboundLocalError. */
  function Check(p: Policy, mag: Readings, sen: int, tc: int, fuel: nat): (r: Result<Checked>)
    ensures !OutOfBand(mag, 0, sen, p.triggerLow).out ==> r == Ok(Checked([], sen, tc, true))
    ensures var t := OutOfBand(mag, 0, sen, p.triggerLow);
      r.Err? <==> p.tcInside && t.out && !OutOfBand(mag, t.next, sen, Low).out
    ensures r.Err? ==> r.error == UnboundLocal
    ensures r.Ok? && r.value.finished && r.value.trace != [] ==>
      |r.value.trace| >= 2 && r.value.trace[|r.value.trace| - 1] == Sleep(p.settle)
      && r.value.trace[|r.value.trace| - 2] == WriteTc(r.value.tc)
  {
    var t := OutOfBand(mag, 0, sen, p.triggerLow);
    if !t.out then Ok(Checked([], sen, tc, true))
    else
      var pre := if p.tcInside then [] else [WriteTc(p.fastTc)];
      var l := LoopOf(p, mag, sen, if p.tcInside then tc else p.fastTc, if p.tcInside then None else Some(tc), t.next, fuel);
      if !l.converged then Ok(Checked(pre + l.trace, l.sen, l.tc, false))
      else if l.saved.None? then Err(UnboundLocal)
      else Ok(Checked(pre + l.trace + [WriteTc(l.saved.value), Sleep(p.settle)], l.sen, l.saved.value, true))
  }

  // ------------------------------------------------------------- properties

  /** Answered from a profile, the loop makes exactly the passes, writes and
      TC changes of `AutoRange.Loop`. */
  lemma {:induction false} LoopAgrees(p: Policy, prof: Profile, sen: int, tc: int, saved: Option<int>, savedAt: int, k: nat, fuel: nat)
    requires saved.Some? ==> saved.value == savedAt
    ensures var s := LoopOf(p, FromProfile(prof), sen, tc, saved, k, fuel);
      var l := Loop(p, prof, sen, tc, savedAt, fuel);
      s.trace == l.trace && s.sen == l.sen && s.tc == l.tc && s.converged == l.converged
      && s.passes == |l.writes| && (s.saved.Some? ==> s.saved.value == l.saved)
    decreases fuel
  {
    var mag := FromProfile(prof);
    assert mag(k, sen) == prof(sen) && mag(k + 1, sen) == prof(sen);
    var t := OutOfBand(mag, k, sen, Low);
    assert t.out == !InBand(prof(sen));
    if t.out && fuel > 0 {
      var pass := PassOf(p, mag, sen, t.next);
      var next := Step(prof(sen), sen);
      assert mag(t.next, sen) == prof(sen) && mag(t.next + 1, sen) == prof(sen);
      assert pass.sen == next;
      assert pass.events == IterationEvents(p, next);
      var tc' := if p.tcInside then p.fastTc else tc;
      LoopAgrees(p, prof, next, tc', if p.tcInside then Some(tc) else saved,
                 if p.tcInside then tc else savedAt, pass.next, fuel - 1);
    }
  }

  /** Answered from a profile, a call never fails and does exactly what
      `AutoRange.AutoRange` does. */
  lemma ProfileAgrees(p: Policy, prof: Profile, sen: int, tc: int, fuel: nat)
    requires ValidPolicy(p)
    ensures var s := Check(p, FromProfile(prof), sen, tc, fuel);
      var a := AutoRange.AutoRange(p, prof, sen, tc, fuel);
      s == Ok(Checked(a.trace, a.sen, a.tc, a.finished))
  {
    var mag := FromProfile(prof);
    assert mag(0, sen) == prof(sen) && mag(1, sen) == prof(sen);
    var t := OutOfBand(mag, 0, sen, p.triggerLow);
    assert t.out == Triggered(p, prof(sen));
    if t.out {
      var tc0 := if p.tcInside then tc else p.fastTc;
      LoopAgrees(p, prof, sen, tc0, if p.tcInside then None else Some(tc), tc, t.next, fuel);
      var s := LoopOf(p, mag, sen, tc0, if p.tcInside then None else Some(tc), t.next, fuel);
      var l := Loop(p, prof, sen, tc0, tc, fuel);
      assert s.converged && p.tcInside ==> |l.writes| > 0;
    }
  }

  /** The reads that show the unbound `current_tc`: over range at the
      first test, in band at the `while` test. */
  lemma UnboundAfterSettling(p: Policy, mag: Readings, sen: int, tc: int, fuel: nat)
    requires p.tcInside
    requires Abs(mag(0, sen)) > High
    requires Abs(mag(1, sen)) <= High && Abs(mag(2, sen)) >= Low
    ensures Check(p, mag, sen, tc, fuel) == Err(UnboundLocal)
  {
    assert OutOfBand(mag, 0, sen, p.triggerLow).next == 1;
  }

  /** Both driver methods fail on a signal that reads 9500 once and 5000
      from then on. */
  lemma DriversUnbound(sen: int, tc: int, fuel: nat)
    ensures var mag: Readings := (k: nat, s: int) => if k == 0 then 9500 else 5000;
      Check(Dsp52xxMethod, mag, sen, tc, fuel) == Err(UnboundLocal)
      && Check(Dsp72xxMethod, mag, sen, tc, fuel) == Err(UnboundLocal)
  {
    var mag: Readings := (k: nat, s: int) => if k == 0 then 9500 else 5000;
    UnboundAfterSettling(Dsp52xxMethod, mag, sen, tc, fuel);
    UnboundAfterSettling(Dsp72xxMethod, mag, sen, tc, fuel);
  }

  /** Reading TC once before the loop, as the inline copy and the corrected
      methods do, binds the variable on every path: no read sequence makes
      the call fail. */
  lemma CorrectedNeverUnbound(mag: Readings, sen: int, tc: int, fuel: nat)
    ensures Check(Dsp52xxMethodCorrected, mag, sen, tc, fuel).Ok?
    ensures Check(Dsp72xxMethodCorrected, mag, sen, tc, fuel).Ok?
    ensures Check(Dsp52xxInline, mag, sen, tc, fuel).Ok?
  {
  }

  /** A pass whose direction reads are back in the band writes no SEN: on a
      signal over range for two reads and in band after, the 52XX method
      forces TC, waits, writes nothing, and restores TC. */
  lemma PassWithoutStep(sen: int, tc: int, fuel: nat)
    requires fuel > 0
    ensures var mag: Readings := (k: nat, s: int) => if k <= 1 then 9500 else 5000;
      Check(Dsp52xxMethod, mag, sen, tc, fuel)
        == Ok(Checked([WriteTc(4), Sleep(TcPause), Sleep(StepPause), WriteTc(tc), Sleep(10.0)], sen, tc, true))
  {
    var mag: Readings := (k: nat, s: int) => if k <= 1 then 9500 else 5000;
    var p := Dsp52xxMethod;
    assert OutOfBand(mag, 0, sen, p.triggerLow) == BandTest(true, 1);
    assert OutOfBand(mag, 1, sen, Low) == BandTest(true, 2);
    var pass := PassOf(p, mag, sen, 2);
    assert pass == PassOut([WriteTc(4), Sleep(TcPause), Sleep(StepPause)], sen, 4);
    assert OutOfBand(mag, 4, sen, Low) == BandTest(false, 6);
    var rest := LoopOf(p, mag, sen, 4, Some(tc), 4, fuel - 1);
    assert rest == Looped([], sen, 4, Some(tc), 6, true, 0);
    var l := LoopOf(p, mag, sen, tc, None, 1, fuel);
    assert l.trace == pass.events + rest.trace;
    assert [] + l.trace + [WriteTc(tc), Sleep(10.0)] == [WriteTc(4), Sleep(TcPause), Sleep(StepPause), WriteTc(tc), Sleep(10.0)];
    assert Check(p, mag, sen, tc, fuel)
      == Ok(Checked([WriteTc(4), Sleep(TcPause), Sleep(StepPause), WriteTc(tc), Sleep(10.0)], sen, tc, true));
    assert l == Looped([WriteTc(4), Sleep(TcPause), Sleep(StepPause)], sen, 4, Some(tc), 6, true, 1);
  }
}
