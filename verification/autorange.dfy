/** The auto-range loop of the lock-in drivers and of the acquisition scripts.

    The instrument is seen through two registers, SEN and TC, and through a
    `Profile` giving the raw magnitude reading (full scale 10000) at each SEN
    index. The loop steps SEN by one until the magnitude lies in the band
    1000..9000 and records every command and pause it issues. The three copies
    in the code differ only in the constants of a `Policy`.
 */
module AutoRange {
  import opened Numbers
  import Dsp52xx

  /** Raw MAG reading at each SEN index. The SEN register takes whatever
      index is written, so the profile is defined on every integer. */
  type Profile = int -> int

  datatype Event =
    | WriteTc(code: int)   // "TC %d"
    | WriteSen(index: int) // "SEN %d"
    | Sleep(seconds: real)

  /** What distinguishes the copies of the loop. */
  datatype Policy = Policy(
    fastTc: int,         // TC code forced while stepping
    pauseAfterTc: bool,  // a 0.1 s pause after forcing TC
    settle: real,        // pause after restoring TC
    triggerLow: int,     // the check runs when |MAG| > 9000 or |MAG| < triggerLow
    tcInside: bool)      // TC is read and forced inside the loop, not once before it

  /** `DSP52XX_ar.auto_range`. */
  const Dsp52xxMethod := Policy(4, true, 10.0, 1000, true)
  /** `DSP72XX_ar.auto_range`. */
  const Dsp72xxMethod := Policy(11, false, 5.0, 1000, true)
  /** The range check written out in both acquisition scripts for a DSP 52XX. */
  const Dsp52xxInline := Policy(4, false, 10.0, 2000, false)

  const Low := 1000
  const High := 9000
  const StepPause := 1.0
  const TcPause := 0.1

  /** The trigger band is no wider than the loop band, and a loop that reads
      TC inside runs at least once whenever it is entered. */
  predicate ValidPolicy(p: Policy)
  {
    Low <= p.triggerLow <= High && (p.tcInside ==> p.triggerLow == Low)
  }

  lemma PoliciesValid()
    ensures ValidPolicy(Dsp52xxMethod) && ValidPolicy(Dsp72xxMethod) && ValidPolicy(Dsp52xxInline)
  {
  }

  predicate InBand(raw: int)
  {
    Low <= Abs(raw) <= High
  }

  predicate Triggered(p: Policy, raw: int)
  {
    Abs(raw) > High || Abs(raw) < p.triggerLow
  }

  /** The SEN index one iteration writes: up when over range, else down. */
  function Step(raw: int, sen: int): (r: int)
    ensures r == sen + 1 || r == sen - 1
    ensures r > sen <==> Abs(raw) > High
  {
    if Abs(raw) > High then sen + 1 else sen - 1
  }

  /** The SEN value in force before write `k`. */
  function Before(sen: int, writes: seq<int>, k: nat): int
    requires k <= |writes|
  {
    if k == 0 then sen else writes[k - 1]
  }

  /** The SEN value left after all the writes. */
  function Last(sen: int, writes: seq<int>): int
  {
    if |writes| == 0 then sen else writes[|writes| - 1]
  }

  /** Each write is made from an out-of-band reading and moves SEN by one in
      the direction the reading asks for. */
  predicate Chain(mag: Profile, sen: int, writes: seq<int>)
    decreases |writes|
  {
    |writes| == 0
    || (!InBand(mag(sen)) && writes[0] == Step(mag(sen), sen) && Chain(mag, writes[0], writes[1..]))
  }

  /** The chain read write by write: write `k` is made from the SEN value
      in force before it. */
  lemma {:induction false} ChainSteps(mag: Profile, sen: int, writes: seq<int>)
    requires Chain(mag, sen, writes)
    ensures forall k | 0 <= k < |writes| ::
      !InBand(mag(Before(sen, writes, k))) && writes[k] == Step(mag(Before(sen, writes, k)), Before(sen, writes, k))
    decreases |writes|
  {
    if |writes| > 0 {
      var rest := writes[1..];
      ChainSteps(mag, writes[0], rest);
      forall k | 1 <= k < |writes|
        ensures Before(sen, writes, k) == Before(writes[0], rest, k - 1) && writes[k] == rest[k - 1]
      {
      }
    }
  }

  /** The commands and pauses of one iteration that writes SEN `index`. */
  function IterationEvents(p: Policy, index: int): (r: seq<Event>)
    ensures |r| >= 2 && r[|r| - 2] == WriteSen(index) && r[|r| - 1] == Sleep(StepPause)
    ensures WriteTc(p.fastTc) in r <==> p.tcInside
    ensures |r| == 2 + (if p.tcInside then 1 else 0) + (if p.tcInside && p.pauseAfterTc then 1 else 0)
  {
    TcEvents(p) + [WriteSen(index), Sleep(StepPause)]
  }

  /** The TC forcing an iteration starts with, when TC is handled inside
      the loop. */
  function TcEvents(p: Policy): seq<Event>
  {
    if p.tcInside then [WriteTc(p.fastTc)] + (if p.pauseAfterTc then [Sleep(TcPause)] else []) else []
  }

  function Iterations(p: Policy, writes: seq<int>): seq<Event>
  {
    if |writes| == 0 then [] else IterationEvents(p, writes[0]) + Iterations(p, writes[1..])
  }

  datatype LoopOut = LoopOut(trace: seq<Event>, writes: seq<int>, sen: int, tc: int, saved: int, converged: bool)

  /** The `while` loop, run for at most `fuel` iterations. `tc` is the TC
      register and `saved` the variable holding the TC to restore. */
  function Loop(p: Policy, mag: Profile, sen: int, tc: int, saved: int, fuel: nat): (r: LoopOut)
    ensures r.converged ==> InBand(mag(r.sen))
    ensures !r.converged ==> |r.writes| == fuel
    ensures |r.writes| <= fuel
    ensures p.tcInside && |r.writes| > 0 ==> r.tc == p.fastTc
    ensures p.tcInside && |r.writes| == 1 ==> r.saved == tc
    ensures p.tcInside && |r.writes| > 1 ==> r.saved == p.fastTc
    ensures !p.tcInside || |r.writes| == 0 ==> r.tc == tc && r.saved == saved
    decreases fuel
  {
    if InBand(mag(sen)) then LoopOut([], [], sen, tc, saved, true)
    else if fuel == 0 then LoopOut([], [], sen, tc, saved, false)
    else
      var saved' := if p.tcInside then tc else saved;
      var tc' := if p.tcInside then p.fastTc else tc;
      var next := Step(mag(sen), sen);
      var rest := Loop(p, mag, next, tc', saved', fuel - 1);
      var writes := [next] + rest.writes;
      assert writes[1..] == rest.writes;
      LoopOut(IterationEvents(p, next) + rest.trace, writes, rest.sen, rest.tc, rest.saved, rest.converged)
  }

  /** The writes of the loop form a chain from the starting index. */
  lemma {:induction false} LoopChain(p: Policy, mag: Profile, sen: int, tc: int, saved: int, fuel: nat)
    ensures Chain(mag, sen, Loop(p, mag, sen, tc, saved, fuel).writes)
    decreases fuel
  {
    if !InBand(mag(sen)) && fuel > 0 {
      var next := Step(mag(sen), sen);
      var tc' := if p.tcInside then p.fastTc else tc;
      var saved' := if p.tcInside then tc else saved;
      LoopChain(p, mag, next, tc', saved', fuel - 1);
      LoopStep(p, mag, sen, tc, saved, fuel);
      var ws := Loop(p, mag, sen, tc, saved, fuel).writes;
      assert ws[1..] == Loop(p, mag, next, tc', saved', fuel - 1).writes;
    }
  }

  /** The loop's trace is one iteration per write. */
  lemma {:induction false} LoopTrace(p: Policy, mag: Profile, sen: int, tc: int, saved: int, fuel: nat)
    ensures var l := Loop(p, mag, sen, tc, saved, fuel); l.trace == Iterations(p, l.writes)
    decreases fuel
  {
    if !InBand(mag(sen)) && fuel > 0 {
      var next := Step(mag(sen), sen);
      var tc' := if p.tcInside then p.fastTc else tc;
      var saved' := if p.tcInside then tc else saved;
      var l := Loop(p, mag, sen, tc, saved, fuel);
      var rest := Loop(p, mag, next, tc', saved', fuel - 1);
      LoopTrace(p, mag, next, tc', saved', fuel - 1);
      assert l.trace == IterationEvents(p, next) + rest.trace;
      assert l.writes == [next] + rest.writes;
      assert l.writes[0] == next && l.writes[1..] == rest.writes;
    }
  }

  /** The loop ends on the index it wrote last. */
  lemma {:induction false} LoopLast(p: Policy, mag: Profile, sen: int, tc: int, saved: int, fuel: nat)
    ensures var l := Loop(p, mag, sen, tc, saved, fuel); l.sen == Last(sen, l.writes)
    decreases fuel
  {
    if !InBand(mag(sen)) && fuel > 0 {
      var next := Step(mag(sen), sen);
      var tc' := if p.tcInside then p.fastTc else tc;
      var saved' := if p.tcInside then tc else saved;
      var l := Loop(p, mag, sen, tc, saved, fuel);
      var rest := Loop(p, mag, next, tc', saved', fuel - 1);
      LoopLast(p, mag, next, tc', saved', fuel - 1);
      LoopStep(p, mag, sen, tc, saved, fuel);
      assert l.writes == [next] + rest.writes && l.sen == rest.sen;
      assert |rest.writes| > 0 ==> l.writes[|l.writes| - 1] == rest.writes[|rest.writes| - 1];
    }
  }

  datatype Run = Run(trace: seq<Event>, writes: seq<int>, sen: int, tc: int, finished: bool)

  /** One call of the range check on an instrument whose registers hold
      `sen` and `tc`. `finished` is false when the loop is still running after
      `fuel` iterations. */
  function AutoRange(p: Policy, mag: Profile, sen: int, tc: int, fuel: nat): (r: Run)
    requires ValidPolicy(p)
    ensures !Triggered(p, mag(sen)) ==> r == Run([], [], sen, tc, true)
    ensures Triggered(p, mag(sen)) ==>
      r.trace == (if p.tcInside then [] else [WriteTc(p.fastTc)]) + Iterations(p, r.writes)
                 + (if r.finished then [WriteTc(r.tc), Sleep(p.settle)] else [])
    ensures Chain(mag, sen, r.writes) && r.sen == Last(sen, r.writes)
    ensures r.finished ==> InBand(mag(r.sen))
    ensures !r.finished ==> |r.writes| == fuel
    ensures r.finished && Triggered(p, mag(sen)) ==>
      r.tc == if !p.tcInside || |r.writes| == 1 then tc else p.fastTc
    ensures !r.finished && (!p.tcInside || |r.writes| > 0) ==> r.tc == p.fastTc
  {
    if !Triggered(p, mag(sen)) then Run([], [], sen, tc, true)
    else
      var pre := if p.tcInside then [] else [WriteTc(p.fastTc)];
      var l := Loop(p, mag, sen, if p.tcInside then tc else p.fastTc, tc, fuel);
      LoopChain(p, mag, sen, if p.tcInside then tc else p.fastTc, tc, fuel);
      LoopLast(p, mag, sen, if p.tcInside then tc else p.fastTc, tc, fuel);
      LoopTrace(p, mag, sen, if p.tcInside then tc else p.fastTc, tc, fuel);
      if !l.converged then Run(pre + l.trace, l.writes, l.sen, l.tc, false)
      else
        assert p.tcInside ==> |l.writes| > 0;
        Run(pre + l.trace + [WriteTc(l.saved), Sleep(p.settle)], l.writes, l.sen, l.saved, true)
  }

  // ------------------------------------------------------ projections of a trace

  function SenWrites(t: seq<Event>): seq<int>
  {
    if |t| == 0 then [] else (if t[0].WriteSen? then [t[0].index] else []) + SenWrites(t[1..])
  }

  function TcWrites(t: seq<Event>): seq<int>
  {
    if |t| == 0 then [] else (if t[0].WriteTc? then [t[0].code] else []) + TcWrites(t[1..])
  }

  function Sleeps(t: seq<Event>): seq<real>
  {
    if |t| == 0 then [] else (if t[0].Sleep? then [t[0].seconds] else []) + Sleeps(t[1..])
  }

  lemma ProjectAppend(a: seq<Event>, b: seq<Event>)
    ensures SenWrites(a + b) == SenWrites(a) + SenWrites(b)
    ensures TcWrites(a + b) == TcWrites(a) + TcWrites(b)
    ensures Sleeps(a + b) == Sleeps(a) + Sleeps(b)
  {
    SenWritesAppend(a, b);
    TcWritesAppend(a, b);
    SleepsAppend(a, b);
  }

  lemma {:induction false} SenWritesAppend(a: seq<Event>, b: seq<Event>)
    ensures SenWrites(a + b) == SenWrites(a) + SenWrites(b)
    decreases |a|
  {
    if |a| == 0 {
      assert a + b == b;
    } else {
      var h := if a[0].WriteSen? then [a[0].index] else [];
      assert (a + b)[0] == a[0] && (a + b)[1..] == a[1..] + b;
      assert SenWrites(a + b) == h + SenWrites(a[1..] + b);
      SenWritesAppend(a[1..], b);
      assert h + (SenWrites(a[1..]) + SenWrites(b)) == (h + SenWrites(a[1..])) + SenWrites(b);
    }
  }

  lemma {:induction false} TcWritesAppend(a: seq<Event>, b: seq<Event>)
    ensures TcWrites(a + b) == TcWrites(a) + TcWrites(b)
    decreases |a|
  {
    if |a| == 0 {
      assert a + b == b;
    } else {
      var h := if a[0].WriteTc? then [a[0].code] else [];
      assert (a + b)[0] == a[0] && (a + b)[1..] == a[1..] + b;
      assert TcWrites(a + b) == h + TcWrites(a[1..] + b);
      TcWritesAppend(a[1..], b);
      assert h + (TcWrites(a[1..]) + TcWrites(b)) == (h + TcWrites(a[1..])) + TcWrites(b);
    }
  }

  lemma {:induction false} SleepsAppend(a: seq<Event>, b: seq<Event>)
    ensures Sleeps(a + b) == Sleeps(a) + Sleeps(b)
    decreases |a|
  {
    if |a| == 0 {
      assert a + b == b;
    } else {
      var h := if a[0].Sleep? then [a[0].seconds] else [];
      assert (a + b)[0] == a[0] && (a + b)[1..] == a[1..] + b;
      assert Sleeps(a + b) == h + Sleeps(a[1..] + b);
      SleepsAppend(a[1..], b);
      assert h + (Sleeps(a[1..]) + Sleeps(b)) == (h + Sleeps(a[1..])) + Sleeps(b);
    }
  }

  lemma ProjectOne(e: Event)
    ensures SenWrites([e]) == (if e.WriteSen? then [e.index] else [])
    ensures TcWrites([e]) == (if e.WriteTc? then [e.code] else [])
    ensures Sleeps([e]) == (if e.Sleep? then [e.seconds] else [])
  {
    assert [e][1..] == [];
  }

  /** The projections of a pair of events. */
  lemma ProjectTwo(a: Event, b: Event)
    ensures SenWrites([a, b]) == SenWrites([a]) + SenWrites([b])
    ensures TcWrites([a, b]) == TcWrites([a]) + TcWrites([b])
    ensures Sleeps([a, b]) == Sleeps([a]) + Sleeps([b])
  {
    assert [a, b] == [a] + [b];
    ProjectAppend([a], [b]);
  }

  function Repeat<T>(x: T, n: nat): (s: seq<T>)
    ensures |s| == n && forall k | 0 <= k < n :: s[k] == x
  {
    if n == 0 then [] else [x] + Repeat(x, n - 1)
  }

  /** The pauses one iteration makes. */
  function IterationPauses(p: Policy): seq<real>
  {
    (if p.tcInside && p.pauseAfterTc then [TcPause] else []) + [StepPause]
  }

  function Cycle<T>(s: seq<T>, n: nat): seq<T>
  {
    if n == 0 then [] else s + Cycle(s, n - 1)
  }

  /** The TC forcing writes no SEN, writes TC once when it happens, and
      pauses after it when asked to. */
  lemma TcEventsProject(p: Policy)
    ensures SenWrites(TcEvents(p)) == []
    ensures TcWrites(TcEvents(p)) == if p.tcInside then [p.fastTc] else []
    ensures Sleeps(TcEvents(p)) == if p.tcInside && p.pauseAfterTc then [TcPause] else []
  {
    if p.tcInside {
      ProjectOne(WriteTc(p.fastTc));
      if p.pauseAfterTc {
        ProjectTwo(WriteTc(p.fastTc), Sleep(TcPause));
        ProjectOne(Sleep(TcPause));
        assert TcEvents(p) == [WriteTc(p.fastTc), Sleep(TcPause)];
      } else {
        assert TcEvents(p) == [WriteTc(p.fastTc)];
      }
    }
  }

  /** The SEN write and the pause after it. */
  lemma StepProject(index: int)
    ensures SenWrites([WriteSen(index), Sleep(StepPause)]) == [index]
    ensures TcWrites([WriteSen(index), Sleep(StepPause)]) == []
    ensures Sleeps([WriteSen(index), Sleep(StepPause)]) == [StepPause]
  {
    ProjectTwo(WriteSen(index), Sleep(StepPause));
    ProjectOne(WriteSen(index));
    ProjectOne(Sleep(StepPause));
  }

  /** One iteration writes its SEN index once, forces TC when it is handled
      inside the loop, and makes the pauses of `IterationPauses`. */
  lemma IterationProject(p: Policy, index: int)
    ensures SenWrites(IterationEvents(p, index)) == [index]
    ensures TcWrites(IterationEvents(p, index)) == if p.tcInside then [p.fastTc] else []
    ensures Sleeps(IterationEvents(p, index)) == IterationPauses(p)
  {
    var step := [WriteSen(index), Sleep(StepPause)];
    ProjectAppend(TcEvents(p), step);
    TcEventsProject(p);
    StepProject(index);
    assert [] + [index] == [index];
    assert TcWrites(TcEvents(p)) + [] == TcWrites(TcEvents(p));
  }

  /** The SEN writes of the iterations are exactly the recorded writes; TC is
      forced once per iteration when it is handled inside the loop, and each
      iteration makes the same pauses. */
  lemma {:induction false} IterationsProject(p: Policy, writes: seq<int>)
    ensures SenWrites(Iterations(p, writes)) == writes
    ensures TcWrites(Iterations(p, writes)) == Repeat(p.fastTc, if p.tcInside then |writes| else 0)
    ensures Sleeps(Iterations(p, writes)) == Cycle(IterationPauses(p), |writes|)
    decreases |writes|
  {
    if |writes| > 0 {
      var head := IterationEvents(p, writes[0]);
      var rest := Iterations(p, writes[1..]);
      assert Iterations(p, writes) == head + rest;
      ProjectAppend(head, rest);
      IterationProject(p, writes[0]);
      IterationsProject(p, writes[1..]);
      assert writes == [writes[0]] + writes[1..];
      assert Cycle(IterationPauses(p), |writes|) == IterationPauses(p) + Cycle(IterationPauses(p), |writes[1..]|);
      if p.tcInside {
        assert Repeat(p.fastTc, |writes|) == [p.fastTc] + Repeat(p.fastTc, |writes[1..]|);
      }
    }
  }

  // ------------------------------------------------------------- properties

  /** With the magnitude in the band, nothing at all is written. */
  lemma NoWriteInBand(p: Policy, mag: Profile, sen: int, tc: int, fuel: nat)
    requires ValidPolicy(p) && InBand(mag(sen)) && Abs(mag(sen)) >= p.triggerLow
    ensures AutoRange(p, mag, sen, tc, fuel).trace == []
  {
  }

  /** The projections of a trace made of iterations between a prefix and a
      suffix. */
  lemma ProjectRun(p: Policy, pre: seq<Event>, writes: seq<int>, post: seq<Event>)
    ensures SenWrites(pre + Iterations(p, writes) + post) == SenWrites(pre) + writes + SenWrites(post)
    ensures TcWrites(pre + Iterations(p, writes) + post)
      == TcWrites(pre) + Repeat(p.fastTc, if p.tcInside then |writes| else 0) + TcWrites(post)
    ensures Sleeps(pre + Iterations(p, writes) + post)
      == Sleeps(pre) + Cycle(IterationPauses(p), |writes|) + Sleeps(post)
  {
    var mid := Iterations(p, writes);
    IterationsProject(p, writes);
    ProjectAppend(pre, mid);
    ProjectAppend(pre + mid, post);
  }

  /** Each write of a chain is one above or one below the index before it. */
  lemma ChainMovesByOne(mag: Profile, sen: int, writes: seq<int>)
    requires Chain(mag, sen, writes)
    ensures forall k | 0 <= k < |writes| :: Abs(writes[k] - Before(sen, writes, k)) == 1
  {
    ChainSteps(mag, sen, writes);
  }

  /** The TC forced once before the loop when it is not handled inside. */
  lemma PreProject(p: Policy)
    ensures var pre: seq<Event> := if p.tcInside then [] else [WriteTc(p.fastTc)];
      SenWrites(pre) == [] && TcWrites(pre) == (if p.tcInside then [] else [p.fastTc]) && Sleeps(pre) == []
  {
    ProjectOne(WriteTc(p.fastTc));
  }

  /** The TC restore and the settling pause of a finished check. */
  lemma PostProject(p: Policy, finished: bool, tc: int)
    ensures var post: seq<Event> := if finished then [WriteTc(tc), Sleep(p.settle)] else [];
      SenWrites(post) == [] && (finished ==> TcWrites(post) == [tc] && Sleeps(post) == [p.settle])
  {
    ProjectOne(WriteTc(tc));
    ProjectOne(Sleep(p.settle));
    ProjectTwo(WriteTc(tc), Sleep(p.settle));
  }

  /** The projections of the trace of a triggered check that made the SEN
      writes `writes` and, when it finished, restored TC `tc`. */
  lemma TriggeredTrace(p: Policy, writes: seq<int>, finished: bool, tc: int)
    ensures var t := (if p.tcInside then [] else [WriteTc(p.fastTc)]) + Iterations(p, writes)
                     + (if finished then [WriteTc(tc), Sleep(p.settle)] else []);
      SenWrites(t) == writes
      && (finished ==>
            TcWrites(t) == Repeat(p.fastTc, if p.tcInside then |writes| else 1) + [tc]
            && Sleeps(t) == Cycle(IterationPauses(p), |writes|) + [p.settle])
  {
    var pre: seq<Event> := if p.tcInside then [] else [WriteTc(p.fastTc)];
    var post: seq<Event> := if finished then [WriteTc(tc), Sleep(p.settle)] else [];
    var t := pre + Iterations(p, writes) + post;
    PreProject(p);
    PostProject(p, finished, tc);
    ProjectRun(p, pre, writes, post);
    assert SenWrites(t) == [] + writes + [];
    if finished {
      var n := if p.tcInside then |writes| else 0;
      var fast := Repeat(p.fastTc, if p.tcInside then |writes| else 1);
      if p.tcInside {
        assert TcWrites(pre) + Repeat(p.fastTc, n) == fast;
      } else {
        assert Repeat(p.fastTc, n) == [];
        assert TcWrites(pre) + Repeat(p.fastTc, n) == fast;
      }
      assert TcWrites(t) == fast + [tc];
      assert Sleeps(t) == [] + Cycle(IterationPauses(p), |writes|) + [p.settle];
    }
  }

  /** Every SEN command the check sends is one above or one below the index
      in force, never anything else. */
  lemma SenMovesByOne(p: Policy, mag: Profile, sen: int, tc: int, fuel: nat)
    requires ValidPolicy(p)
    ensures var r := AutoRange(p, mag, sen, tc, fuel);
      SenWrites(r.trace) == r.writes
      && forall k | 0 <= k < |r.writes| :: Abs(r.writes[k] - Before(sen, r.writes, k)) == 1
  {
    var r := AutoRange(p, mag, sen, tc, fuel);
    ChainMovesByOne(mag, sen, r.writes);
    TriggeredTrace(p, r.writes, r.finished, r.tc);
  }

  /** The TC and the pauses of a completed check: the fast TC is forced once
      per iteration (once in all for the inline copy), then one TC restore and
      one settling pause; one 1 s pause per iteration, plus 0.1 s after each
      TC write in the DSP 52XX method. */
  lemma TcAndPauses(p: Policy, mag: Profile, sen: int, tc: int, fuel: nat)
    requires ValidPolicy(p) && Triggered(p, mag(sen))
    ensures var r := AutoRange(p, mag, sen, tc, fuel);
      r.finished ==>
        TcWrites(r.trace) == Repeat(p.fastTc, if p.tcInside then |r.writes| else 1) + [r.tc]
        && Sleeps(r.trace) == Cycle(IterationPauses(p), |r.writes|) + [p.settle]
  {
    var r := AutoRange(p, mag, sen, tc, fuel);
    TriggeredTrace(p, r.writes, r.finished, r.tc);
  }

  /** The methods restore the TC found on entry only when the loop ran once
      (or when that TC was the fast one already): from the second iteration
      on, the TC they read back is the one they forced. */
  lemma TcRestoredOnlyAfterOneIteration(p: Policy, mag: Profile, sen: int, tc: int, fuel: nat)
    requires ValidPolicy(p) && p.tcInside && Triggered(p, mag(sen))
    ensures var r := AutoRange(p, mag, sen, tc, fuel);
      r.finished ==> (r.tc == tc <==> |r.writes| == 1 || tc == p.fastTc)
  {
  }

  /** The two methods with TC read and forced once before the loop, as the
      inline copy does it. */
  const Dsp52xxMethodCorrected := Policy(4, true, 10.0, 1000, false)
  const Dsp72xxMethodCorrected := Policy(11, false, 5.0, 1000, false)

  /** A policy that reads TC once before the loop restores it exactly, after
      any number of iterations, and forces the fast TC before the first. */
  lemma TcReadOnceRestored(p: Policy, mag: Profile, sen: int, tc: int, fuel: nat)
    requires ValidPolicy(p) && !p.tcInside
    ensures var r := AutoRange(p, mag, sen, tc, fuel);
      (r.finished ==> r.tc == tc) &&
      (Triggered(p, mag(sen)) ==> |r.trace| > 0 && r.trace[0] == WriteTc(p.fastTc))
  {
  }

  lemma CorrectedMethodsRestoreTc(mag: Profile, sen: int, tc: int, fuel: nat)
    ensures ValidPolicy(Dsp52xxMethodCorrected) && ValidPolicy(Dsp72xxMethodCorrected)
    ensures AutoRange(Dsp52xxMethodCorrected, mag, sen, tc, fuel).finished ==>
      AutoRange(Dsp52xxMethodCorrected, mag, sen, tc, fuel).tc == tc
    ensures AutoRange(Dsp72xxMethodCorrected, mag, sen, tc, fuel).finished ==>
      AutoRange(Dsp72xxMethodCorrected, mag, sen, tc, fuel).tc == tc
  {
    TcReadOnceRestored(Dsp52xxMethodCorrected, mag, sen, tc, fuel);
    TcReadOnceRestored(Dsp72xxMethodCorrected, mag, sen, tc, fuel);
  }

  /** The inline copy reads TC once and restores it exactly. */
  lemma InlineRestoresTc(mag: Profile, sen: int, tc: int, fuel: nat)
    ensures var r := AutoRange(Dsp52xxInline, mag, sen, tc, fuel);
      r.finished ==> r.tc == tc
  {
  }

  /** Between the inline trigger (2000) and the loop band (1000), the inline
      copy toggles TC to the fast value and back and waits 10 s, but leaves
      SEN alone. */
  lemma InlineToggle(mag: Profile, sen: int, tc: int, fuel: nat)
    requires Low <= Abs(mag(sen)) < Dsp52xxInline.triggerLow
    ensures AutoRange(Dsp52xxInline, mag, sen, tc, fuel)
      == Run([WriteTc(4), WriteTc(tc), Sleep(10.0)], [], sen, tc, true)
  {
  }

  /** One range up from an over-range reading does not read below the band. */
  predicate SettlesUp(mag: Profile, i: int)
  {
    Abs(mag(i)) > High ==> Abs(mag(i + 1)) >= Low
  }

  /** One range down from an under-range reading does not read above the band. */
  predicate SettlesDown(mag: Profile, i: int)
  {
    Abs(mag(i)) < Low ==> Abs(mag(i - 1)) <= High
  }

  /** On an instrument that never overshoots, a chain that starts over range
      goes up one index per write. */
  lemma {:induction false} UpwardsFrom(mag: Profile, sen: int, writes: seq<int>)
    requires Chain(mag, sen, writes) && Abs(mag(sen)) > High
    requires forall i :: SettlesUp(mag, i)
    ensures forall k | 0 <= k < |writes| :: writes[k] == sen + k + 1
    decreases |writes|
  {
    if |writes| > 1 {
      var rest := writes[1..];
      assert SettlesUp(mag, sen);
      assert !InBand(mag(sen + 1));
      UpwardsFrom(mag, sen + 1, rest);
      assert forall k | 1 <= k < |writes| :: writes[k] == rest[k - 1];
    }
  }

  /** Likewise a chain that starts under range goes down one index per write. */
  lemma {:induction false} DownwardsFrom(mag: Profile, sen: int, writes: seq<int>)
    requires Chain(mag, sen, writes) && Abs(mag(sen)) < Low
    requires forall i :: SettlesDown(mag, i)
    ensures forall k | 0 <= k < |writes| :: writes[k] == sen - k - 1
    decreases |writes|
  {
    if |writes| > 1 {
      var rest := writes[1..];
      assert SettlesDown(mag, sen);
      assert !InBand(mag(sen - 1));
      DownwardsFrom(mag, sen - 1, rest);
      assert forall k | 1 <= k < |writes| :: writes[k] == rest[k - 1];
    }
  }

  /** SEN is never clamped: an instrument that stays over range is driven
      past the top of the ladder, one index per iteration, and the check
      never finishes. */
  lemma {:induction false} NoClamping(p: Policy, sen: int, tc: int, fuel: nat)
    requires ValidPolicy(p)
    ensures var r := AutoRange(p, _ => 10000, sen, tc, fuel);
      !r.finished && |r.writes| == fuel && forall k | 0 <= k < fuel :: r.writes[k] == sen + k + 1
  {
    var mag: Profile := _ => 10000;
    var r := AutoRange(p, mag, sen, tc, fuel);
    assert forall i :: SettlesUp(mag, i);
    UpwardsFrom(mag, sen, r.writes);
  }

  // ------------------------------------------------------ a linear instrument

  /** The range an index selects, the ladder's ends standing in for indices
      beyond them. */
  function ClampedRange(i: int): real
  {
    Dsp52xx.Sensitivities[if i < 0 then 0 else if i > 15 then 15 else i]
  }

  /** An instrument measuring a signal of `volts` reads the truncated
      fraction of full scale. */
  function Linear(volts: real): Profile
    requires volts >= 0.0
  {
    i => Trunc(volts * Dsp52xx.FullScale / ClampedRange(i))
  }

  /** Neighbouring ranges are at most a factor 10/3 apart. */
  lemma LadderRatio(i: int)
    ensures ClampedRange(i) > 0.0
    ensures ClampedRange(i) <= ClampedRange(i + 1) <= ClampedRange(i) * 10.0 / 3.0
  {
  }

  /** If a reading `a / s` exceeds 9000, the reading `a / t` on a range at
      most 10/3 times larger exceeds 2700. */
  lemma RatioUp(a: real, s: real, t: real)
    requires a >= 0.0 && s > 0.0 && s <= t <= s * 10.0 / 3.0 && a / s > 9000.0
    ensures a / t > 2700.0
  {
    assert a > 9000.0 * s by {
      assert a == (a / s) * s;
      MulNonnegative(a / s - 9000.0, s);
    }
    assert 2700.0 * t <= 9000.0 * s;
    assert a == (a / t) * t;
    if a / t <= 2700.0 {
      MulNonnegative(2700.0 - a / t, t);
    }
  }

  /** If a reading `a / t` is below 1000, the reading `a / s` on a range at
      least 3/10 of `t` is below 3334. */
  lemma RatioDown(a: real, s: real, t: real)
    requires a >= 0.0 && s > 0.0 && s <= t <= s * 10.0 / 3.0 && a / t < 1000.0
    ensures a / s < 3334.0
  {
    assert a < 1000.0 * t by {
      assert a == (a / t) * t;
      MulPositive(1000.0 - a / t, t);
    }
    assert 1000.0 * t <= 3334.0 * s;
    assert a == (a / s) * s;
    if a / s >= 3334.0 {
      MulNonnegative(a / s - 3334.0, s);
    }
  }

  /** A linear instrument never overshoots: one range up from an over-range
      reading never reads below the band, and one range down from an
      under-range reading never reads above it. */
  lemma LinearNoOvershoot(volts: real, i: int)
    requires volts >= 0.0
    ensures Linear(volts)(i) > High ==> Linear(volts)(i + 1) >= Low
    ensures Linear(volts)(i) < Low ==> Linear(volts)(i - 1) <= High
  {
    var a := volts * Dsp52xx.FullScale;
    LadderRatio(i);
    LadderRatio(i - 1);
    if Linear(volts)(i) > High {
      RatioUp(a, ClampedRange(i), ClampedRange(i + 1));
    }
    if Linear(volts)(i) < Low {
      RatioDown(a, ClampedRange(i - 1), ClampedRange(i));
    }
  }

  lemma LinearNonnegative(volts: real, i: int)
    requires volts >= 0.0
    ensures Linear(volts)(i) >= 0
  {
    LadderRatio(i);
  }

  /** A linear instrument never overshoots the band in either direction. */
  lemma LinearSettles(volts: real)
    requires volts >= 0.0
    ensures forall i :: SettlesUp(Linear(volts), i) && SettlesDown(Linear(volts), i)
  {
    forall i
      ensures SettlesUp(Linear(volts), i) && SettlesDown(Linear(volts), i)
    {
      LinearNonnegative(volts, i);
      LinearNonnegative(volts, i + 1);
      LinearNonnegative(volts, i - 1);
      LinearNoOvershoot(volts, i);
    }
  }

  /** On a linear instrument SEN moves in one direction only: up one index
      per write from an over-range start, down one from an under-range start. */
  lemma {:induction false} LinearOneWay(p: Policy, volts: real, sen: int, tc: int, fuel: nat)
    requires ValidPolicy(p) && volts >= 0.0
    ensures var r := AutoRange(p, Linear(volts), sen, tc, fuel);
      (Linear(volts)(sen) > High ==> forall k | 0 <= k < |r.writes| :: r.writes[k] == sen + k + 1)
      && (Linear(volts)(sen) < Low ==> forall k | 0 <= k < |r.writes| :: r.writes[k] == sen - k - 1)
  {
    var mag := Linear(volts);
    var r := AutoRange(p, mag, sen, tc, fuel);
    LinearSettles(volts);
    LinearNonnegative(volts, sen);
    if mag(sen) > High {
      UpwardsFrom(mag, sen, r.writes);
    }
    if mag(sen) < Low {
      DownwardsFrom(mag, sen, r.writes);
    }
  }

  /** One iteration of the loop from an out-of-band reading, seen from outside. */
  lemma LoopStep(p: Policy, mag: Profile, sen: int, tc: int, saved: int, fuel: nat)
    requires !InBand(mag(sen)) && fuel > 0
    ensures var rest := Loop(p, mag, Step(mag(sen), sen), if p.tcInside then p.fastTc else tc,
                             if p.tcInside then tc else saved, fuel - 1);
      var l := Loop(p, mag, sen, tc, saved, fuel);
      l.writes == [Step(mag(sen), sen)] + rest.writes && l.sen == rest.sen && l.converged == rest.converged
  {
  }

  /** From an in-band reading the loop stops at once. */
  lemma LoopInBand(p: Policy, mag: Profile, sen: int, tc: int, saved: int, fuel: nat)
    requires InBand(mag(sen))
    ensures var l := Loop(p, mag, sen, tc, saved, fuel);
      l.converged && l.sen == sen && l.writes == []
  {
  }

  /** Termination needs an in-band index ahead: if every index from `sen`
      up to `target` reads over range and `target` reads in the band, the
      check finishes at `target` after exactly `target - sen` steps, given
      that much fuel. */
  lemma {:induction false} ConvergesUp(p: Policy, mag: Profile, sen: int, tc: int, saved: int, target: int, fuel: nat)
    requires sen <= target && fuel >= target - sen
    requires forall i | sen <= i < target :: Abs(mag(i)) > High
    requires InBand(mag(target))
    ensures var l := Loop(p, mag, sen, tc, saved, fuel);
      l.converged && l.sen == target && |l.writes| == target - sen
    decreases target - sen
  {
    if sen < target {
      var tc' := if p.tcInside then p.fastTc else tc;
      var saved' := if p.tcInside then tc else saved;
      assert Abs(mag(sen)) > High;
      assert Step(mag(sen), sen) == sen + 1;
      LoopStep(p, mag, sen, tc, saved, fuel);
      ConvergesUp(p, mag, sen + 1, tc', saved', target, fuel - 1);
    } else {
      LoopInBand(p, mag, sen, tc, saved, fuel);
    }
  }

  /** The same below the band: every index from `sen` down to `target`
      reads under range and `target` reads in the band. */
  lemma {:induction false} ConvergesDown(p: Policy, mag: Profile, sen: int, tc: int, saved: int, target: int, fuel: nat)
    requires target <= sen && fuel >= sen - target
    requires forall i | target < i <= sen :: Abs(mag(i)) < Low
    requires InBand(mag(target))
    ensures var l := Loop(p, mag, sen, tc, saved, fuel);
      l.converged && l.sen == target && |l.writes| == sen - target
    decreases sen - target
  {
    if target < sen {
      var tc' := if p.tcInside then p.fastTc else tc;
      var saved' := if p.tcInside then tc else saved;
      assert Abs(mag(sen)) < Low;
      assert Step(mag(sen), sen) == sen - 1;
      LoopStep(p, mag, sen, tc, saved, fuel);
      ConvergesDown(p, mag, sen - 1, tc', saved', target, fuel - 1);
    } else {
      LoopInBand(p, mag, sen, tc, saved, fuel);
    }
  }
}
