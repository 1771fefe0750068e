/** The two acquisition windows: the PPMS window, which may add the PPMS
    temperature and field, and the spectrum window, which reads frequency
    and oscillator amplitude from lock-ins other than the DSP 52XX. Both
    derive their data columns and y-axes from the ordered instrument list,
    and fill one row per tick with a key for every column. */
module Acquisition {
  import opened Wrappers
  import opened Numbers
  import opened Text
  import opened Tree
  import opened Dict
  import AutoRange

  datatype Variant = Mpv | Spectrum

  /** The three entries of the instrument model drop-down. */
  datatype Model = SR830 | DSP72XX | DSP52XX

  /** One row of the instrument tree: its model and its VISA port. */
  datatype Instrument = Instrument(model: Model, port: string)

  /** The setup window's state when the measurement window is opened. */
  datatype Setup = Setup(variant: Variant, ppmsPort: string, instruments: seq<Instrument>)

  datatype Quantity = X | Y | Frequency | OscAmp

  function QuantityName(q: Quantity): string
  {
    match q
    case X => "X (V)"
    case Y => "Y (V)"
    case Frequency => "Frequency (Hz)"
    case OscAmp => "Osc Amp (V)"
  }

  /** What lock-in `m` contributes, in order. */
  function Quantities(v: Variant, m: Model): (qs: seq<Quantity>)
    ensures |qs| == if v == Spectrum && m != DSP52XX then 4 else 2
    ensures qs[..2] == [X, Y]
    ensures Distinct(qs)
  {
    if v == Spectrum && m != DSP52XX then [X, Y, Frequency, OscAmp] else [X, Y]
  }

  const ElapsedSeconds := "Elapsed Time (s)"
  const ElapsedHours := "Elapsed Time (hr)"
  const PpmsColumns := ["PPMS temperature (K)", "PPMS field (T)"]

  /** Only the PPMS window reads the PPMS, and only when a port is given. */
  predicate HasPpms(s: Setup)
  {
    s.variant == Mpv && s.ppmsPort != ""
  }

  /** The column of quantity `q` of the lock-in at tree position `i`; the
      printed number counts from one. */
  function Label(i: nat, q: Quantity): string
  {
    "Lock-In " + (NatToString(i + 1) + " - " + QuantityName(q))
  }

  function Labels(i: nat, qs: seq<Quantity>): (r: seq<string>)
    ensures |r| == |qs|
    ensures forall k | 0 <= k < |qs| :: r[k] == Label(i, qs[k])
  {
    if |qs| == 0 then [] else [Label(i, qs[0])] + Labels(i, qs[1..])
  }

  function Models(xs: seq<Instrument>): (ms: seq<Model>)
    ensures |ms| == |xs|
    ensures forall k | 0 <= k < |xs| :: ms[k] == xs[k].model
  {
    if |xs| == 0 then [] else [xs[0].model] + Models(xs[1..])
  }

  /** The columns of the lock-ins `ms`, the first of which sits at tree
      position `first`. */
  function LockInColumns(v: Variant, ms: seq<Model>, first: nat): seq<string>
  {
    Blocks(ms, first, LockInLabels(v))
  }

  /** The columns of the lock-in of model `m` at tree position `i`. */
  function LockInLabels(v: Variant): (nat, Model) -> seq<string>
  {
    (i: nat, m: Model) => Labels(i, Quantities(v, m))
  }

  /** The first lock-in's columns come first. */
  lemma LockInColumnsCons(v: Variant, ms: seq<Model>, first: nat)
    requires |ms| > 0
    ensures LockInColumns(v, ms, first) == Labels(first, Quantities(v, ms[0])) + LockInColumns(v, ms[1..], first + 1)
  {
  }

  /** `data_columns` as the setup window builds it. */
  function DataColumns(s: Setup): (cols: seq<string>)
    ensures |cols| >= 2 && cols[..2] == [ElapsedSeconds, ElapsedHours]
    ensures HasPpms(s) ==> |cols| >= 4 && cols[2..4] == PpmsColumns
  {
    FixedColumns(s) + LockInColumns(s.variant, Models(s.instruments), 0)
  }

  /** `y_axes_labels`: the same lists, less the seconds column plotted on x. */
  function YAxes(s: Setup): (ys: seq<string>)
    ensures ys == DataColumns(s)[1..]
  {
    [ElapsedHours] + (if HasPpms(s) then PpmsColumns else []) + LockInColumns(s.variant, Models(s.instruments), 0)
  }

  function QuantityOf(name: string): Option<Quantity>
  {
    if name == "X (V)" then Some(X)
    else if name == "Y (V)" then Some(Y)
    else if name == "Frequency (Hz)" then Some(Frequency)
    else if name == "Osc Amp (V)" then Some(OscAmp)
    else None
  }

  lemma QuantityOfName(q: Quantity)
    ensures QuantityOf(QuantityName(q)) == Some(q)
  {
    if q == Y {
      assert QuantityName(q)[0] == 'Y';
    }
  }

  /** Recognises a lock-in column and recovers its position and quantity. */
  function LabelOf(s: string): Option<(nat, Quantity)>
  {
    if |s| < 8 || s[..8] != "Lock-In " then None else NumberedQuantity(s[8..])
  }

  /** The part of a label after "Lock-In ": a positive number, " - " and a
      quantity name. */
  function NumberedQuantity(rest: string): Option<(nat, Quantity)>
  {
    var k := Find(rest, ' ');
    if k < 1 || !AllDigits(rest[..k]) || DigitsValue(rest[..k]) == 0 || |rest| < k + 3 || rest[k..k + 3] != " - " then None
    else Numbered(DigitsValue(rest[..k]), QuantityOf(rest[k + 3..]))
  }

  /** Lock-in `n`, counting from one, reading quantity `q`. */
  function Numbered(n: nat, q: Option<Quantity>): (r: Option<(nat, Quantity)>)
    requires n > 0
    ensures r.Some? <==> q.Some?
    ensures r.Some? ==> r.value.0 + 1 == n && r.value.1 == q.value
  {
    match q
    case None => None
    case Some(q) => Some((n - 1, q))
  }

  /** The number of a label ends at its first space. */
  lemma NumberedOf(digits: string, q: Quantity)
    requires |digits| >= 1 && AllDigits(digits) && DigitsValue(digits) > 0
    ensures NumberedQuantity(digits + " - " + QuantityName(q)).Some?
    ensures NumberedQuantity(digits + " - " + QuantityName(q)).value == (DigitsValue(digits) - 1, q)
  {
    var name := QuantityName(q);
    var rest := digits + " - " + name;
    DigitsExclude(digits, ' ');
    FindSplitAt(digits, " - ", name, ' ');
    assert NumberedQuantity(rest) == Numbered(DigitsValue(digits), QuantityOf(name));
    QuantityOfName(q);
  }

  lemma LabelRoundTrip(i: nat, q: Quantity)
    ensures LabelOf(Label(i, q)) == Some((i, q))
  {
    var digits := NatToString(i + 1);
    SplitAppend("Lock-In ", digits + " - " + QuantityName(q));
    NumberedOf(digits, q);
  }

  lemma LabelInjective(i: nat, q: Quantity, j: nat, r: Quantity)
    requires Label(i, q) == Label(j, r)
    ensures i == j && q == r
  {
    LabelRoundTrip(i, q);
    LabelRoundTrip(j, r);
  }

  /** Every lock-in column starts with 'L' and names a lock-in in the range
      the list covers. */
  lemma {:induction false} LockInShape(v: Variant, ms: seq<Model>, first: nat)
    ensures forall x | x in LockInColumns(v, ms, first) ::
      |x| > 0 && x[0] == 'L' && LabelOf(x).Some? && first <= LabelOf(x).value.0 < first + |ms|
    decreases |ms|
  {
    if |ms| > 0 {
      var qs := Quantities(v, ms[0]);
      var here := Labels(first, qs);
      LockInShape(v, ms[1..], first + 1);
      forall k | 0 <= k < |qs|
        ensures LabelOf(here[k]) == Some((first, qs[k])) && here[k][0] == 'L'
      {
        LabelRoundTrip(first, qs[k]);
      }
    }
  }

  /** No lock-in column is repeated. */
  lemma {:induction false} LockInDistinct(v: Variant, ms: seq<Model>, first: nat)
    ensures Distinct(LockInColumns(v, ms, first))
    decreases |ms|
  {
    if |ms| > 0 {
      var qs := Quantities(v, ms[0]);
      var here := Labels(first, qs);
      var rest := LockInColumns(v, ms[1..], first + 1);
      LockInDistinct(v, ms[1..], first + 1);
      assert forall x | x in here :: x !in rest by {
        LockInShape(v, ms[1..], first + 1);
        forall k | 0 <= k < |qs|
          ensures LabelOf(here[k]) == Some((first, qs[k]))
        {
          LabelRoundTrip(first, qs[k]);
        }
      }
      forall a, b | 0 <= a < b < |here|
        ensures here[a] != here[b]
      {
        LabelRoundTrip(first, qs[a]);
        LabelRoundTrip(first, qs[b]);
      }
      DistinctAppend(here, rest);
    }
  }

  /** The columns every window starts with. */
  function FixedColumns(s: Setup): (cols: seq<string>)
    ensures Distinct(cols)
    ensures forall k | 0 <= k < |cols| :: |cols[k]| > 0 && cols[k][0] != 'L'
  {
    assert |ElapsedSeconds| != |ElapsedHours| && |PpmsColumns[0]| != |PpmsColumns[1]|;
    assert ElapsedSeconds[0] == 'E' && ElapsedHours[0] == 'E';
    assert PpmsColumns[0][0] == 'P' && PpmsColumns[1][0] == 'P';
    [ElapsedSeconds, ElapsedHours] + (if HasPpms(s) then PpmsColumns else [])
  }

  lemma FixedNotLockIn(s: Setup)
    ensures forall x | x in FixedColumns(s) :: x !in LockInColumns(s.variant, Models(s.instruments), 0)
  {
    LockInShape(s.variant, Models(s.instruments), 0);
  }

  /** No two data columns share a name. */
  lemma ColumnsDistinct(s: Setup)
    ensures Distinct(DataColumns(s))
  {
    FixedNotLockIn(s);
    LockInDistinct(s.variant, Models(s.instruments), 0);
    DistinctAppend(FixedColumns(s), LockInColumns(s.variant, Models(s.instruments), 0));
  }

  lemma LockInNotPpms(s: Setup)
    ensures forall x | x in LockInColumns(s.variant, Models(s.instruments), 0) :: x !in PpmsColumns
  {
    LockInShape(s.variant, Models(s.instruments), 0);
    assert PpmsColumns[0][0] == 'P' && PpmsColumns[1][0] == 'P';
  }

  lemma FixedNotPpms(s: Setup)
    requires !HasPpms(s)
    ensures forall x | x in FixedColumns(s) :: x !in PpmsColumns
  {
    assert FixedColumns(s) == [ElapsedSeconds, ElapsedHours];
    assert |ElapsedSeconds| != |PpmsColumns[0]| && |ElapsedSeconds| != |PpmsColumns[1]|;
    assert |ElapsedHours| != |PpmsColumns[0]| && |ElapsedHours| != |PpmsColumns[1]|;
  }

  /** PPMS columns appear only when the PPMS window has a PPMS port. */
  lemma PpmsColumnsOnlyWithPort(s: Setup)
    requires !HasPpms(s)
    ensures forall x | x in DataColumns(s) :: x !in PpmsColumns
  {
    LockInNotPpms(s);
    FixedNotPpms(s);
  }

  /** The columns of two runs of lock-ins are those of each run in turn. */
  lemma LockInColumnsAppend(v: Variant, a: seq<Model>, b: seq<Model>, first: nat)
    ensures LockInColumns(v, a + b, first) == LockInColumns(v, a, first) + LockInColumns(v, b, first + |a|)
  {
    BlocksAppend(a, b, first, LockInLabels(v));
  }

  lemma LockInColumnsOne(v: Variant, m: Model, first: nat)
    ensures LockInColumns(v, [m], first) == Labels(first, Quantities(v, m))
  {
    LockInColumnsCons(v, [m], first);
    assert [m][1..] == [];
    assert LockInColumns(v, [], first + 1) == [];
  }

  /** Lock-in `i` owns one contiguous block of columns: its quantities, in order. */
  lemma LockInBlock(v: Variant, ms: seq<Model>, i: nat)
    requires i < |ms|
    ensures LockInColumns(v, ms, 0)
      == LockInColumns(v, ms[..i], 0) + Labels(i, Quantities(v, ms[i])) + LockInColumns(v, ms[i + 1..], i + 1)
  {
    BlocksAt(ms, i, LockInLabels(v));
  }

  // ----- Rows -----

  /** Where each value of a row comes from. Measured values belong to the
      instruments; the row records which read fills which key. */
  datatype Cell =
    | Elapsed(seconds: real)
    | Hours(hours: real)
    | PpmsTemperature
    | PpmsField
    | LockIn(index: nat, quantity: Quantity)

  /** The dictionary key `acquire_data` stores each read under. */
  function KeyOf(c: Cell): string
  {
    match c
    case Elapsed(_) => ElapsedSeconds
    case Hours(_) => ElapsedHours
    case PpmsTemperature => PpmsColumns[0]
    case PpmsField => PpmsColumns[1]
    case LockIn(i, q) => Label(i, q)
  }

  /** A result row: a dict from column name to the read that fills it. */
  type Row = Entries<string, Cell>

  // ----- One tick -----

  /** The registers of an auto-ranging lock-in and how its raw magnitude
      answers each sensitivity index. */
  datatype Device = Device(mag: AutoRange.Profile, sen: int, tc: int)

  /** `delay`: the pause after each DSP 52XX read and after each tick. */
  const Delay := 0.1

  datatype Action =
    | Ranged(index: nat, run: AutoRange.Run)     // a range check modelled by AutoRange
    | RangedElsewhere(index: nat)                // the SR830's own auto_range
    | ReadPpms(cell: Cell)
    | Measure(index: nat, quantity: Quantity)
    | Pause(seconds: real)

  datatype Tick = Tick(actions: seq<Action>, cells: seq<Cell>, devices: seq<Device>, finished: bool)

  function Measures(i: nat, qs: seq<Quantity>): (r: seq<Action>)
    ensures |r| == |qs|
    ensures forall k | 0 <= k < |qs| :: r[k] == Measure(i, qs[k])
  {
    if |qs| == 0 then [] else [Measure(i, qs[0])] + Measures(i, qs[1..])
  }

  function LockInCells(i: nat, qs: seq<Quantity>): (r: seq<Cell>)
    ensures |r| == |qs|
    ensures forall k | 0 <= k < |qs| :: r[k] == LockIn(i, qs[k])
  {
    if |qs| == 0 then [] else [LockIn(i, qs[0])] + LockInCells(i, qs[1..])
  }

  lemma CellKeys(i: nat, qs: seq<Quantity>)
    ensures KeysOf(LockInCells(i, qs), KeyOf) == Labels(i, qs)
  {
  }

  /** One lock-in's part of `acquire_data`. A DSP 52XX gets the inline range
      check and a pause after each of its two reads; the others run their
      own `auto_range` first and are then read without pauses. A range check
      that does not settle within `fuel` steps ends the tick unfinished. */
  function LockInTick(v: Variant, m: Model, i: nat, d: Device, fuel: nat): (t: Tick)
    ensures |t.devices| == 1 && |t.actions| >= 1
    ensures t.finished ==> t.cells == LockInCells(i, Quantities(v, m))
    ensures t.finished && m == DSP52XX ==>
      |t.actions| == 5 && t.actions[1..] == [Measure(i, X), Pause(Delay), Measure(i, Y), Pause(Delay)]
    ensures t.finished && m != DSP52XX ==> t.actions[1..] == Measures(i, Quantities(v, m))
    ensures m == SR830 ==> t.finished && t.actions[0] == RangedElsewhere(i)
    ensures m != SR830 ==>
      (t.actions[0].Ranged? && t.actions[0].index == i && t.actions[0].run.finished == t.finished
       && t.devices[0] == d.(sen := t.actions[0].run.sen, tc := t.actions[0].run.tc))
  {
    AutoRange.PoliciesValid();
    var qs := Quantities(v, m);
    match m
    case SR830 => Tick([RangedElsewhere(i)] + Measures(i, qs), LockInCells(i, qs), [d], true)
    case DSP72XX =>
      var run := AutoRange.AutoRange(AutoRange.Dsp72xxMethod, d.mag, d.sen, d.tc, fuel);
      var d' := d.(sen := run.sen, tc := run.tc);
      if run.finished then Tick([Ranged(i, run)] + Measures(i, qs), LockInCells(i, qs), [d'], true)
      else Tick([Ranged(i, run)], [], [d'], false)
    case DSP52XX =>
      var run := AutoRange.AutoRange(AutoRange.Dsp52xxInline, d.mag, d.sen, d.tc, fuel);
      var d' := d.(sen := run.sen, tc := run.tc);
      if run.finished then
        Tick([Ranged(i, run), Measure(i, X), Pause(Delay), Measure(i, Y), Pause(Delay)], LockInCells(i, qs), [d'], true)
      else Tick([Ranged(i, run)], [], [d'], false)
  }

  /** The lock-in loop of `acquire_data`, over the lock-ins `ms` from tree
      position `first` on; a range check that never settles stops the tick. */
  function LockInsTick(v: Variant, ms: seq<Model>, first: nat, ds: seq<Device>, fuel: nat): (t: Tick)
    requires |ds| == |ms|
    ensures |t.devices| == |ds|
    ensures t.finished ==> KeysOf(t.cells, KeyOf) == LockInColumns(v, ms, first)
    decreases |ms|
  {
    if |ms| == 0 then Tick([], [], [], true)
    else
      var h := LockInTick(v, ms[0], first, ds[0], fuel);
      if !h.finished then Tick(h.actions, h.cells, h.devices + ds[1..], false)
      else
        var t := LockInsTick(v, ms[1..], first + 1, ds[1..], fuel);
        KeysOfAppend(h.cells, t.cells, KeyOf);
        CellKeys(first, Quantities(v, ms[0]));
        Tick(h.actions + t.actions, h.cells + t.cells, h.devices + t.devices, t.finished)
  }

  /** Python's `round(x, 3)`, on exact decimals. */
  function Round3(x: real): (r: real)
    ensures x - 0.0005 <= r <= x + 0.0005
    ensures (1000.0 * r).Floor as real == 1000.0 * r
    ensures 1000.0 * r - 1000.0 * x == 0.5 || 1000.0 * x - 1000.0 * r == 0.5 ==> (1000.0 * r).Floor % 2 == 0
  {
    Round(1000.0 * x) as real / 1000.0
  }

  function PpmsCells(s: Setup): (cs: seq<Cell>)
    ensures KeysOf(cs, KeyOf) == if HasPpms(s) then PpmsColumns else []
  {
    if HasPpms(s) then [PpmsTemperature, PpmsField] else []
  }

  function PpmsReads(cs: seq<Cell>): (r: seq<Action>)
    ensures |r| == |cs|
    ensures forall k | 0 <= k < |cs| :: r[k] == ReadPpms(cs[k])
  {
    if |cs| == 0 then [] else [ReadPpms(cs[0])] + PpmsReads(cs[1..])
  }

  datatype Acquired = Acquired(tick: Tick, row: Row)

  /** The reads of one call of `acquire_data`, in order. The elapsed seconds
      and hours come from two separate clock readings `now1` and `now2`;
      `start` is the clock when `execute` began. */
  function AcquireCells(s: Setup, start: real, now1: real, now2: real, t: Tick): (cs: seq<Cell>)
    ensures KeysOf(t.cells, KeyOf) == LockInColumns(s.variant, Models(s.instruments), 0) ==>
      KeysOf(cs, KeyOf) == DataColumns(s)
  {
    var times := [Elapsed(Round3(now1 - start)), Hours(Round3(now2 - start) / 3600.0)];
    KeysOfAppend(times, PpmsCells(s), KeyOf);
    KeysOfAppend(times + PpmsCells(s), t.cells, KeyOf);
    times + PpmsCells(s) + t.cells
  }

  /** One call of `acquire_data`: the reads, then the row they fill. A
      finished tick stores exactly one value under each data column, in
      column order, each under the key of its own read. */
  function Acquire(s: Setup, ds: seq<Device>, start: real, now1: real, now2: real, fuel: nat): (r: Acquired)
    requires |ds| == |s.instruments|
    ensures |r.tick.devices| == |ds|
    ensures r.tick.finished ==> Keys(r.row) == DataColumns(s)
    ensures r.tick.finished ==> forall k | 0 <= k < |r.row| :: r.row[k].0 == KeyOf(r.row[k].1)
  {
    var t := LockInsTick(s.variant, Models(s.instruments), 0, ds, fuel);
    var cells := AcquireCells(s, start, now1, now2, t);
    var row := Store([], cells, KeyOf);
    var tick := Tick(PpmsReads(PpmsCells(s)) + t.actions, cells, t.devices, t.finished);
    if t.finished then
      ColumnsDistinct(s);
      RowOfCells(cells);
      Acquired(tick, row)
    else Acquired(tick, row)
  }

  /** Reads under distinct keys fill a row with one entry per read, in
      order, each under its own key. */
  lemma RowOfCells(cells: seq<Cell>)
    requires Distinct(KeysOf(cells, KeyOf))
    ensures Keys(Store([], cells, KeyOf)) == KeysOf(cells, KeyOf)
    ensures forall k | 0 <= k < |Store([], cells, KeyOf)| ::
      Store([], cells, KeyOf)[k].0 == KeyOf(Store([], cells, KeyOf)[k].1)
  {
    var empty: Row := [];
    EmptyAppend(Keys(empty), KeysOf(cells, KeyOf));
    StoreFresh(empty, cells, KeyOf);
    EmptyAppend(empty, Pairs(cells, KeyOf));
    KeysOfPairs(cells, KeyOf);
  }

  /** The hours column is never behind the seconds column: both round the
      elapsed time to milliseconds, from clock readings taken in order. */
  lemma HoursNotBehind(start: real, now1: real, now2: real)
    requires now1 <= now2
    ensures Round3(now2 - start) / 3600.0 * 3600.0 >= Round3(now1 - start)
  {
    RoundMonotone(1000.0 * (now1 - start), 1000.0 * (now2 - start));
  }

  /** Within a tick, every lock-in is range-checked before it is read. */
  lemma RangeBeforeRead(v: Variant, m: Model, i: nat, d: Device, fuel: nat)
    requires LockInTick(v, m, i, d, fuel).finished
    ensures var a := LockInTick(v, m, i, d, fuel).actions;
      (a[0].Ranged? || a[0].RangedElsewhere?) && a[0].index == i
      && forall k | 0 <= k < |a| :: a[k].Measure? ==> k > 0
  {
  }

  // ----- The measurement procedure -----

  datatype Measurement = Measurement(actions: seq<Action>, rows: seq<Row>, devices: seq<Device>, finished: bool)

  /** `execute`: tick, pause, then look at the stop flag. `clock(0)` is the
      start time and tick `k` reads `clock(2k + 1)` and `clock(2k + 2)`;
      the flag is first seen by check number `stopAt`. */
  function Execute(s: Setup, ds: seq<Device>, clock: nat -> real, stopAt: nat, fuel: nat): (r: Measurement)
    requires |ds| == |s.instruments|
    ensures |r.devices| == |ds|
    ensures r.finished ==> |r.rows| == stopAt + 1
    ensures r.finished ==> |r.actions| > 0 && r.actions[|r.actions| - 1] == Pause(Delay)
    ensures Keyed(r.rows, DataColumns(s))
  {
    Ticks(s, ds, clock, 0, stopAt, fuel)
  }

  function Ticks(s: Setup, ds: seq<Device>, clock: nat -> real, k: nat, stopAt: nat, fuel: nat): (r: Measurement)
    requires |ds| == |s.instruments|
    requires k <= stopAt
    ensures |r.devices| == |ds|
    ensures r.finished ==> |r.rows| == stopAt + 1 - k
    ensures r.finished ==> |r.actions| > 0 && r.actions[|r.actions| - 1] == Pause(Delay)
    ensures Keyed(r.rows, DataColumns(s))
    decreases stopAt - k
  {
    var a := Acquire(s, ds, clock(0), clock(2 * k + 1), clock(2 * k + 2), fuel);
    if !a.tick.finished then Measurement(a.tick.actions, [], a.tick.devices, false)
    else if k == stopAt then Measurement(a.tick.actions + [Pause(Delay)], [a.row], a.tick.devices, true)
    else
      var rest := Ticks(s, a.tick.devices, clock, k + 1, stopAt, fuel);
      KeyedCons(a.row, rest.rows, DataColumns(s));
      Measurement(a.tick.actions + [Pause(Delay)] + rest.actions, [a.row] + rest.rows, rest.devices, rest.finished)
  }

  /** Every row has exactly the keys `cols`, in order. */
  predicate Keyed(rows: seq<Row>, cols: seq<string>)
  {
    forall j | 0 <= j < |rows| :: Keys(rows[j]) == cols
  }

  lemma KeyedCons(row: Row, rows: seq<Row>, cols: seq<string>)
    requires Keys(row) == cols && Keyed(rows, cols)
    ensures Keyed([row] + rows, cols)
  {
    assert forall j | 1 <= j <= |rows| :: ([row] + rows)[j] == rows[j - 1];
  }

  // ----- Editing the instrument tree -----

  /** `add_instrument`: the new lock-in goes to the top of the tree. */
  function AddInstrument(tree: seq<Instrument>, m: Model, port: string): (r: seq<Instrument>)
    ensures |r| == |tree| + 1 && r[0] == Instrument(m, port) && r[1..] == tree
  {
    InsertAt(tree, 0, Instrument(m, port))
  }

  /** `delete_selected_instrument` under single selection. */
  function DeleteSelected(tree: seq<Instrument>, selected: Option<nat>): (r: seq<Instrument>)
    ensures selected.Some? && selected.value < |tree| ==> r == RemoveAt(tree, selected.value)
    ensures !(selected.Some? && selected.value < |tree|) ==> r == tree
  {
    match selected
    case Some(i) => if i < |tree| then RemoveAt(tree, i) else tree
    case None => tree
  }

  function AddAll(tree: seq<Instrument>, added: seq<Instrument>): (r: seq<Instrument>)
    ensures |r| == |tree| + |added|
    decreases |added|
  {
    if |added| == 0 then tree else AddAll(AddInstrument(tree, added[0].model, added[0].port), added[1..])
  }

  /** Lock-ins added one after another end up in reverse order, so the one
      added `k`-th (from zero) of `n` gets lock-in number `n - k`. */
  lemma {:induction false} AddedInReverse(tree: seq<Instrument>, added: seq<Instrument>)
    ensures AddAll(tree, added) == Reverse(added) + tree
    decreases |added|
  {
    if |added| > 0 {
      var x := added[0];
      AddedInReverse([x] + tree, added[1..]);
      assert AddInstrument(tree, x.model, x.port) == [x] + tree;
      assert Reverse(added) == Reverse(added[1..]) + [x] by {
        assert Reverse(added)[|added| - 1] == x;
        assert Reverse(added)[..|added| - 1] == Reverse(added[1..]);
      }
    }
  }

  lemma NumberOfAdded(added: seq<Instrument>, k: nat)
    requires k < |added|
    ensures AddAll([], added)[|added| - 1 - k] == added[k]
  {
    AddedInReverse([], added);
  }
}
