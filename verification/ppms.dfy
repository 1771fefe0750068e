/** The PPMS wrapper: unit conversion of field set-points and sweep rates,
    the chamber-mode table and the status getters. The MultiPyVu client it
    drives is represented by the commands it would receive and the replies
    it returns. */
module Ppms {
  import opened Wrappers
  import opened Numbers

  /** Largest field magnitude the wrapper sends, in tesla. */
  const MaxField := 9.0
  /** Largest field sweep rate it sends, in tesla per minute. */
  const MaxFieldSweepRate := 1.0
  /** Oersted per tesla. */
  const OePerTesla := 10000.0

  /** `math.copysign(1, x)` on a real (there is no negative zero here). */
  function Sign(x: real): real
  {
    if x < 0.0 then -1.0 else 1.0
  }

  /** The field set-point in oersted: the magnitude clamped to 9 T, the sign
      kept. */
  function FieldToOe(field: real): (oe: real)
    ensures -MaxField * OePerTesla <= oe <= MaxField * OePerTesla
    ensures field >= 0.0 ==> oe >= 0.0
    ensures field < 0.0 ==> oe < 0.0
    ensures -MaxField <= field <= MaxField ==> oe == field * OePerTesla
    ensures field > MaxField ==> oe == MaxField * OePerTesla
    ensures field < -MaxField ==> oe == -MaxField * OePerTesla
  {
    var s := Sign(field);
    s * MinReal(s * field, MaxField) * OePerTesla
  }

  /** Python's `round(x, 2)` on exact decimals. */
  function Round2(x: real): (r: real)
    ensures x - 0.005 <= r <= x + 0.005
    ensures (100.0 * r).Floor as real == 100.0 * r
    ensures 100.0 * r - 100.0 * x == 0.5 || 100.0 * x - 100.0 * r == 0.5 ==> (100.0 * r).Floor % 2 == 0
  {
    Round(100.0 * x) as real / 100.0
  }

  /** The sweep rate in oersted per second, two decimals: the magnitude
      clamped to 1 T/min, the sign kept. */
  function RateToOePerSecond(rate: real): (r: real)
    ensures -166.67 <= r <= 166.67
    ensures rate >= 0.0 ==> r >= 0.0
    ensures rate < 0.0 ==> r <= 0.0
    ensures var exact := MinReal(AbsReal(rate), MaxFieldSweepRate) * OePerTesla / 60.0;
      exact - 0.005 <= AbsReal(r) <= exact + 0.005
    ensures AbsReal(r) == Round2(MinReal(AbsReal(rate), MaxFieldSweepRate) * OePerTesla / 60.0)
  {
    var m := MinReal(AbsReal(rate), MaxFieldSweepRate) * OePerTesla / 60.0;
    RoundedRateBounds(m);
    if rate < 0.0 then -Round2(m) else Round2(m)
  }

  lemma RoundedRateBounds(m: real)
    requires 0.0 <= m <= MaxFieldSweepRate * OePerTesla / 60.0
    ensures 0.0 <= Round2(m) <= 166.67
  {
    RoundBetween(100.0 * m, 0, 16667);
  }

  /** The `field` getter: the controller's oersted reading in tesla. */
  function FieldFromOe(oe: real): (t: real)
    ensures t * OePerTesla == oe
  {
    oe / OePerTesla
  }

  /** A field within the magnet's range reads back as set; beyond it the
      reading is the limit with the requested sign. */
  lemma FieldRoundTrip(field: real)
    ensures -MaxField <= field <= MaxField ==> FieldFromOe(FieldToOe(field)) == field
    ensures field > MaxField ==> FieldFromOe(FieldToOe(field)) == MaxField
    ensures field < -MaxField ==> FieldFromOe(FieldToOe(field)) == -MaxField
  {
  }

  /** Setting a field read from the controller sends the same oersted
      value, as long as the reading is in range. */
  lemma OeRoundTrip(oe: real)
    requires -MaxField * OePerTesla <= oe <= MaxField * OePerTesla
    ensures FieldToOe(FieldFromOe(oe)) == oe
  {
  }

  datatype Approach = Linear
  datatype MagnetMode = Driven | Persistent

  /** What the client's `set_field` receives. */
  datatype FieldCommand = FieldCommand(oe: real, oePerSecond: real, approach: Approach, mode: MagnetMode)

  /** The command both field setters build: a set-point the `field` getter
      reads back as the requested field (within the magnet's range), and a
      rate with the requested direction. */
  function SetField(field: real, rate: real, mode: MagnetMode): (c: FieldCommand)
    ensures c.mode == mode && c.approach == Linear
    ensures -MaxField <= field <= MaxField ==> FieldFromOe(c.oe) == field
    ensures -MaxField * OePerTesla <= c.oe <= MaxField * OePerTesla && (c.oe >= 0.0 <==> field >= 0.0)
    ensures -166.67 <= c.oePerSecond <= 166.67
    ensures rate >= 0.0 ==> c.oePerSecond >= 0.0
    ensures rate < 0.0 ==> c.oePerSecond <= 0.0
  {
    FieldCommand(FieldToOe(field), RateToOePerSecond(rate), Linear, mode)
  }

  /** `set_field_driven`. */
  function SetFieldDriven(field: real, rate: real): (c: FieldCommand)
    ensures c.mode == Driven && c.approach == Linear
    ensures c.oe == FieldToOe(field) && c.oePerSecond == RateToOePerSecond(rate)
  {
    SetField(field, rate, Driven)
  }

  /** `set_field_persistent`. */
  function SetFieldPersistent(field: real, rate: real): (c: FieldCommand)
    ensures c.mode == Persistent && c.approach == Linear
    ensures c.oe == FieldToOe(field) && c.oePerSecond == RateToOePerSecond(rate)
  {
    SetField(field, rate, Persistent)
  }

  /** The two field setters send the same set-point and rate and differ
      only in the magnet mode. */
  lemma SettersDifferOnlyInMode(field: real, rate: real)
    ensures SetFieldDriven(field, rate).(mode := Persistent) == SetFieldPersistent(field, rate)
    ensures SetFieldDriven(field, rate) != SetFieldPersistent(field, rate)
  {
  }

  datatype ChamberMode = Seal | PurgeSeal | VentSeal | PumpContinuous | VentContinuous | HighVacuum

  /** `set_chamber`: the integer mode selects the client's chamber mode;
      any other integer sends nothing. */
  function ChamberCall(mode: int): (r: Option<ChamberMode>)
    ensures r.Some? <==> 0 <= mode <= 5
  {
    if mode == 0 then Some(Seal)
    else if mode == 1 then Some(PurgeSeal)
    else if mode == 2 then Some(VentSeal)
    else if mode == 3 then Some(PumpContinuous)
    else if mode == 4 then Some(VentContinuous)
    else if mode == 5 then Some(HighVacuum)
    else None
  }

  /** The number the documentation of `set_chamber` gives each mode. */
  function ChamberNumber(m: ChamberMode): (n: nat)
    ensures n <= 5
  {
    match m
    case Seal => 0
    case PurgeSeal => 1
    case VentSeal => 2
    case PumpContinuous => 3
    case VentContinuous => 4
    case HighVacuum => 5
  }

  /** The table is a bijection between 0..5 and the chamber modes. */
  lemma ChamberTable(mode: int, m: ChamberMode)
    ensures 0 <= mode <= 5 ==> ChamberNumber(ChamberCall(mode).value) == mode
    ensures ChamberCall(ChamberNumber(m)) == Some(m)
  {
  }

  /** One `get_temperature` or `get_field` reply: a value and a status. */
  datatype Reply = Reply(value: real, status: string)

  function Temperature(r: Reply): real { r.value }
  function TemperatureStatus(r: Reply): string { r.status }
  function Field(r: Reply): (t: real)
    ensures t * OePerTesla == r.value
  {
    FieldFromOe(r.value)
  }
  function MagnetStatus(r: Reply): string { r.status }

  /** Each getter is a projection of one reply, so a temperature and its
      status (or a field and its status) read together rebuild the reply. */
  lemma GettersProject(t: Reply, f: Reply)
    ensures Reply(Temperature(t), TemperatureStatus(t)) == t
    ensures Reply(Field(f) * OePerTesla, MagnetStatus(f)) == f
  {
  }
}
