/** The DSP 72XX driver's ADC3 sample time, set in seconds and held by the
    instrument in whole milliseconds. */
module Dsp72xx {
  import opened Wrappers
  import opened Numbers
  import opened Text

  /** What the `adc3_time` setter does: write "ADC3TIME <ms>" and then wait
      1.2 times the requested time; the wait fails on a negative time, after
      the write has gone out. */
  datatype Adc3TimeSet = Adc3TimeSet(milliseconds: int, pause: Result<real>)

  /** The setter truncates the time to whole milliseconds toward zero and
      does not check the value before writing it. */
  function Adc3TimeCommand(seconds: real): (w: Adc3TimeSet)
    ensures seconds >= 0.0 ==> 0 <= w.milliseconds && w.milliseconds as real <= 1000.0 * seconds < w.milliseconds as real + 1.0
    ensures seconds < 0.0 ==> w.milliseconds <= 0 && w.milliseconds as real - 1.0 < 1000.0 * seconds
    ensures w.pause.Err? <==> seconds < 0.0
    ensures w.pause.Err? ==> w.pause.error == NegativeSleep
    ensures w.pause.Ok? ==> w.pause.value * 5.0 == seconds * 6.0 && w.pause.value >= seconds
  {
    var pause := seconds * 1.2;
    Adc3TimeSet(Trunc(1000.0 * seconds), if pause < 0.0 then Err(NegativeSleep) else Ok(pause))
  }

  /** The getter: the first comma-separated value of the reply, in
      milliseconds, converted to seconds. */
  function Adc3TimeReading(reply: string): (r: Result<real>)
    ensures var i := Find(reply, ','); var first := if i < 0 then reply else reply[..i];
      (r.Ok? <==> ParseDecimal(first).Some?) && (r.Ok? ==> r.value * 1000.0 == ParseDecimal(first).value)
    ensures r.Err? ==> r.error == Unparsable
  {
    match ParseDecimal(Split(reply, ',')[0])
    case None => Err(Unparsable)
    case Some(ms) => Ok(ms / 1000.0)
  }

  /** A printed integer is a reply with a single field. */
  lemma OnlyField(ms: int)
    ensures Split(IntToString(ms), ',')[0] == IntToString(ms)
  {
    IntStringExcludes(ms, ',');
    assert Find(IntToString(ms), ',') == -1;
  }

  /** Whatever follows the first comma, a reply that starts with a printed
      integer reads as that many milliseconds. */
  lemma Adc3TimeOfReply(ms: int, rest: string)
    ensures Adc3TimeReading(IntToString(ms) + "," + rest) == Ok(ms as real / 1000.0)
  {
    var digits := IntToString(ms);
    var reply := digits + "," + rest;
    IntStringExcludes(ms, ',');
    assert reply == digits + [','] + rest;
    FindSplit(digits, rest, ',');
    assert Split(reply, ',')[0] == digits;
    DecimalOfInt(ms);
  }

  /** A time in whole milliseconds is read back exactly after being set. */
  lemma Adc3TimeRoundTrip(seconds: real)
    requires (1000.0 * seconds).Floor as real == 1000.0 * seconds
    ensures Adc3TimeReading(IntToString(Adc3TimeCommand(seconds).milliseconds)).Ok?
    ensures Adc3TimeReading(IntToString(Adc3TimeCommand(seconds).milliseconds)).value == seconds
  {
    var ms := (1000.0 * seconds).Floor;
    TruncIntegral(ms);
    assert Adc3TimeCommand(seconds).milliseconds == ms;
    OnlyField(ms);
    DecimalOfInt(ms);
  }

  /** Setting the time the instrument reports leaves it unchanged. */
  lemma Adc3TimeSetAfterGet(ms: int)
    ensures Adc3TimeReading(IntToString(ms)).Ok?
    ensures Adc3TimeCommand(Adc3TimeReading(IntToString(ms)).value).milliseconds == ms
  {
    OnlyField(ms);
    DecimalOfInt(ms);
    assert 1000.0 * (ms as real / 1000.0) == ms as real;
    TruncIntegral(ms);
  }
}
