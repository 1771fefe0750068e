/** The Signal Recovery DSP 52XX lock-in driver: what each property writes to
    the instrument and how each reply is turned back into a value.

    A command the driver writes is a `Command`; a reply is the text the
    instrument sends back, which the driver first passes through `Read`.
 */
module Dsp52xx {
  import opened Wrappers
  import opened Numbers
  import opened Text
  import Tree

  /** Full-scale input ranges in volts; the SEN register holds the index. */
  const Sensitivities: seq<real> := [
    0.0000001,
    0.0000003, 0.000001, 0.000003, 0.00001,
    0.00003, 0.0001, 0.0003, 0.001,
    0.003, 0.01, 0.03, 0.1,
    0.3, 1.0, 3.0
  ]

  /** Filter time constants in seconds; the TC register holds the index. */
  const TimeConstants: seq<real> := [
    0.001, 0.003, 0.01, 0.03, 0.1,
    0.3, 1.0, 3.0, 10.0, 30.0,
    100.0, 300.0, 1000.0, 3000.0
  ]

  /** A raw X, Y or MAG reading of this size is the full-scale input. */
  const FullScale: real := 10000.0

  /** The commands the driver writes. */
  datatype Command =
    | Sen(index: int)               // "SEN %d"
    | Tc(index: int)                // "TC %d"
    | Oa(millivolts: int)           // "OA %d"
    | Of(mantissa: int, band: int)  // "OF %d %d"

  predicate Increasing(ladder: seq<real>)
  {
    forall i | 0 <= i < |ladder| - 1 :: ladder[i] < ladder[i + 1]
  }

  /** In an increasing ladder every later entry is larger. */
  lemma {:induction false} IncreasingPairs(ladder: seq<real>, i: nat, j: nat)
    requires Increasing(ladder) && i < j < |ladder|
    ensures ladder[i] < ladder[j]
    decreases j - i
  {
    if i + 1 < j {
      IncreasingPairs(ladder, i + 1, j);
    }
  }

  lemma LaddersIncreasing()
    ensures Increasing(Sensitivities) && Increasing(TimeConstants)
  {
  }

  /** The `read` override: every NUL the instrument pads its reply with is
      dropped, and the other characters are kept, in order. */
  function Read(raw: string): (r: string)
    ensures '\0' !in r
    ensures '\0' !in raw ==> r == raw
    ensures forall c :: c != '\0' ==> multiset(r)[c] == multiset(raw)[c]
  {
    RemoveChar(raw, '\0')
  }

  /** Reading is piecewise, so NULs between two fragments vanish. */
  lemma ReadPieces(x: string, y: string)
    ensures Read(x + y) == Read(x) + Read(y)
  {
    RemoveCharAppend(x, y, '\0');
  }

  /** Reading twice changes nothing more. */
  lemma ReadIdempotent(raw: string)
    ensures Read(Read(raw)) == Read(raw)
  {
  }

  // ---------------------------------------------------------------- ladders

  function TruncatedFrom(ladder: seq<real>, target: real, k: nat): (i: nat)
    requires k < |ladder|
    ensures k <= i < |ladder|
    ensures forall j | k <= j < i :: ladder[j] < target
    ensures target <= ladder[i] || i == |ladder| - 1
    decreases |ladder| - k
  {
    if target <= ladder[k] || k == |ladder| - 1 then k
    else TruncatedFrom(ladder, target, k + 1)
  }

  /** Index of pymeasure's `truncated_discrete_set` choice: the first entry
      not below the target, or the last entry when every entry is below it. */
  function TruncatedIndex(ladder: seq<real>, target: real): (i: nat)
    requires |ladder| > 0
    ensures i < |ladder|
    ensures forall j | 0 <= j < i :: ladder[j] < target
    ensures target <= ladder[i] || i == |ladder| - 1
  {
    TruncatedFrom(ladder, target, 0)
  }

  /** On an increasing ladder the choice is the smallest entry that covers
      the target, or the largest entry when none does. */
  lemma TruncatedChoice(ladder: seq<real>, target: real)
    requires |ladder| > 0 && Increasing(ladder)
    ensures var i := TruncatedIndex(ladder, target);
      (target <= ladder[i] ==> forall j | 0 <= j < |ladder| && target <= ladder[j] :: ladder[i] <= ladder[j])
      && (target > ladder[i] ==> forall j | 0 <= j < |ladder| :: ladder[j] < target)
  {
    var i := TruncatedIndex(ladder, target);
    forall j | 0 <= j < |ladder| && target <= ladder[j]
      ensures ladder[i] <= ladder[j]
    {
      if i < j {
        IncreasingPairs(ladder, i, j);
      }
    }
    if target > ladder[i] {
      forall j | 0 <= j < |ladder|
        ensures ladder[j] < target
      {
        if j < i {
        } else if j > i {
          assert false;
        }
      }
    }
  }

  /** An entry of the ladder is chosen for itself. */
  lemma {:induction false} TruncatedEntry(ladder: seq<real>, k: nat)
    requires Increasing(ladder) && k < |ladder|
    ensures TruncatedIndex(ladder, ladder[k]) == k
  {
    var i := TruncatedIndex(ladder, ladder[k]);
    if i < k {
      IncreasingPairs(ladder, i, k);
    }
  }

  /** Truncating twice is truncating once. */
  lemma TruncatedIdempotent(ladder: seq<real>, target: real)
    requires |ladder| > 0 && Increasing(ladder)
    ensures var i := TruncatedIndex(ladder, target);
      TruncatedIndex(ladder, ladder[i]) == i
  {
    TruncatedEntry(ladder, TruncatedIndex(ladder, target));
  }

  // ----------------------------------------------------------- sensitivity

  /** The `sensitivity` setter: the smallest full-scale range covering the
      requested value (3 V when none does); no value is rejected. */
  function SensitivityCommand(volts: real): (c: Command)
    ensures c.Sen? && 0 <= c.index < |Sensitivities|
    ensures volts <= Sensitivities[c.index] ==>
      forall j | 0 <= j < |Sensitivities| && volts <= Sensitivities[j] :: Sensitivities[c.index] <= Sensitivities[j]
    ensures volts > Sensitivities[c.index] ==> c.index == |Sensitivities| - 1
  {
    LaddersIncreasing();
    TruncatedChoice(Sensitivities, volts);
    Sen(TruncatedIndex(Sensitivities, volts))
  }

  /** The `sensitivity` getter: the reply is an index into the ladder, where
      Python also accepts a negative index counted from the end. */
  function SensitivityReading(reply: string): (r: Result<real>)
    ensures r.Ok? ==> r.value in Sensitivities
    ensures ParseInt(Read(reply)).None? ==> r == Err(Unparsable)
    ensures var i := ParseInt(Read(reply));
      i.Some? ==> (r.Ok? <==> -|Sensitivities| <= i.value < |Sensitivities|)
    ensures var i := ParseInt(Read(reply));
      i.Some? && 0 <= i.value < |Sensitivities| ==> r == Ok(Sensitivities[i.value])
    ensures var i := ParseInt(Read(reply));
      i.Some? && -|Sensitivities| <= i.value < 0 ==> r == Ok(Sensitivities[|Sensitivities| + i.value])
    ensures ParseInt(Read(reply)).Some? && r.Err? ==> r.error == IndexOutOfRange
  {
    match ParseInt(Read(reply))
    case None => Err(Unparsable)
    case Some(i) => Subscript(Sensitivities, i)
  }

  /** Reading back the register the setter wrote gives the chosen range. */
  lemma SensitivityRoundTrip(volts: real)
    ensures var c := SensitivityCommand(volts);
      SensitivityReading(IntToString(c.index)) == Ok(Sensitivities[c.index])
  {
    var c := SensitivityCommand(volts);
    IntStringExcludes(c.index, '\0');
    IntRoundTrip(c.index);
  }

  /** Setting a range the instrument reported leaves the register as it was. */
  lemma SensitivitySetAfterGet(index: nat)
    requires index < |Sensitivities|
    ensures SensitivityCommand(Sensitivities[index]) == Sen(index)
  {
    LaddersIncreasing();
    TruncatedEntry(Sensitivities, index);
  }

  /** The `time_constant` setter: the smallest time constant covering the
      requested one (3000 s when none does). */
  function TimeConstantCommand(seconds: real): (c: Command)
    ensures c.Tc? && 0 <= c.index < |TimeConstants|
    ensures seconds <= TimeConstants[c.index] ==>
      forall j | 0 <= j < |TimeConstants| && seconds <= TimeConstants[j] :: TimeConstants[c.index] <= TimeConstants[j]
    ensures seconds > TimeConstants[c.index] ==> c.index == |TimeConstants| - 1
  {
    LaddersIncreasing();
    TruncatedChoice(TimeConstants, seconds);
    Tc(TruncatedIndex(TimeConstants, seconds))
  }

  // ------------------------------------------------------------- frequency

  const MinFrequency: real := 0.5
  const MaxFrequency: real := 120000.0

  /** Upper edge (inclusive) of each of the bands 0 to 4; band 5 ends at 120 kHz. */
  function BandTop(band: nat): real
    requires band < 5
  {
    [2.0, 20.0, 200.0, 2000.0, 20000.0][band]
  }

  /** The band the setter picks: the first whose upper edge is not below `f`. */
  function Band(f: real): (band: nat)
    ensures band <= 5
    ensures band > 0 ==> f > BandTop(band - 1)
    ensures band < 5 ==> f <= BandTop(band)
  {
    if f <= 2.0 then 0
    else if f <= 20.0 then 1
    else if f <= 200.0 then 2
    else if f <= 2000.0 then 3
    else if f <= 20000.0 then 4
    else 5
  }

  /** Mantissa units per hertz in each band. */
  function Scale(band: nat): (s: real)
    requires band <= 5
    ensures s > 0.0
  {
    if band == 0 then 10000.0
    else if band == 1 then 1000.0
    else if band == 2 then 100.0
    else if band == 3 then 10.0
    else if band == 4 then 1.0
    else 0.1
  }

  /** The frequency `f` in mantissa units of `band`. */
  function Scaled(f: real, band: nat): real
    requires band <= 5
  {
    f * Scale(band)
  }

  /** The mantissa range the instrument accepts in each band. */
  predicate MantissaFits(mantissa: int, band: int)
  {
    if band == 0 then 5000 <= mantissa <= 20000
    else if 1 <= band <= 4 then 2000 <= mantissa <= 20000
    else band == 5 && 2000 <= mantissa <= 12000
  }

  /** Frequency in hertz of a mantissa and band pair, as the getter computes
      it; a band number outside 0 to 4 is read as band 5. */
  function FrequencyOf(mantissa: int, band: int): (f: real)
    ensures f * Scale(if 0 <= band <= 4 then band else 5) == mantissa as real
  {
    var m := mantissa as real;
    if band == 0 then m / 10000.0
    else if band == 1 then m / 1000.0
    else if band == 2 then m / 100.0
    else if band == 3 then m / 10.0
    else if band == 4 then m
    else m * 10.0
  }

  /** The `frequency` setter. Values outside 0.5 Hz to 120 kHz are refused;
      any other value is written in its band with a mantissa the instrument
      accepts. */
  function FrequencyCommand(f: real): (r: Result<Command>)
    ensures r.Ok? <==> MinFrequency <= f <= MaxFrequency
    ensures r.Err? ==> r.error == OutOfRange
    ensures r.Ok? ==> r.value.Of? && r.value.band == Band(f) && MantissaFits(r.value.mantissa, r.value.band)
  {
    if f < MinFrequency || f > MaxFrequency then Err(OutOfRange)
    else
      var band := Band(f);
      var m := Round(Scaled(f, band));
      MantissaInBand(f);
      Ok(Of(m, band))
  }

  lemma MantissaInBand(f: real)
    requires MinFrequency <= f <= MaxFrequency
    ensures MantissaFits(Round(Scaled(f, Band(f))), Band(f))
  {
    var band := Band(f);
    var x := Scaled(f, band);
    if band == 0 {
      assert 5000.0 <= x <= 20000.0;
      RoundBetween(x, 5000, 20000);
    } else if band == 1 {
      assert 2000.0 <= x <= 20000.0;
      RoundBetween(x, 2000, 20000);
    } else if band == 2 {
      assert 2000.0 <= x <= 20000.0;
      RoundBetween(x, 2000, 20000);
    } else if band == 3 {
      assert 2000.0 <= x <= 20000.0;
      RoundBetween(x, 2000, 20000);
    } else if band == 4 {
      RoundBetween(x, 2000, 20000);
    } else {
      assert 2000.0 <= x <= 12000.0;
      RoundBetween(x, 2000, 12000);
    }
  }

  /** Decoding a mantissa undoes the band's scaling. */
  lemma FrequencyOfScale(m: int, band: nat)
    requires band <= 5
    ensures FrequencyOf(m, band) * Scale(band) == m as real
  {
  }

  /** The written pair names a frequency within half a mantissa step of the
      one requested. */
  lemma FrequencyResolution(f: real)
    requires MinFrequency <= f <= MaxFrequency
    ensures var c := FrequencyCommand(f).value;
      AbsReal(FrequencyOf(c.mantissa, c.band) - f) * Scale(c.band) <= 0.5
  {
    var c := FrequencyCommand(f).value;
    RoundedResolution(f, c.mantissa, c.band);
  }

  /** The frequency a rounded mantissa names is within half a mantissa step
      of the one requested. */
  lemma RoundedResolution(f: real, m: int, band: nat)
    requires band <= 5 && m == Round(Scaled(f, band))
    ensures AbsReal(FrequencyOf(m, band) - f) * Scale(band) <= 0.5
  {
    FrequencyOfScale(m, band);
    ScaledDistance(FrequencyOf(m, band), f, Scale(band), m);
  }

  /** A value whose scaled image is within half a unit of an integer is
      within half a unit, scaled, of the value that integer stands for. */
  lemma ScaledDistance(g: real, f: real, s: real, m: int)
    requires s > 0.0 && g * s == m as real && m as real - 0.5 <= f * s <= m as real + 0.5
    ensures AbsReal(g - f) * s <= 0.5
  {
    assert (g - f) * s == g * s - f * s;
    if g < f {
      assert AbsReal(g - f) * s == (f - g) * s;
    }
  }

  /** A frequency on its band's grid is read back exactly. */
  lemma FrequencyRoundTrip(f: real)
    requires MinFrequency <= f <= MaxFrequency
    requires Scaled(f, Band(f)).Floor as real == Scaled(f, Band(f))
    ensures FrequencyCommand(f).Ok?
    ensures var c := FrequencyCommand(f).value; FrequencyOf(c.mantissa, c.band) == f
  {
    var band := Band(f);
    RoundIntegral(Scaled(f, band).Floor);
  }

  /** The `frequency` getter: the reply is "mantissa,band". A reply without a
      comma fails on the empty list of comma positions. */
  function FrequencyReading(reply: string): (r: Result<real>)
    ensures r.Ok? ==> ',' in Read(reply)
    ensures |Split(Read(reply), ',')| == 1 ==> r == Err(IndexOutOfRange)
    ensures var fields := Split(Read(reply), ',');
      |fields| == 2 && ParseInt(fields[0]).Some? && ParseInt(fields[1]).Some? ==>
        r == Ok(FrequencyOf(ParseInt(fields[0]).value, ParseInt(fields[1]).value))
  {
    var s := Read(reply);
    var i := Find(s, ',');
    if i < 0 then Err(IndexOutOfRange)
    else
      var rest := s[i + 1..];
      assert Split(s, ',') == [s[..i]] + Split(rest, ',');
      assert |Split(rest, ',')| == 1 ==> Split(rest, ',') == [rest];
      match (ParseInt(s[..i]), ParseInt(rest))
      case (Some(m), Some(b)) => Ok(FrequencyOf(m, b))
      case _ => Err(Unparsable)
  }

  /** The reply an instrument holding a mantissa and band sends. */
  function FrequencyReply(mantissa: int, band: int): string
  {
    IntToString(mantissa) + "," + IntToString(band)
  }

  /** The getter decodes what the setter wrote. */
  lemma FrequencyReplyRoundTrip(mantissa: int, band: int)
    ensures FrequencyReading(FrequencyReply(mantissa, band)) == Ok(FrequencyOf(mantissa, band))
  {
    var a := IntToString(mantissa);
    var b := IntToString(band);
    var s := a + "," + b;
    IntStringExcludes(mantissa, '\0');
    IntStringExcludes(band, '\0');
    IntStringExcludes(mantissa, ',');
    assert '\0' !in s;
    FindSplit(a, b, ',');
    IntRoundTrip(mantissa);
    IntRoundTrip(band);
  }

  // ------------------------------------------------------------- amplitude

  /** The `voltage` setter: refuses amplitudes outside 0 to 5 V, writes
      5000 mV above 3.5 V, 2000 mV above 2 V, and the nearest millivolt
      otherwise; so only 0 to 2000 mV and 5000 mV are ever written. */
  function AmplitudeCommand(volts: real): (r: Result<Command>)
    ensures r.Ok? <==> 0.0 <= volts <= 5.0
    ensures r.Err? ==> r.error == OutOfRange
    ensures r.Ok? ==> r.value.Oa? && (0 <= r.value.millivolts <= 2000 || r.value.millivolts == 5000)
    ensures r.Ok? && volts <= 2.0 ==> AbsReal(r.value.millivolts as real - 1000.0 * volts) <= 0.5
    ensures r.Ok? && volts > 2.0 ==> r.value.millivolts as real >= 1000.0 * volts - 1500.0
    ensures 2.0 < volts <= 3.5 ==> r == Ok(Oa(2000))
    ensures 3.5 < volts <= 5.0 ==> r == Ok(Oa(5000))
  {
    if volts < 0.0 || volts > 5.0 then Err(OutOfRange)
    else if volts > 3.5 then Ok(Oa(5000))
    else if volts > 2.0 then Ok(Oa(2000))
    else
      RoundBetween(volts * 1000.0, 0, 2000);
      Ok(Oa(Round(volts * 1000.0)))
  }

  /** The `voltage` getter: the reply is in millivolts. */
  function AmplitudeReading(reply: string): (r: Result<real>)
    ensures r.Ok? <==> ParseDecimal(Read(reply)).Some?
    ensures r.Ok? ==> 1000.0 * r.value == ParseDecimal(Read(reply)).value
    ensures ParseInt(Read(reply)).Some? ==> r == Ok(ParseInt(Read(reply)).value as real / 1000.0)
    ensures r.Err? ==> r.error == Unparsable
  {
    match ParseDecimal(Read(reply))
    case None => Err(Unparsable)
    case Some(mv) => Ok(mv / 1000.0)
  }

  /** Reading back after the setter: whole millivolts up to 2 V come back
      exactly, above that the amplitude snaps to 2 V or 5 V. */
  lemma AmplitudeRoundTrip(volts: real)
    requires 0.0 <= volts <= 5.0
    ensures AmplitudeCommand(volts).Ok?
    ensures var mv := AmplitudeCommand(volts).value.millivolts;
      var back := AmplitudeReading(IntToString(mv));
      && (volts <= 2.0 && (1000.0 * volts).Floor as real == 1000.0 * volts ==> back == Ok(volts))
      && (2.0 < volts <= 3.5 ==> back == Ok(2.0))
      && (3.5 < volts ==> back == Ok(5.0))
  {
    var mv := AmplitudeCommand(volts).value.millivolts;
    IntStringExcludes(mv, '\0');
    DecimalOfInt(mv);
    if volts <= 2.0 && (1000.0 * volts).Floor as real == 1000.0 * volts {
      RoundIntegral((1000.0 * volts).Floor);
    }
  }

  // -------------------------------------------------------------- readings

  /** `x`, `y` and `mag`: the raw reading scaled by the full-scale range the
      instrument reports next. */
  function ScaledReading(reply: string, senReply: string): (r: Result<real>)
    ensures r.Ok? <==> ParseDecimal(Read(reply)).Some? && SensitivityReading(senReply).Ok?
    ensures ParseDecimal(Read(reply)).None? ==> r == Err(Unparsable)
    ensures ParseDecimal(Read(reply)).Some? && SensitivityReading(senReply).Err? ==> r == SensitivityReading(senReply)
  {
    match ParseDecimal(Read(reply))
    case None => Err(Unparsable)
    case Some(raw) =>
      match SensitivityReading(senReply)
      case Err(e) => Err(e)
      case Ok(sens) => Ok(Volts(raw, sens))
  }

  /** A raw reading in volts, given the full-scale range. `xy` divides the
      range first and `x` multiplies first; on exact reals the two agree. */
  function Volts(raw: real, sens: real): real
  {
    raw * sens / FullScale
  }

  /** The range an index names is what the getter reads from that index. */
  lemma SensitivityOfIndex(index: nat)
    requires index < |Sensitivities|
    ensures SensitivityReading(IntToString(index)) == Ok(Sensitivities[index])
    ensures Sensitivities[index] > 0.0
  {
    IntStringExcludes(index, '\0');
    IntRoundTrip(index);
    if index > 0 {
      LaddersIncreasing();
      IncreasingPairs(Sensitivities, 0, index);
    }
  }

  /** Every full-scale range is positive. */
  lemma SensitivitiesPositive()
    ensures forall v | v in Sensitivities :: v > 0.0
  {
  }

  /** A raw reading within full scale gives a voltage within the range the
      instrument reports. */
  lemma ScaledWithinRange(reply: string, senReply: string)
    requires SensitivityReading(senReply).Ok?
    requires ParseDecimal(Read(reply)).Some?
    requires AbsReal(ParseDecimal(Read(reply)).value) <= FullScale
    ensures ScaledReading(reply, senReply).Ok?
    ensures AbsReal(ScaledReading(reply, senReply).value) <= SensitivityReading(senReply).value
  {
    SensitivitiesPositive();
    ScaledOf(reply, senReply);
    ScaleWithin(ParseDecimal(Read(reply)).value, SensitivityReading(senReply).value);
  }

  /** The reading is the same fraction of the reported range as the raw
      value is of full scale: a full-scale raw value reads the whole range,
      zero reads zero, and the sign is kept. */
  lemma ScaledFraction(reply: string, senReply: string)
    requires ParseDecimal(Read(reply)).Some? && SensitivityReading(senReply).Ok?
    ensures ScaledReading(reply, senReply).Ok?
    ensures var raw := ParseDecimal(Read(reply)).value;
      var range := SensitivityReading(senReply).value;
      var x := ScaledReading(reply, senReply).value;
      && x / range == raw / FullScale
      && (raw == FullScale ==> x == range)
      && (raw == 0.0 <==> x == 0.0)
      && (raw > 0.0 <==> x > 0.0)
  {
    var raw := ParseDecimal(Read(reply)).value;
    var range := SensitivityReading(senReply).value;
    SensitivitiesPositive();
    ScaledOf(reply, senReply);
    assert range > 0.0;
    FractionOfRange(raw, range);
  }

  lemma FractionOfRange(raw: real, range: real)
    requires range > 0.0
    ensures Volts(raw, range) / range == raw / FullScale
    ensures raw == FullScale ==> Volts(raw, range) == range
    ensures raw == 0.0 <==> Volts(raw, range) == 0.0
    ensures raw > 0.0 <==> Volts(raw, range) > 0.0
  {
    if raw > 0.0 {
      MulPositive(raw, range);
    } else if raw < 0.0 {
      MulPositive(-raw, range);
    }
  }

  lemma ScaledOf(reply: string, senReply: string)
    requires ParseDecimal(Read(reply)).Some? && SensitivityReading(senReply).Ok?
    ensures ScaledReading(reply, senReply).Ok?
    ensures ScaledReading(reply, senReply).value
      == Volts(ParseDecimal(Read(reply)).value, SensitivityReading(senReply).value)
  {
  }

  lemma ScaleWithin(raw: real, s: real)
    requires s > 0.0 && AbsReal(raw) <= FullScale
    ensures AbsReal(Volts(raw, s)) <= s
  {
    MulNonnegative(FullScale - raw, s);
    MulNonnegative(FullScale + raw, s);
    assert (FullScale - raw) * s == FullScale * s - raw * s;
    assert (FullScale + raw) * s == FullScale * s + raw * s;
  }

  /** Python's `s.replace('\r\n', '')`, scanning left to right. */
  function RemoveCrLf(s: string): (r: string)
    ensures |r| <= |s|
    ensures '\r' !in s ==> r == s
  {
    if |s| == 0 then ""
    else if |s| >= 2 && s[0] == '\r' && s[1] == '\n' then RemoveCrLf(s[2..])
    else [s[0]] + RemoveCrLf(s[1..])
  }

  lemma {:induction false} RemoveCrLfAfter(x: string, y: string)
    requires '\r' !in x
    ensures RemoveCrLf(x + y) == x + RemoveCrLf(y)
    decreases |x|
  {
    if |x| == 0 {
      Tree.EmptyAppend(x, y);
      Tree.EmptyAppend(x, RemoveCrLf(y));
    } else {
      Tree.TailAppend(x, y);
      assert x[0] != '\r';
      assert RemoveCrLf(x + y) == [x[0]] + RemoveCrLf(x[1..] + y);
      RemoveCrLfAfter(x[1..], y);
      Tree.AppendAssociative([x[0]], x[1..], RemoveCrLf(y));
      assert [x[0]] + x[1..] == x;
    }
  }

  /** `xy`: both channels of "x,y\r\n", scaled by the reported range. A
      reply without a comma fails on the empty list of comma positions. */
  function XyReading(reply: string, senReply: string): (r: Result<seq<real>>)
    ensures r.Ok? ==> |r.value| == 2
  {
    var s := RemoveCrLf(Read(reply));
    var i := Find(s, ',');
    if i < 0 then Err(IndexOutOfRange) else XyChannels(s[..i], s[i + 1..], senReply)
  }

  /** The two halves of an `xy` reply, each parsed and then scaled. */
  function XyChannels(x: string, y: string, senReply: string): (r: Result<seq<real>>)
    ensures r.Ok? ==> |r.value| == 2
  {
    match (ParseDecimal(x), ParseDecimal(y))
    case (Some(a), Some(b)) =>
      (match SensitivityReading(senReply)
       case Err(e) => Err(e)
       case Ok(sens) => Ok([Volts(a, sens), Volts(b, sens)]))
    case _ => Err(Unparsable)
  }

  /** "x,y\r\n" comes apart at the comma into its two channels. */
  lemma XyPieces(x: string, y: string)
    requires ',' !in x && '\r' !in x && '\r' !in y && '\0' !in x && '\0' !in y
    ensures var s := RemoveCrLf(Read(x + "," + y + "\r\n"));
      Find(s, ',') == |x| && s[..|x|] == x && s[|x| + 1..] == y
  {
    var reply := x + "," + y + "\r\n";
    var body := x + "," + y;
    assert reply == body + "\r\n";
    assert '\0' !in reply;
    assert '\r' !in body;
    RemoveCrLfAfter(body, "\r\n");
    assert RemoveCrLf("\r\n") == "";
    assert RemoveCrLf(Read(reply)) == body;
    FindSplit(x, y, ',');
  }

  /** The combined `xy` reading agrees with separate `x` and `y` readings of
      the same channels. */
  lemma XyAgreesWithChannels(x: string, y: string, senReply: string)
    requires ',' !in x && '\r' !in x && '\r' !in y && '\0' !in x && '\0' !in y
    ensures var r := XyReading(x + "," + y + "\r\n", senReply);
      var rx := ScaledReading(x, senReply);
      var ry := ScaledReading(y, senReply);
      (r.Ok? <==> rx.Ok? && ry.Ok?) && (r.Ok? ==> r.value == [rx.value, ry.value])
  {
    XyPieces(x, y);
    assert XyReading(x + "," + y + "\r\n", senReply) == XyChannels(x, y, senReply);
    var px := ParseDecimal(x);
    var py := ParseDecimal(y);
    var sr := SensitivityReading(senReply);
    if px.Some? && py.Some? && sr.Ok? {
      ScaledOf(x, senReply);
      ScaledOf(y, senReply);
    }
  }
}
