/** The spectrum tab: the load-cell calibration, the fit window, and the
    file-name scheme that stores the force and the temperature of a saved
    spectrum, `<stamp>_<force>kN_<T>K.txt` with 'p' for the decimal point
    of the force. */
module Spectrum {
  import opened Wrappers
  import opened Numbers
  import opened Text
  import Tree

  // ----- Load-cell calibration -----

  const CalibrationOffset := 0.109774389100682
  const CalibrationSlope := 2.31626148365727

  /** `load_cell_calibration`: load-cell voltage in volts to force in kN. */
  function Calibrate(v: real): real
  {
    CalibrationOffset + CalibrationSlope * v
  }

  /** The voltage a force corresponds to. */
  function Voltage(f: real): (v: real)
    ensures Calibrate(v) == f
  {
    (f - CalibrationOffset) / CalibrationSlope
  }

  /** The calibration is strictly increasing, hence one-to-one. */
  lemma CalibrationIncreasing(a: real, b: real)
    requires a < b
    ensures Calibrate(a) < Calibrate(b)
  {
    MulPositive(CalibrationSlope, b - a);
  }

  lemma VoltageOfCalibrated(v: real)
    ensures Voltage(Calibrate(v)) == v
  {
    if Voltage(Calibrate(v)) < v {
      CalibrationIncreasing(Voltage(Calibrate(v)), v);
    } else if Voltage(Calibrate(v)) > v {
      CalibrationIncreasing(v, Voltage(Calibrate(v)));
    }
  }

  /** The calibration moves every value but one, so a force read back from
      a file name and calibrated again differs from the force stored. */
  lemma CalibrationFixedPoint(v: real)
    ensures Calibrate(v) == v <==> v * (CalibrationSlope - 1.0) == -CalibrationOffset
  {
  }

  // ----- Fit window -----

  /** The lower end of the fit window, in nm. */
  const FitLower := 690.0

  predicate InWindow(wavelength: real, peakmax: real)
  {
    FitLower < wavelength < peakmax
  }

  /** `[i for i in range(len(l)) if l[i] < peakmax and l[i] > 690]`: exactly
      the indices inside the window, in increasing order. */
  function FitIndices(wavelengths: seq<real>, peakmax: real): (ind: seq<nat>)
    ensures forall k | 0 <= k < |ind| :: ind[k] < |wavelengths| && InWindow(wavelengths[ind[k]], peakmax)
    ensures forall i | 0 <= i < |wavelengths| && InWindow(wavelengths[i], peakmax) :: i in ind
    ensures forall a, b | 0 <= a < b < |ind| :: ind[a] < ind[b]
  {
    if |wavelengths| == 0 then []
    else
      var front := wavelengths[..|wavelengths| - 1];
      assert forall k | 0 <= k < |front| :: front[k] == wavelengths[k];
      var last := |wavelengths| - 1;
      FitIndices(front, peakmax) + (if InWindow(wavelengths[last], peakmax) then [last] else [])
  }

  // ----- Building a file name -----

  /** `float(s)` with its ValueError. */
  function Float(s: string): (r: Result<real>)
    ensures r.Ok? <==> var t := Trim(s);
      PointedDigits(t) || (|t| > 0 && t[0] in "+-" && PointedDigits(t[1..]))
    ensures r.Ok? <==> ParseDecimal(s).Some?
    ensures r.Ok? ==> r.value == ParseDecimal(s).value
    ensures r.Err? ==> r.error == Unparsable
    ensures ParseInt(s).Some? ==> r == Ok(ParseInt(s).value as real)
  {
    match ParseDecimal(s)
    case Some(v) => Ok(v)
    case None => Err(Unparsable)
  }

  /** The force shown on the label, `"F = " + "{:.2f}".format(f) + " kN"`,
      without its frame. */
  function ForceText(forceLabel: string): (r: string)
    ensures |forceLabel| >= 7 ==> r == forceLabel[4..|forceLabel| - 3]
    ensures |forceLabel| <= 7 ==> r == []
  {
    Slice(forceLabel, 4, -3)
  }

  /** The label showing force text `fs`. */
  function ForceLabel(fs: string): (framed: string)
    ensures |framed| == |fs| + 7
  {
    "F = " + fs + " kN"
  }

  /** `ForceText` takes off the frame `ForceLabel` puts on. */
  lemma ForceTextOfLabel(fs: string)
    ensures ForceText(ForceLabel(fs)) == fs
  {
    var framed := ForceLabel(fs);
    assert framed[4..|framed| - 3] == fs;
  }

  /** The force as written into a file name: the decimal point becomes
      'p'; a force without a point is written as `str(int(float(text)))`. */
  function ForcePart(fs: string): (r: Result<string>)
    ensures r.Ok? <==> '.' in fs || ParseDecimal(fs).Some?
    ensures '.' in fs ==> |r.value| == |fs| && r.value[Find(fs, '.')] == 'p'
    ensures '.' in fs ==> forall k | 0 <= k < |fs| && k != Find(fs, '.') :: r.value[k] == fs[k]
    ensures r.Ok? && '.' !in fs ==> r.value == IntToString(Trunc(ParseDecimal(fs).value))
  {
    var i := Find(fs, '.');
    if i == -1 then
      var v :- Float(fs);
      Ok(IntToString(Trunc(v)))
    else
      Ok(fs[..i] + "p" + fs[i + 1..])
  }

  /** The file name `meas_spec` saves a spectrum under: the time stamp, the
      force part with "kN", and the temperature entry rounded to an integer
      with "K.txt". */
  function BuildName(directory: string, stamp: string, temperatureText: string, forceLabel: string): (r: Result<string>)
    ensures r.Ok? <==> ParseDecimal(temperatureText).Some? && ForcePart(ForceText(forceLabel)).Ok?
    ensures r.Ok? ==> |r.value| >= 5 && r.value[|r.value| - 5..] == "K.txt"
  {
    var t :- Float(temperatureText);
    var part :- ForcePart(ForceText(forceLabel));
    Ok((directory + "/" + stamp) + "_" + (part + "kN") + "_" + (IntToString(Round(t)) + "K.txt"))
  }

  // ----- Reading a file name back -----

  /** The temperature reading of `loadfilename` as written: a temperature with a 'p' refers to `ind_p`,
      which the function has not assigned yet. */
  function TemperatureTextAsWritten(t: string): (r: Result<string>)
    ensures r.Ok? <==> 'p' !in t
    ensures r.Ok? ==> r.value == t
    ensures r.Err? ==> r.error == UnboundLocal
  {
    if Find(t, 'p') == -1 then Ok(t) else Err(UnboundLocal)
  }

  /** The temperature text with the 'p' read as the decimal point. */
  function TemperatureText(t: string): (r: Result<string>)
    ensures r.Ok?
    ensures 'p' !in t ==> r.value == t
  {
    var i := Find(t, 'p');
    if i == -1 then Ok(t) else Ok(t[..i] + "." + t[i + 1..])
  }

  /** The corrected reading turns the first 'p' into a point. */
  lemma TemperaturePoint(a: string, b: string)
    requires 'p' !in a
    ensures TemperatureText(a + "p" + b) == Ok(a + "." + b)
  {
    FindSplit(a, b, 'p');
  }

  /** The code as written fails on a temperature written with a point. */
  lemma PointedTemperatureFails()
    ensures TemperatureTextAsWritten("1p5") == Err(UnboundLocal)
  {
    assert "1p5"[1] == 'p';
  }

  /** The 'p'-decimal reading of `loadfilename` as written: "apb" reads as
      `float(a) + float(b) / 10**len(b)`, which adds the fraction even when
      `a` is negative. */
  function PointDecimalAsWritten(s: string): (r: Result<real>)
    ensures 'p' !in s ==> r == Float(s)
  {
    var i := Find(s, 'p');
    if i == -1 then Float(s) else AddFraction(Float(s[..i]), Float(s[i + 1..]), |s| - 1 - i)
  }

  /** `whole + frac / 10**digits`, failing when either part failed. */
  function AddFraction(whole: Result<real>, frac: Result<real>, digits: nat): (r: Result<real>)
    ensures r.Ok? <==> whole.Ok? && frac.Ok?
    ensures r.Ok? ==> r.value == whole.value + Shift(frac.value, digits)
    ensures whole.Err? ==> r == Err(whole.error)
    ensures whole.Ok? && frac.Err? ==> r == Err(frac.error)
  {
    var w :- whole;
    var f :- frac;
    Ok(w + Shift(f, digits))
  }

  /** The 'p'-decimal with the 'p' read as the decimal point. */
  function PointDecimal(s: string): (r: Result<real>)
    ensures 'p' !in s ==> r == Float(s)
  {
    var i := Find(s, 'p');
    if i == -1 then Float(s) else Float(s[..i] + "." + s[i + 1..])
  }

  /** The force part of a name reads back as the force text. */
  lemma PointDecimalOfPart(fs: string)
    requires 'p' !in fs && ParseDecimal(fs).Some?
    ensures ForcePart(fs).Ok?
    ensures var v := ParseDecimal(fs).value;
      PointDecimal(ForcePart(fs).value) == Ok(if '.' in fs then v else Trunc(v) as real)
  {
    if '.' in fs {
      PointedPart(fs);
    } else {
      WholePart(fs);
    }
  }

  /** A force text with a point: the 'p' goes back to the point. */
  lemma PointedPart(fs: string)
    requires 'p' !in fs && '.' in fs
    ensures ForcePart(fs).Ok? && PointDecimal(ForcePart(fs).value) == Float(fs)
  {
    var i := Find(fs, '.');
    var a := fs[..i];
    var b := fs[i + 1..];
    assert 'p' !in a;
    PointDecimalOfSplit(a, b);
    PieceAround(fs, i);
  }

  /** A force text without a point is written as an integer. */
  lemma WholePart(fs: string)
    requires '.' !in fs && ParseDecimal(fs).Some?
    ensures ForcePart(fs).Ok?
    ensures PointDecimal(ForcePart(fs).value) == Ok(Trunc(ParseDecimal(fs).value) as real)
  {
    var n := Trunc(ParseDecimal(fs).value);
    IntStringExcludes(n, 'p');
    DecimalOfInt(n);
  }

  /** `float` of a string of digits. */
  lemma FloatOfDigits(d: string)
    requires |d| > 0 && AllDigits(d)
    ensures Float(d) == Ok(DigitsValue(d) as real)
  {
    DecimalUnsigned(d);
    DecimalOfDigits(d);
  }

  /** `float` of digits, a point and digits. */
  lemma FloatOfPointed(w: string, f: string)
    requires |w| > 0 && |f| > 0 && AllDigits(w) && AllDigits(f)
    ensures Float(w + "." + f).Ok?
    ensures Float(w + "." + f).value == DigitsValue(w) as real + Shift(DigitsValue(f) as real, |f|)
  {
    var d := w + "." + f;
    assert d[0] == w[0] && d[|d| - 1] == f[|f| - 1];
    DecimalUnsigned(d);
    UnsignedOfPoint(w, f);
  }

  /** `float` of a minus sign followed by an unsigned number. */
  lemma FloatOfNegative(u: string)
    requires |u| > 0 && IsDigit(u[0]) && IsDigit(u[|u| - 1]) && ParseUnsignedDecimal(u).Some?
    ensures Float("-" + u).Ok?
    ensures Float("-" + u).value == -ParseUnsignedDecimal(u).value
  {
    var t := "-" + u;
    TrimUnspaced(t);
    assert t[1..] == u;
  }

  /** The corrected reading of a number with one 'p'. */
  lemma PointDecimalOfSplit(a: string, b: string)
    requires 'p' !in a
    ensures PointDecimal(a + "p" + b) == Float(a + "." + b)
  {
    FindSplit(a, b, 'p');
  }

  /** The reading as written of a number with one 'p'. */
  lemma AsWrittenOfSplit(a: string, b: string)
    requires 'p' !in a
    ensures PointDecimalAsWritten(a + "p" + b) == AddFraction(Float(a), Float(b), |b|)
  {
    FindSplit(a, b, 'p');
  }

  /** The two readings agree on unsigned decimals. */
  lemma PointDecimalAgreesUnsigned(w: string, f: string)
    requires |w| > 0 && |f| > 0 && AllDigits(w) && AllDigits(f)
    ensures PointDecimalAsWritten(w + "p" + f).Ok? && PointDecimal(w + "p" + f).Ok?
    ensures PointDecimalAsWritten(w + "p" + f).value == PointDecimal(w + "p" + f).value
      == DigitsValue(w) as real + Shift(DigitsValue(f) as real, |f|)
  {
    DigitsExclude(w, 'p');
    PointDecimalOfSplit(w, f);
    AsWrittenOfSplit(w, f);
    FloatOfDigits(w);
    FloatOfDigits(f);
    FloatOfPointed(w, f);
  }

  /** Read as written, an unsigned number with a 'p' is the decimal it spells. */
  lemma AsWrittenUnsigned(w: string, f: string)
    requires |w| > 0 && |f| > 0 && AllDigits(w) && AllDigits(f)
    ensures PointDecimalAsWritten(w + "p" + f).Ok?
    ensures PointDecimalAsWritten(w + "p" + f).value == DigitsValue(w) as real + Shift(DigitsValue(f) as real, |f|)
  {
    PointDecimalAgreesUnsigned(w, f);
  }

  /** A negative number with a 'p', read as written: `float` of the part
      before the 'p' plus the fraction. */
  lemma NegativeAsWritten(w: string, f: string)
    requires |w| > 0 && |f| > 0 && AllDigits(w) && AllDigits(f)
    ensures PointDecimalAsWritten("-" + w + "p" + f).Ok?
    ensures PointDecimalAsWritten("-" + w + "p" + f).value
      == -(DigitsValue(w) as real) + Shift(DigitsValue(f) as real, |f|)
  {
    var n := "-" + w;
    assert 'p' !in n by {
      DigitsExclude(w, 'p');
    }
    AsWrittenOfSplit(n, f);
    DecimalOfDigits(w);
    FloatOfNegative(w);
    FloatOfDigits(f);
  }

  /** `float` of a minus sign, digits, a point and digits. */
  lemma FloatOfNegativePointed(w: string, f: string)
    requires |w| > 0 && |f| > 0 && AllDigits(w) && AllDigits(f)
    ensures Float("-" + (w + "." + f)).Ok?
    ensures Float("-" + (w + "." + f)).value == -(DigitsValue(w) as real + Shift(DigitsValue(f) as real, |f|))
  {
    var d := w + "." + f;
    assert d[0] == w[0] && d[|d| - 1] == f[|f| - 1];
    UnsignedOfPoint(w, f);
    FloatOfNegative(d);
  }

  /** A negative number with a 'p', read with the 'p' as the point. */
  lemma NegativeCorrected(w: string, f: string)
    requires |w| > 0 && |f| > 0 && AllDigits(w) && AllDigits(f)
    ensures PointDecimal("-" + w + "p" + f).Ok?
    ensures PointDecimal("-" + w + "p" + f).value
      == -(DigitsValue(w) as real + Shift(DigitsValue(f) as real, |f|))
  {
    var n := "-" + w;
    DigitsExclude(w, 'p');
    assert 'p' !in n;
    PointDecimalOfSplit(n, f);
    Tree.AppendAssociative("-", w, ".");
    Tree.AppendAssociative("-", w + ".", f);
    FloatOfNegativePointed(w, f);
  }

  /** On a negative force the code as written adds the fraction to the
      negative whole part instead of subtracting it. */
  lemma NegativePointDecimal(w: string, f: string)
    requires |w| > 0 && |f| > 0 && AllDigits(w) && AllDigits(f)
    ensures PointDecimalAsWritten("-" + w + "p" + f).Ok? && PointDecimal("-" + w + "p" + f).Ok?
    ensures DigitsValue(f) > 0 ==>
      PointDecimalAsWritten("-" + w + "p" + f).value > PointDecimal("-" + w + "p" + f).value
  {
    NegativeAsWritten(w, f);
    NegativeCorrected(w, f);
  }

  /** What `loadfilename` takes from a name: the temperature text when the
      name ends in "K.txt"-style, and the force it puts on the label. */
  datatype Loaded = Loaded(temperature: Option<string>, force: real)

  /** The pieces of a name before any number is read: the temperature
      text, the force digits, and whether the force segment carries "kN". */
  datatype Segments = Segments(temperature: Option<string>, force: string, kilonewton: bool)

  /** The temperature text: the last '_' segment without "K.txt", when its
      fifth character from the end is 'K'. */
  function TemperatureField(s: string, last: nat): (r: Result<Option<string>>)
    requires last < |s|
    ensures r.Err? <==> |s| - last - 1 < 5
    ensures r.Ok? && r.value.Some? ==> s[|s| - 5] == 'K' && r.value.value == s[last + 1..|s| - 5]
    ensures r.Ok? && r.value.None? ==> s[|s| - 5] != 'K'
  {
    var k :- Subscript(s[last + 1..], -5);
    if k == 'K' then Ok(Some(Slice(s, last + 1, -5)))
    else Ok(None)
  }

  /** The force segment: the second-last '_' segment, or the third-last when
      the second-last is "up". The separator lookups count from the end,
      so with at least one separator they never fail. */
  function ForceField(s: string, seps: seq<nat>): (r: string)
    requires |seps| > 0
    ensures |r| <= |s|
    ensures |seps| == 1 ==> r == []
  {
    var last := seps[|seps| - 1];
    var m := Subscript(seps, |seps| - 2).value;
    var marker := Slice(s, m + 1, last);
    if marker == "up" then Slice(s, Subscript(seps, |seps| - 3).value + 1, m)
    else marker
  }

  /** The force digits: a segment with an 'N' loses its last two
      characters ("kN"). */
  function ForceDigits(field: string): (d: string)
    ensures Find(field, 'N') == -1 ==> d == field
    ensures Find(field, 'N') != -1 && |field| >= 2 ==> d == field[..|field| - 2]
  {
    if Find(field, 'N') == -1 then field else Slice(field, 0, -2)
  }

  /** The file-name parsing of `loadfilename` up to the numbers: it fails
      only on a name without '_' or with a last segment shorter than five
      characters. */
  function NameSegments(s: string): (r: Result<Segments>)
    ensures r.Err? ==> r.error == IndexOutOfRange
    ensures '_' !in s ==> r.Err?
  {
    SegmentsAt(s, Positions(s, '_'))
  }

  /** `NameSegments` given the positions `seps` of the separators. */
  function SegmentsAt(s: string, seps: seq<nat>): (r: Result<Segments>)
    requires forall k | 0 <= k < |seps| :: seps[k] < |s|
    ensures r.Err? <==> |seps| == 0 || |s| - seps[|seps| - 1] - 1 < 5
    ensures r.Err? ==> r.error == IndexOutOfRange
  {
    var last :- Subscript(seps, |seps| - 1);
    var temperature :- TemperatureField(s, last);
    var field := ForceField(s, seps);
    Ok(Segments(temperature, ForceDigits(field), Find(field, 'N') != -1))
  }

  /** `loadfilename` as written: a 'p' in the temperature fails, the force
      'p' is read as `float(a) + float(b) / 10**len(b)`, and the force is
      calibrated whether the segment holds a voltage or a force in kN. */
  function LoadNameAsWritten(s: string): (r: Result<Loaded>)
    ensures '_' !in s ==> r == Err(IndexOutOfRange)
    ensures var g := NameSegments(s);
      g.Ok? && g.value.temperature.Some? && 'p' in g.value.temperature.value ==> r == Err(UnboundLocal)
  {
    var g :- NameSegments(s);
    var temperature :- TemperatureAsWritten(g.temperature);
    var force :- PointDecimalAsWritten(g.force);
    Ok(Loaded(temperature, Calibrate(force)))
  }

  /** The temperature step of `loadfilename` as written. */
  function TemperatureAsWritten(t: Option<string>): (r: Result<Option<string>>)
    ensures t.None? ==> r == Ok(None)
    ensures t.Some? && 'p' !in t.value ==> r == Ok(t)
    ensures t.Some? && 'p' in t.value ==> r == Err(UnboundLocal)
  {
    match t
    case None => Ok(None)
    case Some(text) =>
      var u :- TemperatureTextAsWritten(text);
      Ok(Some(u))
  }

  /** The file-name parsing of `loadfilename` as evidently intended: the 'p'
      of either segment is read as the decimal point, and a force read from
      a "kN" segment is already a force, so it is not calibrated again. */
  function LoadName(s: string): (r: Result<Loaded>)
    ensures '_' !in s ==> r == Err(IndexOutOfRange)
    ensures r.Ok? ==> NameSegments(s).Ok? && PointDecimal(NameSegments(s).value.force).Ok?
    ensures r.Ok? && NameSegments(s).value.kilonewton ==> r.value.force == PointDecimal(NameSegments(s).value.force).value
  {
    var g :- NameSegments(s);
    var force :- PointDecimal(g.force);
    var temperature := if g.temperature.None? then None else Some(TemperatureText(g.temperature.value).value);
    Ok(Loaded(temperature, if g.kilonewton then force else Calibrate(force)))
  }

  /** The last two separators of a name whose last two segments hold none. */
  lemma SeparatorsOfName(p: string, q: string, r: string)
    requires '_' !in q && '_' !in r
    ensures var seps := Positions(p + "_" + q + "_" + r, '_');
      |seps| >= 2 && seps[|seps| - 2] == |p| && seps[|seps| - 1] == |p| + 1 + |q|
  {
    var ps := Positions(p, '_');
    var a := p + "_";
    var b := a + q;
    var c := b + "_";
    PositionsSep(p, '_');
    assert Positions(a, '_') == ps + [|p|];
    PositionsFree(a, q, '_');
    assert Positions(b, '_') == ps + [|p|];
    PositionsSep(b, '_');
    assert Positions(c, '_') == (ps + [|p|]) + [|b|];
    PositionsFree(c, r, '_');
    var seps := Positions(c + r, '_');
    assert seps == (ps + [|p|]) + [|b|];
    assert |seps| == |ps| + 2;
    assert seps[|seps| - 1] == |b| && seps[|seps| - 2] == |p|;
  }

  lemma TemperatureOfSegment(s: string, last: nat, r: string)
    requires last < |s| && s[last + 1..] == r && |r| >= 5 && r[|r| - 5] == 'K'
    ensures TemperatureField(s, last) == Ok(Some(r[..|r| - 5]))
  {
    assert Subscript(s[last + 1..], -5) == Ok('K');
    assert Slice(s, last + 1, -5) == r[..|r| - 5];
  }

  lemma ForceOfSegment(s: string, seps: seq<nat>, m: nat, q: string)
    requires |seps| >= 2 && seps[|seps| - 2] == m && seps[|seps| - 1] == m + 1 + |q| <= |s|
    requires s[m + 1..m + 1 + |q|] == q && q != "up"
    ensures ForceField(s, seps) == q
  {
    assert Subscript(seps, |seps| - 2) == Ok(m);
    assert Slice(s, m + 1, m + 1 + |q|) == q;
  }

  /** The segments of a name whose last two separators are at `m` and
      `last`, with force segment `q` and last segment `r`. */
  lemma SegmentsAtName(s: string, seps: seq<nat>, m: nat, q: string, r: string)
    requires forall k | 0 <= k < |seps| :: seps[k] < |s|
    requires |seps| >= 2 && seps[|seps| - 2] == m && seps[|seps| - 1] == m + 1 + |q| < |s|
    requires s[m + 1..m + 1 + |q|] == q && s[m + 2 + |q|..] == r
    requires |r| >= 5 && r[|r| - 5] == 'K' && |q| >= 2 && q[|q| - 1] == 'N'
    ensures SegmentsAt(s, seps) == Ok(Segments(Some(r[..|r| - 5]), q[..|q| - 2], true))
  {
    var last := m + 1 + |q|;
    assert Subscript(seps, |seps| - 1) == Ok(last);
    TemperatureOfSegment(s, last, r);
    assert q != "up" by {
      assert q[|q| - 1] != "up"[|"up"| - 1];
    }
    ForceOfSegment(s, seps, m, q);
    assert Find(q, 'N') != -1;
  }

  /** Reading a name back splits it at its last two separators. */
  lemma SegmentsOfName(p: string, q: string, r: string)
    requires '_' !in q && '_' !in r
    requires |r| >= 5 && r[|r| - 5] == 'K' && |q| >= 2 && q[|q| - 1] == 'N'
    ensures NameSegments(p + "_" + q + "_" + r) == Ok(Segments(Some(r[..|r| - 5]), q[..|q| - 2], true))
  {
    var s := p + "_" + q + "_" + r;
    SeparatorsOfName(p, q, r);
    SegmentsOfNameSlices(p, q, r);
    SegmentsAtName(s, Positions(s, '_'), |p|, q, r);
  }

  /** Where the last two segments of such a name sit. */
  lemma SegmentsOfNameSlices(p: string, q: string, r: string)
    ensures var s := p + "_" + q + "_" + r;
      s[|p| + 1..|p| + 1 + |q|] == q && s[|p| + 2 + |q|..] == r
  {
  }

  /** A name assembled as `meas_spec` does it reads back its parts; the
      force comes back as the number the force part holds. */
  lemma LoadOfParts(p: string, part: string, t: string, force: real)
    requires '_' !in part && '_' !in t && 'p' !in t && PointDecimal(part) == Ok(force)
    ensures LoadName(p + "_" + (part + "kN") + "_" + (t + "K.txt")) == Ok(Loaded(Some(t), force))
  {
    var q := part + "kN";
    var r := t + "K.txt";
    assert r[|r| - 5] == 'K' && r[..|r| - 5] == t;
    assert q[..|q| - 2] == part;
    SegmentsOfName(p, q, r);
  }

  /** The same name read as written: the force it holds is calibrated
      once more. */
  lemma LoadOfPartsAsWritten(p: string, part: string, t: string, force: real)
    requires '_' !in part && '_' !in t && 'p' !in t
    requires PointDecimalAsWritten(part).Ok? && PointDecimalAsWritten(part).value == force
    ensures LoadNameAsWritten(p + "_" + (part + "kN") + "_" + (t + "K.txt")) == Ok(Loaded(Some(t), Calibrate(force)))
  {
    var q := part + "kN";
    var r := t + "K.txt";
    assert r[|r| - 5] == 'K' && r[..|r| - 5] == t;
    assert q[..|q| - 2] == part;
    SegmentsOfName(p, q, r);
  }

  /** Reading back a name built by `meas_spec` recovers the rounded
      temperature and the force on the label (truncated when the label
      carries no point). */
  lemma LoadBuilt(directory: string, stamp: string, temperatureText: string, forceLabel: string)
    requires ParseDecimal(temperatureText).Some?
    requires '_' !in ForceText(forceLabel) && 'p' !in ForceText(forceLabel) && ParseDecimal(ForceText(forceLabel)).Some?
    ensures BuildName(directory, stamp, temperatureText, forceLabel).Ok?
    ensures var fs := ForceText(forceLabel);
      var v := ParseDecimal(fs).value;
      LoadName(BuildName(directory, stamp, temperatureText, forceLabel).value)
        == Ok(Loaded(Some(IntToString(Round(ParseDecimal(temperatureText).value))),
                     if '.' in fs then v else Trunc(v) as real))
  {
    var fs := ForceText(forceLabel);
    var part := ForcePart(fs).value;
    var t := IntToString(Round(ParseDecimal(temperatureText).value));
    var p := directory + "/" + stamp;
    IntStringExcludes(Round(ParseDecimal(temperatureText).value), '_');
    IntStringExcludes(Round(ParseDecimal(temperatureText).value), 'p');
    assert BuildName(directory, stamp, temperatureText, forceLabel).value == p + "_" + (part + "kN") + "_" + (t + "K.txt");
    PointDecimalOfPart(fs);
    var v := ParseDecimal(fs).value;
    LoadOfParts(p, part, t, if '.' in fs then v else Trunc(v) as real);
  }

  /** A name as `BuildName` assembles it. */
  lemma BuiltNameShape(directory: string, stamp: string, temperatureText: string, forceLabel: string)
    requires ParseDecimal(temperatureText).Some? && ForcePart(ForceText(forceLabel)).Ok?
    ensures BuildName(directory, stamp, temperatureText, forceLabel)
      == Ok((directory + "/" + stamp) + "_" + (ForcePart(ForceText(forceLabel)).value + "kN") + "_"
            + (IntToString(Round(ParseDecimal(temperatureText).value)) + "K.txt"))
  {
  }

  /** Digits, a point and digits go into a name as digits, 'p' and digits. */
  lemma PointedForcePart(w: string, f: string)
    requires AllDigits(w) && AllDigits(f)
    ensures ForcePart(w + "." + f) == Ok(w + "p" + f)
    ensures '_' !in w + "p" + f
  {
    var fs := w + "." + f;
    DigitsExclude(w, '.');
    DigitsExclude(w, '_');
    DigitsExclude(f, '_');
    FindSplit(w, f, '.');
    assert fs[..Find(fs, '.')] == w && fs[Find(fs, '.') + 1..] == f;
  }

  /** Read as written, a name built from the label "F = w.f kN" loads the
      calibration of w.f, not w.f itself. */
  lemma LoadBuiltAsWritten(directory: string, stamp: string, temperatureText: string, w: string, f: string)
    requires ParseDecimal(temperatureText).Some?
    requires |w| > 0 && |f| > 0 && AllDigits(w) && AllDigits(f)
    ensures Float(w + "." + f).Ok? && BuildName(directory, stamp, temperatureText, ForceLabel(w + "." + f)).Ok?
    ensures LoadNameAsWritten(BuildName(directory, stamp, temperatureText, ForceLabel(w + "." + f)).value)
      == Ok(Loaded(Some(IntToString(Round(ParseDecimal(temperatureText).value))), Calibrate(Float(w + "." + f).value)))
  {
    var n := Round(ParseDecimal(temperatureText).value);
    FloatOfPointed(w, f);
    var v := Float(w + "." + f).value;
    ForceTextOfLabel(w + "." + f);
    PointedForcePart(w, f);
    BuiltNameShape(directory, stamp, temperatureText, ForceLabel(w + "." + f));
    IntStringExcludes(n, '_');
    IntStringExcludes(n, 'p');
    AsWrittenUnsigned(w, f);
    LoadOfPartsAsWritten(directory + "/" + stamp, w + "p" + f, IntToString(n), v);
  }
}
