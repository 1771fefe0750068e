# RanView core in Dafny

RanView is a set of PyQt windows that drive a lock-in measurement rig: Signal
Recovery DSP 52XX/72XX lock-in amplifiers, a Quantum Design PPMS driven
through MultiPyVu, and a spectrometer with a load cell. This project models
the discrete logic underneath the windows and proves properties of it:

- **Dsp52xx** (`dsp52xx.dfy`): the DSP 52XX driver's register codec. It covers
  the sensitivity and time-constant ladders, NUL stripping in `read`, the
  frequency setter and getter over six decade bands, the amplitude setter and
  getter, and the scaling of raw `x`/`y`/`mag`/`xy` readings to volts.
- **Dsp72xx** (`dsp72xx.dfy`): the DSP 72XX `adc3_time` setter and getter.
- **AutoRange** (`autorange.dfy`): the auto-range loop. One model covers
  `DSP52XX_ar.auto_range`, `DSP72XX_ar.auto_range` and the inline copy in
  both acquisition scripts. A `Policy` holds the fast TC code, the settle
  time, the trigger band and whether TC is read inside or outside the loop.
  The instrument is a profile from SEN index to raw magnitude. The loop is
  bounded by fuel and returns the trace of TC/SEN writes and pauses it makes.
  SEN is not clamped.
- **StreamRange** (`readings.dfy`): the same check where each MAG query gets
  its own answer. This is how the drivers see a settling signal, and where a
  call can fail with UnboundLocalError.
- **Acquisition** (`acquisition.dfy`): the two acquisition windows
  (`test_GUImpv.py` with optional PPMS columns, and `GUI_lockin_spectrum.py`
  with four columns for lock-ins other than the 52XX). It covers the data
  columns and y-axes derived from the instrument tree, one `acquire_data`
  tick, the `execute` loop, and adding and deleting instruments.
- **Sequencer** (`sequencer.dfy`): the PPMS tab's sequence editor and runner.
  The editor does add, remove and clear under single selection. The runner
  covers `run_sequence`, `run_step` and `stop_sequence` over the flags
  `current_step`, `step_finished` and `should_stop`. The controller is a list
  of status strings. A stop request is the index of the first `should_stop`
  read that sees it.
- **Ppms** (`ppms.dfy`): the `mpvPPMS` wrapper. It covers field and rate
  conversion with clamping, the chamber-mode table and the status getters.
- **Spectrum** (`spectrum.dfy`): the spectrum tab. It covers the load-cell
  calibration, the fit window, the file name `<stamp>_<force>kN_<T>K.txt`
  built by `meas_spec`, and its parsing in `loadfilename`.
- Support modules model Python behaviour the code relies on:
  - `numbers.dfy`: `round` with ties to even, and `int()` truncation;
  - `text.dfy`: `str`, `float`, `int`, `find`, `replace`, `split`, negative
    subscripts and slices;
  - `tree.dfy`: insertion into and removal from a tree widget's rows;
  - `dict.dfy`: insertion-ordered dictionary assignment;
  - `wrappers.dfy`: `Result` and `Option`.

Python exceptions (`ValueError`, `IndexError`, an unbound local) are `Err`
results. Floats are exact reals. The PPMS client, the serial instruments and
the clock enter only as parameters.

## Model

| member | source | states |
|---|---|---|
| Numbers.Round | dsp52XXbase.py:194-216 | Python `round`: the integer is within 1/2 of x, and on a tie it is the even one |
| Numbers.RoundIntegral | dsp52XXbase.py:195-215 | `round` leaves an integer unchanged |
| Numbers.RoundMonotone | dsp52XXbase.py:195-215 | `round` is monotone |
| Numbers.Trunc | dsp72XX_ar.py:152 | `int()` of a float truncates toward zero: the result lies within 1 of x, on the side of zero |
| Numbers.TruncIntegral | dsp72XX_ar.py:152 | `int()` leaves an integer-valued float unchanged |
| Text.NatToStringInjective | test_GUImpv.py:183 | different numbers print differently |
| Text.NatToString | test_GUImpv.py:183 | `str(i+1)` is a non-empty digit string without a leading zero whose value is the number |
| Text.IntToString | PlotSpectrumWidget.py:534 | `str` of an integer is the digits of its magnitude, with a minus sign exactly when it is negative |
| Text.IntRoundTrip | dsp52XXbase.py:269 | `int()` of a printed integer gives the integer back |
| Text.DecimalOfInt | dsp52XXbase.py:132 | `float()` of a printed integer gives the integer's value |
| Text.Find | PlotSpectrumWidget.py:270 | `str.find` gives -1 exactly when the character is absent; otherwise it gives its first position |
| Text.RemoveChar | dsp52XXbase.py:78 | `replace(c, '')` leaves no `c` and keeps the count of every other character |
| Text.RemoveCharIdempotent | dsp52XXbase.py:78 | removing a character twice is removing it once |
| Text.Split | dsp72XX_ar.py:147 | splitting a reply at commas gives at least one field, and no field contains a comma |
| Text.SplitJoin | dsp72XX_ar.py:147 | joining the comma-split fields with commas gives back the reply |
| Text.Subscript | PlotSpectrumWidget.py:268 | Python indexing: negative indices count from the end, and out-of-range indices raise IndexError |
| Text.Slice | PlotSpectrumWidget.py:269 | Python slicing: a negative bound counts from the end, bounds past either end clamp to it (so `s[-10:10]` is the whole string), only bounds that cross after clamping give the empty string, and the result is never longer than the string |
| Text.Positions | PlotSpectrumWidget.py:265 | `[pos for pos, char in enumerate(s) if char == '_']`: exactly the positions of the separator, increasing |
| Text.ParseInt | dsp52XXbase.py:269 | `int()` of a digit string, with or without a leading minus, is its value; any text it accepts is, once trimmed, digits with at most a leading sign |
| Text.ParseUnsignedDecimal | PlotSpectrumWidget.py:288 | the unsigned part of `float()` succeeds exactly on digits with at most one point, not the point alone; a digit string gives its integer value |
| Text.ParseDecimal | dsp52XXbase.py:132 | `float()` succeeds exactly on trimmed text that is an optional sign followed by digits with at most one point; on text `int()` accepts it gives the same value |
| Tree.InsertAt | PPMSControlWidget.py:297 | `insertTopLevelItem(i, x)`: x sits at i, rows before keep their place, and rows after shift down one |
| Tree.RemoveAt | PPMSControlWidget.py:312 | `takeTopLevelItem(i)`: row i goes, rows before keep their place, and rows after shift up one |
| Tree.RemoveInserted | PPMSControlWidget.py:297-317 | taking out the row just inserted restores the tree |
| Tree.InsertRemoved | PPMSControlWidget.py:297-317 | re-inserting a removed row at its index restores the tree |
| Dict.Assign | test_GUImpv.py:205 | `d[key] = v`: an existing key keeps its position and now holds v, every other entry is untouched, and a new key is appended at the end |
| Dict.StoreFresh | test_GUImpv.py:203-243 | assigning under keys that are all distinct lists the entries in assignment order |
| Dsp52xx.LaddersIncreasing | dsp52XXbase.py:44-56 | SENSITIVITIES and TIME_CONSTANTS are strictly increasing |
| Dsp52xx.Read | dsp52XXbase.py:76-78 | `read` leaves no NUL, returns a NUL-free reply unchanged, and keeps every other character's count |
| Dsp52xx.ReadPieces | dsp52XXbase.py:78 | NUL stripping works piece by piece: reading a concatenation reads each part |
| Dsp52xx.ReadIdempotent | dsp52XXbase.py:76-78 | reading twice is reading once |
| Dsp52xx.TruncatedIndex | dsp52XXbase.py:281 | `truncated_discrete_set` picks the first entry not below the target, or the last entry when all are below |
| Dsp52xx.TruncatedChoice | dsp52XXbase.py:281 | on an increasing ladder that is the smallest entry covering the target, or the target exceeds every entry |
| Dsp52xx.TruncatedEntry | dsp52XXbase.py:281-282 | a ladder entry is truncated to its own index |
| Dsp52xx.TruncatedIdempotent | dsp52XXbase.py:281-282 | truncating the chosen entry again gives the same index |
| Dsp52xx.SensitivityCommand | dsp52XXbase.py:272-285 | the setter writes a valid SEN index: the smallest range covering the value, or 15 (3 V) when none does |
| Dsp52xx.SensitivityReading | dsp52XXbase.py:263-270 | a non-integer reply raises ValueError; index i reads SENSITIVITIES[i], a negative one counting from the end; an index outside -16..15 raises IndexError |
| Dsp52xx.SensitivityRoundTrip | dsp52XXbase.py:263-285 | reading back the index the setter wrote gives the range it chose |
| Dsp52xx.SensitivitySetAfterGet | dsp52XXbase.py:272-285 | setting a reported range writes the index it came from, so setting twice changes nothing |
| Dsp52xx.SensitivityOfIndex | dsp52XXbase.py:269-270 | every index 0..15 reads as its ladder entry, and that entry is positive |
| Dsp52xx.TimeConstantCommand | dsp52XXbase.py:104-114 | the TC setter writes the smallest time constant covering the request, or 3000 s when none does |
| Dsp52xx.Band | dsp52XXbase.py:194-216 | the band is the first decade whose upper edge (2, 20, 200, 2000, 20000 Hz) is not below f, else 5 |
| Dsp52xx.Scale | dsp52XXbase.py:194-216 | every band's mantissa scale is positive |
| Dsp52xx.FrequencyOf | dsp52XXbase.py:174-185 | the decoded frequency times its band's scale is the mantissa; a band number outside 0..4 is decoded as band 5 |
| Dsp52xx.FrequencyCommand | dsp52XXbase.py:187-217 | values outside [0.5, 120000] Hz raise before anything is written; others are written in their band with an accepted mantissa |
| Dsp52xx.MantissaInBand | dsp52XXbase.py:164-167 | the rounded mantissa lies in 5000-20000 in band 0, 2000-20000 in bands 1-4, and 2000-12000 in band 5 |
| Dsp52xx.FrequencyOfScale | dsp52XXbase.py:169-185 | the getter's decoding undoes the band scaling of a mantissa |
| Dsp52xx.FrequencyResolution | dsp52XXbase.py:194-217 | the written pair is within half a mantissa step of the requested frequency |
| Dsp52xx.RoundedResolution | dsp52XXbase.py:194-217 | the rounded mantissa of a frequency decodes to within half a mantissa step of it |
| Dsp52xx.FrequencyRoundTrip | dsp52XXbase.py:169-217 | a frequency on its band's grid is read back exactly after being set |
| Dsp52xx.FrequencyReading | dsp52XXbase.py:169-185 | a reply without a comma raises IndexError; a reply "m,b" of two integers decodes to the frequency of m in band b |
| Dsp52xx.FrequencyReplyRoundTrip | dsp52XXbase.py:169-185 | the reply "mantissa,band" decodes to that pair's frequency |
| Dsp52xx.AmplitudeCommand | dsp52XXbase.py:135-145 | amplitudes outside [0, 5] V raise; up to 2 V the code is within 0.5 mV of the request; 2-3.5 V writes 2000 and 3.5-5 V writes 5000 |
| Dsp52xx.AmplitudeReading | dsp52XXbase.py:126-133 | the getter succeeds exactly when the NUL-stripped reply is a float, and then returns it divided by 1000; an integer reply gives its millivolts in volts |
| Dsp52xx.AmplitudeRoundTrip | dsp52XXbase.py:126-145 | whole millivolts up to 2 V read back exactly; 2-3.5 V reads back as 2 V, and above 3.5 V as 5 V |
| Dsp52xx.SensitivitiesPositive | dsp52XXbase.py:44-50 | every full-scale range is positive |
| Dsp52xx.ScaledReading | dsp52XXbase.py:287-300 | `x`/`y`/`mag` succeed exactly when the reply and the SEN reply both parse; a bad reply raises ValueError, and a bad SEN reply raises the getter's own error |
| Dsp52xx.ScaledFraction | dsp52XXbase.py:287-322 | a reading is the same fraction of the reported range as the raw value is of 10000: full scale reads the whole range, zero reads zero, and the sign is kept |
| Dsp52xx.ScaleWithin | dsp52XXbase.py:292 | a raw value within full scale scales to a voltage within the range |
| Dsp52xx.ScaledWithinRange | dsp52XXbase.py:287-322 | a reading within full scale never exceeds the sensitivity the instrument reports |
| Dsp52xx.RemoveCrLf | dsp52XXbase.py:306 | `replace('\r\n', '')` never lengthens the reply and leaves a reply without CR unchanged |
| Dsp52xx.RemoveCrLfAfter | dsp52XXbase.py:306 | a CR-free prefix passes through the removal untouched |
| Dsp52xx.XyReading | dsp52XXbase.py:303-315 | a successful `xy` reading has exactly two components |
| Dsp52xx.XyChannels | dsp52XXbase.py:309-315 | both halves of the reply are parsed and scaled, giving two values |
| Dsp52xx.XyPieces | dsp52XXbase.py:306-310 | "x,y\r\n" splits at its first comma into x and y |
| Dsp52xx.XyAgreesWithChannels | dsp52XXbase.py:287-315 | `xy` succeeds exactly when the separate readings of x and y do, and then equals them |
| Dsp72xx.Adc3TimeCommand | dsp72XX_ar.py:149-153 | the setter writes the time truncated toward zero to whole ms, unchecked; it then pauses 1.2 times the time, and that pause raises ValueError exactly when the time is negative |
| Dsp72xx.Adc3TimeReading | dsp72XX_ar.py:143-147 | the getter takes the text before the first comma (or the whole reply); it fails exactly when that is not a number, and otherwise returns it in seconds |
| Dsp72xx.Adc3TimeOfReply | dsp72XX_ar.py:143-147 | a reply starting with an integer ms value and a comma reads as that many thousandths of a second, whatever follows |
| Dsp72xx.Adc3TimeRoundTrip | dsp72XX_ar.py:143-153 | a whole number of milliseconds reads back exactly after being set |
| Dsp72xx.Adc3TimeSetAfterGet | dsp72XX_ar.py:143-153 | setting the time the instrument reports writes the same ms value |
| AutoRange.PoliciesValid | test_GUImpv.py:220-224 | the three copies' trigger bands lie within the loop band, and the methods trigger exactly outside it |
| AutoRange.ChainSteps | dsp52XX_ar.py:105-109 | each SEN write is made from an out-of-band reading and is +1 above 9000 and -1 below 1000 |
| AutoRange.Step | dsp52XX_ar.py:105-109 | one iteration moves SEN by exactly one: up when \|MAG\| > 9000, down otherwise |
| AutoRange.IterationEvents | dsp52XX_ar.py:102-110 | an iteration ends with its SEN write and a 1 s pause; it forces the fast TC exactly when TC is handled inside the loop, with the 0.1 s pause only where the method has one |
| AutoRange.Loop | dsp52XX_ar.py:100-110 | the loop stops only in band, or after fuel steps; with TC read inside, the TC to restore is the one read on the last pass |
| AutoRange.LoopChain | dsp52XX_ar.py:100-110 | the loop's writes form a step chain from the starting index |
| AutoRange.LoopTrace | dsp52XX_ar.py:100-110 | the loop's trace is one iteration's events per SEN write |
| AutoRange.LoopLast | dsp52XX_ar.py:105-109 | the loop ends on the index it wrote last |
| AutoRange.AutoRange | dsp52XX_ar.py:99-112 | the trace is exactly TC forcing, iterations, TC restore and settle; the check finishes only in band; the TC restored is the one read last |
| AutoRange.IterationProject | dsp52XX_ar.py:102-110 | one iteration writes its SEN once, forces the fast TC when TC is read inside, and sleeps the iteration's pauses |
| AutoRange.IterationsProject | dsp52XX_ar.py:100-110 | across iterations the SEN writes are the recorded writes, the fast TC is written once per pass, and pauses repeat per pass |
| AutoRange.TriggeredTrace | dsp52XX_ar.py:99-112 | a triggered check's SEN writes are the loop's writes; a finished one writes the fast TC per pass (once for the inline copy) then the restore, and sleeps per pass then the settle time |
| AutoRange.NoWriteInBand | dsp52XX_ar.py:99 | with the magnitude in [1000, 9000] nothing is written and nothing sleeps |
| AutoRange.ChainMovesByOne | dsp52XX_ar.py:106-109 | every write of a chain is one above or one below the index before it |
| AutoRange.SenMovesByOne | dsp72XX_ar.py:123-127 | the SEN commands the check sends are its writes, each ±1 from the previous index |
| AutoRange.TcAndPauses | dsp52XX_ar.py:102-112 | a finished check writes the fast TC per pass (once before the loop for the inline copy) and then the restore; it sleeps per pass and then the settle time |
| AutoRange.TcRestoredOnlyAfterOneIteration | dsp72XX_ar.py:121-130 | the methods restore the entry TC exactly when the loop ran once, or when it already was the fast code |
| StreamRange.OutOfBand | dsp52XX_ar.py:99-100 | the test reads MAG once when it is over range and twice otherwise, and is out of band exactly when the first read is over 9000 or the second under the lower bound |
| StreamRange.PassOf | dsp52XX_ar.py:102-110 | a pass writes SEN+1 when its first read is over range, SEN-1 when the second is under range, and no SEN at all when both are back in band |
| StreamRange.LoopOf | dsp52XX_ar.py:100-110 | the loop ends at once exactly when its first test reads in band; a pass assigns `current_tc` and forces the fast TC when TC is read inside |
| StreamRange.Check | dsp72XX_ar.py:118-130 | a call fails, with UnboundLocalError, exactly when a method's first test reads out of band and its `while` test then reads in band; a finished call ends on the TC restore and the settle pause |
| StreamRange.ProfileAgrees | dsp52XX_ar.py:99-112 | when every read depends on the SEN index alone, a call never fails and does exactly what AutoRange.AutoRange does |
| StreamRange.UnboundAfterSettling | dsp52XX_ar.py:99-111 | a read over range at the first test and in band at the `while` test makes the restore fail |
| StreamRange.DriversUnbound | dsp72XX_ar.py:118-129 | both driver methods fail on a signal that reads 9500 once and 5000 after |
| StreamRange.CorrectedNeverUnbound | GUI_lockin_spectrum.py:167-180 | reading TC once before the loop, as the inline copy does, never fails on any sequence of reads |
| StreamRange.PassWithoutStep | dsp52XX_ar.py:100-112 | on a signal that reads 9500 twice and 5000 after, the 52XX method forces TC, waits, writes no SEN, and restores TC |
| AutoRange.TcReadOnceRestored | GUI_lockin_spectrum.py:167-180 | any policy that reads TC once before the loop forces the fast TC first and restores the entry TC exactly, after any number of iterations |
| AutoRange.CorrectedMethodsRestoreTc | dsp52XX_ar.py:99-112 | both methods, with TC read once before the loop, restore the TC they found |
| AutoRange.InlineRestoresTc | GUI_lockin_spectrum.py:167-180 | the inline copy reads TC once and restores it exactly |
| AutoRange.InlineToggle | test_GUImpv.py:220-233 | for 1000 ≤ \|MAG\| < 2000 the inline copy writes TC 4, restores TC and waits 10 s, without touching SEN |
| AutoRange.UpwardsFrom | dsp52XX_ar.py:106-109 | on an instrument that never overshoots, a chain starting over range climbs one index per write |
| AutoRange.DownwardsFrom | dsp52XX_ar.py:106-109 | on such an instrument, a chain starting under range descends one index per write |
| AutoRange.NoClamping | dsp72XX_ar.py:125-127 | SEN is not bounds-checked: a permanently over-range input drives SEN past 15, one step per pass, without finishing |
| AutoRange.LadderRatio | dsp52XXbase.py:44-50 | adjacent sensitivity ranges differ by at most a factor 10/3 |
| AutoRange.LinearNoOvershoot | dsp52XX_ar.py:106-109 | on a linear instrument a step up from above 9000 reads at least 1000, and a step down from below 1000 reads at most 9000 |
| AutoRange.LinearSettles | dsp52XX_ar.py:106-109 | a linear instrument never overshoots in either direction at any index |
| AutoRange.LinearOneWay | dsp52XX_ar.py:106-109 | on a linear instrument SEN moves in one direction only |
| AutoRange.LoopStep | dsp52XX_ar.py:100-109 | an out-of-band pass writes one step and continues from the new index |
| AutoRange.LoopInBand | dsp52XX_ar.py:100 | from an in-band reading the loop stops at once, with nothing written |
| AutoRange.ConvergesUp | dsp52XX_ar.py:100-109 | if an in-band index lies above a run of over-range indices, the loop reaches it in exactly that many steps |
| AutoRange.ConvergesDown | dsp52XX_ar.py:100-109 | if an in-band index lies below a run of under-range indices, the loop reaches it in exactly that many steps |
| Acquisition.Quantities | GUI_lockin_spectrum.py:136-143 | a lock-in contributes X and Y; in the spectrum window a non-52XX also contributes frequency and amplitude; there are no repeats |
| Acquisition.Labels | test_GUImpv.py:182-187 | one "Lock-In i - name" column per quantity, in order |
| Acquisition.Models | test_GUImpv.py:122-125 | the model list follows the tree's rows |
| Acquisition.LockInColumnsCons | test_GUImpv.py:168-187 | the first lock-in's columns come first, then the rest numbered from the next position |
| Acquisition.DataColumns | test_GUImpv.py:127-187 | the columns start with the two elapsed-time columns, then the PPMS columns when a PPMS port is given |
| Acquisition.YAxes | test_GUImpv.py:127-174 | `y_axes_labels` is `data_columns` without its first element |
| Acquisition.QuantityOfName | test_GUImpv.py:183-187 | each quantity's printed name reads back as that quantity |
| Acquisition.LabelRoundTrip | test_GUImpv.py:183-187 | a lock-in column name gives back the lock-in's position and quantity |
| Acquisition.LabelInjective | test_GUImpv.py:183-187 | two lock-in columns with the same name belong to the same lock-in and quantity |
| Acquisition.LockInShape | test_GUImpv.py:168-187 | every lock-in column names a lock-in in the range its list covers |
| Acquisition.LockInDistinct | test_GUImpv.py:168-187 | no lock-in column is repeated |
| Acquisition.FixedColumns | test_GUImpv.py:127-156 | the elapsed-time and PPMS columns are distinct and none is a lock-in column |
| Acquisition.FixedNotLockIn | test_GUImpv.py:127-187 | the fixed columns and the lock-in columns do not overlap |
| Acquisition.ColumnsDistinct | test_GUImpv.py:127-187 | no two data columns share a name |
| Acquisition.LockInNotPpms | GUI_lockin_spectrum.py:112-143 | no lock-in column is a PPMS column |
| Acquisition.FixedNotPpms | GUI_lockin_spectrum.py:112-113 | without PPMS the fixed columns hold no PPMS column |
| Acquisition.PpmsColumnsOnlyWithPort | test_GUImpv.py:134-156 | without a PPMS port, or in the spectrum window, no data column is a PPMS column |
| Acquisition.LockInColumnsAppend | test_GUImpv.py:168-187 | the columns of two runs of lock-ins are each run's columns, numbered on |
| Acquisition.LockInColumnsOne | test_GUImpv.py:182-187 | a single lock-in contributes exactly its quantities' columns |
| Acquisition.LockInBlock | test_GUImpv.py:168-187 | lock-in i owns one contiguous block of columns, between those of the lock-ins before and after it |
| Acquisition.Measures | test_GUImpv.py:242-243 | one read per quantity of the lock-in, in column order |
| Acquisition.LockInCells | test_GUImpv.py:236-243 | one value per quantity of the lock-in, in column order |
| Acquisition.CellKeys | test_GUImpv.py:236-243 | a lock-in's values are stored under exactly its column names |
| Acquisition.LockInTick | test_GUImpv.py:215-243 | a 52XX is range-checked inline, then X and Y are read with a pause after each; others run `auto_range`, then every quantity is read; a finished tick yields the lock-in's values |
| Acquisition.LockInsTick | test_GUImpv.py:215-243 | a finished lock-in loop yields values whose keys are exactly the lock-in columns |
| Acquisition.PpmsCells | test_GUImpv.py:206-209 | the PPMS is read exactly when the window has a PPMS port |
| Acquisition.PpmsReads | test_GUImpv.py:206-209 | one PPMS read per PPMS value, in order |
| Acquisition.AcquireCells | test_GUImpv.py:203-243 | the values of a tick are keyed exactly by the data columns, in order |
| Acquisition.Acquire | test_GUImpv.py:202-244 | each emitted row's keys equal `data_columns`, in order, each holding the value read for it |
| Acquisition.RowOfCells | test_GUImpv.py:203-243 | values under distinct keys fill a dict with one entry each, in order |
| Acquisition.HoursNotBehind | test_GUImpv.py:204-205 | the hours column, read from a later clock, is never behind the seconds column |
| Acquisition.Round3 | test_GUImpv.py:204-205 | `round(x, 3)` is within 0.0005 of x, lands on a whole number of thousandths, and resolves a tie to the even one |
| Acquisition.RangeBeforeRead | GUI_lockin_spectrum.py:186-191 | every lock-in is range-checked before any of its reads |
| Acquisition.Execute | test_GUImpv.py:251-261 | when the stop flag is first seen after `stopAt` pauses, `execute` emits stopAt + 1 rows and ends on a pause; every emitted row is keyed by `data_columns` |
| Acquisition.Ticks | test_GUImpv.py:255-261 | the remaining ticks emit one row each until the stop flag is seen after a pause |
| Acquisition.AddInstrument | test_GUImpv.py:288-292 | `add_instrument` puts the new lock-in at the top of the tree |
| Acquisition.DeleteSelected | test_GUImpv.py:294-297 | deleting removes exactly the selected row, and nothing when none is selected |
| Acquisition.AddAll | GUI_lockin_spectrum.py:236-240 | adding lock-ins one by one grows the tree by their number |
| Acquisition.AddedInReverse | test_GUImpv.py:288-292 | lock-ins added one by one end up in reverse order above the existing ones |
| Acquisition.NumberOfAdded | test_GUImpv.py:288-292 | the k-th of n lock-ins added gets tree position n-1-k |
| Sequencer.AddCommand | PPMSControlWidget.py:287-304 | nothing happens without a value; otherwise the row is appended, or inserted right below the selected row, which stays selected |
| Sequencer.RemoveCommand | PPMSControlWidget.py:307-317 | removes the selected row, or the bottom row when none is selected; other rows keep their order |
| Sequencer.ClearSequence | PPMSControlWidget.py:319-321 | clearing empties the tree |
| Sequencer.RemoveUndoesAppend | PPMSControlWidget.py:287-317 | with no selection, a remove right after an add undoes it |
| Sequencer.RemoveAfterInsertReplaces | PPMSControlWidget.py:287-317 | with a selection, a remove right after an add takes out the selected row, so the new row replaces it |
| Sequencer.IndexOf | PPMSControlWidget.py:486 | `list.index` gives the first position of the element and raises when it is absent |
| Sequencer.ParseRow | PPMSControlWidget.py:486-488 | a row decodes exactly when its label is a command and value and rate are numbers; the index is the label's position |
| Sequencer.CommandLabelsDistinct | PPMSControlWidget.py:28 | the six command labels are distinct |
| Sequencer.CommandIndexOfLabel | PPMSControlWidget.py:486 | each label maps back to its own index |
| Sequencer.WaitNeedsRate | PPMSControlWidget.py:488 | a "Wait minutes" row with an empty rate cannot run, since the rate is parsed for every command |
| Sequencer.Target | PPMSControlWidget.py:392-436 | every command but "Wait minutes" polls a status; the two field commands poll the magnet, the others the temperature |
| Sequencer.Send | PPMSControlWidget.py:392-436 | a command sends one instrument call exactly when it polls a status; the set commands pass the row's value and rate |
| Sequencer.PollUntil | PPMSControlWidget.py:394-399 | polling succeeds exactly on the first matching status before the stop, and otherwise ends on the stop or when statuses run out |
| Sequencer.RunStep | PPMSControlWidget.py:387-436 | `step_finished` becomes true only on the first status matching the command's target; wait sleeps value·60 s unless the stop is already set |
| Sequencer.Commands | PPMSControlWidget.py:486-488 | each row is decoded on its own, into a command of the drop-down |
| Sequencer.RunFrom | PPMSControlWidget.py:475-492 | steps start in list order from row j; after a stop no later step starts; completion leaves the last step finished; a row that fails to decode ends the run with `step_finished` still as the previous row left it |
| Sequencer.RunSequence | PPMSControlWidget.py:460-498 | the run starts steps 0..current_step in order; an empty tree fails at the clean-up; completion leaves the last step finished; a crash on an undecodable row k > 0 leaves `step_finished` true |
| Sequencer.NoBeginInStep | PPMSControlWidget.py:490 | a step never starts another step |
| Sequencer.NoBeginInPolls | PPMSControlWidget.py:394-399 | polling for a status never starts a step |
| Sequencer.StopSequence | PPMSControlWidget.py:500-512 | it reports "aborted after finishing" exactly when the current step is the last and finished; otherwise it marks the current row |
| Sequencer.StopReportDuringRun | PPMSControlWidget.py:500-512 | a stop during a run reports "aborted after finishing" exactly when the run stopped after the last step reached its target |
| Sequencer.StopAfterCompletion | PPMSControlWidget.py:505-507 | a stop after a completed run reports "aborted after finishing" |
| Sequencer.StopAfterUnreadableLastRow | PPMSControlWidget.py:485-507 | a stop after the run crashed on an undecodable last row reports "aborted after finishing", though that row never ran |
| Ppms.FieldToOe | mpvppms.py:55-57 | the set-point is sign(f)·min(\|f\|, 9)·10000 Oe: at most 90000 Oe, sign kept, exactly ×10000 within the limit |
| Ppms.Round2 | mpvppms.py:58 | `round(x, 2)` is within 0.005 of x, lands on a whole number of hundredths, and resolves a tie to the even one |
| Ppms.RateToOePerSecond | mpvppms.py:56-58 | the rate magnitude is clamped to 1 T/min, converted to Oe/s and rounded to 2 d.p., with the sign kept |
| Ppms.RoundedRateBounds | mpvppms.py:58 | the rounded rate stays within 0..166.67 Oe/s |
| Ppms.FieldFromOe | mpvppms.py:47-51 | the `field` getter's tesla value times 10000 is the oersted reading |
| Ppms.FieldRoundTrip | mpvppms.py:47-57 | a field within ±9 T reads back as set; beyond that it reads back as the limit, with the requested sign |
| Ppms.OeRoundTrip | mpvppms.py:47-57 | setting an in-range field read from the controller sends the same oersted value |
| Ppms.SetField | mpvppms.py:53-73 | a field setter sends a linear approach in its own mode, a set-point the `field` getter reads back as the field within ±9 T, and a rate of at most 166.67 Oe/s in the requested direction |
| Ppms.SetFieldDriven | mpvppms.py:53-62 | `set_field_driven` sends the clamped set-point and rate in driven mode with a linear approach |
| Ppms.SetFieldPersistent | mpvppms.py:64-73 | `set_field_persistent` sends the same set-point and rate in persistent mode with a linear approach |
| Ppms.SettersDifferOnlyInMode | mpvppms.py:53-73 | the driven and persistent setters send the same set-point and rate and differ only in magnet mode |
| Ppms.ChamberCall | mpvppms.py:80-100 | `set_chamber` sends a mode exactly for 0..5 and nothing otherwise |
| Ppms.ChamberNumber | mpvppms.py:81-88 | every chamber mode has a documented number in 0..5 |
| Ppms.ChamberTable | mpvppms.py:80-100 | the table is a bijection between 0..5 and seal, purge_seal, vent_seal, pump_continuous, vent_continuous, high_vacuum |
| Ppms.GettersProject | mpvppms.py:34-51 | the value getters and `temperature_status`/`magnet_status` (137-147) are the two halves of one `get_temperature`/`get_field` reply |
| Ppms.Field | mpvppms.py:47-51 | the `field` getter times 10000 is the oersted value of the `get_field` reply |
| Spectrum.Voltage | PlotSpectrumWidget.py:242-249 | every force has a voltage the calibration maps to it |
| Spectrum.CalibrationIncreasing | PlotSpectrumWidget.py:242-249 | `load_cell_calibration` is strictly increasing |
| Spectrum.VoltageOfCalibrated | PlotSpectrumWidget.py:242-249 | the calibration is one-to-one: its inverse recovers the voltage |
| Spectrum.CalibrationFixedPoint | PlotSpectrumWidget.py:301 | the calibration leaves a value unchanged exactly at its one fixed point, so re-reading a stored, already calibrated force moves it |
| Spectrum.FitIndices | PlotSpectrumWidget.py:33 | the fit window keeps exactly the indices with 690 < λ < peakmax, in increasing order |
| Spectrum.ForceText | PlotSpectrumWidget.py:531 | `force_str[4:-3]` is the label without its first four and last three characters, and empty for a label of at most seven |
| Spectrum.ForceLabel | PlotSpectrumWidget.py:292 | the label frame "F = " ... " kN" adds seven characters |
| Spectrum.ForceTextOfLabel | PlotSpectrumWidget.py:531 | stripping the label frame gives back the force text |
| Spectrum.Float | PlotSpectrumWidget.py:288 | `float()` succeeds exactly on decimal text, raising ValueError otherwise; on integer text it gives the integer |
| Spectrum.ForcePart | PlotSpectrumWidget.py:531-536 | a force with a point has it replaced by 'p' and keeps every other character; a force without one is written as `str(int(float(...)))` |
| Spectrum.BuildName | PlotSpectrumWidget.py:527-536 | the name is built exactly when temperature and force parse, and it ends in "K.txt" |
| Spectrum.TemperatureTextAsWritten | PlotSpectrumWidget.py:268-274 | as written, a temperature segment with a 'p' raises; without one it is taken as is |
| Spectrum.TemperatureText | PlotSpectrumWidget.py:268-274 | the corrected reading always succeeds and leaves a segment without 'p' unchanged |
| Spectrum.TemperaturePoint | PlotSpectrumWidget.py:270-274 | the corrected reading turns the first 'p' of the temperature into the decimal point |
| Spectrum.PointedTemperatureFails | PlotSpectrumWidget.py:274 | as written, the temperature "1p5" fails on the unbound `ind_p` |
| Spectrum.PointDecimalAsWritten | PlotSpectrumWidget.py:286-290 | without a 'p' the as-written reading is plain `float` |
| Spectrum.AddFraction | PlotSpectrumWidget.py:290 | the sum fails exactly when either part fails, with the first failure; otherwise it is whole + frac/10^digits |
| Spectrum.PointDecimal | PlotSpectrumWidget.py:296-300 | without a 'p' the corrected reading is plain `float` |
| Spectrum.FloatOfDigits | PlotSpectrumWidget.py:288 | `float` of a digit string is its integer value |
| Spectrum.FloatOfNegative | PlotSpectrumWidget.py:288 | `float("-" + u)` is minus `float(u)` |
| Spectrum.FloatOfNegativePointed | PlotSpectrumWidget.py:297 | `float("-w.f")` is -(w + f/10^len(f)) |
| Spectrum.PointDecimalOfSplit | PlotSpectrumWidget.py:296-300 | the corrected reading of "apb" is `float("a.b")` |
| Spectrum.AsWrittenOfSplit | PlotSpectrumWidget.py:290 | the as-written reading of "apb" is float(a) + float(b)/10^len(b) |
| Spectrum.PointDecimalAgreesUnsigned | PlotSpectrumWidget.py:286-300 | on unsigned decimals both readings give w + f/10^len(f) |
| Spectrum.AsWrittenUnsigned | PlotSpectrumWidget.py:286-290 | read as written, an unsigned "wpf" is w + f/10^len(f) |
| Spectrum.PointDecimalOfPart | PlotSpectrumWidget.py:532-536 | the force part written into a name reads back as the force text (truncated when it had no point) |
| Spectrum.PointedPart | PlotSpectrumWidget.py:536 | a force text with a point reads back as `float` of the text |
| Spectrum.WholePart | PlotSpectrumWidget.py:534 | a force text without a point reads back as its integer part |
| Spectrum.FloatOfPointed | PlotSpectrumWidget.py:288 | `float("w.f")` is w + f/10^len(f) |
| Spectrum.NegativeAsWritten | PlotSpectrumWidget.py:290 | as written, "-wpf" reads as -w + f/10^len(f) |
| Spectrum.NegativeCorrected | PlotSpectrumWidget.py:296-300 | corrected, "-wpf" reads as -(w + f/10^len(f)) |
| Spectrum.NegativePointDecimal | PlotSpectrumWidget.py:286-290 | on a negative force with a non-zero fraction, the as-written reading is larger than the intended one |
| Spectrum.TemperatureField | PlotSpectrumWidget.py:267-269 | reading char -5 of the last segment raises exactly when the segment is shorter than 5; if it is 'K' the temperature is the segment less its last five characters, otherwise there is none |
| Spectrum.ForceField | PlotSpectrumWidget.py:276-282 | the force segment lies within the name, and is empty when the name has one separator |
| Spectrum.ForceDigits | PlotSpectrumWidget.py:283-295 | a force segment without 'N' is kept; one with 'N' loses its last two characters |
| Spectrum.NameSegments | PlotSpectrumWidget.py:263-282 | splitting a name fails only with IndexError, and always on a name without '_' |
| Spectrum.SegmentsAt | PlotSpectrumWidget.py:263-282 | given the separators, splitting fails exactly when there is none or the last segment is shorter than five characters |
| Spectrum.LoadName | PlotSpectrumWidget.py:263-301 | corrected: a name without '_' raises IndexError; a loaded name has readable segments, and a "kN" force is returned as read, not calibrated again |
| Spectrum.LoadNameAsWritten | PlotSpectrumWidget.py:263-301 | as written: a name without '_' raises IndexError, and a temperature segment with a 'p' raises UnboundLocalError |
| Spectrum.TemperatureAsWritten | PlotSpectrumWidget.py:268-274 | as written, no temperature stays none, one without 'p' is kept, and one with 'p' raises |
| Spectrum.SeparatorsOfName | PlotSpectrumWidget.py:265 | the last two separators of `p_q_r` are the two around q |
| Spectrum.TemperatureOfSegment | PlotSpectrumWidget.py:268-272 | a last segment ending in "K.txt" gives the text before it as temperature |
| Spectrum.ForceOfSegment | PlotSpectrumWidget.py:278-282 | when the second-last segment is not "up", it is the force segment |
| Spectrum.SegmentsOfName | PlotSpectrumWidget.py:263-296 | `p_q_r` with r ending "K.txt" and q ending "kN" splits into the temperature r less "K.txt" and the force q less "kN" |
| Spectrum.LoadOfParts | PlotSpectrumWidget.py:263-301 | corrected: a name assembled from a force part and a temperature reads them back, with the force exactly as the part holds it |
| Spectrum.LoadOfPartsAsWritten | PlotSpectrumWidget.py:263-301 | as written, the same name reads the force part calibrated once more |
| Spectrum.LoadBuilt | PlotSpectrumWidget.py:527-536 | with a numeric temperature and a decimal force text, the name is built, and the corrected parsing recovers str(round(T)) and the force on the label (truncated when it had no point) |
| Spectrum.PointedForcePart | PlotSpectrumWidget.py:532-536 | "w.f" goes into a name as "wpf", which holds no separator |
| Spectrum.LoadBuiltAsWritten | PlotSpectrumWidget.py:263-301 | as written, a name built from the label "F = w.f kN" loads the calibration of w.f rather than w.f |

## Left out

- Qt layout, widget construction, brushes and signal wiring, and
  InstrumentControlWidget.py as a whole. It only dispatches on the model
  string to instrument properties.
- Threads and timers: the QThreadPool worker that runs `run_sequence` and the
  QTimer status refresh. A stop is a sequential input (the index of the
  first `should_stop` read that sees it), with `stop_sequence` taken on the
  flags at that point.
- `abort_sequence`, `shutdown_potops` and `shutdown_continuous` are not
  defined by `mpvPPMS` (the first is commented out), so they are abstract
  events. `runner.kill()` is not modelled.
- Wall-clock time: sleeps are trace events carrying their duration, and the
  clock is a parameter.
- Binary floating point: numbers are exact reals. `float()` accepts plain
  decimals with an optional sign and surrounding spaces; exponents, `inf`
  and `nan` are not modelled.
- Numbers.Round: ties are resolved to even on exact reals. Binary
  representation effects on `round` are not modelled.
- The '{:.2f}' formatting of the force label is not modelled. The label text
  is an input of `BuildName`.
- Dsp72xx.Adc3TimeCommand: the command is kept as the integer. `"%g"`
  formatting, which prints integers of seven or more digits in exponent
  form, is not modelled.
- The Gaussian fit, the ruby calibrations, boxcar smoothing, `np.loadtxt`
  and spectrum file writing are numeric or I/O work outside this model.
- The adc3 integral, and the PPMS bridge getters and `set_bridge`. The bridge
  getters use an undefined `client_object`.
- The SR830 driver and the `dsp_base_ar` base class are not part of this
  model. The SR830's own `auto_range` is an opaque action.
- Fuel bounds: AutoRange.Loop, StreamRange.LoopOf, Sequencer.PollUntil (the finite status list)
  and Acquisition.Ticks (the stop index) bound loops that can run forever.
  A run that runs out of fuel is reported as unfinished.
- Spectrum.LoadName reads both the temperature and the force with the
  corrected 'p' readings and does not calibrate a "kN" force (see Findings).
  Spectrum.LoadNameAsWritten is the code as written.
- AutoRange.AutoRange, AutoRange.Loop and AutoRange.Step read MAG from a
  profile of the SEN index, so every read in a pass agrees. The source reads
  MAG afresh up to four times per pass (dsp52XX_ar.py:99-108,
  dsp72XX_ar.py:118-126). Only StreamRange.Check, which takes any sequence
  of reads, shows the two consequences. First, a read over range at the
  first test followed by an in-band `while` test leaves `current_tc` unbound
  (see Findings). Second, a pass whose direction reads are back in band
  writes no SEN, so "moves SEN by exactly one" holds only for profile
  readings. StreamRange.ProfileAgrees shows the two models agree on profile
  readings.
- Spectrum.PointDecimalAsWritten and Spectrum.AddFraction: `np.power(10,
  len(s_f)-1-ind_p)` (PlotSpectrumWidget.py:290, 300) is a fixed-width numpy
  integer, int64, or int32 under numpy 1.x on Windows. It wraps silently from
  an exponent of 19 (10 for int32), so a fraction that long reads with a wrong
  or negative scale. Numbers.Shift is exact and does not model that wrap.
- Spectrum.PointDecimal: the corrected reading is `float` of the text with
  the 'p' made a point, so it differs from the as-written reading beyond the
  two Findings. "p5" and "1p" raise as written but read as 0.5 and 1.0
  corrected; "1p-5" reads as 0.95 as written but fails corrected.
  Spectrum.PointDecimalAsWritten keeps the as-written behaviour.
- The `sleep(delay)` of 0.1 s in the `x`, `y` and `xy` getters
  (dsp52XXbase.py:291, 299, 311) is not part of the readings; only the
  auto-range and acquisition pauses are trace events.
- `int()` and `float()` also accept underscores between digits and
  non-ASCII Unicode digits and spaces; Text.ParseInt and Text.ParseDecimal
  accept only ASCII digits and the spaces of Text.IsSpace.
- Sequencer.RunSequence: the GUI colouring of rows is not modelled. The
  crash on an empty tree is kept as an `EmptySequence` outcome.

## Findings

| source | as written | input that shows it | evidently intended | confidence | as-written member | corrected member |
|---|---|---|---|---|---|---|
| PlotSpectrumWidget.py:286-290 | "apb" is read as float(a) + float(b)/10^len(b), also when a is negative (same at 296-300) | force segment "-1p50kN" reads as -1 + 0.5 = -0.5 | -1.50, the value the name was written from | not executed | Spectrum.NegativeAsWritten | Spectrum.NegativeCorrected |
| PlotSpectrumWidget.py:274 | the temperature branch with a 'p' slices with `ind_p`, which is not yet assigned | "x_1kN_1p5K.txt" raises UnboundLocalError | `ind_p_T`, giving "1.5" | not executed | Spectrum.PointedTemperatureFails | Spectrum.TemperaturePoint |
| PlotSpectrumWidget.py:301 | a force read from a "kN" segment is passed through `load_cell_calibration` again | a name built from the label "F = 1.50 kN" loads 0.11 + 2.32 · 1.5 ≈ 3.58 kN | 1.50 kN, the force the name was written from | not executed | Spectrum.LoadBuiltAsWritten | Spectrum.LoadBuilt |
| dsp52XX_ar.py:99-111 | `current_tc` is assigned only inside the `while`, yet restored after it; the `if` and the `while` test read MAG separately (same at dsp72XX_ar.py:118-129) | MAG reads 9500, then 5000 from then on: the `if` is taken, the `while` is not, and line 111 raises UnboundLocalError | the TC read before the loop, as the inline copy does | not executed | StreamRange.DriversUnbound | StreamRange.CorrectedNeverUnbound |
| dsp52XX_ar.py:102 | the TC to restore is re-read on every pass, after the previous pass forced the fast TC (same at dsp72XX_ar.py:119-122) | entry TC 7 and two passes restore TC 4 | the TC in force before the check, as the inline copy does | not executed | AutoRange.TcRestoredOnlyAfterOneIteration | AutoRange.CorrectedMethodsRestoreTc |
