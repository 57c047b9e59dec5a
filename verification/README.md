# Local extrema detection and wrap-around detection, in Dafny

This project models the signal-processing core of a small C# library:

- `LocalExtremaDetection.FindLocalExtrema` finds the local maxima and minima of a
  data series in one left-to-right pass. It has two revisions:
  - v1.0.1, `SignalProcessing/LocalExtrema.cs`, is module `LocalExtrema`. Alternation
    is optional. The threshold test uses the minimum or maximum of two clamped ranges.
  - v1.0.0, `src/LocalExtrema.cs`, is module `LocalExtremaV100`. Alternation is always
    on. The threshold test uses the two end samples of the threshold window. A window
    that runs off the data rejects the candidate.
- The detector's configuration setters, which both revisions share word for word. They
  live in module `ExtremaCommon`, together with the search window and the state the pass
  carries.
- `WrapAroundDetector` from `SignalProcessing/WrapAroundDetection.cs`, in module
  `WrapAround`. It is an online classifier that reports when a quantity wraps from its
  maximum back to 0, or the other way.

Module `Linq` gives `Skip`, `Take`, `Max` and `Min` the .NET edge cases the detector
depends on. A non-positive count skips or takes nothing. A count past the end stops at
the end.

Module `Scenarios` works through one example by proof.

## How the model is built

Samples are `real`s and indices are `nat`s.

The detector object is an immutable `Detector` value: its configuration plus the two
result lists. A setter that throws `InvalidDataException` returns the detector unchanged,
together with `InvalidData(message)`.

`FindLocalExtrema` is the fold `Pass(body, n)` over the indices `0 .. n-1`:

- The state is `lastFeature`, `lastFeatureIndex` and the two lists.
- The body is the revision's per-index `Decide`.
- `PassRecordsDecisions` shows that after the pass, each index is in the list its
  decision names.
- Each decision sees the history it had during the pass. That history is the kind and
  index of the latest recorded extremum below the index. It is read back off the final
  lists by `LastKindBefore` and `Anchor`.

Each revision's `Characterisation` lemma turns this into an if-and-only-if. Index `i` is
recorded as a maximum exactly when all of these hold:

- `data[i]` is the largest sample of its search window;
- with thresholding on, `i` clears the threshold margins;
- the alternation gate lets it through.

The same holds for minima, with the branch order of the code.

### The window follows the code

The search window is `dataList.Skip(left).Take(right - left + 1)`, and `Take` counts
from the unclamped `left`. So in fixed mode with `i < r` the window is
`[0, min(2r + 1, N))`, not `[0, i + r]` (`FixedWindowNearStart`).

This widening only matters near the start. Take `[0,1,0,0,5]` with search radius 2 and
fixed windows:

- The window of index 1 is the whole sequence, not `[0, 3]`, so the 5 at index 4 keeps
  index 1 from being a maximum.
- Neither revision records index 1, although no sample within distance 2 of it is
  larger (`Scenarios.SpikeSkippedByLatest`, `Scenarios.SpikeSkippedByFirst`).

Separately, the window is clipped at both ends of the data. Without thresholding this
can make the first or last sample an extremum. Take the ramp
`[0,1,2,3,2,1,0,-1,-2,-1,0,1,2]` with search radius 2 and no thresholding:

- The code records maxima `[3, 12]` and minima `[0, 8]`, not only the interior turning
  points 3 and 8.
- The clipping alone causes this, and the widening near the start changes nothing here.
- `Scenarios.RampWithoutThreshold` proves this for a fresh detector configured through
  the setters.

### The threshold test follows the code

Neither revision scans outwards from the candidate sample by sample.

- v1.0.1 compares `data[i]` with `Min()` or `Max()` of the ranges `[left, i)` and
  `[i, right)`, after clamping `left` and `right` to the data. It rejects the candidate
  when either range is empty.
- v1.0.0 compares `data[i]` with just `data[left]` and `data[right]`.

## Model

| member | source | states |
|---|---|---|
| Linq.Skip | SignalProcessing/LocalExtrema.cs:253 | `Skip(k)` drops the first `k` elements: none for `k <= 0`, all of them when `k` reaches the length; element `j` of the result is element `k + j` of the input (with `k` clamped) |
| Linq.Take | SignalProcessing/LocalExtrema.cs:257 | `Take(k)` keeps the first `k` elements unchanged: none for `k <= 0`, all of them when `k` reaches the length |
| Linq.SkipTakeSlice | SignalProcessing/LocalExtrema.cs:253-257 | `Skip(k)` then `Take(m)` is always one contiguous slice of the input, starting where `Skip` stopped |
| Linq.Max | SignalProcessing/LocalExtrema.cs:260 | `Max()` of a non-empty sequence bounds every element from above and is one of the elements |
| Linq.Min | SignalProcessing/LocalExtrema.cs:296 | `Min()` of a non-empty sequence bounds every element from below and is one of the elements |
| Linq.MinAtMost | SignalProcessing/LocalExtrema.cs:285 | the `Min()` of a non-empty range is at most `x` exactly when some sample of the range is |
| Linq.MaxAtLeast | SignalProcessing/LocalExtrema.cs:322 | the `Max()` of a non-empty range is at least `x` exactly when some sample of the range is |
| ExtremaCommon.NewDetector | SignalProcessing/LocalExtrema.cs:57-64 | a fresh detector has both radii 5, thresholding on at 20, fixed-width windows (the enum default, never set), alternation off, and empty lists |
| ExtremaCommon.SetSearchWindowRadius | SignalProcessing/LocalExtrema.cs:118-125 | the setter fails with `InvalidData` exactly when the radius is `<= 0`, and then leaves the detector unchanged; otherwise it stores the radius; no other setting and neither list changes |
| ExtremaCommon.SetThresholdWindowRadius | SignalProcessing/LocalExtrema.cs:141-148 | the same for the threshold radius: fails exactly for `<= 0` and changes nothing then; otherwise it stores the radius alone |
| ExtremaCommon.EnableThresholding | SignalProcessing/LocalExtrema.cs:130-133 | stores the flag; every other setting and both lists unchanged |
| ExtremaCommon.SetThreshold | SignalProcessing/LocalExtrema.cs:154-157 | stores any value, zero and negative included; nothing else changes |
| ExtremaCommon.EnforceAlternateExtrema | SignalProcessing/LocalExtrema.cs:164-167 | stores the flag; nothing else changes |
| ExtremaCommon.SetWindowingMode | SignalProcessing/LocalExtrema.cs:173-176 | stores the mode; nothing else changes |
| ExtremaCommon.SearchLo | SignalProcessing/LocalExtrema.cs:225-253 | the window starts at `max(i - r, 0)` in fixed mode and at the last feature's index in dynamic mode, never right of `i` |
| ExtremaCommon.SearchHi | SignalProcessing/LocalExtrema.cs:253-257 | the window ends past `i` and inside the data: at `min(lo + 2r + 1, N)` in fixed mode, and at `min(i + r + 1, N)` in dynamic mode |
| ExtremaCommon.SearchWindow | SignalProcessing/LocalExtrema.cs:250-257 | the `Skip`/`Take` window is exactly the slice `[SearchLo, SearchHi)` of the data, so it is never empty and holds `i` |
| ExtremaCommon.FixedWindowNearStart | SignalProcessing/LocalExtrema.cs:229-257 | in fixed mode, for `i < r`, the window is `[0, min(2r + 1, N))` rather than `[0, i + r]` |
| ExtremaCommon.WindowTests | SignalProcessing/LocalExtrema.cs:260-296 | `current == range.Max()` holds exactly when no sample of the window exceeds `data[i]`, and likewise for `Min()` |
| ExtremaCommon.Record | SignalProcessing/LocalExtrema.cs:289-331 | a maximum or minimum at `i` is appended to its own list, the other list is left alone, and `i` becomes the last feature; no extremum changes nothing. Appending keeps both lists strictly increasing, in bounds and disjoint, and appending the kind opposite to the last feature keeps the lists alternating |
| ExtremaCommon.Pass | SignalProcessing/LocalExtrema.cs:214-333 | after the loop, both lists are strictly increasing, inside `[0, N)` and disjoint, and together hold at most `N` indices; if the body never repeats the last kind, the merged lists alternate |
| ExtremaCommon.PassRecordsDecisions | SignalProcessing/LocalExtrema.cs:222-333 | every index ends up in exactly the list its loop body chose, given the last kind and last index that were current when it was inspected |
| ExtremaCommon.PassAgrees | SignalProcessing/LocalExtrema.cs:222 | the pass depends on its loop body only through the body's decisions |
| LocalExtrema.ThresholdLo | SignalProcessing/LocalExtrema.cs:269-270 | the left threshold end is `max(i - tr, 0)` in fixed mode and the last feature's index in dynamic mode, never right of `i` |
| LocalExtrema.ThresholdHi | SignalProcessing/LocalExtrema.cs:273-274 | the right threshold end is `min(i + tr, N-1)` in both modes, so it lies in `[i, N-1]` and equals `i` exactly at the last index |
| LocalExtrema.MaxThresholdMeaning | SignalProcessing/LocalExtrema.cs:278-286 | the maximum branch's threshold test passes exactly when both ranges `[left, i)` and `[i, right)` hold a sample at least `thresholdValue` below `data[i]` |
| LocalExtrema.MinThresholdMeaning | SignalProcessing/LocalExtrema.cs:315-323 | the minimum branch's threshold test passes exactly when both ranges hold a sample at least `thresholdValue` above `data[i]` |
| LocalExtrema.Decide | SignalProcessing/LocalExtrema.cs:259-332 | index `i` is taken as a maximum exactly when it is the window's largest sample, clears the margins (with thresholding), and is not a second maximum in a row (with alternation). It is taken as a minimum exactly when it is the smallest sample, NOT the largest (else-if), clears the margins, and is not a second minimum in a row |
| LocalExtrema.FindLocalExtrema | SignalProcessing/LocalExtrema.cs:203-337 | keeps the configuration; the stored lists are strictly increasing, inside `[0, N)` and disjoint; the return value is their combined length; with alternation enforced the two kinds alternate |
| LocalExtrema.Characterisation | SignalProcessing/LocalExtrema.cs:222-333 | over the whole run, index `i` is in the maxima exactly when `Decide`'s maximum test holds. That test uses the dynamic anchor and the last kind taken from the latest recorded extremum below `i` (0 and none before any). The same holds for the minima |
| LocalExtrema.ThresholdingExcludesEnds | SignalProcessing/LocalExtrema.cs:269-283 | with thresholding on, neither index 0 nor index `N-1` is ever recorded, because one of the two threshold ranges is empty there |
| LocalExtrema.ResultIgnoresPreviousLists | SignalProcessing/LocalExtrema.cs:217-219 | the lists are cleared first, so two detectors with the same configuration find the same extrema whatever lists they held before |
| LocalExtremaV100.Decide | src/LocalExtrema.cs:249-299 | index `i` is taken as a maximum exactly when it is the window's largest sample and the last feature is not a maximum, and, with thresholding, both raw threshold ends lie in the data and both end samples are `thresholdValue` or more below it. A maximum blocked by the last-feature test falls through to the minimum branch. A minimum is never taken right after a minimum, whatever the configuration |
| LocalExtremaV100.FindLocalExtrema | src/LocalExtrema.cs:195-304 | keeps the configuration; the lists are strictly increasing, in bounds and disjoint; the count is their combined length; the two kinds always alternate |
| LocalExtremaV100.Characterisation | src/LocalExtrema.cs:214-300 | over the whole run, index `i` is recorded as a maximum or minimum exactly when `Decide` accepts it, given the last kind and anchor read off the lists |
| LocalExtremaV100.FixedThresholdBand | src/LocalExtrema.cs:219-261 | in fixed mode with thresholding, every recorded index `i` has `tr <= i <= N-1-tr` |
| LocalExtremaV100.DynamicThresholdTail | src/LocalExtrema.cs:226-261 | in dynamic mode with thresholding, every recorded index `i` has `i + tr <= N-1` |
| LocalExtremaV100.DecideIgnoresFlag | src/LocalExtrema.cs:250-275 | the loop body gives the same verdict whatever `enforceAlternatingExtrema` holds |
| LocalExtremaV100.AlternationFlagIgnored | src/LocalExtrema.cs:155-157 | `EnforceAlternateExtrema` has no effect on what this revision finds |
| LocalExtremaV100.ResultIgnoresPreviousLists | src/LocalExtrema.cs:210-211 | the lists are cleared first, so two detectors with the same configuration find the same extrema whatever lists they held before |
| WrapAround.New | SignalProcessing/WrapAroundDetection.cs:85-99 | a fresh detector holds the given maximum, compares its first value with 0, and has `Result` = `None` |
| WrapAround.SetMaxValue | SignalProcessing/WrapAroundDetection.cs:45-55 | the `MaxValue` setter changes the maximum only |
| WrapAround.Classify | SignalProcessing/WrapAroundDetection.cs:117-138 | a reverse wrap is exactly a rise of more than half of `maxValue`; a forward wrap is exactly a fall (or no change) of more than half of `maxValue`; so a rise is never a forward wrap and a fall never a reverse wrap |
| WrapAround.Run | SignalProcessing/WrapAroundDetection.cs:111-144 | after `Run(value)` the remembered value is `value` and `Result` is the returned verdict. A rise is a reverse wrap exactly when `prev + (max - value) < value - prev`, and never a forward wrap. A fall or no change is a forward wrap exactly when `value + (max - prev) < prev - value`, and never a reverse wrap |
| WrapAround.RepeatIsNone | SignalProcessing/WrapAroundDetection.cs:128-137 | repeating the previous value gives `None` whenever `maxValue >= 0` |
| WrapAround.Mirror | SignalProcessing/WrapAroundDetection.cs:117-138 | mapping every value `x` to `maxValue - x` swaps forward and reverse wraps, for any step that changes the value |
| WrapAround.RunAll | SignalProcessing/WrapAroundDetection.cs:140-142 | after a run of calls the detector remembers the last value and holds the last verdict as `Result`, with one verdict per call |
| WrapAround.RunAllComparesNeighbours | SignalProcessing/WrapAroundDetection.cs:111-142 | over a run of calls, each verdict compares a value with the value of the call before it, and the first with the remembered value (0 for a fresh detector) |
| Scenarios.RampWithoutThreshold | SignalProcessing/LocalExtrema.cs:253-260 | a fresh detector set to search radius 2, with thresholding off, finds maxima `[3, 12]`, minima `[0, 8]` and count 4 on the ramp `[0,1,2,3,2,1,0,-1,-2,-1,0,1,2]` |
| Scenarios.SpikeWindow | SignalProcessing/LocalExtrema.cs:229-257 | in `[0,1,0,0,5]` with search radius 2 in fixed mode, no sample within distance 2 of index 1 is larger, yet index 1 is neither the largest nor the smallest sample of the window the code searches |
| Scenarios.SpikeSkippedByLatest | SignalProcessing/LocalExtrema.cs:229-260 | v1.0.1 records index 1 of `[0,1,0,0,5]` as neither kind, for any detector with search radius 2 in fixed mode |
| Scenarios.SpikeSkippedByFirst | src/LocalExtrema.cs:219-250 | v1.0.0 does the same |

The setters of `src/LocalExtrema.cs` (lines 109-167) and its constructor (lines 48-55)
are the same text as in `SignalProcessing/LocalExtrema.cs`. The `ExtremaCommon` rows
above model both.

## Left out

- `GetMaxima` and `GetMinima` hand out the detector's live internal lists. The model
  exposes the lists as the `maxima` and `minima` fields of the returned `Detector` value.
  Aliasing is not modelled.
- `FindLocalExtremaTest` in `SignalProcessing/LocalExtrema.cs` (lines 340-498) is marked
  as in development. It writes to the console and has no stable behaviour to state.
- `Averaging.MovingAverage` (`SignalProcessing/MovingAverage.cs`) wraps a MathNet
  filter, and MathNet is not part of this model.
- The WinForms, ZedGraph and timer code (`src/LocalExtremaTest.cs`,
  `Example-LocalExtrema/LocalExtremaTest.designer.cs`) is presentation only.
- Samples, thresholds and wrap values are exact `real`s. IEEE-754 rounding, NaN and
  infinities are not modelled.
- C# `int` overflow is not modelled: indices and radii are unbounded integers. The first
  overflow in the source is the fixed-mode `Take` count
  `rightSampleWindowIndex - leftSampleWindowIndex + 1`, which is `2r + 1`
  (`SignalProcessing/LocalExtrema.cs` line 257, `src/LocalExtrema.cs` line 247).
  In unchecked C# arithmetic it wraps negative for every search radius from 2^30 up. `Take`
  then returns nothing, the window test fails, and both revisions record no extrema.
  For such radii the model still records extrema, for example index 0 of `[0, 1]` as a
  minimum. The overflow of `i + radius` for radii near `int.MaxValue` is also not modelled.
- The exceptions `List.GetRange` could throw are unreachable after clamping. The model
  proves the slice bounds instead.
- Each revision's `FindLocalExtrema` requires positive radii (`ValidConfig`). The
  setters refuse every other radius and the constructor sets 5, so no detector reaches
  `FindLocalExtrema` with any other configuration.
