/**
  Worked examples: the detector of revision v1.0.1 run on a ramp that rises to 3,
  falls to -2 and rises again to 2, and both revisions run on a spike near the
  start of the data.
 */
module Scenarios {
  import opened ExtremaCommon
  import LocalExtrema
  import LocalExtremaV100

  /** Indices:              0    1    2    3    4    5    6     7     8     9    10   11   12 */
  const Ramp: seq<real> := [0.0, 1.0, 2.0, 3.0, 2.0, 1.0, 0.0, -1.0, -2.0, -1.0, 0.0, 1.0, 2.0]

  /** Search radius 2, no thresholding, fixed windows, no alternation. */
  const Plain := Config(2, 5, false, 20.0, FixedWidth, false)

  const AfterFirstMin := ScanState(Minima, 0, [], [0])
  const AfterFirstMax := ScanState(Maxima, 3, [3], [0])
  const AfterSecondMin := ScanState(Minima, 8, [3], [0, 8])
  const AfterSecondMax := ScanState(Maxima, 12, [3, 12], [0, 8])

  /** A fresh detector set to search radius 2 with thresholding switched off. Without
      thresholding the windows, clipped at the ends of the data, make the end points
      extrema too: index 0 is the smallest sample of `[0, 5)` and index 12 the largest
      of `[10, 13)`. */
  lemma RampWithoutThreshold()
    ensures var d := EnableThresholding(SetSearchWindowRadius(NewDetector(), 2).0, false);
            var r := LocalExtrema.FindLocalExtrema(d, Ramp);
            r.0.maxima == [3, 12] && r.0.minima == [0, 8] && r.1 == 4
  {
    var d := EnableThresholding(SetSearchWindowRadius(NewDetector(), 2).0, false);
    assert d == Detector(Plain, [], []);
    PlainPass(Plain);
  }

  lemma PlainPass(c: Config)
    requires c == Plain
    ensures Pass(LocalExtrema.Body(Ramp, c), 13) == AfterSecondMax
  {
    PlainUpTo12(c);
    RecordSecondMax();
    MaximumAt12();
    Step(c, 12, AfterSecondMin, Maxima, AfterSecondMax);
  }

  lemma PlainUpTo3(c: Config)
    requires c == Plain
    ensures Pass(LocalExtrema.Body(Ramp, c), 3) == AfterFirstMin
  {
    RecordFirstMin();
    MinimumAt0();
    QuietAt1(c);
    QuietAt2(c);
    Step(c, 0, Initial, Minima, AfterFirstMin);
    Step(c, 1, AfterFirstMin, NoExtremum, AfterFirstMin);
    Step(c, 2, AfterFirstMin, NoExtremum, AfterFirstMin);
  }

  lemma PlainUpTo8(c: Config)
    requires c == Plain
    ensures Pass(LocalExtrema.Body(Ramp, c), 8) == AfterFirstMax
  {
    PlainUpTo3(c);
    RecordFirstMax();
    MaximumAt3();
    QuietFall(c);
    Step(c, 3, AfterFirstMin, Maxima, AfterFirstMax);
    Step(c, 4, AfterFirstMax, NoExtremum, AfterFirstMax);
    Step(c, 5, AfterFirstMax, NoExtremum, AfterFirstMax);
    Step(c, 6, AfterFirstMax, NoExtremum, AfterFirstMax);
    Step(c, 7, AfterFirstMax, NoExtremum, AfterFirstMax);
  }

  lemma PlainUpTo12(c: Config)
    requires c == Plain
    ensures Pass(LocalExtrema.Body(Ramp, c), 12) == AfterSecondMin
  {
    PlainUpTo8(c);
    RecordSecondMin();
    MinimumAt8();
    QuietSecondRise(c);
    Step(c, 8, AfterFirstMax, Minima, AfterSecondMin);
    Step(c, 9, AfterSecondMin, NoExtremum, AfterSecondMin);
    Step(c, 10, AfterSecondMin, NoExtremum, AfterSecondMin);
    Step(c, 11, AfterSecondMin, NoExtremum, AfterSecondMin);
  }

  lemma RecordFirstMin()
    ensures ScanInv(Initial, 0) && Record(Initial, 0, Minima) == AfterFirstMin
  {
  }

  lemma RecordFirstMax()
    ensures ScanInv(AfterFirstMin, 3) && Record(AfterFirstMin, 3, Maxima) == AfterFirstMax
  {
  }

  lemma RecordSecondMin()
    ensures ScanInv(AfterFirstMax, 8) && Record(AfterFirstMax, 8, Minima) == AfterSecondMin
  {
  }

  lemma RecordSecondMax()
    ensures ScanInv(AfterSecondMin, 12) && Record(AfterSecondMin, 12, Maxima) == AfterSecondMax
  {
  }

  lemma MinimumAt0()
    ensures LocalExtrema.Decide(Ramp, Plain, 0, NoExtremum, 0) == Minima
  {
    assert SearchLo(Plain, 13, 0, 0) == 0 && SearchHi(Plain, 13, 0, 0) == 5;
    assert !IsWindowMax(Ramp, Plain, 0, 0) by { assert Ramp[1] > Ramp[0]; }
    assert IsWindowMin(Ramp, Plain, 0, 0);
  }

  lemma MaximumAt3()
    ensures LocalExtrema.Decide(Ramp, Plain, 3, Minima, 0) == Maxima
  {
    assert SearchLo(Plain, 13, 3, 0) == 1 && SearchHi(Plain, 13, 3, 0) == 6;
    assert IsWindowMax(Ramp, Plain, 3, 0);
  }

  lemma MinimumAt8()
    ensures LocalExtrema.Decide(Ramp, Plain, 8, Maxima, 3) == Minima
  {
    assert SearchLo(Plain, 13, 8, 3) == 6 && SearchHi(Plain, 13, 8, 3) == 11;
    assert !IsWindowMax(Ramp, Plain, 8, 3) by { assert Ramp[7] > Ramp[8]; }
    assert IsWindowMin(Ramp, Plain, 8, 3);
  }

  lemma MaximumAt12()
    ensures LocalExtrema.Decide(Ramp, Plain, 12, Minima, 8) == Maxima
  {
    assert SearchLo(Plain, 13, 12, 8) == 10 && SearchHi(Plain, 13, 12, 8) == 13;
    assert IsWindowMax(Ramp, Plain, 12, 8);
  }

  /** Index 1 lies on the first rise. */
  lemma QuietAt1(c: Config)
    requires c == Plain
    ensures LocalExtrema.Decide(Ramp, c, 1, Minima, 0) == NoExtremum
  {
    Neither(c, 1, Minima, 0, 0, 5, 2, 0);
  }

  /** Index 2 lies on the first rise. */
  lemma QuietAt2(c: Config)
    requires c == Plain
    ensures LocalExtrema.Decide(Ramp, c, 2, Minima, 0) == NoExtremum
  {
    Neither(c, 2, Minima, 0, 0, 5, 3, 0);
  }

  /** Indices 4 to 7 lie on the fall. */
  lemma QuietFall(c: Config)
    requires c == Plain
    ensures LocalExtrema.Decide(Ramp, c, 4, Maxima, 3) == NoExtremum
    ensures LocalExtrema.Decide(Ramp, c, 5, Maxima, 3) == NoExtremum
    ensures LocalExtrema.Decide(Ramp, c, 6, Maxima, 3) == NoExtremum
    ensures LocalExtrema.Decide(Ramp, c, 7, Maxima, 3) == NoExtremum
  {
    Neither(c, 4, Maxima, 3, 2, 7, 3, 5);
    Neither(c, 5, Maxima, 3, 3, 8, 4, 6);
    Neither(c, 6, Maxima, 3, 4, 9, 5, 7);
    Neither(c, 7, Maxima, 3, 5, 10, 6, 8);
  }

  /** Indices 9 to 11 lie on the second rise. */
  lemma QuietSecondRise(c: Config)
    requires c == Plain
    ensures LocalExtrema.Decide(Ramp, c, 9, Minima, 8) == NoExtremum
    ensures LocalExtrema.Decide(Ramp, c, 10, Minima, 8) == NoExtremum
    ensures LocalExtrema.Decide(Ramp, c, 11, Minima, 8) == NoExtremum
  {
    Neither(c, 9, Minima, 8, 7, 12, 10, 8);
    Neither(c, 10, Minima, 8, 8, 13, 11, 9);
    Neither(c, 11, Minima, 8, 9, 13, 12, 10);
  }

  /** An index that is neither the largest nor the smallest sample of its window is skipped. */
  lemma Neither(c: Config, i: nat, last: ExtremaType, anchor: nat, lo: nat, hi: nat, above: nat, below: nat)
    requires ValidConfig(c) && i < |Ramp| && anchor <= i
    requires SearchLo(c, |Ramp|, i, anchor) == lo && SearchHi(c, |Ramp|, i, anchor) == hi
    requires lo <= above < hi && lo <= below < hi
    requires Ramp[above] > Ramp[i] > Ramp[below]
    ensures LocalExtrema.Decide(Ramp, c, i, last, anchor) == NoExtremum
  {
  }

  /** One more iteration of the pass over the ramp. */
  lemma Step(c: Config, i: nat, s: ScanState, t: ExtremaType, s': ScanState)
    requires ValidConfig(c) && i < |Ramp|
    requires Pass(LocalExtrema.Body(Ramp, c), i) == s
    requires LocalExtrema.Decide(Ramp, c, i, s.lastFeature, s.lastFeatureIndex) == t
    requires Record(s, i, t) == s'
    ensures Pass(LocalExtrema.Body(Ramp, c), i + 1) == s'
  {
  }

  /** Index 1 is the largest sample within distance 2 of it. */
  const Spike: seq<real> := [0.0, 1.0, 0.0, 0.0, 5.0]

  /** Near the start the fixed window is `[0, 2r + 1)`, wider than `[0, i + r]`. With
      search radius 2 the window of index 1 is the whole of `Spike`, which holds the 5
      at index 4, so revision v1.0.1 does not record index 1, although no sample within
      distance 2 of it is larger. */
  lemma SpikeSkippedByLatest(d: Detector, data: seq<real>)
    requires ValidConfig(d.config) && d.config.searchWindowRadius == 2
    requires d.config.windowMode == FixedWidth && data == Spike
    ensures var r := LocalExtrema.FindLocalExtrema(d, data).0;
            1 !in r.maxima && 1 !in r.minima
  {
    var r := LocalExtrema.FindLocalExtrema(d, data).0;
    LocalExtrema.Characterisation(d, data);
    SpikeWindow(d.config, data, Anchor(r.maxima, r.minima, 1));
  }

  /** The same for revision v1.0.0. */
  lemma SpikeSkippedByFirst(d: Detector, data: seq<real>)
    requires ValidConfig(d.config) && d.config.searchWindowRadius == 2
    requires d.config.windowMode == FixedWidth && data == Spike
    ensures var r := LocalExtremaV100.FindLocalExtrema(d, data).0;
            1 !in r.maxima && 1 !in r.minima
  {
    var r := LocalExtremaV100.FindLocalExtrema(d, data).0;
    LocalExtremaV100.Characterisation(d, data);
    SpikeWindow(d.config, data, Anchor(r.maxima, r.minima, 1));
  }

  /** No sample within distance 2 of index 1 in `Spike` is larger, yet its window holds
      a larger and a smaller sample. */
  lemma SpikeWindow(c: Config, data: seq<real>, anchor: nat)
    requires ValidConfig(c) && c.searchWindowRadius == 2 && c.windowMode == FixedWidth
    requires data == Spike && anchor <= 1
    ensures forall j :: 0 <= j <= 3 ==> data[j] <= data[1]
    ensures !IsWindowMax(data, c, 1, anchor) && !IsWindowMin(data, c, 1, anchor)
  {
    assert SearchLo(c, 5, 1, anchor) == 0 && SearchHi(c, 5, 1, anchor) == 5;
    assert data[4] > data[1] && data[0] < data[1];
  }
}
