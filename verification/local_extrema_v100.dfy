/**
  `LocalExtremaDetection.FindLocalExtrema`, revision v1.0.0 (src/LocalExtrema.cs).
  Alternation is part of both branch conditions, whatever the configuration
  says, and the threshold test compares the candidate with just the two samples
  at the ends of the threshold window, refusing the candidate outright when
  either end falls outside the data.
 */
module LocalExtremaV100 {
  import opened Linq
  import opened ExtremaCommon

  /** Both raw threshold-window ends lie inside the data; otherwise the loop `continue`s. */
  predicate ThresholdInside(c: Config, n: nat, i: nat, anchor: nat) {
    && ThresholdBounds(c, i, anchor).0 >= 0
    && ThresholdBounds(c, i, anchor).1 <= n - 1
  }

  /** The endpoint test of the maximum branch. */
  predicate EndpointsBelow(data: seq<real>, c: Config, i: nat, anchor: nat)
    requires ValidConfig(c) && i < |data| && anchor <= i
    requires ThresholdInside(c, |data|, i, anchor)
  {
    var (lt, rt) := ThresholdBounds(c, i, anchor);
    data[i] - data[lt] >= c.thresholdValue && data[i] - data[rt] >= c.thresholdValue
  }

  /** The endpoint test of the minimum branch. */
  predicate EndpointsAbove(data: seq<real>, c: Config, i: nat, anchor: nat)
    requires ValidConfig(c) && i < |data| && anchor <= i
    requires ThresholdInside(c, |data|, i, anchor)
  {
    var (lt, rt) := ThresholdBounds(c, i, anchor);
    data[i] - data[lt] <= -c.thresholdValue && data[i] - data[rt] <= -c.thresholdValue
  }

  /** Both threshold-window ends lie inside the data and each end sample is
      `thresholdValue` or more below `data[i]`. */
  predicate MaxMargins(data: seq<real>, c: Config, i: nat, anchor: nat)
    requires ValidConfig(c) && i < |data| && anchor <= i
  {
    var (lt, rt) := ThresholdBounds(c, i, anchor);
    && 0 <= lt && rt < |data|
    && data[lt] <= data[i] - c.thresholdValue
    && data[rt] <= data[i] - c.thresholdValue
  }

  /** Both threshold-window ends lie inside the data and each end sample is
      `thresholdValue` or more above `data[i]`. */
  predicate MinMargins(data: seq<real>, c: Config, i: nat, anchor: nat)
    requires ValidConfig(c) && i < |data| && anchor <= i
  {
    var (lt, rt) := ThresholdBounds(c, i, anchor);
    && 0 <= lt && rt < |data|
    && data[lt] >= data[i] + c.thresholdValue
    && data[rt] >= data[i] + c.thresholdValue
  }

  /** The maximum branch is entered: `i` is the largest sample of its window and the
      last feature is not a maximum. */
  predicate MaxBranch(data: seq<real>, c: Config, i: nat, last: ExtremaType, anchor: nat)
    requires ValidConfig(c) && i < |data| && anchor <= i
  {
    IsWindowMax(data, c, i, anchor) && last != Maxima
  }

  /** What a recorded maximum at `i` satisfies, given the history it was decided with. */
  predicate MaxSound(data: seq<real>, c: Config, i: nat, last: ExtremaType, anchor: nat)
  {
    && ValidConfig(c) && i < |data| && anchor <= i
    && MaxBranch(data, c, i, last, anchor)
    && (c.thresholdingEnabled ==> MaxMargins(data, c, i, anchor))
  }

  /** What a recorded minimum at `i` satisfies: the smallest sample of its window, the
      last feature not a minimum, the maximum branch not entered (a blocked maximum
      falls through to this branch), and the margins when thresholding is on. */
  predicate MinSound(data: seq<real>, c: Config, i: nat, last: ExtremaType, anchor: nat)
  {
    && ValidConfig(c) && i < |data| && anchor <= i
    && IsWindowMin(data, c, i, anchor) && last != Minima
    && !MaxBranch(data, c, i, last, anchor)
    && (c.thresholdingEnabled ==> MinMargins(data, c, i, anchor))
  }

  /** One iteration of the loop body of this revision. */
  function Decide(data: seq<real>, c: Config, i: nat, last: ExtremaType, anchor: nat): (t: ExtremaType)
    requires ValidConfig(c) && i < |data| && anchor <= i
    ensures t == Maxima <==> MaxSound(data, c, i, last, anchor)
    ensures t == Minima <==> MinSound(data, c, i, last, anchor)
    ensures t == NoExtremum || t != last
  {
    var w := SearchWindow(data, c, i, anchor);
    WindowTests(data, c, i, anchor);
    if |w| > 0 && data[i] == Max(w) && last != Maxima then
      if c.thresholdingEnabled && !ThresholdInside(c, |data|, i, anchor) then NoExtremum
      else if c.thresholdingEnabled && !EndpointsBelow(data, c, i, anchor) then NoExtremum
      else Maxima
    else if |w| > 0 && data[i] == Min(w) && last != Minima then
      if c.thresholdingEnabled && !ThresholdInside(c, |data|, i, anchor) then NoExtremum
      else if c.thresholdingEnabled && !EndpointsAbove(data, c, i, anchor) then NoExtremum
      else Minima
    else NoExtremum
  }

  /** The loop body of this revision as a function of `(i, lastFeature, lastFeatureIndex)`. */
  function Body(data: seq<real>, c: Config): LoopBody {
    (i: nat, last: ExtremaType, anchor: nat) =>
      if ValidConfig(c) && i < |data| && anchor <= i then Decide(data, c, i, last, anchor)
      else NoExtremum
  }

  /** `FindLocalExtrema(dataList)`: clears the lists, runs the pass, stores the lists in
      the detector and returns how many extrema it found. The recorded extrema
      alternate whatever the configuration. */
  function FindLocalExtrema(d: Detector, data: seq<real>): (r: (Detector, int))
    requires ValidConfig(d.config)
    ensures r.0.config == d.config
    ensures WellFormed(r.0.maxima, r.0.minima, |data|)
    ensures r.1 == |r.0.maxima| + |r.0.minima| <= |data|
    ensures Alternates(r.0.maxima, r.0.minima)
  {
    var body := Body(data, d.config);
    assert GatesRepeats(body);
    var st := Pass(body, |data|);
    (Detector(d.config, st.maxima, st.minima), |st.maxima| + |st.minima|)
  }

  /** `FindLocalExtrema` records exactly the indices the per-index test accepts, where
      the history each test sees (last kind, dynamic-window anchor) is read off the
      result lists. */
  lemma Characterisation(d: Detector, data: seq<real>)
    requires ValidConfig(d.config)
    ensures var r := FindLocalExtrema(d, data).0;
            forall i :: 0 <= i < |data| ==>
              && (i in r.maxima <==>
                    MaxSound(data, d.config, i, LastKindBefore(r.maxima, r.minima, i), Anchor(r.maxima, r.minima, i)))
              && (i in r.minima <==>
                    MinSound(data, d.config, i, LastKindBefore(r.maxima, r.minima, i), Anchor(r.maxima, r.minima, i)))
  {
    var body := Body(data, d.config);
    var st := Pass(body, |data|);
    assert FindLocalExtrema(d, data).0 == Detector(d.config, st.maxima, st.minima);
    PassRecordsDecisions(body, |data|);
    forall i | 0 <= i < |data|
      ensures && (i in st.maxima <==>
                    MaxSound(data, d.config, i, LastKindBefore(st.maxima, st.minima, i), Anchor(st.maxima, st.minima, i)))
              && (i in st.minima <==>
                    MinSound(data, d.config, i, LastKindBefore(st.maxima, st.minima, i), Anchor(st.maxima, st.minima, i)))
    {
      DecisionMeaning(data, d.config, st.maxima, st.minima, i);
    }
  }

  /** A recorded decision of this revision's loop body, read as the per-index test. */
  lemma DecisionMeaning(data: seq<real>, c: Config, maxima: seq<nat>, minima: seq<nat>, i: nat)
    requires ValidConfig(c) && i < |data|
    requires RecordsDecision(Body(data, c), maxima, minima, i)
    ensures i in maxima <==> MaxSound(data, c, i, LastKindBefore(maxima, minima, i), Anchor(maxima, minima, i))
    ensures i in minima <==> MinSound(data, c, i, LastKindBefore(maxima, minima, i), Anchor(maxima, minima, i))
  {
    var t := Decide(data, c, i, LastKindBefore(maxima, minima, i), Anchor(maxima, minima, i));
    assert Body(data, c)(i, LastKindBefore(maxima, minima, i), Anchor(maxima, minima, i)) == t;
  }

  /** In fixed mode with thresholding, only indices at least `thresholdWindowRadius`
      away from both ends can be recorded. */
  lemma FixedThresholdBand(d: Detector, data: seq<real>)
    requires ValidConfig(d.config) && d.config.thresholdingEnabled
    requires d.config.windowMode == FixedWidth
    ensures var r := FindLocalExtrema(d, data).0;
            var tr := d.config.thresholdWindowRadius;
            forall i :: i in r.maxima || i in r.minima ==> tr <= i && i + tr <= |data| - 1
  {
    Characterisation(d, data);
  }

  /** In dynamic mode with thresholding, an index closer than `thresholdWindowRadius`
      to the end of the data is never recorded. */
  lemma DynamicThresholdTail(d: Detector, data: seq<real>)
    requires ValidConfig(d.config) && d.config.thresholdingEnabled
    requires d.config.windowMode == DynamicWidth
    ensures var r := FindLocalExtrema(d, data).0;
            forall i :: i in r.maxima || i in r.minima ==> i + d.config.thresholdWindowRadius <= |data| - 1
  {
    Characterisation(d, data);
  }

  /** The loop body of this revision never reads `enforceAlternatingExtrema`. */
  lemma DecideIgnoresFlag(data: seq<real>, c: Config, flag: bool, i: nat, last: ExtremaType, anchor: nat)
    requires ValidConfig(c) && i < |data| && anchor <= i
    ensures Decide(data, c.(enforceAlternatingExtrema := flag), i, last, anchor) == Decide(data, c, i, last, anchor)
  {
    var c' := c.(enforceAlternatingExtrema := flag);
    var n := |data|;
    assert SearchLo(c', n, i, anchor) == SearchLo(c, n, i, anchor);
    assert SearchHi(c', n, i, anchor) == SearchHi(c, n, i, anchor);
    assert ThresholdBounds(c', i, anchor) == ThresholdBounds(c, i, anchor);
    assert IsWindowMax(data, c', i, anchor) == IsWindowMax(data, c, i, anchor);
    assert IsWindowMin(data, c', i, anchor) == IsWindowMin(data, c, i, anchor);
    assert MaxSound(data, c', i, last, anchor) == MaxSound(data, c, i, last, anchor);
    assert MinSound(data, c', i, last, anchor) == MinSound(data, c, i, last, anchor);
  }

  /** `EnforceAlternateExtrema` has no effect on what this revision finds: alternation
      is always enforced. */
  lemma AlternationFlagIgnored(d: Detector, data: seq<real>, flag: bool)
    requires ValidConfig(d.config)
    ensures var e := EnforceAlternateExtrema(d, flag);
            && FindLocalExtrema(e, data).0.maxima == FindLocalExtrema(d, data).0.maxima
            && FindLocalExtrema(e, data).0.minima == FindLocalExtrema(d, data).0.minima
            && FindLocalExtrema(e, data).1 == FindLocalExtrema(d, data).1
  {
    var c := d.config;
    var c' := c.(enforceAlternatingExtrema := flag);
    forall i: nat, last: ExtremaType, anchor: nat
      ensures Body(data, c')(i, last, anchor) == Body(data, c)(i, last, anchor)
    {
      if i < |data| && anchor <= i {
        DecideIgnoresFlag(data, c, flag, i, last, anchor);
      }
    }
    PassAgrees(Body(data, c'), Body(data, c), |data|);
  }

  /** The lists are cleared on entry: the lists a previous call left in the detector
      play no part in the result. */
  lemma ResultIgnoresPreviousLists(d: Detector, e: Detector, data: seq<real>)
    requires ValidConfig(d.config) && e.config == d.config
    ensures FindLocalExtrema(d, data).0.maxima == FindLocalExtrema(e, data).0.maxima
    ensures FindLocalExtrema(d, data).0.minima == FindLocalExtrema(e, data).0.minima
    ensures FindLocalExtrema(d, data).1 == FindLocalExtrema(e, data).1
  {
  }
}
