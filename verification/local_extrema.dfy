/**
  `LocalExtremaDetection.FindLocalExtrema`, revision v1.0.1
  (SignalProcessing/LocalExtrema.cs): alternation is optional, and the
  threshold test compares the candidate with the minimum (for a maximum) or
  maximum (for a minimum) of the ranges `[left, i)` and `[i, right)`, both
  clamped to the data.
 */
module LocalExtrema {
  import opened Linq
  import opened ExtremaCommon

  /** Left end of the threshold range, raised to 0 when it falls off the data. */
  function ThresholdLo(c: Config, i: nat, anchor: nat): (lo: nat)
    requires ValidConfig(c) && anchor <= i
    ensures lo <= i
    ensures c.windowMode == DynamicWidth ==> lo == anchor
    ensures c.windowMode == FixedWidth ==>
              lo == if i < c.thresholdWindowRadius then 0 else i - c.thresholdWindowRadius
  {
    var left := ThresholdBounds(c, i, anchor).0;
    if left < 0 then 0 else left
  }

  /** Right end of the threshold range, lowered to `n - 1` when it runs past the data. */
  function ThresholdHi(c: Config, n: nat, i: nat, anchor: nat): (hi: nat)
    requires ValidConfig(c) && i < n
    ensures i <= hi < n
    ensures hi == i <==> i == n - 1
    ensures hi == if i + c.thresholdWindowRadius > n - 1 then n - 1 else i + c.thresholdWindowRadius
  {
    var right := ThresholdBounds(c, i, anchor).1;
    if right > n - 1 then n - 1 else right
  }

  /** The maximum branch's threshold test: both ranges non-empty and the candidate at
      least `thresholdValue` above the minimum of each. */
  predicate MaxThresholdPasses(data: seq<real>, c: Config, i: nat, anchor: nat)
    requires ValidConfig(c) && i < |data| && anchor <= i
  {
    var left := data[ThresholdLo(c, i, anchor)..i];
    var right := data[i..ThresholdHi(c, |data|, i, anchor)];
    && |left| > 0 && |right| > 0
    && data[i] - Min(left) >= c.thresholdValue
    && data[i] - Min(right) >= c.thresholdValue
  }

  /** The minimum branch's threshold test: both ranges non-empty and the candidate at
      least `thresholdValue` below the maximum of each. */
  predicate MinThresholdPasses(data: seq<real>, c: Config, i: nat, anchor: nat)
    requires ValidConfig(c) && i < |data| && anchor <= i
  {
    var left := data[ThresholdLo(c, i, anchor)..i];
    var right := data[i..ThresholdHi(c, |data|, i, anchor)];
    && |left| > 0 && |right| > 0
    && data[i] - Max(left) <= -c.thresholdValue
    && data[i] - Max(right) <= -c.thresholdValue
  }

  /** Some sample left of `i` and some sample from `i` rightwards, inside the clamped
      threshold range, lie `thresholdValue` or more below `data[i]`. */
  predicate MaxMargins(data: seq<real>, c: Config, i: nat, anchor: nat)
    requires ValidConfig(c) && i < |data| && anchor <= i
  {
    && (exists j :: ThresholdLo(c, i, anchor) <= j < i && data[j] <= data[i] - c.thresholdValue)
    && (exists j :: i <= j < ThresholdHi(c, |data|, i, anchor) && data[j] <= data[i] - c.thresholdValue)
  }

  /** Some sample on each side lies `thresholdValue` or more above `data[i]`. */
  predicate MinMargins(data: seq<real>, c: Config, i: nat, anchor: nat)
    requires ValidConfig(c) && i < |data| && anchor <= i
  {
    && (exists j :: ThresholdLo(c, i, anchor) <= j < i && data[j] >= data[i] + c.thresholdValue)
    && (exists j :: i <= j < ThresholdHi(c, |data|, i, anchor) && data[j] >= data[i] + c.thresholdValue)
  }

  /** What a recorded maximum at `i` satisfies: it is the largest sample of its search
      window and, with thresholding, clears the margins on both sides. */
  predicate MaxSound(data: seq<real>, c: Config, i: nat, anchor: nat)
  {
    && ValidConfig(c) && i < |data| && anchor <= i
    && IsWindowMax(data, c, i, anchor)
    && (c.thresholdingEnabled ==> MaxMargins(data, c, i, anchor))
  }

  /** What a recorded minimum at `i` satisfies: it is the smallest sample of its window,
      not also the largest (the maximum branch is tried first), and with thresholding it
      clears the margins on both sides. */
  predicate MinSound(data: seq<real>, c: Config, i: nat, anchor: nat)
  {
    && ValidConfig(c) && i < |data| && anchor <= i
    && IsWindowMin(data, c, i, anchor)
    && !IsWindowMax(data, c, i, anchor)
    && (c.thresholdingEnabled ==> MinMargins(data, c, i, anchor))
  }

  /** The alternation gate: with enforcement on, a feature of the same kind as the last one is refused. */
  predicate Admits(c: Config, last: ExtremaType, t: ExtremaType) {
    !(c.enforceAlternatingExtrema && last == t)
  }

  /** One iteration of the loop body: the kind of feature index `i` is recorded as,
      given the last feature's kind and index. */
  function Decide(data: seq<real>, c: Config, i: nat, last: ExtremaType, anchor: nat): (t: ExtremaType)
    requires ValidConfig(c) && i < |data| && anchor <= i
    ensures t == Maxima <==> MaxSound(data, c, i, anchor) && Admits(c, last, Maxima)
    ensures t == Minima <==> MinSound(data, c, i, anchor) && Admits(c, last, Minima)
  {
    var w := SearchWindow(data, c, i, anchor);
    DecideMeaning(data, c, i, anchor);
    if |w| > 0 && data[i] == Max(w) then
      if c.enforceAlternatingExtrema && last == Maxima then NoExtremum
      else if c.thresholdingEnabled && !MaxThresholdPasses(data, c, i, anchor) then NoExtremum
      else Maxima
    else if |w| > 0 && data[i] == Min(w) then
      if c.enforceAlternatingExtrema && last == Minima then NoExtremum
      else if c.thresholdingEnabled && !MinThresholdPasses(data, c, i, anchor) then NoExtremum
      else Minima
    else NoExtremum
  }

  /** The tests the loop body makes with `Max()`/`Min()`, read sample by sample. */
  lemma DecideMeaning(data: seq<real>, c: Config, i: nat, anchor: nat)
    requires ValidConfig(c) && i < |data| && anchor <= i
    ensures var w := SearchWindow(data, c, i, anchor);
            && |w| > 0
            && (data[i] == Max(w) <==> IsWindowMax(data, c, i, anchor))
            && (data[i] == Min(w) <==> IsWindowMin(data, c, i, anchor))
            && (MaxThresholdPasses(data, c, i, anchor) <==> MaxMargins(data, c, i, anchor))
            && (MinThresholdPasses(data, c, i, anchor) <==> MinMargins(data, c, i, anchor))
  {
    WindowTests(data, c, i, anchor);
    MaxThresholdMeaning(data, c, i, anchor);
    MinThresholdMeaning(data, c, i, anchor);
  }

  lemma MaxThresholdMeaning(data: seq<real>, c: Config, i: nat, anchor: nat)
    requires ValidConfig(c) && i < |data| && anchor <= i
    ensures MaxThresholdPasses(data, c, i, anchor) <==> MaxMargins(data, c, i, anchor)
  {
    var tlo := ThresholdLo(c, i, anchor);
    var thi := ThresholdHi(c, |data|, i, anchor);
    var x := data[i] - c.thresholdValue;
    if tlo < i {
      MinAtMost(data, tlo, i, x);
    }
    if i < thi {
      MinAtMost(data, i, thi, x);
    }
  }

  lemma MinThresholdMeaning(data: seq<real>, c: Config, i: nat, anchor: nat)
    requires ValidConfig(c) && i < |data| && anchor <= i
    ensures MinThresholdPasses(data, c, i, anchor) <==> MinMargins(data, c, i, anchor)
  {
    var tlo := ThresholdLo(c, i, anchor);
    var thi := ThresholdHi(c, |data|, i, anchor);
    var x := data[i] + c.thresholdValue;
    if tlo < i {
      MaxAtLeast(data, tlo, i, x);
    }
    if i < thi {
      MaxAtLeast(data, i, thi, x);
    }
  }

  /** The loop body of this revision as a function of `(i, lastFeature, lastFeatureIndex)`. */
  function Body(data: seq<real>, c: Config): LoopBody {
    (i: nat, last: ExtremaType, anchor: nat) =>
      if ValidConfig(c) && i < |data| && anchor <= i then Decide(data, c, i, last, anchor)
      else NoExtremum
  }

  /** `FindLocalExtrema(dataList)`: clears the lists, runs the pass, stores the lists in
      the detector and returns how many extrema it found. */
  function FindLocalExtrema(d: Detector, data: seq<real>): (r: (Detector, int))
    requires ValidConfig(d.config)
    ensures r.0.config == d.config
    ensures WellFormed(r.0.maxima, r.0.minima, |data|)
    ensures r.1 == |r.0.maxima| + |r.0.minima| <= |data|
    ensures d.config.enforceAlternatingExtrema ==> Alternates(r.0.maxima, r.0.minima)
  {
    var body := Body(data, d.config);
    assert d.config.enforceAlternatingExtrema ==> GatesRepeats(body);
    var st := Pass(body, |data|);
    (Detector(d.config, st.maxima, st.minima), |st.maxima| + |st.minima|)
  }

  /** `FindLocalExtrema` records exactly the indices the per-index test accepts: index
      `i` is a maximum exactly when it is the largest sample of its search window
      (anchored, in dynamic mode, at the latest extremum below `i`, or 0 before any),
      clears the threshold margins when thresholding is on, and is not refused by the
      alternation gate; likewise for minima. */
  lemma Characterisation(d: Detector, data: seq<real>)
    requires ValidConfig(d.config)
    ensures var r := FindLocalExtrema(d, data).0;
            forall i :: 0 <= i < |data| ==>
              && (i in r.maxima <==>
                    && MaxSound(data, d.config, i, Anchor(r.maxima, r.minima, i))
                    && Admits(d.config, LastKindBefore(r.maxima, r.minima, i), Maxima))
              && (i in r.minima <==>
                    && MinSound(data, d.config, i, Anchor(r.maxima, r.minima, i))
                    && Admits(d.config, LastKindBefore(r.maxima, r.minima, i), Minima))
  {
    var body := Body(data, d.config);
    var st := Pass(body, |data|);
    assert FindLocalExtrema(d, data).0 == Detector(d.config, st.maxima, st.minima);
    PassRecordsDecisions(body, |data|);
    forall i | 0 <= i < |data|
      ensures && (i in st.maxima <==>
                    && MaxSound(data, d.config, i, Anchor(st.maxima, st.minima, i))
                    && Admits(d.config, LastKindBefore(st.maxima, st.minima, i), Maxima))
              && (i in st.minima <==>
                    && MinSound(data, d.config, i, Anchor(st.maxima, st.minima, i))
                    && Admits(d.config, LastKindBefore(st.maxima, st.minima, i), Minima))
    {
      DecisionMeaning(data, d.config, st.maxima, st.minima, i);
    }
  }

  /** A recorded decision of this revision's loop body, read as the per-index test. */
  lemma DecisionMeaning(data: seq<real>, c: Config, maxima: seq<nat>, minima: seq<nat>, i: nat)
    requires ValidConfig(c) && i < |data|
    requires RecordsDecision(Body(data, c), maxima, minima, i)
    ensures i in maxima <==>
              && MaxSound(data, c, i, Anchor(maxima, minima, i))
              && Admits(c, LastKindBefore(maxima, minima, i), Maxima)
    ensures i in minima <==>
              && MinSound(data, c, i, Anchor(maxima, minima, i))
              && Admits(c, LastKindBefore(maxima, minima, i), Minima)
  {
    var t := Decide(data, c, i, LastKindBefore(maxima, minima, i), Anchor(maxima, minima, i));
    assert Body(data, c)(i, LastKindBefore(maxima, minima, i), Anchor(maxima, minima, i)) == t;
  }

  /** With thresholding on, neither end of the data is ever recorded: at index 0 the
      left threshold range `[left, 0)` is empty, at the last index the right range
      `[i, right)` is. */
  lemma ThresholdingExcludesEnds(d: Detector, data: seq<real>)
    requires ValidConfig(d.config) && d.config.thresholdingEnabled && |data| > 0
    ensures var r := FindLocalExtrema(d, data).0;
            && 0 !in r.maxima && 0 !in r.minima
            && |data| - 1 !in r.maxima && |data| - 1 !in r.minima
  {
    Characterisation(d, data);
  }

  /** The lists a previous call left in the detector play no part in the result. */
  lemma ResultIgnoresPreviousLists(d: Detector, e: Detector, data: seq<real>)
    requires ValidConfig(d.config) && e.config == d.config
    ensures FindLocalExtrema(d, data).0.maxima == FindLocalExtrema(e, data).0.maxima
    ensures FindLocalExtrema(d, data).0.minima == FindLocalExtrema(e, data).0.minima
    ensures FindLocalExtrema(d, data).1 == FindLocalExtrema(e, data).1
  {
  }
}
