/**
  What the two revisions of LocalExtremaDetection share: the configuration and
  its setters, the search window cut out of the data with Skip/Take, and the
  state the single left-to-right pass carries from one index to the next
  (the last feature, its index, and the two result lists).
 */
module ExtremaCommon {
  import opened Linq

  /** The kind of the last recorded feature; `NoExtremum` before the first one. */
  datatype ExtremaType = NoExtremum | Maxima | Minima

  /** `fixedWidth` is the enum's default value, which the constructor never overrides. */
  datatype WindowMode = FixedWidth | DynamicWidth

  datatype Config = Config(
    searchWindowRadius: int,
    thresholdWindowRadius: int,
    thresholdingEnabled: bool,
    thresholdValue: real,
    windowMode: WindowMode,
    enforceAlternatingExtrema: bool)

  /** The setters refuse radii `<= 0`, so every reachable configuration has positive radii. */
  predicate ValidConfig(c: Config) {
    c.searchWindowRadius > 0 && c.thresholdWindowRadius > 0
  }

  /** The detector object: its configuration and the lists the last pass produced. */
  datatype Detector = Detector(config: Config, maxima: seq<nat>, minima: seq<nat>)

  /** Result of a setter: accepted, or the `InvalidDataException` it throws. */
  datatype Outcome = Accepted | InvalidData(message: string)

  // ---------------------------------------------------------------------------
  // Construction and configuration
  // ---------------------------------------------------------------------------

  /** The constructor's defaults: both radii 5, thresholding on at 20, fixed windows, no alternation. */
  function NewDetector(): (d: Detector)
    ensures ValidConfig(d.config)
    ensures d.config.searchWindowRadius == 5 && d.config.thresholdWindowRadius == 5
    ensures d.config.thresholdingEnabled && d.config.thresholdValue == 20.0
    ensures d.config.windowMode == FixedWidth && !d.config.enforceAlternatingExtrema
    ensures d.maxima == [] && d.minima == []
  {
    Detector(Config(5, 5, true, 20.0, FixedWidth, false), [], [])
  }

  function SetSearchWindowRadius(d: Detector, radius: int): (r: (Detector, Outcome))
    ensures r.1.InvalidData? <==> radius <= 0
    ensures r.1.InvalidData? ==> r.0 == d
    ensures r.1.Accepted? ==> r.0.config.searchWindowRadius == radius
    ensures r.0.config.(searchWindowRadius := d.config.searchWindowRadius) == d.config
    ensures r.0.maxima == d.maxima && r.0.minima == d.minima
    ensures ValidConfig(d.config) ==> ValidConfig(r.0.config)
  {
    if radius <= 0 then (d, InvalidData("Search window radius was set to <= 0."))
    else (d.(config := d.config.(searchWindowRadius := radius)), Accepted)
  }

  function SetThresholdWindowRadius(d: Detector, radius: int): (r: (Detector, Outcome))
    ensures r.1.InvalidData? <==> radius <= 0
    ensures r.1.InvalidData? ==> r.0 == d
    ensures r.1.Accepted? ==> r.0.config.thresholdWindowRadius == radius
    ensures r.0.config.(thresholdWindowRadius := d.config.thresholdWindowRadius) == d.config
    ensures r.0.maxima == d.maxima && r.0.minima == d.minima
    ensures ValidConfig(d.config) ==> ValidConfig(r.0.config)
  {
    if radius <= 0 then (d, InvalidData("Threshold window radius was set to <= 0."))
    else (d.(config := d.config.(thresholdWindowRadius := radius)), Accepted)
  }

  function EnableThresholding(d: Detector, enabled: bool): (r: Detector)
    ensures r.config.thresholdingEnabled == enabled
    ensures r.config.(thresholdingEnabled := d.config.thresholdingEnabled) == d.config
    ensures r.maxima == d.maxima && r.minima == d.minima
    ensures ValidConfig(d.config) ==> ValidConfig(r.config)
  {
    d.(config := d.config.(thresholdingEnabled := enabled))
  }

  /** Any value is accepted, zero and negative thresholds included. */
  function SetThreshold(d: Detector, value: real): (r: Detector)
    ensures r.config.thresholdValue == value
    ensures r.config.(thresholdValue := d.config.thresholdValue) == d.config
    ensures r.maxima == d.maxima && r.minima == d.minima
    ensures ValidConfig(d.config) ==> ValidConfig(r.config)
  {
    d.(config := d.config.(thresholdValue := value))
  }

  function EnforceAlternateExtrema(d: Detector, enforce: bool): (r: Detector)
    ensures r.config.enforceAlternatingExtrema == enforce
    ensures r.config.(enforceAlternatingExtrema := d.config.enforceAlternatingExtrema) == d.config
    ensures r.maxima == d.maxima && r.minima == d.minima
    ensures ValidConfig(d.config) ==> ValidConfig(r.config)
  {
    d.(config := d.config.(enforceAlternatingExtrema := enforce))
  }

  function SetWindowingMode(d: Detector, mode: WindowMode): (r: Detector)
    ensures r.config.windowMode == mode
    ensures r.config.(windowMode := d.config.windowMode) == d.config
    ensures r.maxima == d.maxima && r.minima == d.minima
    ensures ValidConfig(d.config) ==> ValidConfig(r.config)
  {
    d.(config := d.config.(windowMode := mode))
  }

  // ---------------------------------------------------------------------------
  // Windows
  // ---------------------------------------------------------------------------

  /** Raw search-window index bounds before Skip/Take: `[i - r, i + r]` in fixed
      mode, `[anchor, i + r]` in dynamic mode, where `anchor` is the index of the
      last recorded feature (0 before any). */
  function SearchBounds(c: Config, i: nat, anchor: nat): (int, int)
  {
    match c.windowMode
    case FixedWidth => (i - c.searchWindowRadius, i + c.searchWindowRadius)
    case DynamicWidth => (anchor, i + c.searchWindowRadius)
  }

  /** Raw threshold-window index bounds, computed the same way with the threshold radius. */
  function ThresholdBounds(c: Config, i: nat, anchor: nat): (int, int)
  {
    match c.windowMode
    case FixedWidth => (i - c.thresholdWindowRadius, i + c.thresholdWindowRadius)
    case DynamicWidth => (anchor, i + c.thresholdWindowRadius)
  }

  /** First index of the search window once Skip has clamped the left bound. */
  function SearchLo(c: Config, n: nat, i: nat, anchor: nat): (lo: nat)
    requires ValidConfig(c) && i < n && anchor <= i
    ensures lo <= i
    ensures c.windowMode == FixedWidth ==>
              lo == if i < c.searchWindowRadius then 0 else i - c.searchWindowRadius
    ensures c.windowMode == DynamicWidth ==> lo == anchor
  {
    Clamp(SearchBounds(c, i, anchor).0, n)
  }

  /** One past the last index of the search window once Take has clamped the count.
      Take counts from the unclamped left bound, so near the start of the data a
      fixed window holds `2r + 1` samples rather than ending at `i + r`. */
  function SearchHi(c: Config, n: nat, i: nat, anchor: nat): (hi: nat)
    requires ValidConfig(c) && i < n && anchor <= i
    ensures i < hi <= n
    ensures c.windowMode == FixedWidth ==>
              hi == if SearchLo(c, n, i, anchor) + 2 * c.searchWindowRadius + 1 < n
                    then SearchLo(c, n, i, anchor) + 2 * c.searchWindowRadius + 1 else n
    ensures c.windowMode == DynamicWidth ==>
              hi == if i + c.searchWindowRadius + 1 < n then i + c.searchWindowRadius + 1 else n
  {
    var (left, right) := SearchBounds(c, i, anchor);
    var lo := Clamp(left, n);
    lo + Clamp(right - left + 1, n - lo)
  }

  /** `dataList.Skip(left).Take(right - left + 1)`: always a contiguous slice holding index `i`. */
  function SearchWindow(data: seq<real>, c: Config, i: nat, anchor: nat): (w: seq<real>)
    requires ValidConfig(c) && i < |data| && anchor <= i
    ensures w == data[SearchLo(c, |data|, i, anchor)..SearchHi(c, |data|, i, anchor)]
  {
    var (left, right) := SearchBounds(c, i, anchor);
    SkipTakeSlice(data, left, right - left + 1);
    Take(Skip(data, left), right - left + 1)
  }

  /** No sample of the search window at `i` exceeds `data[i]`. */
  predicate IsWindowMax(data: seq<real>, c: Config, i: nat, anchor: nat)
    requires ValidConfig(c) && i < |data| && anchor <= i
  {
    forall j :: SearchLo(c, |data|, i, anchor) <= j < SearchHi(c, |data|, i, anchor) ==> data[j] <= data[i]
  }

  /** No sample of the search window at `i` is below `data[i]`. */
  predicate IsWindowMin(data: seq<real>, c: Config, i: nat, anchor: nat)
    requires ValidConfig(c) && i < |data| && anchor <= i
  {
    forall j :: SearchLo(c, |data|, i, anchor) <= j < SearchHi(c, |data|, i, anchor) ==> data[i] <= data[j]
  }

  /** The window tests `current == range.Max()` and `current == range.Min()`, read
      sample by sample (the window is never empty: it holds index `i`). */
  lemma WindowTests(data: seq<real>, c: Config, i: nat, anchor: nat)
    requires ValidConfig(c) && i < |data| && anchor <= i
    ensures var w := SearchWindow(data, c, i, anchor);
            && |w| > 0
            && (data[i] == Max(w) <==> IsWindowMax(data, c, i, anchor))
            && (data[i] == Min(w) <==> IsWindowMin(data, c, i, anchor))
  {
    var lo := SearchLo(c, |data|, i, anchor);
    var hi := SearchHi(c, |data|, i, anchor);
    MaxOfSlice(data, lo, hi, i);
    MinOfSlice(data, lo, hi, i);
  }

  /** In fixed mode close to the start the window is `[0, min(2r, N-1)]`, not `[0, i + r]`. */
  lemma FixedWindowNearStart(data: seq<real>, c: Config, i: nat)
    requires ValidConfig(c) && i < |data| && c.windowMode == FixedWidth
    requires i < c.searchWindowRadius
    ensures SearchWindow(data, c, i, 0)
         == data[..if 2 * c.searchWindowRadius + 1 < |data| then 2 * c.searchWindowRadius + 1 else |data|]
  {
  }

  // ---------------------------------------------------------------------------
  // The state carried through the pass, and its invariants
  // ---------------------------------------------------------------------------

  /** `lastFeature`, `lastFeatureIndex` and the two lists, as they stand between iterations. */
  datatype ScanState = ScanState(
    lastFeature: ExtremaType,
    lastFeatureIndex: nat,
    maxima: seq<nat>,
    minima: seq<nat>)

  /** Both lists cleared, `lastFeature = none`, `lastFeatureIndex = 0`. */
  const Initial := ScanState(NoExtremum, 0, [], [])

  predicate Increasing(s: seq<nat>) {
    forall a, b :: 0 <= a < b < |s| ==> s[a] < s[b]
  }

  predicate Below(s: seq<nat>, n: nat) {
    forall k :: 0 <= k < |s| ==> s[k] < n
  }

  predicate Disjoint(a: seq<nat>, b: seq<nat>) {
    forall k :: 0 <= k < |a| ==> a[k] !in b
  }

  /** The result invariants: both lists strictly increasing, inside `[0, n)`, disjoint,
      and together no longer than `n`. */
  predicate WellFormed(maxima: seq<nat>, minima: seq<nat>, n: nat) {
    && Increasing(maxima) && Increasing(minima)
    && Below(maxima, n) && Below(minima, n)
    && Disjoint(maxima, minima)
    && |maxima| + |minima| <= n
  }

  /** Some entry of `b` lies strictly between `lo` and `hi`. */
  predicate Between(b: seq<nat>, lo: nat, hi: nat) {
    exists j :: 0 <= j < |b| && lo < b[j] < hi
  }

  /** Between two consecutive entries of `a` there is an entry of `b`. */
  predicate Separated(a: seq<nat>, b: seq<nat>) {
    forall k :: 0 <= k < |a| - 1 ==> Between(b, a[k], a[k + 1])
  }

  /** Merged by index, the recorded extrema never show the same type twice in a row. */
  predicate Alternates(maxima: seq<nat>, minima: seq<nat>) {
    Separated(maxima, minima) && Separated(minima, maxima)
  }

  /** The state after the indices `0 .. n-1` have been inspected: the lists are well
      formed and `lastFeature`/`lastFeatureIndex` name the latest recorded index. */
  predicate ScanInv(st: ScanState, n: nat) {
    && WellFormed(st.maxima, st.minima, n)
    && st.lastFeatureIndex <= n
    && match st.lastFeature
       case NoExtremum => st.maxima == [] && st.minima == [] && st.lastFeatureIndex == 0
       case Maxima =>
         && |st.maxima| > 0 && st.maxima[|st.maxima| - 1] == st.lastFeatureIndex
         && Below(st.minima, st.lastFeatureIndex)
       case Minima =>
         && |st.minima| > 0 && st.minima[|st.minima| - 1] == st.lastFeatureIndex
         && Below(st.maxima, st.lastFeatureIndex)
  }

  /** Appends index `i` to the list of kind `t` and remembers it as the last feature;
      `NoExtremum` leaves the state alone. */
  function Record(st: ScanState, i: nat, t: ExtremaType): (r: ScanState)
    requires ScanInv(st, i)
    ensures ScanInv(r, i + 1)
    ensures t != NoExtremum && t != st.lastFeature && Alternates(st.maxima, st.minima)
            ==> Alternates(r.maxima, r.minima)
    ensures t == NoExtremum ==> r == st
    ensures t != NoExtremum ==> r.lastFeature == t && r.lastFeatureIndex == i
    ensures t == Maxima ==> r.maxima == st.maxima + [i] && r.minima == st.minima
    ensures t == Minima ==> r.minima == st.minima + [i] && r.maxima == st.maxima
  {
    match t
    case NoExtremum => st
    case Maxima =>
      AppendMaximum(st, i);
      ScanState(Maxima, i, st.maxima + [i], st.minima)
    case Minima =>
      AppendMinimum(st, i);
      ScanState(Minima, i, st.maxima, st.minima + [i])
  }

  /** Recording a maximum at `i` keeps the invariant, and keeps the lists alternating
      when the last feature was not a maximum. */
  lemma AppendMaximum(st: ScanState, i: nat)
    requires ScanInv(st, i)
    ensures var r := ScanState(Maxima, i, st.maxima + [i], st.minima);
            && ScanInv(r, i + 1)
            && (st.lastFeature != Maxima && Alternates(st.maxima, st.minima) ==> Alternates(r.maxima, r.minima))
  {
    AppendKeepsWellFormed(st.maxima, st.minima, i);
    if st.lastFeature == Minima && Alternates(st.maxima, st.minima) {
      SeparatedAppend(st.maxima, st.minima, i, |st.minima| - 1);
      SeparatedWiden(st.minima, st.maxima, i);
    }
  }

  /** Recording a minimum at `i` keeps the invariant, and keeps the lists alternating
      when the last feature was not a minimum. */
  lemma AppendMinimum(st: ScanState, i: nat)
    requires ScanInv(st, i)
    ensures var r := ScanState(Minima, i, st.maxima, st.minima + [i]);
            && ScanInv(r, i + 1)
            && (st.lastFeature != Minima && Alternates(st.maxima, st.minima) ==> Alternates(r.maxima, r.minima))
  {
    AppendKeepsWellFormed(st.minima, st.maxima, i);
    if st.lastFeature == Maxima && Alternates(st.maxima, st.minima) {
      SeparatedAppend(st.minima, st.maxima, i, |st.maxima| - 1);
      SeparatedWiden(st.maxima, st.minima, i);
    }
  }

  /** Appending a fresh index `i` above every recorded one keeps the lists well formed
      (stated for either list, so it serves both kinds). */
  lemma AppendKeepsWellFormed(a: seq<nat>, b: seq<nat>, i: nat)
    requires WellFormed(a, b, i) || WellFormed(b, a, i)
    ensures WellFormed(a + [i], b, i + 1) && WellFormed(b, a + [i], i + 1)
  {
    var a' := a + [i];
    assert Increasing(a');
    assert Disjoint(a', b) by {
      forall k | 0 <= k < |a'|
        ensures a'[k] !in b
      {
        if k < |a| {
          if WellFormed(b, a, i) {
            assert a[k] in a;
          }
        }
      }
    }
    assert Disjoint(b, a') by {
      forall k | 0 <= k < |b|
        ensures b[k] !in a'
      {
        if WellFormed(a, b, i) {
          assert b[k] in b;
        }
      }
    }
  }

  /** Appending `x` to `a` keeps it separated by `b` when some entry of `b` lies
      between the old last entry of `a` and `x`. */
  lemma SeparatedAppend(a: seq<nat>, b: seq<nat>, x: nat, w: int)
    requires Separated(a, b)
    requires |a| > 0 ==> 0 <= w < |b| && a[|a| - 1] < b[w] < x
    ensures Separated(a + [x], b)
  {
    var a' := a + [x];
    forall k | 0 <= k < |a'| - 1
      ensures Between(b, a'[k], a'[k + 1])
    {
      if k < |a| - 1 {
        assert a'[k] == a[k] && a'[k + 1] == a[k + 1];
      } else {
        assert a'[k] == a[|a| - 1] && a'[k + 1] == x;
      }
    }
  }

  /** Growing the separating list keeps `a` separated. */
  lemma SeparatedWiden(a: seq<nat>, b: seq<nat>, y: nat)
    requires Separated(a, b)
    ensures Separated(a, b + [y])
  {
    var b' := b + [y];
    forall k | 0 <= k < |a| - 1
      ensures Between(b', a[k], a[k + 1])
    {
      assert Between(b, a[k], a[k + 1]);
      var j :| 0 <= j < |b| && a[k] < b[j] < a[k + 1];
      assert b'[j] == b[j];
    }
  }

  // ---------------------------------------------------------------------------
  // Recovering the dynamic-window anchor from the result lists
  // ---------------------------------------------------------------------------

  /** The last entry of `s` below `i`, or -1 when there is none. */
  function LatestBelow(s: seq<nat>, i: nat): (r: int)
    ensures -1 <= r < i
  {
    if |s| == 0 then -1
    else if s[|s| - 1] < i then s[|s| - 1]
    else
      assert forall k :: 0 <= k < |s| - 1 ==> s[..|s| - 1][k] == s[k];
      LatestBelow(s[..|s| - 1], i)
  }

  /** The left edge of the dynamic window at index `i`: the latest index below `i`
      recorded in either list, or 0 before any. */
  function Anchor(maxima: seq<nat>, minima: seq<nat>, i: nat): (a: nat)
    ensures a <= i
  {
    var m := LatestBelow(maxima, i);
    var n := LatestBelow(minima, i);
    if m < 0 && n < 0 then 0 else if m < n then n else m
  }

  /** The kind of the latest index below `i` recorded in either list: what
      `lastFeature` held when index `i` was inspected. */
  function LastKindBefore(maxima: seq<nat>, minima: seq<nat>, i: nat): (t: ExtremaType)
    ensures t == NoExtremum <==> LatestBelow(maxima, i) < 0 && LatestBelow(minima, i) < 0
  {
    var m := LatestBelow(maxima, i);
    var n := LatestBelow(minima, i);
    if m < 0 && n < 0 then NoExtremum else if m < n then Minima else Maxima
  }

  /** Entries added at or above `i` do not move `LatestBelow(_, i)`. */
  lemma LatestBelowAppend(s: seq<nat>, x: nat, i: nat)
    requires i <= x
    ensures LatestBelow(s + [x], i) == LatestBelow(s, i)
  {
    assert (s + [x])[..|s|] == s;
  }

  /** Once every recorded index is below `i`, the history read off the lists is the
      pass's `lastFeature` and `lastFeatureIndex`. */
  lemma HistoryIsLastFeature(st: ScanState, n: nat, i: nat)
    requires ScanInv(st, n) && n <= i
    ensures Anchor(st.maxima, st.minima, i) == st.lastFeatureIndex
    ensures LastKindBefore(st.maxima, st.minima, i) == st.lastFeature
  {
  }

  /** Recording index `i` leaves the history of every index up to `i` where it was. */
  lemma HistoryRecord(st: ScanState, i: nat, t: ExtremaType, j: nat)
    requires ScanInv(st, i) && j <= i
    ensures var r := Record(st, i, t);
            && Anchor(r.maxima, r.minima, j) == Anchor(st.maxima, st.minima, j)
            && LastKindBefore(r.maxima, r.minima, j) == LastKindBefore(st.maxima, st.minima, j)
  {
    match t
    case NoExtremum =>
    case Maxima => LatestBelowAppend(st.maxima, i, j);
    case Minima => LatestBelowAppend(st.minima, i, j);
  }

  /** What recording index `i` does to the membership and the history of an index `j <= i`. */
  lemma RecordEffect(st: ScanState, i: nat, t: ExtremaType, j: nat)
    requires ScanInv(st, i) && j <= i
    ensures var r := Record(st, i, t);
            && (j in r.maxima <==> j in st.maxima || (j == i && t == Maxima))
            && (j in r.minima <==> j in st.minima || (j == i && t == Minima))
            && Anchor(r.maxima, r.minima, j) == Anchor(st.maxima, st.minima, j)
            && LastKindBefore(r.maxima, r.minima, j) == LastKindBefore(st.maxima, st.minima, j)
  {
    HistoryRecord(st, i, t, j);
  }

  // ---------------------------------------------------------------------------
  // The pass itself, parameterised by the loop body of a revision
  // ---------------------------------------------------------------------------

  /** What one iteration decides for index `i`, given `lastFeature` and
      `lastFeatureIndex`: the kind to record, or `NoExtremum` to skip `i`. */
  type LoopBody = (nat, ExtremaType, nat) -> ExtremaType

  /** A loop body that never records two features of the same kind in a row. */
  ghost predicate GatesRepeats(body: LoopBody) {
    forall i, last, anchor :: body(i, last, anchor) == NoExtremum || body(i, last, anchor) != last
  }

  /** The `for (i = 0; i < n; i++)` loop: clears the lists and lets `body` decide
      every index in turn. */
  function Pass(body: LoopBody, n: nat): (st: ScanState)
    ensures ScanInv(st, n)
    ensures GatesRepeats(body) ==> Alternates(st.maxima, st.minima)
    decreases n
  {
    if n == 0 then Initial
    else
      var prev := Pass(body, n - 1);
      Record(prev, n - 1, body(n - 1, prev.lastFeature, prev.lastFeatureIndex))
  }

  /** Index `i` sits in the list of the kind `body` decides for it, where the history
      `body` sees (last kind and anchor) is read off the lists themselves. */
  predicate RecordsDecision(body: LoopBody, maxima: seq<nat>, minima: seq<nat>, i: nat) {
    var t := body(i, LastKindBefore(maxima, minima, i), Anchor(maxima, minima, i));
    && (i in maxima <==> t == Maxima)
    && (i in minima <==> t == Minima)
  }

  /** After the pass, every inspected index is recorded exactly as the loop body
      decided it, and the history each decision saw can be read off the final lists. */
  lemma {:induction false} PassRecordsDecisions(body: LoopBody, n: nat)
    ensures forall i :: 0 <= i < n ==> RecordsDecision(body, Pass(body, n).maxima, Pass(body, n).minima, i)
    decreases n
  {
    if n > 0 {
      PassRecordsDecisions(body, n - 1);
      var prev := Pass(body, n - 1);
      assert forall i :: 0 <= i < n - 1 ==> RecordsDecision(body, prev.maxima, prev.minima, i);
      RecordStep(body, prev, n - 1);
    }
  }

  /** One iteration keeps every earlier index recorded as decided and records the new one. */
  lemma RecordStep(body: LoopBody, prev: ScanState, m: nat)
    requires ScanInv(prev, m)
    requires forall i :: 0 <= i < m ==> RecordsDecision(body, prev.maxima, prev.minima, i)
    ensures var st := Record(prev, m, body(m, prev.lastFeature, prev.lastFeatureIndex));
            forall i :: 0 <= i <= m ==> RecordsDecision(body, st.maxima, st.minima, i)
  {
    var t := body(m, prev.lastFeature, prev.lastFeatureIndex);
    var st := Record(prev, m, t);
    forall i | 0 <= i <= m
      ensures RecordsDecision(body, st.maxima, st.minima, i)
    {
      if i == m {
        RecordDecidesNewIndex(body, prev, i);
      } else {
        RecordKeepsEarlierDecision(body, prev, m, t, i);
      }
    }
  }

  /** Recording the body's decision for index `i` puts `i` where the decision says. */
  lemma RecordDecidesNewIndex(body: LoopBody, prev: ScanState, i: nat)
    requires ScanInv(prev, i)
    ensures var st := Record(prev, i, body(i, prev.lastFeature, prev.lastFeatureIndex));
            RecordsDecision(body, st.maxima, st.minima, i)
  {
    var t := body(i, prev.lastFeature, prev.lastFeatureIndex);
    var st := Record(prev, i, t);
    RecordEffect(prev, i, t, i);
    HistoryIsLastFeature(prev, i, i);
    assert i !in prev.maxima && i !in prev.minima;
    assert t == body(i, LastKindBefore(st.maxima, st.minima, i), Anchor(st.maxima, st.minima, i));
  }

  /** Recording index `n` leaves the membership of an earlier index, and the history
      its decision saw, where they were. */
  lemma RecordKeepsEarlierDecision(body: LoopBody, prev: ScanState, n: nat, t: ExtremaType, i: nat)
    requires ScanInv(prev, n) && i < n
    requires RecordsDecision(body, prev.maxima, prev.minima, i)
    ensures var st := Record(prev, n, t);
            RecordsDecision(body, st.maxima, st.minima, i)
  {
    var st := Record(prev, n, t);
    RecordEffect(prev, n, t, i);
    assert LastKindBefore(st.maxima, st.minima, i) == LastKindBefore(prev.maxima, prev.minima, i);
    assert Anchor(st.maxima, st.minima, i) == Anchor(prev.maxima, prev.minima, i);
  }

  /** Two loop bodies that decide every index alike drive the pass to the same state:
      the pass depends on a body only through its decisions. */
  lemma {:induction false} PassAgrees(body1: LoopBody, body2: LoopBody, n: nat)
    requires forall i, last, anchor :: body1(i, last, anchor) == body2(i, last, anchor)
    ensures Pass(body1, n) == Pass(body2, n)
    decreases n
  {
    if n > 0 {
      PassAgrees(body1, body2, n - 1);
    }
  }
}
