/**
  `WrapAroundDetector` (SignalProcessing/WrapAroundDetection.cs): an online
  classifier for a quantity that wraps from `maxValue` back to 0. Each call to
  `Run` compares the new value with the previous one; a jump whose wrapped
  distance is shorter than its direct distance is reported as a wrap.
 */
module WrapAround {

  datatype WrapType = None | ForwardWrap | ReverseWrap

  /** The detector's state: the `MaxValue` property, the value remembered from the
      previous call, and the `Result` property. */
  datatype Detector = Detector(maxValue: real, prevValue: real, result: WrapType)

  /** `new WrapAroundDetector(maxValue)`: the previous value starts at 0 and `Result`
      at the enum's default, `None`. */
  function New(maxValue: real): (d: Detector)
    ensures d.maxValue == maxValue && d.prevValue == 0.0 && d.result == None
  {
    Detector(maxValue, 0.0, None)
  }

  /** The `MaxValue` setter; the remembered value and `Result` are kept. */
  function SetMaxValue(d: Detector, maxValue: real): (r: Detector)
    ensures r.maxValue == maxValue
    ensures r.prevValue == d.prevValue && r.result == d.result
  {
    d.(maxValue := maxValue)
  }

  /** The comparison `Run` makes: a rise is a reverse wrap when going down through 0
      and back from `maxValue` is shorter, and a fall (or no change) is a forward wrap
      when going up through `maxValue` and on from 0 is shorter. Put otherwise, a
      rise or fall of more than half of `maxValue` is a wrap. */
  function Classify(prev: real, maxValue: real, value: real): (r: WrapType)
    ensures r == ReverseWrap <==> value > prev && 2.0 * (value - prev) > maxValue
    ensures r == ForwardWrap <==> value <= prev && 2.0 * (prev - value) > maxValue
  {
    if value > prev then
      var direct := value - prev;
      var wrapped := prev + (maxValue - value);
      if wrapped < direct then ReverseWrap else None
    else
      var direct := prev - value;
      var wrapped := value + (maxValue - prev);
      if wrapped < direct then ForwardWrap else None
  }

  /** `Run(value)`: classifies the step from the remembered value to `value`, then
      remembers `value` and stores the verdict in `Result`, which it also returns. */
  function Run(d: Detector, value: real): (r: (Detector, WrapType))
    ensures r.0.prevValue == value && r.0.result == r.1 && r.0.maxValue == d.maxValue
    ensures value > d.prevValue ==>
              r.1 != ForwardWrap
              && (r.1 == ReverseWrap <==> d.prevValue + (d.maxValue - value) < value - d.prevValue)
    ensures value <= d.prevValue ==>
              r.1 != ReverseWrap
              && (r.1 == ForwardWrap <==> value + (d.maxValue - d.prevValue) < d.prevValue - value)
  {
    var t := Classify(d.prevValue, d.maxValue, value);
    (Detector(d.maxValue, value, t), t)
  }

  /** Repeating the previous value is never a wrap, as long as `maxValue` is not negative. */
  lemma RepeatIsNone(d: Detector)
    requires d.maxValue >= 0.0
    ensures Run(d, d.prevValue).1 == None
  {
  }

  /** Mirroring the range (`x` to `maxValue - x`) turns every forward wrap into a
      reverse wrap and back, for any step that changes the value. */
  lemma Mirror(prev: real, maxValue: real, value: real)
    requires value != prev
    ensures Classify(prev, maxValue, value) == ForwardWrap
        <==> Classify(maxValue - prev, maxValue, maxValue - value) == ReverseWrap
    ensures Classify(prev, maxValue, value) == ReverseWrap
        <==> Classify(maxValue - prev, maxValue, maxValue - value) == ForwardWrap
  {
  }

  /** Calling `Run` on each value in turn; the verdicts in call order. */
  function RunAll(d: Detector, values: seq<real>): (r: (Detector, seq<WrapType>))
    ensures |r.1| == |values|
    ensures r.0.maxValue == d.maxValue
    ensures |values| > 0 ==> r.0.prevValue == values[|values| - 1] && r.0.result == r.1[|values| - 1]
    ensures |values| == 0 ==> r.0 == d
    decreases |values|
  {
    if |values| == 0 then (d, [])
    else
      var (d', t) := Run(d, values[0]);
      var (e, ts) := RunAll(d', values[1..]);
      assert |values| > 1 ==> values[1..][|values[1..]| - 1] == values[|values| - 1];
      (e, [t] + ts)
  }

  /** Online, each verdict compares a value with the one just before it, and the
      first value with the remembered one (0 for a fresh detector). */
  lemma {:induction false} RunAllComparesNeighbours(d: Detector, values: seq<real>)
    ensures var ts := RunAll(d, values).1;
            forall k :: 0 <= k < |values| ==>
              ts[k] == Classify(if k == 0 then d.prevValue else values[k - 1], d.maxValue, values[k])
    decreases |values|
  {
    if |values| > 0 {
      var d' := Run(d, values[0]).0;
      RunAllComparesNeighbours(d', values[1..]);
      var ts := RunAll(d, values).1;
      forall k | 0 <= k < |values|
        ensures ts[k] == Classify(if k == 0 then d.prevValue else values[k - 1], d.maxValue, values[k])
      {
        if k > 0 {
          assert ts[k] == RunAll(d', values[1..]).1[k - 1];
          assert values[1..][k - 1] == values[k];
          if k > 1 {
            assert values[1..][k - 2] == values[k - 1];
          }
        }
      }
    }
  }
}
