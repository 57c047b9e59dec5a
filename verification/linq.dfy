/**
  The four LINQ sequence operators the detector relies on (Enumerable.Skip,
  Enumerable.Take, Enumerable.Max and Enumerable.Min), with the edge cases
  .NET gives them: a non-positive count skips or takes nothing, and a count
  past the end stops at the end instead of failing.
 */
module Linq {

  /** How many elements a count of `k` actually addresses in a sequence of length `n`. */
  function Clamp(k: int, n: nat): (c: nat)
    ensures c <= n
    ensures k <= 0 ==> c == 0
    ensures k >= n ==> c == n
    ensures 0 <= k <= n ==> c == k
  {
    if k <= 0 then 0 else if k >= n then n else k
  }

  /** `s.Skip(k)`: drops the first `k` elements, none when `k <= 0`, all when `k >= |s|`. */
  function Skip<T>(s: seq<T>, k: int): (r: seq<T>)
    ensures |r| == |s| - Clamp(k, |s|)
    ensures forall j :: 0 <= j < |r| ==> r[j] == s[Clamp(k, |s|) + j]
  {
    if k <= 0 then s else if k >= |s| then [] else s[k..]
  }

  /** `s.Take(k)`: keeps the first `k` elements, none when `k <= 0`, all when `k >= |s|`. */
  function Take<T>(s: seq<T>, k: int): (r: seq<T>)
    ensures |r| == Clamp(k, |s|)
    ensures forall j :: 0 <= j < |r| ==> r[j] == s[j]
  {
    if k <= 0 then [] else if k >= |s| then s else s[..k]
  }

  /** `s.Skip(k).Take(m)` is the contiguous slice that starts where Skip stops. */
  lemma SkipTakeSlice<T>(s: seq<T>, k: int, m: int)
    ensures Take(Skip(s, k), m)
         == s[Clamp(k, |s|)..Clamp(k, |s|) + Clamp(m, |s| - Clamp(k, |s|))]
  {
    var lo := Clamp(k, |s|);
    var r := Take(Skip(s, k), m);
    var slice := s[lo..lo + Clamp(m, |s| - lo)];
    assert |r| == |slice|;
    forall j | 0 <= j < |r|
      ensures r[j] == slice[j]
    {
      assert r[j] == Skip(s, k)[j];
    }
  }

  /** `s.Max()` on a non-empty sequence: an upper bound that is one of the elements. */
  function Max(s: seq<real>): (m: real)
    requires |s| > 0
    ensures forall j :: 0 <= j < |s| ==> s[j] <= m
    ensures exists j :: 0 <= j < |s| && s[j] == m
  {
    if |s| == 1 then s[0]
    else
      var rest := Max(s[..|s| - 1]);
      assert forall j :: 0 <= j < |s| - 1 ==> s[..|s| - 1][j] == s[j];
      if s[|s| - 1] > rest then s[|s| - 1] else rest
  }

  /** `s.Min()` on a non-empty sequence: a lower bound that is one of the elements. */
  function Min(s: seq<real>): (m: real)
    requires |s| > 0
    ensures forall j :: 0 <= j < |s| ==> m <= s[j]
    ensures exists j :: 0 <= j < |s| && s[j] == m
  {
    if |s| == 1 then s[0]
    else
      var rest := Min(s[..|s| - 1]);
      assert forall j :: 0 <= j < |s| - 1 ==> s[..|s| - 1][j] == s[j];
      if s[|s| - 1] < rest then s[|s| - 1] else rest
  }

  /** A sample of a slice is the slice's `Max()` exactly when no sample of the slice exceeds it. */
  lemma MaxOfSlice(s: seq<real>, lo: nat, hi: nat, i: nat)
    requires lo <= i < hi <= |s|
    ensures s[i] == Max(s[lo..hi]) <==> forall j :: lo <= j < hi ==> s[j] <= s[i]
  {
    var w := s[lo..hi];
    assert w[i - lo] == s[i];
    assert forall j :: lo <= j < hi ==> w[j - lo] == s[j];
    var k :| 0 <= k < |w| && w[k] == Max(w);
    assert s[lo + k] == w[k];
  }

  /** A sample of a slice is the slice's `Min()` exactly when no sample of the slice is below it. */
  lemma MinOfSlice(s: seq<real>, lo: nat, hi: nat, i: nat)
    requires lo <= i < hi <= |s|
    ensures s[i] == Min(s[lo..hi]) <==> forall j :: lo <= j < hi ==> s[i] <= s[j]
  {
    var w := s[lo..hi];
    assert w[i - lo] == s[i];
    assert forall j :: lo <= j < hi ==> w[j - lo] == s[j];
    var k :| 0 <= k < |w| && w[k] == Min(w);
    assert s[lo + k] == w[k];
  }

  /** The `Min()` of a non-empty slice is at most `x` exactly when some sample of it is. */
  lemma MinAtMost(s: seq<real>, lo: nat, hi: nat, x: real)
    requires lo < hi <= |s|
    ensures Min(s[lo..hi]) <= x <==> exists j :: lo <= j < hi && s[j] <= x
  {
    var w := s[lo..hi];
    assert forall j :: lo <= j < hi ==> w[j - lo] == s[j];
    var k :| 0 <= k < |w| && w[k] == Min(w);
    assert s[lo + k] == w[k];
  }

  /** The `Max()` of a non-empty slice is at least `x` exactly when some sample of it is. */
  lemma MaxAtLeast(s: seq<real>, lo: nat, hi: nat, x: real)
    requires lo < hi <= |s|
    ensures Max(s[lo..hi]) >= x <==> exists j :: lo <= j < hi && s[j] >= x
  {
    var w := s[lo..hi];
    assert forall j :: lo <= j < hi ==> w[j - lo] == s[j];
    var k :| 0 <= k < |w| && w[k] == Max(w);
    assert s[lo + k] == w[k];
  }
}
