/**
 * Class `Spline<T>` for scalar (`float`) values: the value array, the
 * cumulative section lengths and normalised weights computed by `Refresh`,
 * the sample window chosen by `SetSamples`, and sampling by ratio or by
 * distance.
 */
module Splines {
  import opened Wrappers
  import opened SplineMath
  import opened Numerics

  /** Mathf.Clamp on integers. */
  function ClampInt(v: int, lo: int, hi: int): (r: int)
    ensures lo <= hi ==> lo <= r <= hi
    ensures lo <= v <= hi ==> r == v
  {
    if v < lo then lo else if v > hi then hi else v
  }

  /** C# integer division `a / 3`, which truncates toward zero. */
  function TruncDiv3(a: int): (q: int)
    ensures a >= 0 ==> q * 3 <= a < q * 3 + 3
    ensures a < 0 ==> q * 3 - 3 < a <= q * 3
  {
    if a >= 0 then a / 3 else -((-a) / 3)
  }

  /**
   * The value indices SetSamples copies into the sample window, in window order.
   * BezierCubic first divides the index by three; every index is clamped into
   * [0, len-1].
   */
  function SampleIndices(t: SplineType, len: int, index: int): (ix: seq<int>)
    requires len >= 1
    ensures |ix| == (if t == LinearSpline then 2 else 4)
    ensures forall k :: 0 <= k < |ix| ==> 0 <= ix[k] < len
  {
    var q := if t == BezierCubicSpline then TruncDiv3(index) else index;
    var p := ClampInt(q, 0, len - 1);
    var pp1 := if p + 1 < len - 1 then p + 1 else len - 1;
    var pm1 := if p - 1 > 0 then p - 1 else 0;
    var pp2 := if p + 2 < len - 1 then p + 2 else len - 1;
    var pp3 := if p + 3 < len - 1 then p + 3 else len - 1;
    match t
    case LinearSpline => [p, pp1]
    case CatmullSpline => [pm1, p, pp1, pp2]
    case BezierCubicSpline => [p, pp1, pp2, pp3]
  }

  /** Away from the ends, the window is exactly the neighbourhood the sampling method needs. */
  lemma SampleIndicesInterior(t: SplineType, len: int, index: int)
    requires len >= 1
    ensures t == LinearSpline && 0 <= index && index + 1 < len ==>
              SampleIndices(t, len, index) == [index, index + 1]
    ensures t == CatmullSpline && 1 <= index && index + 2 < len ==>
              SampleIndices(t, len, index) == [index - 1, index, index + 1, index + 2]
    ensures t == BezierCubicSpline && 0 <= index && index / 3 + 3 < len ==>
              SampleIndices(t, len, index) == [index / 3, index / 3 + 1, index / 3 + 2, index / 3 + 3]
  {
  }

  /** Cumulative sums: ps[0] = 0 and ps[i+1] = ps[i] + ds[i]. */
  function PrefixSums(ds: seq<real>): (ps: seq<real>)
    ensures |ps| == |ds| + 1
    ensures ps[0] == 0.0
  {
    if ds == [] then [0.0]
    else
      var init := PrefixSums(ds[..|ds| - 1]);
      init + [init[|init| - 1] + ds[|ds| - 1]]
  }

  /** Each cumulative sum adds one step to the previous one. */
  lemma {:induction false} PrefixSumsStep(ds: seq<real>, i: nat)
    requires i < |ds|
    ensures PrefixSums(ds)[i + 1] == PrefixSums(ds)[i] + ds[i]
  {
    if i + 1 < |ds| {
      PrefixSumsStep(ds[..|ds| - 1], i);
      assert PrefixSums(ds)[..|ds|] == PrefixSums(ds[..|ds| - 1]);
      assert ds[..|ds| - 1][i] == ds[i];
    }
  }

  /** A prefix of the steps gives a prefix of the sums. */
  lemma {:induction false} PrefixSumsPrefix(ds: seq<real>, k: nat)
    requires k <= |ds|
    ensures PrefixSums(ds[..k]) == PrefixSums(ds)[..k + 1]
    decreases |ds|
  {
    if k < |ds| {
      PrefixSumsPrefix(ds[..|ds| - 1], k);
      assert ds[..|ds| - 1][..k] == ds[..k];
      assert PrefixSums(ds)[..|ds|] == PrefixSums(ds[..|ds| - 1]);
    } else {
      assert ds[..k] == ds;
    }
  }

  /** With non-negative steps the cumulative lengths never decrease. */
  lemma {:induction false} PrefixSumsMonotone(ds: seq<real>, i: nat, j: nat)
    requires forall k :: 0 <= k < |ds| ==> ds[k] >= 0.0
    requires i <= j <= |ds|
    ensures 0.0 <= PrefixSums(ds)[i] <= PrefixSums(ds)[j]
    decreases j
  {
    if j > 0 {
      var i' := if i < j then i else j - 1;
      PrefixSumsMonotone(ds, i', j - 1);
      PrefixSumsStep(ds, j - 1);
    }
  }

  /** Cumulative sums of non-negative steps lie between 0 and the last one. */
  lemma PrefixSumsBounded(ds: seq<real>)
    requires forall k :: 0 <= k < |ds| ==> ds[k] >= 0.0
    ensures forall i, j :: 0 <= i <= j < |ds| + 1 ==>
      0.0 <= PrefixSums(ds)[i] <= PrefixSums(ds)[j] <= PrefixSums(ds)[|ds|]
  {
    forall i, j | 0 <= i <= j < |ds| + 1
      ensures 0.0 <= PrefixSums(ds)[i] <= PrefixSums(ds)[j] <= PrefixSums(ds)[|ds|]
    {
      PrefixSumsMonotone(ds, i, j);
      PrefixSumsMonotone(ds, j, |ds|);
    }
  }

  /** weights[i] = lengths[i] / length, or 0 everywhere when length <= 0. */
  function Normalize(ls: seq<real>, total: real): (ws: seq<real>)
    ensures |ws| == |ls|
    ensures total <= 0.0 ==> forall i :: 0 <= i < |ws| ==> ws[i] == 0.0
    ensures total > 0.0 ==> forall i :: 0 <= i < |ws| ==> ws[i] * total == ls[i]
  {
    seq(|ls|, i requires 0 <= i < |ls| => if total <= 0.0 then 0.0 else ls[i] / total)
  }

  /** A part of a positive whole, divided by the whole, lies in [0, 1]; the whole gives 1. */
  lemma DivInUnit(x: real, total: real)
    requires 0.0 <= x <= total && total > 0.0
    ensures 0.0 <= x / total <= 1.0
    ensures x == total ==> x / total == 1.0
  {
  }

  /** Lengths within [0, total] normalise into [0, 1], and the total itself to 1. */
  lemma NormalizeInUnit(ls: seq<real>, total: real)
    requires forall i :: 0 <= i < |ls| ==> 0.0 <= ls[i] <= total
    ensures forall i :: 0 <= i < |ls| ==> 0.0 <= Normalize(ls, total)[i] <= 1.0
    ensures total > 0.0 && |ls| > 0 && ls[|ls| - 1] == total ==> Normalize(ls, total)[|ls| - 1] == 1.0
  {
    var ws := Normalize(ls, total);
    forall i | 0 <= i < |ls|
      ensures 0.0 <= ws[i] <= 1.0
    {
      if total > 0.0 {
        DivInUnit(ls[i], total);
      }
    }
    if total > 0.0 && |ls| > 0 {
      DivInUnit(ls[|ls| - 1], total);
    }
  }

  /**
   * The weight search of GetNormalized: the first index k >= i whose weight
   * reaches r, or 0 when none does.
   */
  function FirstReaching(ws: seq<real>, r: real, i: nat): (k: nat)
    requires i >= 1
    ensures k == 0 || (i <= k < |ws| && ws[k] >= r)
    ensures forall j :: i <= j < |ws| && (k == 0 || j < k) ==> ws[j] < r
    decreases |ws| - i
  {
    if i >= |ws| then 0
    else if ws[i] >= r then i
    else FirstReaching(ws, r, i + 1)
  }

  /**
   * Spline<float>. `measure(values, r0, r1)` stands for MeasureStep: the length of
   * the curve through `values` between ratios r0 and r1.
   */
  class Spline {
    var vals: array<real>
    var lengths: array<real>
    var weights: array<real>
    var samples: array<real>
    var length: real
    var precision: real
    var kind: SplineType
    const measure: (seq<real>, real, real) -> real

    ghost predicate Valid()
      reads this
    {
      && lengths.Length == vals.Length
      && weights.Length == vals.Length
      && samples.Length == 8
      && vals != lengths && vals != weights && vals != samples
      && lengths != weights && lengths != samples && weights != samples
    }

    /** The section lengths Refresh measures: one per pair of consecutive values. */
    ghost function Steps(vs: seq<real>): (ds: seq<real>)
      requires |vs| >= 1
      ensures |ds| == |vs| - 1
    {
      seq(|vs| - 1, k requires 0 <= k < |vs| - 1 => StepLength(vs, k))
    }

    /** The measured length of section k, between ratios k/(n-1) and (k+1)/(n-1). */
    function StepLength(vs: seq<real>, k: int): real
      requires |vs| >= 2
    {
      var step := 1.0 / ((|vs| as real) - 1.0);
      measure(vs, (k as real) * step, ((k + 1) as real) * step)
    }

    /** The state Refresh establishes for the current values. */
    ghost predicate Refreshed()
      reads this, vals, lengths, weights
      requires Valid()
    {
      if vals.Length == 0 then length == 0.0
      else
        && lengths[..] == PrefixSums(Steps(vals[..]))
        && length == lengths[vals.Length - 1]
        && weights[..] == Normalize(lengths[..], length)
    }

    /** new Spline(type, length, precision): zeroed arrays, length 0, no Refresh. */
    constructor (t: SplineType, n: nat, p: real, m: (seq<real>, real, real) -> real)
      ensures Valid() && fresh(vals) && fresh(lengths) && fresh(weights) && fresh(samples)
      ensures vals[..] == seq(n, _ => 0.0) && weights[..] == seq(n, _ => 0.0)
      ensures length == 0.0 && precision == p && kind == t && measure == m
    {
      vals := new real[n](_ => 0.0);
      weights := new real[n](_ => 0.0);
      lengths := new real[n](_ => 0.0);
      samples := new real[8](_ => 0.0);
      precision := p;
      kind := t;
      measure := m;
      length := 0.0;
    }

    /** Recomputes lengths, total length and weights from the current values. */
    method Refresh()
      requires Valid()
      modifies this`length, lengths, weights
      ensures Valid() && Refreshed()
    {
      length := 0.0;
      var n := vals.Length;
      if n <= 0 {
        return;
      }
      lengths[0] := 0.0;
      weights[0] := 0.0;
      if n <= 1 {
        assert lengths[..] == PrefixSums(Steps(vals[..]));
        assert weights[..] == Normalize(lengths[..], length);
        return;
      }
      MeasureLengths();
      NormalizeWeights();
    }

    /** The length loop of Refresh: cumulative measured lengths and their total. */
    method MeasureLengths()
      requires Valid() && vals.Length >= 2
      modifies this`length, lengths
      ensures lengths[..] == PrefixSums(Steps(vals[..]))
      ensures length == lengths[vals.Length - 1]
    {
      var n := vals.Length;
      var vs := vals[..];
      ghost var ds := Steps(vs);
      ghost var ps := PrefixSums(ds);
      length := 0.0;
      lengths[0] := 0.0;
      for i := 1 to n
        invariant forall k :: 0 <= k < i ==> lengths[k] == ps[k]
        invariant length == ps[i - 1]
      {
        PrefixSumsStep(ds, i - 1);
        length := length + StepLength(vs, i - 1);
        lengths[i] := length;
      }
      assert lengths[..] == ps;
    }

    /** The weight loop of Refresh. */
    method NormalizeWeights()
      requires Valid()
      modifies weights
      ensures weights[..] == Normalize(lengths[..], length)
    {
      ghost var ws := Normalize(lengths[..], length);
      for i := 0 to weights.Length
        invariant weights[..i] == ws[..i]
      {
        weights[i] := if length <= 0.0 then 0.0 else lengths[i] / length;
      }
      assert weights[..] == weights[..weights.Length];
    }

    /** Refresh's guarantees on lengths and weights, for a non-negative measure. */
    lemma RefreshedShape()
      requires Valid() && Refreshed() && vals.Length >= 1
      requires forall vs: seq<real>, a: real, b: real :: measure(vs, a, b) >= 0.0
      ensures lengths[0] == 0.0 && weights[0] == 0.0
      ensures forall i, j :: 0 <= i <= j < vals.Length ==> 0.0 <= lengths[i] <= lengths[j] <= length
      ensures length > 0.0 ==> weights[vals.Length - 1] == 1.0
      ensures forall i :: 0 <= i < vals.Length ==> 0.0 <= weights[i] <= 1.0
    {
      var ds := Steps(vals[..]);
      PrefixSumsBounded(ds);
      NormalizeInUnit(lengths[..], length);
    }

    /** The `values` setter: null is an empty list; fresh value, length and weight arrays; then Refresh. */
    method SetValues(value: array?<real>)
      requires Valid()
      modifies this
      ensures Valid() && Refreshed()
      ensures vals[..] == (if value == null then [] else old(value[..]))
      ensures fresh(vals) && fresh(lengths) && fresh(weights) && samples == old(samples)
      ensures kind == old(kind) && precision == old(precision)
    {
      var l: seq<real> := if value == null then [] else value[..];
      vals := CopyOf(l);
      lengths := new real[|l|](_ => 0.0);
      weights := new real[|l|](_ => 0.0);
      Refresh();
    }

    /** A fresh array holding `l`. */
    static method CopyOf(l: seq<real>) returns (v: array<real>)
      ensures fresh(v) && v[..] == l
    {
      v := new real[|l|](_ => 0.0);
      for i := 0 to |l|
        invariant v[..i] == l[..i]
      {
        v[i] := l[i];
      }
      assert v[..] == v[..|l|];
    }

    /** Resize(n): n values, the first min(n, old length) kept, the rest zero. */
    method Resize(n: nat)
      requires Valid()
      modifies this
      ensures Valid() && Refreshed()
      ensures vals.Length == n
      ensures forall i :: 0 <= i < n && i < old(vals.Length) ==> vals[i] == old(vals[i])
      ensures forall i :: old(vals.Length) <= i < n ==> vals[i] == 0.0
      ensures kind == old(kind) && samples == old(samples)
    {
      var nl := new real[n](_ => 0.0);
      var len := if n < vals.Length then n else vals.Length;
      for i := 0 to len
        modifies nl
        invariant forall k :: 0 <= k < i ==> nl[k] == vals[k]
        invariant forall k :: len <= k < n ==> nl[k] == 0.0
      {
        nl[i] := vals[i];
      }
      SetValues(nl);
    }

    /** The sample window for `index`, as SetSamples fills it. */
    ghost function Window(index: int): (w: seq<real>)
      reads this, vals
      requires Valid() && vals.Length >= 1
      ensures |w| == (if kind == LinearSpline then 2 else 4)
    {
      var ix := SampleIndices(kind, vals.Length, index);
      if kind == LinearSpline then [vals[ix[0]], vals[ix[1]]]
      else [vals[ix[0]], vals[ix[1]], vals[ix[2]], vals[ix[3]]]
    }

    /** SetSamples: copies the clamped neighbourhood of `index` into the sample window. */
    method SetSamples(index: int)
      requires Valid() && vals.Length >= 1
      modifies samples
      ensures samples[..|Window(index)|] == Window(index)
      ensures samples[|Window(index)|..] == old(samples[|Window(index)|..])
    {
      var ix := SampleIndices(kind, vals.Length, index);
      samples[0] := vals[ix[0]];
      samples[1] := vals[ix[1]];
      if kind != LinearSpline {
        samples[2] := vals[ix[2]];
        samples[3] := vals[ix[3]];
      }
    }

    /** The weight search of GetNormalized, over the weights array. */
    method SegmentOf(r: real) returns (p: int)
      requires Valid()
      ensures p == FirstReaching(weights[..], r, 1)
    {
      p := 0;
      var i := 1;
      while i < weights.Length
        invariant 1 <= i
        invariant FirstReaching(weights[..], r, 1) == FirstReaching(weights[..], r, i)
      {
        if weights[i] >= r {
          return i;
        }
        i := i + 1;
      }
    }

    /** The local ratio within segment [i0, i1]: clamped to [0,1], and 1 when the weights coincide. */
    static function LocalRatio(r: real, w0: real, w1: real): (t: real)
      ensures 0.0 <= t <= 1.0
      ensures w1 == w0 ==> t == 1.0
      ensures w0 < w1 && w0 <= r <= w1 ==> t * (w1 - w0) == r - w0
    {
      var dw := w1 - w0;
      Clamp01(if (if dw < 0.0 then -dw else dw) <= 0.0 then 1.0 else (r - w0) / dw)
    }

    /**
     * Where GetNormalized samples for a spline of two or more values: the window
     * index and the ratio within it. Without weights the raw ratio picks
     * (int)((n-1)*ratio) and its fractional part; with weights the clamped ratio
     * picks the segment ending at the first weight that reaches it.
     */
    ghost function Plan(ratio: real, useWeights: bool): (plan: (int, real))
      reads this, weights
      requires Valid() && vals.Length >= 2
      ensures useWeights ==> 0 <= plan.0 < vals.Length && 0.0 <= plan.1 <= 1.0
      ensures !useWeights ==> 0.0 <= plan.1 < 1.0
    {
      var n := vals.Length;
      if !useWeights then
        var p := ((n - 1) as real) * ratio;
        (TruncToInt(p), p - (p.Floor as real))
      else
        var r := Clamp01(ratio);
        var p := FirstReaching(weights[..], r, 1);
        var i0 := ClampInt(p - 1, 0, n - 1);
        var i1 := ClampInt(p, 0, n - 1);
        (i0, LocalRatio(r, weights[i0], weights[i1]))
    }

    /**
     * GetNormalized: None for an empty spline (the source indexes v[0] and fails),
     * the single value for one value, otherwise the curve through the window of
     * Plan's index at Plan's ratio.
     */
    method GetNormalized(ratio: real, useWeights: bool) returns (v: Option<real>)
      requires Valid()
      modifies samples
      ensures vals.Length == 0 <==> v == None
      ensures vals.Length == 1 ==> v == Some(vals[0])
      ensures vals.Length >= 2 ==>
        var plan := Plan(ratio, useWeights);
        samples[..|Window(plan.0)|] == Window(plan.0)
        && v == Some(Lerp(kind, plan.1, samples[..]))
    {
      var n := vals.Length;
      if n <= 1 {
        if n == 0 {
          return None;
        }
        return Some(vals[0]);
      }
      var x;
      if !useWeights {
        x := SampleUniform(ratio);
      } else {
        x := SampleWeighted(ratio);
      }
      v := Some(x);
    }

    /** The unweighted branch of GetNormalized. */
    method SampleUniform(ratio: real) returns (x: real)
      requires Valid() && vals.Length >= 2
      modifies samples
      ensures var plan := Plan(ratio, false);
        samples[..|Window(plan.0)|] == Window(plan.0) && x == Lerp(kind, plan.1, samples[..])
    {
      var len := vals.Length - 1;
      var p := (len as real) * ratio;
      var f := p - (p.Floor as real);
      var index := TruncToInt(p);
      assert p == ((vals.Length - 1) as real) * ratio;
      assert Plan(ratio, false).0 == index;
      assert Plan(ratio, false).1 == f;
      SetSamples(index);
      x := Lerp(kind, f, samples[..]);
    }

    /** The weighted branch of GetNormalized. */
    method SampleWeighted(ratio: real) returns (x: real)
      requires Valid() && vals.Length >= 2
      modifies samples
      ensures var plan := Plan(ratio, true);
        samples[..|Window(plan.0)|] == Window(plan.0) && x == Lerp(kind, plan.1, samples[..])
    {
      var n := vals.Length;
      var r := Clamp01(ratio);
      var p := SegmentOf(r);
      var i0 := ClampInt(p - 1, 0, n - 1);
      var i1 := ClampInt(p, 0, n - 1);
      var t := LocalRatio(r, weights[i0], weights[i1]);
      SetSamples(i0);
      x := Lerp(kind, t, samples[..]);
    }

    /** Get(distance): samples at distance clamped to [0, length], ratio 0 when length <= 0. */
    method Get(distance: real) returns (v: Option<real>)
      requires Valid()
      modifies samples
      ensures vals.Length == 0 <==> v == None
      ensures vals.Length == 1 ==> v == Some(vals[0])
      ensures vals.Length >= 2 ==>
        var plan := Plan(if length <= 0.0 then 0.0 else ClampReal(distance, 0.0, length) / length, true);
        samples[..|Window(plan.0)|] == Window(plan.0)
        && v == Some(Lerp(kind, plan.1, samples[..]))
    {
      var d := ClampReal(distance, 0.0, length);
      v := GetNormalized(if length <= 0.0 then 0.0 else d / length, true);
    }

    /** The ratio Get hands to GetNormalized lies in [0,1] whenever the length is positive. */
    static lemma GetRatioInUnit(distance: real, total: real)
      requires total > 0.0
      ensures 0.0 <= ClampReal(distance, 0.0, total) / total <= 1.0
    {
      var d := ClampReal(distance, 0.0, total);
      assert d / total * total == d;
    }
  }
}
