/**
 * The structural part of dsp/decimation.py: `downsample` (the slice
 * signal[::factor]), the same-length zero-padded `convolve`, the shape of the
 * anti-aliasing window, and `decimate`.
 *
 * The FIR and Hamming coefficients are trigonometric; they are the
 * parameters `firCoefficient(i, count, cutoff)` and `hammingCoefficient(i,
 * count)`. The window's failure cases (the assertions of windows.fir and the
 * division by count - 1 in the cosine window) are modelled.
 */
module Decimation {
  import opened Wrappers
  import opened Sequences

  // ---------------------------------------------------------------------
  // downsample(signal, factor): signal[::factor]
  // ---------------------------------------------------------------------

  /** ceil(n / step) for a positive step. */
  function CeilDiv(n: nat, step: int): nat
    requires step >= 1
  {
    (n + step - 1) / step
  }

  lemma CeilDivBounds(n: nat, step: int, j: int)
    requires step >= 1 && 0 <= j < CeilDiv(n, step)
    ensures 0 <= j * step < n
  {
    var c := CeilDiv(n, step);
    assert c * step <= n + step - 1;
    assert j * step <= (c - 1) * step;
  }

  /** s[::step] for a positive step: every step-th sample from the first. */
  function Every<T>(s: seq<T>, step: int): (r: seq<T>)
    requires step >= 1
    ensures |r| == CeilDiv(|s|, step)
  {
    seq(CeilDiv(|s|, step), j requires 0 <= j < CeilDiv(|s|, step) =>
      CeilDivBounds(|s|, step, j);
      s[j * step])
  }

  lemma EveryAt<T>(s: seq<T>, step: int, j: int)
    requires step >= 1 && 0 <= j < CeilDiv(|s|, step)
    ensures 0 <= j * step < |s| && Every(s, step)[j] == s[j * step]
  {
    CeilDivBounds(|s|, step, j);
  }

  /**
   * signal[::factor]: a zero step raises ValueError; a negative step walks
   * back from the last sample.
   */
  function Downsample<T>(signal: seq<T>, factor: int): (r: Result<seq<T>>)
    ensures r.Err? <==> factor == 0
  {
    if factor == 0 then Err(ZeroSliceStep)
    else if factor > 0 then Ok(Every(signal, factor))
    else Ok(Every(Reverse(signal), -factor))
  }

  /** Every factor-th sample, ceil(n / factor) of them. */
  lemma DownsampleSamples<T>(signal: seq<T>, factor: int)
    requires factor >= 1
    ensures var r := Downsample(signal, factor).value;
      && |r| == (|signal| + factor - 1) / factor
      && forall j :: 0 <= j < |r| ==> 0 <= j * factor < |signal| && r[j] == signal[j * factor]
  {
    forall j | 0 <= j < CeilDiv(|signal|, factor) ensures 0 <= j * factor < |signal| && Every(signal, factor)[j] == signal[j * factor] {
      EveryAt(signal, factor, j);
    }
  }

  /** A negative factor takes every |factor|-th sample counting back from the last. */
  lemma DownsampleBackwards<T>(signal: seq<T>, factor: int)
    requires factor <= -1
    ensures var r := Downsample(signal, factor).value;
      && |r| == (|signal| - factor - 1) / -factor
      && forall j :: 0 <= j < |r| ==> 0 <= |signal| - 1 + j * factor && r[j] == signal[|signal| - 1 + j * factor]
  {
    var r := Downsample(signal, factor).value;
    forall j | 0 <= j < |r| ensures 0 <= |signal| - 1 + j * factor && r[j] == signal[|signal| - 1 + j * factor] {
      EveryAt(Reverse(signal), -factor, j);
      assert j * -factor == -(j * factor);
    }
  }

  /** A factor of 1 keeps the signal. */
  lemma DownsampleByOne<T>(signal: seq<T>)
    ensures Downsample(signal, 1) == Ok(signal)
  {
    DownsampleSamples(signal, 1);
    var r := Every(signal, 1);
    assert |r| == |signal|;
    assert forall j :: 0 <= j < |r| ==> r[j] == signal[j];
    assert r == signal;
  }

  // ---------------------------------------------------------------------
  // convolve(signal, kernel)
  // ---------------------------------------------------------------------

  /** sum(s * k for s, k in zip(a, b)) */
  function Dot(a: seq<real>, b: seq<real>): real {
    if a == [] || b == [] then 0.0 else a[0] * b[0] + Dot(a[1..], b[1..])
  }

  /** [0] * n */
  function Zeros(n: int): (z: seq<real>)
    ensures |z| == if n > 0 then n else 0
    ensures forall k :: 0 <= k < |z| ==> z[k] == 0.0
  {
    if n <= 0 then [] else seq(n, _ => 0.0)
  }

  /** padding + signal + padding, with len(kernel) // 2 zeros on each side. */
  function Padded(signal: seq<real>, kernelLength: nat): (p: seq<real>)
    ensures |p| == |signal| + 2 * (kernelLength / 2)
    ensures forall k :: 0 <= k < |p| ==>
      p[k] == if kernelLength / 2 <= k < kernelLength / 2 + |signal| then signal[k - kernelLength / 2] else 0.0
  {
    var padding := Zeros(kernelLength / 2);
    padding + signal + padding
  }

  /**
   * convolve(signal, kernel): output n is the flipped kernel against the
   * len(kernel) padded samples from n; the output is as long as the signal.
   */
  function Convolve(signal: seq<real>, kernel: seq<real>): (r: seq<real>)
    ensures |r| == |signal|
  {
    var padded := Padded(signal, |kernel|);
    var flipped := Reverse(kernel);
    seq(|signal|, n requires 0 <= n < |signal| => Dot(padded[n..n + |kernel|], flipped))
  }

  /** Every window of the padded signal is full: the sum runs over the whole kernel. */
  lemma ConvolveWindow(signal: seq<real>, kernel: seq<real>, n: int)
    requires 0 <= n < |signal|
    ensures n + |kernel| <= |Padded(signal, |kernel|)|
    ensures Convolve(signal, kernel)[n] == Dot(Padded(signal, |kernel|)[n..n + |kernel|], Reverse(kernel))
  {
  }

  lemma {:induction false} DotUnit(a: seq<real>, b: seq<real>, c: int)
    requires |a| == |b| && 0 <= c < |b| && b[c] == 1.0
    requires forall j :: 0 <= j < |b| && j != c ==> b[j] == 0.0
    ensures Dot(a, b) == a[c]
  {
    if c == 0 {
      DotZero(a[1..], b[1..]);
    } else {
      DotUnit(a[1..], b[1..], c - 1);
    }
  }

  lemma {:induction false} DotZero(a: seq<real>, b: seq<real>)
    requires |a| == |b| && forall j :: 0 <= j < |b| ==> b[j] == 0.0
    ensures Dot(a, b) == 0.0
  {
    if a != [] {
      DotZero(a[1..], b[1..]);
    }
  }

  /** An odd kernel that is 1 in the middle and 0 elsewhere leaves the signal as it is. */
  lemma ConvolveIdentity(signal: seq<real>, kernel: seq<real>)
    requires |kernel| % 2 == 1
    requires kernel[|kernel| / 2] == 1.0
    requires forall j :: 0 <= j < |kernel| && j != |kernel| / 2 ==> kernel[j] == 0.0
    ensures Convolve(signal, kernel) == signal
  {
    var half := |kernel| / 2;
    var padded := Padded(signal, |kernel|);
    forall n | 0 <= n < |signal| ensures Convolve(signal, kernel)[n] == signal[n] {
      ConvolveWindow(signal, kernel, n);
      DotUnit(padded[n..n + |kernel|], Reverse(kernel), half);
    }
  }

  // ---------------------------------------------------------------------
  // anti_aliasing_window and decimate
  // ---------------------------------------------------------------------

  /**
   * anti_aliasing_window(cutoff, order): the FIR window of order + 1 taps
   * times a Hamming window of the same length. windows.fir asserts an odd
   * length and 0 < cutoff < 1; the Hamming window divides by its length - 1
   * and so fails for fewer than two taps.
   */
  function AntiAliasingWindow(cutoff: real, filterOrder: int,
                              firCoefficient: (int, int, real) -> real,
                              hammingCoefficient: (int, int) -> real): (r: Result<seq<real>>)
    ensures r.Ok? <==> filterOrder % 2 == 0 && filterOrder >= 2 && 0.0 < cutoff < 1.0
    ensures r.Ok? ==> |r.value| == filterOrder + 1
  {
    var count := filterOrder + 1;
    if count % 2 == 0 || !(0.0 < cutoff < 1.0) then Err(InvalidFirWindow)
    else
      var taps := if count > 0 then count else 0;
      if taps <= 1 then Err(DivisionByZero)
      else Ok(seq(taps, i => firCoefficient(i, count, cutoff) * hammingCoefficient(i, taps)))
  }

  /** Each tap is the FIR coefficient times the Hamming coefficient. */
  lemma AntiAliasingWindowTaps(cutoff: real, filterOrder: int,
                               firCoefficient: (int, int, real) -> real,
                               hammingCoefficient: (int, int) -> real)
    requires filterOrder % 2 == 0 && filterOrder >= 2 && 0.0 < cutoff < 1.0
    ensures var w := AntiAliasingWindow(cutoff, filterOrder, firCoefficient, hammingCoefficient).value;
      forall i :: 0 <= i < |w| ==>
        w[i] == firCoefficient(i, filterOrder + 1, cutoff) * hammingCoefficient(i, filterOrder + 1)
  {
  }

  /**
   * decimate(signal, factor, order): low-pass filter with cutoff 1 / factor,
   * then keep every factor-th sample.
   */
  function Decimate(signal: seq<real>, factor: int, filterOrder: int,
                    firCoefficient: (int, int, real) -> real,
                    hammingCoefficient: (int, int) -> real): (r: Result<seq<real>>)
  {
    if factor == 0 then Err(DivisionByZero)
    else
      var cutoff := 1.0 / factor as real;
      var window := AntiAliasingWindow(cutoff, filterOrder, firCoefficient, hammingCoefficient);
      if window.Err? then Err(window.error)
      else Downsample(Convolve(signal, window.value), factor)
  }

  /** The cutoff 1 / factor lies strictly between 0 and 1 exactly for factors of at least 2. */
  lemma CutoffInRange(factor: int)
    requires factor != 0
    ensures 0.0 < 1.0 / factor as real < 1.0 <==> factor >= 2
  {
    var f := factor as real;
    if factor >= 2 {
      assert 1.0 / f < 1.0;
    } else if factor == 1 {
      assert 1.0 / f == 1.0;
    } else {
      assert f < 0.0;
      assert 1.0 / f < 0.0;
    }
  }

  /**
   * decimate succeeds exactly for a factor of at least 2 and an even filter
   * order of at least 2, and then keeps ceil(n / factor) filtered samples.
   */
  lemma DecimateShape(signal: seq<real>, factor: int, filterOrder: int,
                      firCoefficient: (int, int, real) -> real,
                      hammingCoefficient: (int, int) -> real)
    ensures var r := Decimate(signal, factor, filterOrder, firCoefficient, hammingCoefficient);
      && (r.Ok? <==> factor >= 2 && filterOrder % 2 == 0 && filterOrder >= 2)
      && (r.Ok? ==> |r.value| == (|signal| + factor - 1) / factor)
  {
    if factor != 0 {
      CutoffInRange(factor);
    }
  }

  /** decimate's default `filter_order`. */
  const DefaultFilterOrder: int := 30

  /**
   * With the default filter order, decimate succeeds exactly for factors of
   * at least 2, and then keeps ceil(n / factor) filtered samples.
   */
  lemma DecimateDefaultOrder(signal: seq<real>, factor: int,
                             firCoefficient: (int, int, real) -> real,
                             hammingCoefficient: (int, int) -> real)
    ensures var r := Decimate(signal, factor, DefaultFilterOrder, firCoefficient, hammingCoefficient);
      && (r.Ok? <==> factor >= 2)
      && (r.Ok? ==> |r.value| == (|signal| + factor - 1) / factor)
  {
    DecimateShape(signal, factor, DefaultFilterOrder, firCoefficient, hammingCoefficient);
  }

  /** The decimated samples are every factor-th sample of the filtered signal. */
  lemma DecimateSamples(signal: seq<real>, factor: int, filterOrder: int,
                        firCoefficient: (int, int, real) -> real,
                        hammingCoefficient: (int, int) -> real)
    requires factor >= 2 && filterOrder % 2 == 0 && filterOrder >= 2
    ensures var window := AntiAliasingWindow(1.0 / factor as real, filterOrder, firCoefficient, hammingCoefficient);
            var r := Decimate(signal, factor, filterOrder, firCoefficient, hammingCoefficient);
      && window.Ok? && r.Ok?
      && forall j :: 0 <= j < |r.value| ==> 0 <= j * factor < |signal| && r.value[j] == Convolve(signal, window.value)[j * factor]
  {
    CutoffInRange(factor);
    var window := AntiAliasingWindow(1.0 / factor as real, filterOrder, firCoefficient, hammingCoefficient);
    DownsampleSamples(Convolve(signal, window.value), factor);
  }
}
