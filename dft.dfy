/**
 * The integer and structural part of dsp/dft.py: the power-of-two test and
 * round-up, zero padding, the length handling of `fft`, the recursive
 * structure of its radix-2 Cooley-Tukey core, the framing of `stft`, the
 * elementwise product and the two bin-centre axes.
 *
 * Complex numbers are pairs of reals with exact arithmetic. The twiddle
 * factor exp(-2j * pi * k / count) is the parameter `twiddle`, so every
 * statement about Cooley-Tukey holds whatever its values are.
 */
module Dft {
  import opened Wrappers

  // ---------------------------------------------------------------------
  // Powers of two, with Python's integer bit operations
  // ---------------------------------------------------------------------

  function Pow2(k: nat): (p: nat)
    ensures p >= 1
  {
    if k == 0 then 1 else 2 * Pow2(k - 1)
  }

  ghost predicate IsPow2(n: int) {
    exists k: nat :: Pow2(k) == n
  }

  /** Python's `a & b` on arbitrary-precision two's-complement integers. */
  function BitAnd(a: int, b: int): int
    decreases if a >= 0 then a else -1 - a
  {
    if a == 0 || b == 0 then 0
    else if a == -1 then b
    else if b == -1 then a
    else 2 * BitAnd(a / 2, b / 2) + (if a % 2 == 1 && b % 2 == 1 then 1 else 0)
  }

  /** _is_power_of_two(number): number != 0 and number & (number - 1) == 0 */
  predicate IsPowerOfTwo(number: int) {
    number != 0 && BitAnd(number, number - 1) == 0
  }

  lemma {:induction false} BitAndSelf(a: int)
    ensures BitAnd(a, a) == a
    decreases if a >= 0 then a else -1 - a
  {
    if a != 0 && a != -1 {
      BitAndSelf(a / 2);
    }
  }

  /** The bits of two negative numbers share infinitely many ones. */
  lemma {:induction false} BitAndNegative(a: int, b: int)
    requires a < 0 && b < 0
    ensures BitAnd(a, b) < 0
    decreases -1 - a
  {
    if a != -1 && b != -1 {
      BitAndNegative(a / 2, b / 2);
    }
  }

  lemma {:induction false} PowerOfTwoPasses(k: nat)
    ensures IsPowerOfTwo(Pow2(k))
  {
    if k > 0 {
      PowerOfTwoPasses(k - 1);
      var m := Pow2(k - 1);
      assert (2 * m) / 2 == m && (2 * m - 1) / 2 == m - 1 && (2 * m) % 2 == 0;
    }
  }

  lemma {:induction false} PassesIsPowerOfTwo(n: int)
    requires IsPowerOfTwo(n)
    ensures IsPow2(n)
    decreases if n >= 0 then n else 0
  {
    if n < 0 {
      BitAndNegative(n, n - 1);
    } else if n == 1 {
      assert Pow2(0) == n;
    } else if n % 2 == 1 {
      BitAndSelf(n / 2);
    } else {
      var m := n / 2;
      assert BitAnd(n, n - 1) == 2 * BitAnd(m, m - 1);
      PassesIsPowerOfTwo(m);
      var k: nat :| Pow2(k) == m;
      assert Pow2(k + 1) == n;
    }
  }

  /** The bit test accepts exactly the powers of two, negative numbers and 0 included. */
  lemma IsPowerOfTwoCorrect(n: int)
    ensures IsPowerOfTwo(n) <==> IsPow2(n)
  {
    if IsPowerOfTwo(n) {
      PassesIsPowerOfTwo(n);
    }
    if IsPow2(n) {
      var k: nat :| Pow2(k) == n;
      PowerOfTwoPasses(k);
    }
  }

  /** A power of two above 1 halves into a power of two. */
  lemma PowerOfTwoHalves(n: int)
    requires IsPowerOfTwo(n) && n != 1
    ensures n >= 2 && n % 2 == 0 && IsPowerOfTwo(n / 2)
  {
    IsPowerOfTwoCorrect(n);
    var k: nat :| Pow2(k) == n;
    assert k > 0;
    assert Pow2(k - 1) == n / 2;
    PowerOfTwoPasses(k - 1);
  }

  /** The number of binary digits of n. */
  function BitLengthNat(n: nat): nat {
    if n == 0 then 0 else 1 + BitLengthNat(n / 2)
  }

  /** x.bit_length(): the number of binary digits of |x|. */
  function BitLength(x: int): nat {
    BitLengthNat(if x < 0 then -x else x)
  }

  lemma {:induction false} BitLengthBounds(n: nat)
    requires n >= 1
    ensures BitLengthNat(n) >= 1
    ensures Pow2(BitLengthNat(n) - 1) <= n < Pow2(BitLengthNat(n))
  {
    if n >= 2 {
      BitLengthBounds(n / 2);
    }
  }

  /** ceil_power_of_two(number): 1 << (number - 1).bit_length() */
  function CeilPowerOfTwo(number: int): int {
    Pow2(BitLength(number - 1))
  }

  /** For a positive number the round-up is the power of two p with n <= p < 2n. */
  lemma CeilPowerOfTwoBounds(n: int)
    requires n >= 1
    ensures IsPowerOfTwo(CeilPowerOfTwo(n))
    ensures n <= CeilPowerOfTwo(n) < 2 * n
  {
    PowerOfTwoPasses(BitLength(n - 1));
    if n >= 2 {
      BitLengthBounds(n - 1);
    }
  }

  /** 0 rounds up to 2, because (-1).bit_length() is 1. */
  lemma CeilPowerOfTwoZero()
    ensures CeilPowerOfTwo(0) == 2
  {
    assert BitLengthNat(1) == 1;
  }

  lemma {:induction false} Pow2Grows(i: nat, j: nat)
    requires i < j
    ensures 2 * Pow2(i) <= Pow2(j)
  {
    if i + 1 < j {
      Pow2Grows(i, j - 1);
    }
  }

  /** A power of two is its own round-up. */
  lemma CeilPowerOfTwoIdempotent(k: nat)
    ensures CeilPowerOfTwo(Pow2(k)) == Pow2(k)
  {
    var n := Pow2(k);
    CeilPowerOfTwoBounds(n);
    var p := CeilPowerOfTwo(n);
    IsPowerOfTwoCorrect(p);
    var j: nat :| Pow2(j) == p;
    if j < k {
      Pow2Grows(j, k);
    } else if j > k {
      Pow2Grows(k, j);
    }
  }

  // ---------------------------------------------------------------------
  // Complex numbers and sequences of them
  // ---------------------------------------------------------------------

  datatype Complex = Complex(re: real, im: real)

  const Zero := Complex(0.0, 0.0)

  function Add(a: Complex, b: Complex): Complex {
    Complex(a.re + b.re, a.im + b.im)
  }

  function Sub(a: Complex, b: Complex): Complex {
    Complex(a.re - b.re, a.im - b.im)
  }

  function Mul(a: Complex, b: Complex): Complex {
    Complex(a.re * b.re - a.im * b.im, a.re * b.im + a.im * b.re)
  }

  lemma MulDistributes(t: Complex, x: Complex, y: Complex)
    ensures Mul(t, Add(x, y)) == Add(Mul(t, x), Mul(t, y))
  {
    assert t.re * (x.re + y.re) == t.re * x.re + t.re * y.re;
    assert t.im * (x.im + y.im) == t.im * x.im + t.im * y.im;
    assert t.re * (x.im + y.im) == t.re * x.im + t.re * y.im;
    assert t.im * (x.re + y.re) == t.im * x.re + t.im * y.re;
  }

  lemma MulZero(t: Complex)
    ensures Mul(t, Zero) == Zero
  {
  }

  /** Elementwise sum of two signals of the same length. */
  function Plus(a: seq<Complex>, b: seq<Complex>): (r: seq<Complex>)
    requires |a| == |b|
    ensures |r| == |a|
    ensures forall k :: 0 <= k < |r| ==> r[k] == Add(a[k], b[k])
  {
    seq(|a|, k requires 0 <= k < |a| => Add(a[k], b[k]))
  }

  /** [0] * n */
  function Zeros(n: int): (z: seq<Complex>)
    ensures |z| == if n > 0 then n else 0
    ensures forall k :: 0 <= k < |z| ==> z[k] == Zero
  {
    if n <= 0 then [] else seq(n, _ => Zero)
  }

  /** _multiply(factor_a, factor_b): the elementwise product, as long as the shorter one. */
  function Multiply(a: seq<Complex>, b: seq<Complex>): (r: seq<Complex>)
    ensures |r| == if |a| <= |b| then |a| else |b|
    ensures forall k :: 0 <= k < |r| ==> r[k] == Mul(a[k], b[k])
  {
    if a == [] || b == [] then [] else [Mul(a[0], b[0])] + Multiply(a[1..], b[1..])
  }

  // ---------------------------------------------------------------------
  // Zero padding and the length handling of fft
  // ---------------------------------------------------------------------

  /** zero_pad(signal, count): signal + [0] * (count - len(signal)) */
  function ZeroPad(signal: seq<Complex>, count: int): (r: seq<Complex>)
    ensures |r| == if count > |signal| then count else |signal|
    ensures r[..|signal|] == signal
    ensures forall k :: |signal| <= k < |r| ==> r[k] == Zero
  {
    signal + Zeros(count - |signal|)
  }

  /** s[:stop], negative stops counting from the end. */
  function Prefix<T>(s: seq<T>, stop: int): (r: seq<T>)
    ensures |r| == if stop >= 0 then (if stop <= |s| then stop else |s|)
                   else (if |s| + stop >= 0 then |s| + stop else 0)
    ensures r == s[..|r|]
  {
    var end := if stop >= 0 then (if stop <= |s| then stop else |s|)
               else (if |s| + stop >= 0 then |s| + stop else 0);
    s[..end]
  }

  /** The number of samples fft transforms: `count`, or len(signal) when it is None. */
  function FftCount(signal: seq<Complex>, count: Option<int>): int {
    if count.None? then |signal| else count.value
  }

  /** zero_pad(signal, count)[:count]: the signal cropped or zero padded to count samples. */
  function FftInput(signal: seq<Complex>, count: Option<int>): (x: seq<Complex>)
    ensures var n := FftCount(signal, count);
      && (n >= 0 ==> |x| == n && forall k :: 0 <= k < n ==> x[k] == if k < |signal| then signal[k] else Zero)
      && (n < 0 ==> x == Prefix(signal, n))
  {
    var n := FftCount(signal, count);
    var padded := ZeroPad(signal, n);
    if n >= 0 then
      assert forall k :: 0 <= k < |signal| ==> padded[k] == padded[..|signal|][k];
      Prefix(padded, n)
    else
      assert padded == signal;
      Prefix(padded, n)
  }

  // ---------------------------------------------------------------------
  // Cooley-Tukey
  // ---------------------------------------------------------------------

  /** signal[0::2] */
  function Evens(s: seq<Complex>): (r: seq<Complex>)
    ensures |r| == (|s| + 1) / 2
    ensures forall k :: 0 <= k < |r| ==> r[k] == s[2 * k]
  {
    seq((|s| + 1) / 2, k requires 0 <= k < (|s| + 1) / 2 => s[2 * k])
  }

  /** signal[1::2] */
  function Odds(s: seq<Complex>): (r: seq<Complex>)
    ensures |r| == |s| / 2
    ensures forall k :: 0 <= k < |r| ==> r[k] == s[2 * k + 1]
  {
    seq(|s| / 2, k requires 0 <= k < |s| / 2 => s[2 * k + 1])
  }

  /** [exp(-2j * pi * (k / count)) for k in range(count // 2)] */
  function Twiddles(count: int, twiddle: (int, int) -> Complex): (t: seq<Complex>)
    requires count >= 0
    ensures |t| == count / 2
  {
    seq(count / 2, k => twiddle(k, count))
  }

  /** The two zipped comprehensions: e + t * o, then e - t * o. */
  function Butterfly(even: seq<Complex>, odd: seq<Complex>, twiddles: seq<Complex>): (r: seq<Complex>)
    requires |even| == |odd| == |twiddles|
    ensures |r| == 2 * |even|
  {
    seq(|even|, k requires 0 <= k < |even| => Add(even[k], Mul(twiddles[k], odd[k])))
    + seq(|even|, k requires 0 <= k < |even| => Sub(even[k], Mul(twiddles[k], odd[k])))
  }

  /**
   * cooley_tukey(signal): fails its assertion unless the length is a power of
   * two, returns a single sample as it is, and otherwise combines the
   * transforms of the even and odd samples.
   */
  function CooleyTukey(signal: seq<Complex>, twiddle: (int, int) -> Complex): (r: Result<seq<Complex>>)
    ensures r.Ok? <==> IsPowerOfTwo(|signal|)
    ensures r.Err? ==> r.error == NotPowerOfTwo
    ensures r.Ok? ==> |r.value| == |signal|
    decreases |signal|
  {
    var count := |signal|;
    if !IsPowerOfTwo(count) then Err(NotPowerOfTwo)
    else if count == 1 then Ok(signal)
    else
      PowerOfTwoHalves(count);
      var even := CooleyTukey(Evens(signal), twiddle);
      var odd := CooleyTukey(Odds(signal), twiddle);
      Ok(Butterfly(even.value, odd.value, Twiddles(count, twiddle)))
  }

  lemma PlusHalves(a: seq<Complex>, b: seq<Complex>)
    requires |a| == |b|
    ensures Evens(Plus(a, b)) == Plus(Evens(a), Evens(b))
    ensures Odds(Plus(a, b)) == Plus(Odds(a), Odds(b))
  {
  }

  lemma ButterflyLinear(e1: seq<Complex>, o1: seq<Complex>, e2: seq<Complex>, o2: seq<Complex>, t: seq<Complex>)
    requires |e1| == |o1| == |e2| == |o2| == |t|
    ensures Butterfly(Plus(e1, e2), Plus(o1, o2), t) == Plus(Butterfly(e1, o1, t), Butterfly(e2, o2, t))
  {
    var n := |e1|;
    forall k | 0 <= k < n
      ensures Mul(t[k], Plus(o1, o2)[k]) == Add(Mul(t[k], o1[k]), Mul(t[k], o2[k]))
    {
      MulDistributes(t[k], o1[k], o2[k]);
    }
  }

  /** The transform is linear, whatever the twiddle factors are. */
  lemma {:induction false} CooleyTukeyLinear(a: seq<Complex>, b: seq<Complex>, twiddle: (int, int) -> Complex)
    requires |a| == |b| && IsPowerOfTwo(|a|)
    ensures CooleyTukey(Plus(a, b), twiddle).value == Plus(CooleyTukey(a, twiddle).value, CooleyTukey(b, twiddle).value)
    decreases |a|
  {
    if |a| != 1 {
      PowerOfTwoHalves(|a|);
      PlusHalves(a, b);
      CooleyTukeyLinear(Evens(a), Evens(b), twiddle);
      CooleyTukeyLinear(Odds(a), Odds(b), twiddle);
      ButterflyLinear(CooleyTukey(Evens(a), twiddle).value, CooleyTukey(Odds(a), twiddle).value,
                      CooleyTukey(Evens(b), twiddle).value, CooleyTukey(Odds(b), twiddle).value,
                      Twiddles(|a|, twiddle));
    }
  }

  lemma ButterflyZero(n: int, twiddles: seq<Complex>)
    requires n >= 0 && |twiddles| == n
    ensures Butterfly(Zeros(n), Zeros(n), twiddles) == Zeros(2 * n)
  {
    forall k | 0 <= k < n ensures Mul(twiddles[k], Zero) == Zero {
      MulZero(twiddles[k]);
    }
  }

  /** The all-zero signal transforms to all zeros. */
  lemma {:induction false} CooleyTukeyZero(n: int, twiddle: (int, int) -> Complex)
    requires IsPowerOfTwo(n)
    ensures n >= 1 && CooleyTukey(Zeros(n), twiddle) == Ok(Zeros(n))
    decreases if n >= 0 then n else 0
  {
    IsPowerOfTwoCorrect(n);
    if n != 1 {
      PowerOfTwoHalves(n);
      assert Evens(Zeros(n)) == Zeros(n / 2);
      assert Odds(Zeros(n)) == Zeros(n / 2);
      CooleyTukeyZero(n / 2, twiddle);
      ButterflyZero(n / 2, Twiddles(n, twiddle));
    }
  }

  function Constant(n: int, x: Complex): (c: seq<Complex>)
    requires n >= 0
    ensures |c| == n
    ensures forall k :: 0 <= k < n ==> c[k] == x
  {
    seq(n, _ => x)
  }

  lemma ImpulseHalves(x: Complex, n: int)
    requires n >= 2 && n % 2 == 0
    ensures Evens([x] + Zeros(n - 1)) == [x] + Zeros(n / 2 - 1)
    ensures Odds([x] + Zeros(n - 1)) == Zeros(n / 2)
  {
    var s := [x] + Zeros(n - 1);
    assert forall k :: 1 <= k < n ==> s[k] == Zero;
  }

  lemma ButterflyConstant(x: Complex, n: int, twiddles: seq<Complex>)
    requires n >= 0 && |twiddles| == n
    ensures Butterfly(Constant(n, x), Zeros(n), twiddles) == Constant(2 * n, x)
  {
    forall k | 0 <= k < n ensures Mul(twiddles[k], Zero) == Zero {
      MulZero(twiddles[k]);
    }
  }

  /** A unit sample x followed by zeros transforms to the constant x, whatever the twiddle factors are. */
  lemma {:induction false} CooleyTukeyImpulse(x: Complex, n: int, twiddle: (int, int) -> Complex)
    requires IsPowerOfTwo(n)
    ensures n >= 1 && CooleyTukey([x] + Zeros(n - 1), twiddle) == Ok(Constant(n, x))
    decreases if n >= 0 then n else 0
  {
    IsPowerOfTwoCorrect(n);
    if n != 1 {
      PowerOfTwoHalves(n);
      ImpulseHalves(x, n);
      CooleyTukeyImpulse(x, n / 2, twiddle);
      CooleyTukeyZero(n / 2, twiddle);
      ButterflyConstant(x, n / 2, Twiddles(n, twiddle));
    } else {
      assert [x] + Zeros(n - 1) == Constant(n, x);
    }
  }

  /**
   * fft(signal, count): Cooley-Tukey on the signal cropped or zero padded to
   * `count` samples (len(signal) when count is None).
   */
  function Fft(signal: seq<Complex>, count: Option<int>, twiddle: (int, int) -> Complex): (r: Result<seq<Complex>>)
  {
    CooleyTukey(FftInput(signal, count), twiddle)
  }

  /** With a non-negative count the transform has count values, and succeeds exactly for a power of two. */
  lemma FftLength(signal: seq<Complex>, count: Option<int>, twiddle: (int, int) -> Complex)
    requires FftCount(signal, count) >= 0
    ensures Fft(signal, count, twiddle).Ok? <==> IsPowerOfTwo(FftCount(signal, count))
    ensures Fft(signal, count, twiddle).Ok? ==> |Fft(signal, count, twiddle).value| == FftCount(signal, count)
  {
  }

  /** Zero padding does not change what fft transforms. */
  lemma FftIgnoresPadding(signal: seq<Complex>, extra: nat, count: int, twiddle: (int, int) -> Complex)
    requires 0 <= count && |signal| <= count
    ensures Fft(signal + Zeros(extra), Some(count), twiddle) == Fft(signal, Some(count), twiddle)
  {
    var a, b := FftInput(signal + Zeros(extra), Some(count)), FftInput(signal, Some(count));
    assert a == b;
  }

  // ---------------------------------------------------------------------
  // stft
  // ---------------------------------------------------------------------

  /** len(range(start, stop, step)) for a positive step. */
  function RangeCount(start: int, stop: int, step: int): (n: nat)
    requires step >= 1
    decreases stop - start
  {
    if start >= stop then 0 else 1 + RangeCount(start + step, stop, step)
  }

  /** The count is the least n with start + n * step >= stop. */
  lemma {:induction false} RangeCountBounds(start: int, stop: int, step: int)
    requires step >= 1
    ensures start + RangeCount(start, stop, step) * step >= stop
    ensures RangeCount(start, stop, step) == 0 || start + (RangeCount(start, stop, step) - 1) * step < stop
    decreases stop - start
  {
    if start < stop {
      var c := RangeCount(start + step, stop, step);
      RangeCountBounds(start + step, stop, step);
      assert (c + 1) * step == c * step + step;
      if c > 0 {
        assert c * step == (c - 1) * step + step;
      }
    }
  }

  /** range(start, stop, step) for a positive step. */
  function Range(start: int, stop: int, step: int): (r: seq<int>)
    requires step >= 1
    ensures |r| == RangeCount(start, stop, step)
    ensures forall j :: 0 <= j < |r| ==> r[j] == start + j * step
  {
    seq(RangeCount(start, stop, step), j => start + j * step)
  }

  /** Every element lies below stop, and the next one would not. */
  lemma MulBelow(j: int, m: int, step: int)
    requires 0 <= j <= m && step >= 1
    ensures 0 <= j * step <= m * step
  {
  }

  lemma RangeBounds(start: int, stop: int, step: int)
    requires step >= 1
    ensures forall j :: 0 <= j < |Range(start, stop, step)| ==> start <= Range(start, stop, step)[j] < stop
    ensures start + |Range(start, stop, step)| * step >= stop
  {
    var n := RangeCount(start, stop, step);
    RangeCountBounds(start, stop, step);
    forall j | 0 <= j < n ensures start <= start + j * step < stop {
      MulBelow(j, n - 1, step);
    }
  }

  /** The values of the results, or the first error among them. */
  function AllOk<T>(rs: seq<Result<T>>): (r: Result<seq<T>>)
    ensures r.Ok? <==> forall j :: 0 <= j < |rs| ==> rs[j].Ok?
    ensures r.Ok? ==> |r.value| == |rs| && forall j :: 0 <= j < |rs| ==> rs[j] == Ok(r.value[j])
    ensures r.Err? ==> exists j :: 0 <= j < |rs| && rs[j] == Err(r.error)
  {
    if rs == [] then Ok([])
    else if rs[0].Err? then Err(rs[0].error)
    else
      var rest := AllOk(rs[1..]);
      assert forall j :: 1 <= j < |rs| ==> rs[j] == rs[1..][j - 1];
      if rest.Err? then rest else Ok([rs[0].value] + rest.value)
  }

  /** fft(_multiply(signal[start:start + count], window), dft_count) */
  function FrameTransform(signal: seq<Complex>, window: seq<Complex>, start: int, dftCount: Option<int>,
                          twiddle: (int, int) -> Complex): Result<seq<Complex>>
    requires 0 <= start && start + |window| <= |signal|
  {
    Fft(Multiply(signal[start..start + |window|], window), dftCount, twiddle)
  }

  /** The transformed frame of every start, in order. */
  function Frames(signal: seq<Complex>, window: seq<Complex>, starts: seq<int>, dftCount: Option<int>,
                  twiddle: (int, int) -> Complex): (frames: seq<Result<seq<Complex>>>)
    requires forall j :: 0 <= j < |starts| ==> 0 <= starts[j] && starts[j] + |window| <= |signal|
    ensures |frames| == |starts|
  {
    seq(|starts|, j requires 0 <= j < |starts| => FrameTransform(signal, window, starts[j], dftCount, twiddle))
  }

  /** The frame starts of stft: 0, step, 2 * step, ... below len(signal) - len(window). */
  function FrameStarts(signalLength: int, windowLength: int, overlap: int): (starts: seq<int>)
    requires overlap < windowLength
    ensures forall j :: 0 <= j < |starts| ==>
      starts[j] == j * (windowLength - overlap) && 0 <= starts[j] && starts[j] + windowLength < signalLength
    ensures |starts| * (windowLength - overlap) >= signalLength - windowLength
  {
    RangeBounds(0, signalLength - windowLength, windowLength - overlap);
    Range(0, signalLength - windowLength, windowLength - overlap)
  }

  /**
   * stft(signal, window, overlap, dft_count): fails unless overlap <
   * len(window); otherwise one transformed, windowed full-length frame per
   * start.
   */
  function Stft(signal: seq<Complex>, window: seq<Complex>, overlap: int, dftCount: Option<int>,
                twiddle: (int, int) -> Complex): (r: Result<seq<seq<Complex>>>)
  {
    if overlap >= |window| then Err(OverlapTooLarge)
    else AllOk(Frames(signal, window, FrameStarts(|signal|, |window|, overlap), dftCount, twiddle))
  }

  /** How many samples the fft of an n-sample frame transforms. */
  function FrameFftCount(n: int, dftCount: Option<int>): int {
    if dftCount.None? then n else dftCount.value
  }

  /** Every frame has len(window) samples, so either all frame transforms succeed or none does. */
  lemma FramesOk(signal: seq<Complex>, window: seq<Complex>, starts: seq<int>, dftCount: Option<int>,
                 twiddle: (int, int) -> Complex, j: int)
    requires forall j :: 0 <= j < |starts| ==> 0 <= starts[j] && starts[j] + |window| <= |signal|
    requires FrameFftCount(|window|, dftCount) >= 0 && 0 <= j < |starts|
    ensures Frames(signal, window, starts, dftCount, twiddle)[j].Ok? <==> IsPowerOfTwo(FrameFftCount(|window|, dftCount))
  {
    var frame := Multiply(signal[starts[j]..starts[j] + |window|], window);
    assert FftCount(frame, dftCount) == FrameFftCount(|window|, dftCount);
    FftLength(frame, dftCount, twiddle);
  }

  /** stft succeeds exactly when there are no frames or the frame transform length is a power of two. */
  lemma StftSucceeds(signal: seq<Complex>, window: seq<Complex>, overlap: int, dftCount: Option<int>,
                     twiddle: (int, int) -> Complex)
    requires overlap < |window|
    requires FrameFftCount(|window|, dftCount) >= 0
    ensures Stft(signal, window, overlap, dftCount, twiddle).Ok?
        <==> (|FrameStarts(|signal|, |window|, overlap)| == 0 || IsPowerOfTwo(FrameFftCount(|window|, dftCount)))
  {
    var starts := FrameStarts(|signal|, |window|, overlap);
    forall j | 0 <= j < |starts| {
      FramesOk(signal, window, starts, dftCount, twiddle, j);
    }
    if |starts| > 0 {
      FramesOk(signal, window, starts, dftCount, twiddle, 0);
    }
  }

  /**
   * The framing of stft: frame j is the transform of the windowed full-length
   * slice from the j-th start, j * (len(window) - overlap) (FrameStarts).
   */
  lemma StftFraming(signal: seq<Complex>, window: seq<Complex>, overlap: int, dftCount: Option<int>,
                    twiddle: (int, int) -> Complex)
    requires overlap < |window|
    ensures var r := Stft(signal, window, overlap, dftCount, twiddle);
            var starts := FrameStarts(|signal|, |window|, overlap);
      r.Ok? ==>
        && |r.value| == |starts|
        && forall j :: 0 <= j < |starts| ==> FrameTransform(signal, window, starts[j], dftCount, twiddle) == Ok(r.value[j])
  {
  }

  /** A signal no longer than the window gives no frames at all, even one that would fit exactly. */
  lemma StftShortSignal(signal: seq<Complex>, window: seq<Complex>, overlap: int, dftCount: Option<int>,
                        twiddle: (int, int) -> Complex)
    requires overlap < |window| && |signal| <= |window|
    ensures Stft(signal, window, overlap, dftCount, twiddle) == Ok([])
  {
  }

  lemma StftOverlapTooLarge(signal: seq<Complex>, window: seq<Complex>, overlap: int, dftCount: Option<int>,
                            twiddle: (int, int) -> Complex)
    requires overlap >= |window|
    ensures Stft(signal, window, overlap, dftCount, twiddle) == Err(OverlapTooLarge)
  {
  }

  // ---------------------------------------------------------------------
  // Bin centres
  // ---------------------------------------------------------------------

  /** The centre of frequency bin k: k times the resolution fs / count. */
  function FrequencyBinCenter(k: int, count: int, samplingFrequency: real): real
    requires count != 0
  {
    k as real * (samplingFrequency / count as real)
  }

  /** frequency_bin_centers(count, fs): k * fs / count for k in range(count); ZeroDivisionError for count 0. */
  function FrequencyBinCenters(count: int, samplingFrequency: real): (r: Result<seq<real>>)
    ensures r.Err? <==> count == 0
    ensures r.Ok? ==> |r.value| == if count > 0 then count else 0
    ensures r.Ok? ==> forall k :: 0 <= k < |r.value| ==> r.value[k] == FrequencyBinCenter(k, count, samplingFrequency)
  {
    if count == 0 then Err(DivisionByZero)
    else Ok(seq(if count > 0 then count else 0, k => FrequencyBinCenter(k, count, samplingFrequency)))
  }

  lemma FrequencyBinCenterStep(k: int, count: int, samplingFrequency: real)
    requires count != 0
    ensures FrequencyBinCenter(k + 1, count, samplingFrequency) - FrequencyBinCenter(k, count, samplingFrequency)
         == samplingFrequency / count as real
  {
    NextMultiple(k, samplingFrequency / count as real);
  }

  lemma FrequencyBinCenterIncreasing(k: int, l: int, count: int, samplingFrequency: real)
    requires count > 0 && samplingFrequency > 0.0 && k < l
    ensures FrequencyBinCenter(k, count, samplingFrequency) < FrequencyBinCenter(l, count, samplingFrequency)
  {
    RealDivPositive(samplingFrequency, count as real);
    MulIncreasing(k as real, l as real, samplingFrequency / count as real);
  }

  /** The frequency axis starts at 0 and steps by fs / count, rising for a positive sampling frequency. */
  lemma FrequencyBinCentersSpacing(count: int, samplingFrequency: real)
    requires count > 0
    ensures var centers := FrequencyBinCenters(count, samplingFrequency).value;
      && centers[0] == 0.0
      && (forall k :: 0 <= k < count - 1 ==> centers[k + 1] - centers[k] == samplingFrequency / count as real)
      && (samplingFrequency > 0.0 ==> forall k, l :: 0 <= k < l < count ==> centers[k] < centers[l])
  {
    forall k | 0 <= k < count - 1 {
      FrequencyBinCenterStep(k, count, samplingFrequency);
    }
    if samplingFrequency > 0.0 {
      forall k, l | 0 <= k < l < count {
        FrequencyBinCenterIncreasing(k, l, count, samplingFrequency);
      }
    }
  }

  lemma NextMultiple(k: int, r: real)
    ensures (k + 1) as real * r - k as real * r == r
  {
  }

  lemma RealDivPositive(x: real, d: real)
    requires x > 0.0 && d > 0.0
    ensures x / d > 0.0
  {
  }

  /** The centre of time bin k: the middle of segment k, in seconds. */
  function TimeBinCenter(k: int, segmentCount: int, overlap: int, samplingFrequency: real): real
    requires samplingFrequency != 0.0
  {
    ((k * (segmentCount - overlap)) as real + segmentCount as real / 2.0) * (1.0 / samplingFrequency)
  }

  /**
   * time_bin_centers(count, segment_count, overlap, fs): the middle of each
   * segment in seconds; ZeroDivisionError for fs 0 once there is a bin.
   */
  function TimeBinCenters(count: int, segmentCount: int, overlap: int, samplingFrequency: real): (r: Result<seq<real>>)
    ensures r.Err? <==> count > 0 && samplingFrequency == 0.0
    ensures r.Ok? ==> |r.value| == if count > 0 then count else 0
    ensures r.Ok? ==> forall k :: 0 <= k < |r.value| ==> r.value[k] == TimeBinCenter(k, segmentCount, overlap, samplingFrequency)
  {
    if count <= 0 then Ok([])
    else if samplingFrequency == 0.0 then Err(DivisionByZero)
    else Ok(seq(count, k => TimeBinCenter(k, segmentCount, overlap, samplingFrequency)))
  }

  /** Bin k is the middle (k * (segment - overlap) + segment / 2) of its segment, divided by fs. */
  lemma TimeBinCenterAt(k: int, segmentCount: int, overlap: int, samplingFrequency: real)
    requires samplingFrequency != 0.0
    ensures TimeBinCenter(k, segmentCount, overlap, samplingFrequency)
         == (k as real * (segmentCount - overlap) as real + segmentCount as real / 2.0) / samplingFrequency
  {
    var x := (k * (segmentCount - overlap)) as real + segmentCount as real / 2.0;
    assert (k * (segmentCount - overlap)) as real == k as real * (segmentCount - overlap) as real;
    assert x * (1.0 / samplingFrequency) == x / samplingFrequency;
  }

  lemma TimeBinCenterStep(k: int, segmentCount: int, overlap: int, samplingFrequency: real)
    requires samplingFrequency != 0.0
    ensures TimeBinCenter(k + 1, segmentCount, overlap, samplingFrequency) - TimeBinCenter(k, segmentCount, overlap, samplingFrequency)
         == (segmentCount - overlap) as real / samplingFrequency
  {
    var step := (segmentCount - overlap) as real;
    var half := segmentCount as real / 2.0;
    TimeBinCenterAt(k, segmentCount, overlap, samplingFrequency);
    TimeBinCenterAt(k + 1, segmentCount, overlap, samplingFrequency);
    assert ((k + 1) as real * step + half) - (k as real * step + half) == step;
    RealDivSub((k + 1) as real * step + half, k as real * step + half, samplingFrequency);
  }

  lemma TimeBinCenterIncreasing(k: int, l: int, segmentCount: int, overlap: int, samplingFrequency: real)
    requires samplingFrequency > 0.0 && segmentCount > overlap && k < l
    ensures TimeBinCenter(k, segmentCount, overlap, samplingFrequency) < TimeBinCenter(l, segmentCount, overlap, samplingFrequency)
  {
    var step := (segmentCount - overlap) as real;
    var half := segmentCount as real / 2.0;
    TimeBinCenterAt(k, segmentCount, overlap, samplingFrequency);
    TimeBinCenterAt(l, segmentCount, overlap, samplingFrequency);
    MulIncreasing(k as real, l as real, step);
    RealDivMonotone(k as real * step + half, l as real * step + half, samplingFrequency);
  }

  /** The time axis steps by (segment - overlap) / fs, so it rises when segments advance and fs > 0. */
  lemma TimeBinCentersSpacing(count: int, segmentCount: int, overlap: int, samplingFrequency: real)
    requires count > 0 && samplingFrequency != 0.0
    ensures var centers := TimeBinCenters(count, segmentCount, overlap, samplingFrequency).value;
      && centers[0] == (segmentCount as real / 2.0) / samplingFrequency
      && (forall k :: 0 <= k < count - 1 ==>
            centers[k + 1] - centers[k] == (segmentCount - overlap) as real / samplingFrequency)
      && (samplingFrequency > 0.0 && segmentCount > overlap ==>
            forall k, l :: 0 <= k < l < count ==> centers[k] < centers[l])
  {
    TimeBinCenterAt(0, segmentCount, overlap, samplingFrequency);
    forall k | 0 <= k < count - 1 {
      TimeBinCenterStep(k, segmentCount, overlap, samplingFrequency);
    }
    if samplingFrequency > 0.0 && segmentCount > overlap {
      forall k, l | 0 <= k < l < count {
        TimeBinCenterIncreasing(k, l, segmentCount, overlap, samplingFrequency);
      }
    }
  }

  lemma MulIncreasing(a: real, b: real, c: real)
    requires a < b && c > 0.0
    ensures a * c < b * c
  {
    assert b * c - a * c == (b - a) * c;
  }

  lemma RealDivSub(x: real, y: real, d: real)
    requires d != 0.0
    ensures x / d - y / d == (x - y) / d
  {
  }

  lemma RealDivMonotone(x: real, y: real, d: real)
    requires d > 0.0 && x < y
    ensures x / d < y / d
  {
    assert y / d - x / d == (y - x) / d;
  }
}
