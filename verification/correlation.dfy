/** The integer side of the FFT cross-correlation: the padded transform size,
    the peak search, and the conversion of a circular peak index into a signed
    sample lag. The transforms themselves are an abstract kernel. */
module Correlation {

  // ---------------------------------------------------------------------------
  // Powers of two
  // ---------------------------------------------------------------------------

  function Pow2(k: nat): (r: nat)
    ensures r >= 1
  {
    if k == 0 then 1 else 2 * Pow2(k - 1)
  }

  ghost predicate IsPow2(p: int) {
    exists k: nat :: Pow2(k) == p
  }

  lemma {:induction false} Pow2Monotone(i: nat, j: nat)
    requires i <= j
    ensures Pow2(i) <= Pow2(j)
    decreases j
  {
    if i < j {
      Pow2Monotone(i, j - 1);
    }
  }

  /** Of two powers of two, the smaller is at most half the larger. */
  lemma Pow2Below(p: int, r: int)
    requires IsPow2(p) && IsPow2(r) && p < r
    ensures 2 * p <= r
  {
    var i: nat :| Pow2(i) == p;
    var j: nat :| Pow2(j) == r;
    if i >= j {
      Pow2Monotone(j, i);
    }
    Pow2Monotone(i + 1, j);
  }

  /** The doubling loop of `_cross_correlate`, from `size` upwards. */
  function DoubleUntil(size: nat, n: int): (r: nat)
    requires IsPow2(size)
    ensures IsPow2(r) && r >= n && r >= size
    ensures r == size || r < 2 * n
    decreases n - size
  {
    if size >= n then size
    else
      assert IsPow2(2 * size) by {
        var k: nat :| Pow2(k) == size;
        assert Pow2(k + 1) == 2 * size;
      }
      DoubleUntil(2 * size, n)
  }

  /** `fft_size` for a correlation of `n` output samples: the least power of two
      that is at least `n` (1 when `n` is at most 1). */
  function NextPow2(n: int): (r: nat)
    ensures IsPow2(r) && r >= n && r >= 1
    ensures forall p: nat :: p < r && IsPow2(p) ==> p < n
  {
    assert Pow2(0) == 1;
    var r := DoubleUntil(1, n);
    forall p: nat | p < r && IsPow2(p)
      ensures p < n
    {
      Pow2Below(p, r);
    }
    r
  }

  // ---------------------------------------------------------------------------
  // Circular index to signed lag
  // ---------------------------------------------------------------------------

  /** Indices past the middle of the circular correlation are negative lags. */
  function ToLag(peak: int, size: int): int {
    if peak > size / 2 then peak - size else peak
  }

  /** For an index of a transform of positive size, the lag lies in
      (-size/2, size/2] and is congruent to the index modulo the size. */
  lemma ToLagRange(peak: int, size: int)
    requires 0 <= peak < size
    ensures -size < 2 * ToLag(peak, size) <= size
    ensures ToLag(peak, size) % size == peak
  {
  }

  /** The lag is the only integer with those two properties, so the conversion
      loses nothing: the circular index is recovered from it. */
  lemma ToLagUnique(peak: int, size: int, lag: int)
    requires 0 <= peak < size
    requires -size < 2 * lag <= size && lag % size == peak
    ensures lag == ToLag(peak, size)
  {
    if lag < 0 {
      assert lag + size == peak;
    } else {
      assert lag == peak;
    }
  }

  // ---------------------------------------------------------------------------
  // Peak search
  // ---------------------------------------------------------------------------

  function AbsR(x: real): real { if x < 0.0 then -x else x }

  /** `np.argmax(np.abs(s))`: the first index of largest magnitude. */
  function ArgMaxAbs(s: seq<real>): (r: nat)
    requires |s| > 0
    ensures r < |s|
    ensures forall i :: 0 <= i < |s| ==> AbsR(s[i]) <= AbsR(s[r])
    ensures forall i :: 0 <= i < r ==> AbsR(s[i]) < AbsR(s[r])
  {
    if |s| == 1 then 0
    else
      var m := ArgMaxAbs(s[..|s| - 1]);
      if AbsR(s[|s| - 1]) > AbsR(s[m]) then |s| - 1 else m
  }

  // ---------------------------------------------------------------------------
  // _cross_correlate
  // ---------------------------------------------------------------------------

  /** The numerical kernel: the circular cross-correlation of two signals over
      a transform of the given size (`irfft(rfft(r) * conj(rfft(c)))`), and a
      signal's energy (the square root of its sum of squares). */
  datatype Kernel = Kernel(
    circular: (seq<real>, seq<real>, nat) -> seq<real>,
    energy: seq<real> -> real)

  /** An inverse transform of size `n` has `n` samples. */
  ghost predicate SizedKernel(k: Kernel) {
    forall r, c, n: nat :: n >= 1 ==> |k.circular(r, c, n)| == n
  }

  /** Energy products below this are treated as silence. */
  const EnergyFloor: real := 0.000000000001

  /** The correlation divided by the energy product. */
  function Normalise(xs: seq<real>, denom: real): (r: seq<real>)
    requires denom != 0.0
    ensures |r| == |xs| && forall i :: 0 <= i < |xs| ==> r[i] == xs[i] / denom
  {
    seq(|xs|, i requires 0 <= i < |xs| => xs[i] / denom)
  }

  /** `_cross_correlate(reference, candidate)`: `(offset_samples, confidence)`.
      With negligible energy the answer is `(0, 0.0)`; otherwise the lag of the
      first largest normalised correlation and its magnitude. */
  function CrossCorrelate(reference: seq<real>, candidate: seq<real>, k: Kernel): (r: (int, real))
    requires SizedKernel(k)
    ensures var denom := k.energy(reference) * k.energy(candidate);
      denom < EnergyFloor ==> r == (0, 0.0)
    ensures var size := NextPow2(|reference| + |candidate| - 1);
      var denom := k.energy(reference) * k.energy(candidate);
      denom >= EnergyFloor ==>
        var series := Normalise(k.circular(reference, candidate, size), denom);
        && r.1 >= 0.0
        && -(size as int) < 2 * r.0 <= size
        && (exists peak :: 0 <= peak < size && r.0 == ToLag(peak, size) && r.1 == AbsR(series[peak])
              && forall i :: 0 <= i < peak ==> AbsR(series[i]) < r.1)
        && forall i :: 0 <= i < size ==> AbsR(series[i]) <= r.1
  {
    var size := NextPow2(|reference| + |candidate| - 1);
    var denom := k.energy(reference) * k.energy(candidate);
    if denom < EnergyFloor then (0, 0.0)
    else
      var series := Normalise(k.circular(reference, candidate, size), denom);
      var peak := ArgMaxAbs(series);
      ToLagRange(peak, size);
      (ToLag(peak, size), AbsR(series[peak]))
  }
}
