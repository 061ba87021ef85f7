/**
 * Frame-level energy voice-activity check of the recorder firmware.
 *
 * `vad_is_speaking(samples, len)` adds up the absolute values of a frame of
 * signed 16-bit PCM samples in a `double` accumulator, divides by the frame
 * length and reports speech when that mean absolute amplitude is strictly
 * greater than `ENERGY_THRESHOLD` (500).
 *
 * The accumulator only ever holds integer partial sums. On the 32-bit target
 * `size_t` is below 2^32, so every partial sum is below 32768 * 2^32 = 2^47,
 * an integer a `double` represents exactly; the model therefore keeps the
 * accumulator as an `int` and the quotient as an exact `real`.
 * `DecisionMargin` proves the margin on which the argument that rounding the
 * quotient to a `double` cannot change the comparison rests.
 */
module Vad {

  /** A signed 16-bit PCM sample (`int16_t`). */
  type Sample = x: int | -32768 <= x <= 32767

  /** Largest magnitude a sample can have: `abs(-32768)` once promoted to `int`. */
  const MaxMagnitude: nat := 32768

  /** `ENERGY_THRESHOLD`, a `float` constant that is promoted to `double` for the comparison. */
  const EnergyThreshold: nat := 500

  /** Largest value of `size_t` on the 32-bit target. */
  const MaxSizeT: nat := 0xFFFF_FFFF

  /** Every integer of magnitude up to 2^53 is exactly a `double`. */
  const MaxExactDoubleInt: nat := 0x20_0000_0000_0000

  /** C's `abs` on a sample promoted to `int`; it never overflows, since `int` is wider than `int16_t`. */
  function Abs(x: Sample): (r: nat)
    ensures r == x || r == -(x as int)
    ensures r <= MaxMagnitude
  {
    if x < 0 then -(x as int) else x
  }

  /** The frame's energy: the sum of the absolute values of its samples, added first to last. */
  function SumAbs(s: seq<Sample>): (r: nat)
    ensures r <= MaxMagnitude * |s|
  {
    if |s| == 0 then 0 else SumAbs(s[..|s| - 1]) + Abs(s[|s| - 1])
  }

  /** The mean absolute amplitude `energy / len` of a non-empty frame. */
  function MeanAbsAmplitude(s: seq<Sample>): (m: real)
    requires |s| > 0
    ensures 0.0 <= m <= MaxMagnitude as real
  {
    QuotientAtMost(SumAbs(s), |s|, MaxMagnitude);
    (SumAbs(s) as real) / (|s| as real)
  }

  /**
   * The frame is classified as speech. For an empty frame the source divides
   * 0 by 0, which gives NaN, and NaN is not greater than the threshold.
   */
  predicate IsSpeaking(s: seq<Sample>): (r: bool)
    ensures |s| == 0 ==> !r
    ensures r ==> SumAbs(s) > EnergyThreshold * |s|
  {
    if |s| == 0 then false
    else
      QuotientAbove(SumAbs(s), |s|, EnergyThreshold);
      MeanAbsAmplitude(s) > EnergyThreshold as real
  }

  /**
   * `vad_is_speaking`: reads the first `len` samples of the buffer and decides
   * whether the frame holds speech. The method has no `modifies` clause, so
   * the buffer is only read. The buffer may be null when `len` is 0, since
   * the loop then never reads it; the result is false.
   */
  method VadIsSpeaking(samples: array?<Sample>, len: nat) returns (speaking: bool)
    requires len > 0 ==> samples != null
    requires samples != null ==> len <= samples.Length
    requires len <= MaxSizeT
    ensures samples == null ==> !speaking
    ensures samples != null ==> speaking == IsSpeaking(samples[..len])
    ensures samples != null ==> (speaking <==> len > 0 && SumAbs(samples[..len]) > EnergyThreshold * len)
  {
    var energy: nat := 0;
    for i := 0 to len
      invariant samples != null ==> energy == SumAbs(samples[..i])
      invariant energy <= MaxMagnitude * i < MaxExactDoubleInt
    {
      assert samples[..i + 1][..i] == samples[..i];
      energy := energy + Abs(samples[i]);
    }
    if len == 0 {
      // 0 / 0 is NaN; the comparison with the threshold is false.
      speaking := false;
    } else {
      var mean: real := energy as real / len as real;
      speaking := mean > EnergyThreshold as real;
    }
    if samples != null {
      SpeakingIffSumExceeds(samples[..len]);
    }
  }

  // ---------------------------------------------------------------------------
  // The decision in exact integer terms
  // ---------------------------------------------------------------------------

  /** `energy / len > 500` exactly when `energy > 500 * len`; an empty frame is never speech. */
  lemma SpeakingIffSumExceeds(s: seq<Sample>)
    ensures IsSpeaking(s) <==> |s| > 0 && SumAbs(s) > EnergyThreshold * |s|
  {
    if |s| > 0 {
      QuotientAbove(SumAbs(s), |s|, EnergyThreshold);
    }
  }

  /**
   * When the frame is speech, its mean exceeds the threshold by at least
   * 1 / len, which is at least 2^-32; a `double` near 500 is spaced 2^-44
   * apart, so rounding `energy / len` cannot bring a speaking frame down to
   * the threshold. A silent frame's mean is at most 500, and rounding to
   * nearest is monotone, so it cannot rise above 500.
   */
  lemma DecisionMargin(s: seq<Sample>)
    requires 0 < |s| <= MaxSizeT
    ensures IsSpeaking(s) ==> MeanAbsAmplitude(s) >= EnergyThreshold as real + 1.0 / |s| as real
    ensures !IsSpeaking(s) ==> MeanAbsAmplitude(s) <= EnergyThreshold as real
    ensures 1.0 / |s| as real >= 1.0 / MaxSizeT as real
  {
    SpeakingIffSumExceeds(s);
    if IsSpeaking(s) {
      QuotientMargin(SumAbs(s), |s|, EnergyThreshold);
    } else {
      QuotientAtMost(SumAbs(s), |s|, EnergyThreshold);
    }
    ReciprocalAntitone(|s|, MaxSizeT);
  }

  /** The threshold is strict: a frame whose mean absolute amplitude is exactly 500 is not speech. */
  lemma ThresholdIsStrict(s: seq<Sample>)
    requires |s| > 0
    requires SumAbs(s) == EnergyThreshold * |s|
    ensures MeanAbsAmplitude(s) == EnergyThreshold as real
    ensures !IsSpeaking(s)
  {
    QuotientExact(SumAbs(s), |s|, EnergyThreshold);
  }

  // ---------------------------------------------------------------------------
  // Facts about the energy sum
  // ---------------------------------------------------------------------------

  /** The energy of two consecutive pieces is the sum of their energies. */
  lemma {:induction false} SumAbsAppend(a: seq<Sample>, b: seq<Sample>)
    ensures SumAbs(a + b) == SumAbs(a) + SumAbs(b)
    decreases |b|
  {
    if |b| == 0 {
      assert a + b == a;
    } else {
      var b' := b[..|b| - 1];
      assert (a + b)[..|a + b| - 1] == a + b';
      assert (a + b)[|a + b| - 1] == b[|b| - 1];
      SumAbsAppend(a, b');
    }
  }

  /** A frame that is louder sample by sample has at least as much energy. */
  lemma {:induction false} SumAbsMonotone(s: seq<Sample>, t: seq<Sample>)
    requires |s| == |t|
    requires forall i :: 0 <= i < |s| ==> Abs(s[i]) <= Abs(t[i])
    ensures SumAbs(s) <= SumAbs(t)
    decreases |s|
  {
    if |s| > 0 {
      SumAbsMonotone(s[..|s| - 1], t[..|t| - 1]);
    }
  }

  /** The energy does not depend on the order of the samples. */
  lemma {:induction false} SumAbsPermutation(s: seq<Sample>, t: seq<Sample>)
    requires multiset(s) == multiset(t)
    ensures SumAbs(s) == SumAbs(t)
    decreases |s|
  {
    if |s| == 0 {
      assert |t| == |multiset(t)| == 0;
    } else {
      var x := s[|s| - 1];
      var s' := s[..|s| - 1];
      assert s == s' + [x];
      assert x in multiset(t);
      var j :| 0 <= j < |t| && t[j] == x;
      var left, right := t[..j], t[j + 1..];
      assert t == left + [x] + right;
      var t' := left + right;
      assert multiset(t') == multiset(t) - multiset{x};
      assert multiset(s') == multiset(s) - multiset{x};
      SumAbsPermutation(s', t');
      SumAbsAppend(s', [x]);
      SumAbsAppend(left, [x]);
      SumAbsAppend(left + [x], right);
      SumAbsAppend(left, right);
      assert SumAbs([x]) == Abs(x) by {
        assert [x][..0] == [];
      }
    }
  }

  /** The energy of `n` copies of one sample is `n` times its magnitude. */
  lemma {:induction false} SumAbsConstant(v: Sample, n: nat)
    ensures SumAbs(seq(n, _ => v)) == n * Abs(v)
  {
    if n > 0 {
      assert seq(n, _ => v)[..n - 1] == seq(n - 1, _ => v);
      SumAbsConstant(v, n - 1);
    }
  }

  // ---------------------------------------------------------------------------
  // Properties of the decision
  // ---------------------------------------------------------------------------

  /** A silent (all-zero) frame is never classified as speech. */
  lemma {:induction false} SilentFrameNotSpeaking(s: seq<Sample>)
    requires forall i :: 0 <= i < |s| ==> s[i] == 0
    ensures SumAbs(s) == 0
    ensures !IsSpeaking(s)
    decreases |s|
  {
    if |s| > 0 {
      SilentFrameNotSpeaking(s[..|s| - 1]);
    }
    SpeakingIffSumExceeds(s);
  }

  /** A frame of `n` copies of `v` is speech exactly when it is non-empty and `|v| > 500`. */
  lemma ConstantFrameDecision(v: Sample, n: nat)
    ensures IsSpeaking(seq(n, _ => v)) <==> n > 0 && Abs(v) > EnergyThreshold
  {
    SumAbsConstant(v, n);
    if n > 0 {
      QuotientExact(n * Abs(v), n, Abs(v));
    }
  }

  /** A frame whose samples all have magnitude at most `b` has energy at most `b * len`. */
  lemma {:induction false} SumAbsBounded(s: seq<Sample>, b: nat)
    requires forall i :: 0 <= i < |s| ==> Abs(s[i]) <= b
    ensures SumAbs(s) <= b * |s|
    decreases |s|
  {
    if |s| > 0 {
      SumAbsBounded(s[..|s| - 1], b);
    }
  }

  /** A frame is speech only if at least one of its samples has magnitude above 500. */
  lemma SpeakingNeedsLoudSample(s: seq<Sample>)
    requires IsSpeaking(s)
    ensures exists i :: 0 <= i < |s| && Abs(s[i]) > EnergyThreshold
  {
    if forall i :: 0 <= i < |s| ==> Abs(s[i]) <= EnergyThreshold {
      SumAbsBounded(s, EnergyThreshold);
      assert false;
    }
  }

  /** Making samples louder (in magnitude) never turns speech into non-speech. */
  lemma LouderFrameStaysSpeaking(s: seq<Sample>, t: seq<Sample>)
    requires |s| == |t|
    requires forall i :: 0 <= i < |s| ==> Abs(s[i]) <= Abs(t[i])
    requires IsSpeaking(s)
    ensures IsSpeaking(t)
  {
    SumAbsMonotone(s, t);
    SpeakingIffSumExceeds(s);
    SpeakingIffSumExceeds(t);
  }

  /** Raising the magnitude of one sample never turns speech into non-speech. */
  lemma LouderSampleStaysSpeaking(s: seq<Sample>, k: nat, v: Sample)
    requires k < |s|
    requires Abs(v) >= Abs(s[k])
    requires IsSpeaking(s)
    ensures IsSpeaking(s[k := v])
  {
    LouderFrameStaysSpeaking(s, s[k := v]);
  }

  /** Only the magnitudes of the samples matter: the signs do not change the decision. */
  lemma SignDoesNotMatter(s: seq<Sample>, t: seq<Sample>)
    requires |s| == |t|
    requires forall i :: 0 <= i < |s| ==> Abs(s[i]) == Abs(t[i])
    ensures IsSpeaking(s) == IsSpeaking(t)
  {
    SumAbsMonotone(s, t);
    SumAbsMonotone(t, s);
    SpeakingIffSumExceeds(s);
    SpeakingIffSumExceeds(t);
  }

  /**
   * Negating one sample does not change the decision. The sample -32768 has
   * no negation among 16-bit samples, so it is excluded.
   */
  lemma NegatedSampleSameDecision(s: seq<Sample>, k: nat)
    requires k < |s|
    requires s[k] != -32768
    ensures IsSpeaking(s[k := -s[k]]) == IsSpeaking(s)
  {
    SignDoesNotMatter(s, s[k := -s[k]]);
  }

  /** The order of the samples does not change the decision. */
  lemma PermutationSameDecision(s: seq<Sample>, t: seq<Sample>)
    requires multiset(s) == multiset(t)
    ensures IsSpeaking(s) == IsSpeaking(t)
  {
    SumAbsPermutation(s, t);
    assert |s| == |multiset(s)| == |multiset(t)| == |t|;
    SpeakingIffSumExceeds(s);
    SpeakingIffSumExceeds(t);
  }

  // ---------------------------------------------------------------------------
  // Exact arithmetic on quotients, used to move between `energy / len` and
  // integer comparisons
  // ---------------------------------------------------------------------------

  /** For n > 0, `e / n > t` exactly when `e > t * n`. */
  lemma QuotientAbove(e: int, n: int, t: int)
    requires n > 0
    ensures (e as real) / (n as real) > t as real <==> e > t * n
  {
    var q := (e as real) / (n as real);
    assert q * (n as real) == e as real;
    assert (t * n) as real == (t as real) * (n as real);
    if q > t as real {
      assert q * (n as real) > (t as real) * (n as real);
    }
    if e > t * n {
      assert (t as real) * (n as real) < q * (n as real);
    }
  }

  /** For n > 0, `e <= t * n` gives `e / n <= t`. */
  lemma QuotientAtMost(e: int, n: int, t: int)
    requires n > 0 && e <= t * n
    ensures (e as real) / (n as real) <= t as real
  {
    QuotientAbove(e, n, t);
  }

  /** For n > 0, `e == t * n` gives `e / n == t`. */
  lemma QuotientExact(e: int, n: int, t: int)
    requires n > 0 && e == t * n
    ensures (e as real) / (n as real) == t as real
  {
    assert e as real == (t as real) * (n as real);
  }

  /** For n > 0, `e >= t * n + 1` gives `e / n >= t + 1 / n`. */
  lemma QuotientMargin(e: int, n: int, t: int)
    requires n > 0 && e >= t * n + 1
    ensures (e as real) / (n as real) >= t as real + 1.0 / (n as real)
  {
    var q := (e as real) / (n as real);
    var r := t as real + 1.0 / (n as real);
    assert r * (n as real) == (t * n + 1) as real;
    assert q * (n as real) == e as real;
    if q < r {
      assert q * (n as real) < r * (n as real);
    }
  }

  /** `1 / n` does not increase as `n` grows. */
  lemma ReciprocalAntitone(n: int, m: int)
    requires 0 < n <= m
    ensures 1.0 / (n as real) >= 1.0 / (m as real)
  {
    var a, b := 1.0 / (n as real), 1.0 / (m as real);
    assert a * (n as real) == 1.0;
    assert b * (m as real) == 1.0;
    assert b * (n as real) <= b * (m as real);
  }
}
