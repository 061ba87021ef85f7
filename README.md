# Energy voice-activity check

This project models the voice-activity decision of the recorder firmware,
`vad_is_speaking(samples, len)` in `src/vad.c`, and proves
properties of it in Dafny. The function takes a frame of signed 16-bit PCM samples.
It sums the absolute values of the samples in a loop, divides by the frame length,
and reports "speaking" when the mean absolute amplitude is strictly greater than
`ENERGY_THRESHOLD` (500).

The model is in `vad.dfy`, module `Vad`:

- `Sample` is the `int16_t` range, and `Abs` is C's `abs` after promotion to `int`.
  So `-32768` contributes `32768`.
- `SumAbs` is the frame's energy, summed first to last. `MeanAbsAmplitude` is
  `energy / len` as an exact real. `IsSpeaking` is the decision.
- `VadIsSpeaking` is the C function itself: a method with the same `for` loop
  over an `array`, proved against `IsSpeaking`. It has no `modifies` clause,
  so Dafny guarantees that it only reads the buffer.

The source keeps the accumulator in a `double`. Every partial sum is an integer.
On the 32-bit target `len` is a `size_t` of at most 2^32 - 1, so every partial
sum is at most 32768 × (2^32 - 1), below 2^53. A `double` holds such an integer
exactly, so the model uses an `int` for the accumulator; the loop invariant
carries that bound. Only the division can round. `DecisionMargin` proves that a
speaking frame's mean exceeds 500 by at least 1/len ≥ 2^-32. Doubles near 500
are 2^-44 apart, so rounding cannot move the result across the threshold.

For `len == 0` the source computes 0/0. In IEEE arithmetic that is NaN, and NaN
is never greater than 500, so the result is false. The model returns false for
an empty frame and does not require `len > 0`.

The decision uses the mean absolute amplitude, not a root-mean-square measure,
and the threshold is 500.

## Model

| member | source | states |
|---|---|---|
| `Vad.Abs` | src/vad.c:9 | the absolute value of a sample is the sample or its negation, never negative, and at most 32768 (`abs(-32768)` after promotion to `int`) |
| `Vad.SumAbs` | src/vad.c:7-10 | the frame's energy is at most 32768 × len |
| `Vad.MeanAbsAmplitude` | src/vad.c:11 | the mean absolute amplitude `energy / len` of a non-empty frame lies between 0 and 32768 |
| `Vad.IsSpeaking` | src/vad.c:4-12 | the decision against `EnergyThreshold` (`ENERGY_THRESHOLD`, 500): the frame is non-empty and its mean absolute amplitude is strictly above 500; an empty frame (0/0 is NaN, which compares false) is never speech, and a speaking frame's sum of absolute values exceeds 500 × len |
| `Vad.VadIsSpeaking` | src/vad.c:6-13 | the loop accumulates exactly the sum of absolute values, never above 2^53 (so a double holds it exactly); the result equals the `IsSpeaking` decision and is true exactly when len > 0 and the sum exceeds 500 × len; a null buffer is accepted when len is 0 and gives false; the buffer is only read |
| `Vad.SpeakingIffSumExceeds` | src/vad.c:11-12 | the frame is speech exactly when it is non-empty and the sum of absolute values is strictly greater than 500 × len; an empty frame is never speech |
| `Vad.DecisionMargin` | src/vad.c:7-12 | for 0 < len ≤ 2^32 - 1, a speaking frame's mean is at least 500 + 1/len, a non-speaking frame's mean is at most 500, and 1/len ≥ 1/(2^32 - 1): the margin on which the rounding argument under "## Left out" rests |
| `Vad.ThresholdIsStrict` | src/vad.c:4-12 | a frame whose mean absolute amplitude is exactly 500 is not speech (the comparison is strict) |
| `Vad.SumAbsAppend` | src/vad.c:8-10 | the energy of two consecutive pieces of a frame is the sum of their energies |
| `Vad.SumAbsMonotone` | src/vad.c:8-10 | a frame that is at least as loud sample by sample has at least as much energy |
| `Vad.SumAbsPermutation` | src/vad.c:8-9 | two frames with the same multiset of samples have the same energy |
| `Vad.SumAbsConstant` | src/vad.c:8-10 | a frame of n copies of one sample has energy n × its magnitude |
| `Vad.SilentFrameNotSpeaking` | src/vad.c:7-12 | an all-zero frame has energy 0 and is never speech, whatever its length |
| `Vad.ConstantFrameDecision` | src/vad.c:4-12 | a frame of n copies of v is speech exactly when n > 0 and abs(v) > 500 |
| `Vad.SumAbsBounded` | src/vad.c:8-10 | a frame whose samples all have magnitude at most b has energy at most b × len |
| `Vad.SpeakingNeedsLoudSample` | src/vad.c:8-12 | a speaking frame has at least one sample whose magnitude is above 500 |
| `Vad.LouderFrameStaysSpeaking` | src/vad.c:8-12 | raising the magnitude of any samples never turns a speaking frame into a non-speaking one |
| `Vad.LouderSampleStaysSpeaking` | src/vad.c:8-12 | replacing one sample by one of at least the same magnitude keeps a speaking frame speaking |
| `Vad.SignDoesNotMatter` | src/vad.c:8-9 | two frames whose samples have the same magnitudes, position by position, get the same decision |
| `Vad.NegatedSampleSameDecision` | src/vad.c:8-9 | negating one sample (any sample other than -32768, which has no 16-bit negation) does not change the decision |
| `Vad.PermutationSameDecision` | src/vad.c:8-9 | reordering the samples of a frame does not change the decision |

## Left out

- IEEE double arithmetic is not modelled bit for bit. The accumulator is an exact integer, which a double matches because every partial sum is below 2^53. The quotient is an exact real, and `DecisionMargin` proves the margin between a speaking mean and the threshold. The rounding argument itself (spacing of doubles near 500, monotone rounding) is stated in a comment, not proved.
- The NaN produced by 0/0 for `len == 0` is modelled by its effect (the comparison is false), not as a value.
- `src/main.c` is not part of this model. It is a FreeRTOS task with an endless record-and-upload loop, delays and task creation: scheduling and I/O.
- `audio_capture_wait_for_speech_and_record` is not part of this model. It is called at src/main.c:44 and neither declared nor defined in any of these source files, so what it does is not modelled.
- `src/network.c` is not part of this model. It does Wi-Fi bring-up and HTTP upload through vendor libraries.
- `src/audio_capture.c` is not part of this model. It configures the I2S driver and wraps a blocking driver read.
- `src/storage.c` and the WAV writers are not part of this model. `src/storage.c` is SD-card and filesystem setup. The writers are declared at src/storage.h:7-9 and defined in none of these files.
