/**
 * Audio frames and the amplitude test that classifies each one as speech or
 * silence (EmergencyDispatcher.detect_speech in Main.py).
 */
module Frames {

  /** Capture configuration of EmergencyDispatcher.__init__. */
  const SampleRate: nat := 16000
  /** Samples per frame: the input stream's blocksize, int(16000 * 0.05). */
  const FrameSamples: nat := 800
  /** A frame is speech when its mean absolute sample exceeds this. */
  const SpeechThreshold: nat := 700

  /** One signed 16-bit sample, as delivered by the stream's int16 dtype. */
  type Int16 = x: int | -0x8000 <= x < 0x8000

  /** One block of consecutive samples (any length; the device delivers FrameSamples). */
  type Frame = seq<Int16>

  function Abs(x: int): (r: nat)
    ensures r == x || r == -x
  {
    if x < 0 then -x else x
  }

  /** Sum of the absolute values of the samples of a frame. */
  function AbsSum(f: Frame): nat
  {
    if |f| == 0 then 0 else AbsSum(f[..|f| - 1]) + Abs(f[|f| - 1])
  }

  /** The arithmetic mean of the absolute samples of a non-empty frame. */
  function MeanAmplitude(f: Frame): real
    requires |f| > 0
  {
    AbsSum(f) as real / |f| as real
  }

  /**
   * The classification used by the model: the mean absolute amplitude is
   * strictly above the threshold, stated without division.  An empty frame
   * is silence (numpy's mean of nothing is NaN, and NaN > 700 is false).
   */
  predicate IsSpeech(f: Frame)
    ensures IsSpeech(f) ==> |f| > 0
  {
    AbsSum(f) > SpeechThreshold * |f|
  }

  /** For a positive count n, a > t * n exactly when the real quotient a / n exceeds t. */
  lemma QuotientAbove(a: int, n: int, t: int)
    requires n > 0
    ensures a > t * n <==> (a as real) / (n as real) > t as real
  {
  }

  /** The integer test is exactly "mean absolute amplitude > 700". */
  lemma SpeechIffMeanAboveThreshold(f: Frame)
    requires |f| > 0
    ensures IsSpeech(f) <==> MeanAmplitude(f) > SpeechThreshold as real
    ensures MeanAmplitude(f) == SpeechThreshold as real ==> !IsSpeech(f)
  {
    QuotientAbove(AbsSum(f), |f|, SpeechThreshold);
  }

  // ---------------------------------------------------------------------
  // The classification as written: numpy's np.abs on an int16 array maps
  // -32768 to -32768 (its magnitude 32768 does not fit in 16 bits).
  // ---------------------------------------------------------------------

  /** np.abs on one int16 sample. */
  function WrappedAbs(x: Int16): int
  {
    if x == -0x8000 then -0x8000 else Abs(x)
  }

  function WrappedAbsSum(f: Frame): int
  {
    if |f| == 0 then 0 else WrappedAbsSum(f[..|f| - 1]) + WrappedAbs(f[|f| - 1])
  }

  /** detect_speech exactly as the source computes it on an int16 block. */
  predicate DetectSpeechAsWritten(f: Frame)
    ensures DetectSpeechAsWritten(f) ==> |f| > 0
  {
    WrappedAbsSum(f) > SpeechThreshold * |f|
  }

  /** On frames without the sample -32768 the two classifications coincide. */
  lemma {:induction false} AsWrittenAgreesAwayFromMinimum(f: Frame)
    requires forall i :: 0 <= i < |f| ==> f[i] != -0x8000
    ensures WrappedAbsSum(f) == AbsSum(f)
    ensures DetectSpeechAsWritten(f) <==> IsSpeech(f)
  {
    if |f| > 0 {
      AsWrittenAgreesAwayFromMinimum(f[..|f| - 1]);
    }
  }

  lemma {:induction false} ClippedSums(f: Frame)
    requires forall i :: 0 <= i < |f| ==> f[i] == -0x8000
    ensures AbsSum(f) == 0x8000 * |f|
    ensures WrappedAbsSum(f) == -0x8000 * |f|
  {
    if |f| > 0 {
      ClippedSums(f[..|f| - 1]);
    }
  }

  /**
   * A non-empty frame fully clipped at the negative rail is as loud as a
   * 16-bit frame can be, yet the source's test classifies it as silence.
   */
  lemma ClippedFrameReadAsSilence(f: Frame)
    requires |f| > 0
    requires forall i :: 0 <= i < |f| ==> f[i] == -0x8000
    ensures IsSpeech(f)
    ensures !DetectSpeechAsWritten(f)
  {
    ClippedSums(f);
  }
}
