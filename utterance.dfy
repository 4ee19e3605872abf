/**
 * The entry checks of EmergencyDispatcher.process_recorded_speech (Main.py):
 * the empty-buffer and minimum-duration gates before transcription, and the
 * blank-transcript check before a dialogue turn.
 */
module Utterance {
  import opened Frames
  import opened Segmentation

  /** 0.05 s of audio at SampleRate. */
  const MinSamples: nat := SampleRate / 20

  /** Number of samples in the concatenation of a segment's frames. */
  function TotalSamples(seg: Segment): (n: nat)
    ensures forall i :: 0 <= i < |seg| ==> |seg[i]| <= n
    ensures n == 0 <==> forall i :: 0 <= i < |seg| ==> |seg[i]| == 0
  {
    if |seg| == 0 then 0 else TotalSamples(seg[..|seg| - 1]) + |seg[|seg| - 1]|
  }

  /** A segment of n frames of FrameSamples samples each holds n * FrameSamples samples. */
  lemma {:induction false} TotalSamplesUniform(seg: Segment)
    requires forall i :: 0 <= i < |seg| ==> |seg[i]| == FrameSamples
    ensures TotalSamples(seg) == |seg| * FrameSamples
  {
    if |seg| > 0 {
      TotalSamplesUniform(seg[..|seg| - 1]);
    }
  }

  /** Which entry check a buffer stops at, if any. */
  datatype Gate = EmptyBuffer | TooShort | Admitted

  /**
   * The two early returns: an empty buffer, then a concatenation lasting less
   * than 0.05 s (the source's len(audio_data) / sample_rate < 0.05).
   */
  function EntryGate(seg: Segment): (g: Gate)
    ensures g == EmptyBuffer <==> seg == []
    ensures g == Admitted <==>
      seg != [] && (TotalSamples(seg) as real) / (SampleRate as real) >= 0.05
  {
    if seg == [] then EmptyBuffer
    else if TotalSamples(seg) < MinSamples then TooShort
    else Admitted
  }

  /** The characters Python's str.isspace accepts, which str.strip() removes. */
  predicate IsSpace(c: char)
  {
    ('\U{0009}' <= c <= '\U{000D}') || ('\U{001C}' <= c <= '\U{0020}') ||
    c == '\U{0085}' || c == '\U{00A0}' || c == '\U{1680}' ||
    ('\U{2000}' <= c <= '\U{200A}') || c == '\U{2028}' || c == '\U{2029}' ||
    c == '\U{202F}' || c == '\U{205F}' || c == '\U{3000}'
  }

  /** s without its leading whitespace. */
  function TrimStart(s: string): string
  {
    if s != [] && IsSpace(s[0]) then TrimStart(s[1..]) else s
  }

  /** s without its trailing whitespace. */
  function TrimEnd(s: string): string
  {
    if s != [] && IsSpace(s[|s| - 1]) then TrimEnd(s[..|s| - 1]) else s
  }

  /** Python's str.strip() with no argument. */
  function Strip(s: string): (r: string)
    ensures |r| <= |s|
    ensures r != [] ==> !IsSpace(r[0]) && !IsSpace(r[|r| - 1])
  {
    TrimStartSpec(s);
    TrimEndSpec(TrimStart(s));
    TrimEnd(TrimStart(s))
  }

  /** TrimStart drops a whitespace prefix and stops at the first other character. */
  lemma {:induction false} TrimStartSpec(s: string)
    ensures |TrimStart(s)| <= |s| && TrimStart(s) == s[|s| - |TrimStart(s)|..]
    ensures forall k :: 0 <= k < |s| - |TrimStart(s)| ==> IsSpace(s[k])
    ensures TrimStart(s) != [] ==> !IsSpace(TrimStart(s)[0])
  {
    if s != [] && IsSpace(s[0]) {
      var t := s[1..];
      TrimStartSpec(t);
      forall k | 1 <= k < |s| - |TrimStart(s)| ensures IsSpace(s[k]) {
        assert s[k] == t[k - 1];
      }
    }
  }

  /** TrimEnd drops a whitespace suffix and stops at the last other character. */
  lemma {:induction false} TrimEndSpec(s: string)
    ensures |TrimEnd(s)| <= |s| && TrimEnd(s) == s[..|TrimEnd(s)|]
    ensures forall k :: |TrimEnd(s)| <= k < |s| ==> IsSpace(s[k])
    ensures TrimEnd(s) != [] ==> !IsSpace(TrimEnd(s)[|TrimEnd(s)| - 1])
  {
    if s != [] && IsSpace(s[|s| - 1]) {
      var t := s[..|s| - 1];
      TrimEndSpec(t);
      forall k | |TrimEnd(s)| <= k < |t| ensures IsSpace(s[k]) {
        assert s[k] == t[k];
      }
    }
  }

  /**
   * Strip removes whitespace at both ends and nothing else: s is some
   * whitespace, then Strip(s), then some whitespace, and Strip(s) neither
   * starts nor ends with whitespace.
   */
  lemma StripSlice(s: string)
    ensures |TrimStart(s)| <= |s|
    ensures var r := Strip(s); var lo := |s| - |TrimStart(s)|;
      lo + |r| <= |s| && s[lo..lo + |r|] == r &&
      (forall k :: 0 <= k < lo ==> IsSpace(s[k])) &&
      (forall k :: lo + |r| <= k < |s| ==> IsSpace(s[k])) &&
      (r != [] ==> !IsSpace(r[0]) && !IsSpace(r[|r| - 1]))
  {
    var t := TrimStart(s);
    var r := TrimEnd(t);
    TrimStartSpec(s);
    TrimEndSpec(t);
    SliceOfSuffix(s, t, r);
  }

  /** A prefix r of the suffix t of s, whose removed tail is whitespace, sits inside s between whitespace. */
  lemma SliceOfSuffix(s: string, t: string, r: string)
    requires |t| <= |s| && t == s[|s| - |t|..]
    requires |r| <= |t| && r == t[..|r|]
    requires forall k :: |r| <= k < |t| ==> IsSpace(t[k])
    ensures var lo := |s| - |t|; s[lo..lo + |r|] == r
    ensures forall k :: |s| - |t| + |r| <= k < |s| ==> IsSpace(s[k])
    ensures r != [] ==> r[0] == t[0]
  {
    var lo := |s| - |t|;
    forall k | lo + |r| <= k < |s| ensures IsSpace(s[k]) {
      assert s[k] == t[k - lo];
    }
  }

  /** The stripped text is empty exactly when every character is whitespace. */
  lemma StripEmptyIffBlank(s: string)
    ensures Strip(s) == [] <==> forall k :: 0 <= k < |s| ==> IsSpace(s[k])
  {
    StripSlice(s);
    var lo := |s| - |TrimStart(s)|;
    if Strip(s) == [] {
      TrimStartSpec(s);
      TrimEndSpec(TrimStart(s));
    } else {
      assert s[lo] == Strip(s)[0];
    }
  }

  /** What process_recorded_speech does with one buffer. */
  datatype Outcome =
    | Skipped(gate: Gate)       // returned before transcription
    | Blank                     // transcribed, but the stripped text is empty
    | CallerTurn(text: string)  // the stripped text starts a dialogue turn

  /**
   * process_recorded_speech, given the text the external transcription returns
   * for this buffer (consulted only once both entry checks pass).
   */
  function ProcessRecordedSpeech(seg: Segment, transcript: string): (o: Outcome)
    // no transcription for an empty buffer or one shorter than 0.05 s
    ensures o.Skipped? <==>
      seg == [] || (TotalSamples(seg) as real) / (SampleRate as real) < 0.05
    ensures o == Skipped(EmptyBuffer) <==> seg == []
    // an all-whitespace transcript starts no turn
    ensures o == Blank <==>
      !o.Skipped? && forall k :: 0 <= k < |transcript| ==> IsSpace(transcript[k])
    // any other transcript starts a turn with its stripped text
    ensures o.CallerTurn? <==>
      !o.Skipped? && exists k :: 0 <= k < |transcript| && !IsSpace(transcript[k])
    ensures o.CallerTurn? ==> o.text == Strip(transcript) && o.text != []
  {
    StripEmptyIffBlank(transcript);
    var gate := EntryGate(seg);
    if gate != Admitted then Skipped(gate)
    else
      var text := Strip(transcript);
      if text == [] then Blank else CallerTurn(text)
  }

  /**
   * One frame of FrameSamples samples already lasts 0.05 s, so any non-empty
   * segment of such frames passes both entry checks: with this blocksize the
   * duration gate never rejects a segment.
   */
  lemma NonEmptySegmentAdmitted(seg: Segment)
    requires seg != []
    requires forall i :: 0 <= i < |seg| ==> |seg[i]| == FrameSamples
    ensures EntryGate(seg) == Admitted
  {
  }

  /**
   * When the device delivers FrameSamples-sample frames, every segment the
   * segmenter emits passes both entry checks: it is never skipped.
   */
  lemma EmittedSegmentsAreTranscribed(fs: seq<Frame>, transcript: string)
    requires forall i :: 0 <= i < |fs| ==> |fs[i]| == FrameSamples
    ensures forall i :: 0 <= i < |Run(Idle, fs).segments| ==>
      EntryGate(Run(Idle, fs).segments[i]) == Admitted &&
      !ProcessRecordedSpeech(Run(Idle, fs).segments[i], transcript).Skipped?
  {
  }
}
