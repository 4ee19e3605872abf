/**
 * The segmenter state as the source keeps it: three fields of
 * EmergencyDispatcher that audio_callback updates in place, once per frame.
 */
module Dispatcher {
  import opened Wrappers
  import opened Frames
  import opened Segmentation

  class EmergencyDispatcher {
    var isRecording: bool
    var speechFrames: seq<Frame>
    var silenceFrames: nat

    /** The fields viewed as a segmenter state. */
    function State(): SegState
      reads this
    {
      SegState(isRecording, speechFrames, silenceFrames)
    }

    ghost predicate Valid()
      reads this
    {
      Inv(State())
    }

    /** __init__: idle, an empty buffer and a zero counter. */
    constructor ()
      ensures Valid()
      ensures !isRecording && speechFrames == [] && silenceFrames == 0
    {
      isRecording, speechFrames, silenceFrames := false, [], 0;
    }

    /**
     * audio_callback for one frame.  The returned segment is the buffer handed
     * to process_recorded_speech; None means that call did not happen.
     */
    method AudioCallback(frame: Frame) returns (emitted: Option<Segment>)
      requires Valid()
      modifies this
      ensures Valid()
      ensures StepResult(State(), emitted) == Step(old(State()), frame)
      // speech, whatever the state: record, reset the counter, append the frame
      ensures IsSpeech(frame) ==>
        isRecording && silenceFrames == 0 &&
        speechFrames == old(speechFrames) + [frame] && emitted == None
      // silence while idle: nothing changes and nothing is emitted
      ensures !IsSpeech(frame) && !old(isRecording) ==>
        !isRecording && speechFrames == old(speechFrames) == [] &&
        silenceFrames == old(silenceFrames) == 0 && emitted == None
      // silence while recording, below the limit: count it and append it
      ensures !IsSpeech(frame) && old(isRecording) && old(silenceFrames) + 1 < SilenceLimit ==>
        isRecording && silenceFrames == old(silenceFrames) + 1 &&
        speechFrames == old(speechFrames) + [frame] && emitted == None
      // the silence frame that reaches the limit: emit everything, then go idle
      ensures !IsSpeech(frame) && old(isRecording) && old(silenceFrames) + 1 == SilenceLimit ==>
        emitted == Some(old(speechFrames) + [frame]) &&
        !isRecording && speechFrames == [] && silenceFrames == 0
      ensures emitted.Some? ==> WellFormed(emitted.value)
    {
      StepPreservesInv(State(), frame);
      emitted := None;
      if IsSpeech(frame) {
        isRecording, silenceFrames := true, 0;
        speechFrames := speechFrames + [frame];
      } else if isRecording {
        silenceFrames := silenceFrames + 1;
        speechFrames := speechFrames + [frame];
        if silenceFrames >= SilenceLimit {
          emitted := Some(speechFrames);
          isRecording, speechFrames, silenceFrames := false, [], 0;
        }
      }
    }

    /**
     * The capture stream calling audio_callback on each frame in arrival
     * order; returns the segments emitted, in order.
     */
    method ObserveStream(frames: seq<Frame>) returns (segments: seq<Segment>)
      requires Valid()
      modifies this
      ensures Valid()
      ensures Trace(State(), segments) == Run(old(State()), frames)
      ensures forall i :: 0 <= i < |segments| ==> WellFormed(segments[i])
    {
      segments := [];
      var i := 0;
      while i < |frames|
        invariant 0 <= i <= |frames|
        invariant Valid()
        invariant Trace(State(), segments) == Run(old(State()), frames[..i])
      {
        assert frames[..i + 1][..i] == frames[..i];
        var e := AudioCallback(frames[i]);
        segments := segments + Emitted(e);
        i := i + 1;
      }
      assert frames[..i] == frames;
      RunPreservesInv(old(State()), frames);
    }
  }
}
