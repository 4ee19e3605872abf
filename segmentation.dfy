/**
 * The speech-segmentation state machine of EmergencyDispatcher.audio_callback
 * (Main.py): a pure transition function Step over the state the callback
 * keeps, its fold Run over a frame stream, the invariant both preserve, and
 * the shape of every segment they emit.
 */
module Segmentation {
  import opened Wrappers
  import opened Frames

  /**
   * Trailing silence, in frames, that closes a segment: the callback emits when
   * silence_frames * 0.05 >= 1.5, which first holds (in double precision too)
   * at 30 frames.
   */
  const SilenceLimit: nat := 30

  /** A closed utterance candidate: the frames handed to process_recorded_speech. */
  type Segment = seq<Frame>

  /** The callback's three fields: is_recording, speech_frames, silence_frames. */
  datatype SegState = SegState(recording: bool, buffer: seq<Frame>, silence: nat)

  /** The state set up by __init__ and restored after each emission. */
  const Idle := SegState(false, [], 0)

  /** Number of silence frames at the end of b (up to the last speech frame). */
  function TrailingSilence(b: seq<Frame>): nat
  {
    if |b| == 0 then 0
    else if IsSpeech(b[|b| - 1]) then 0
    else TrailingSilence(b[..|b| - 1]) + 1
  }

  /** TrailingSilence means what its name says: the last n frames are silence, the one before is speech. */
  lemma {:induction false} TrailingSilenceMeaning(b: seq<Frame>)
    ensures TrailingSilence(b) <= |b|
    ensures forall i :: |b| - TrailingSilence(b) <= i < |b| ==> !IsSpeech(b[i])
    ensures TrailingSilence(b) < |b| ==> IsSpeech(b[|b| - 1 - TrailingSilence(b)])
  {
    if |b| > 0 && !IsSpeech(b[|b| - 1]) {
      var p := b[..|b| - 1];
      TrailingSilenceMeaning(p);
      forall i | |b| - TrailingSilence(b) <= i < |b| - 1 ensures !IsSpeech(b[i]) {
        assert b[i] == p[i];
      }
      if TrailingSilence(b) < |b| {
        assert b[|b| - 1 - TrailingSilence(b)] == p[|p| - 1 - TrailingSilence(p)];
      }
    }
  }

  /** No prefix of b ends in SilenceLimit silence frames: b never held a closing run. */
  ghost predicate NoClosingRun(b: seq<Frame>)
  {
    forall j :: 0 <= j <= |b| ==> TrailingSilence(b[..j]) < SilenceLimit
  }

  /**
   * The segmenter invariant: idle means an empty buffer and a zero counter;
   * recording means a buffer that starts with speech, whose counter is the
   * number of trailing silence frames, and that never reached the limit.
   */
  ghost predicate Inv(s: SegState)
  {
    if !s.recording then s.buffer == [] && s.silence == 0
    else
      |s.buffer| > 0 && IsSpeech(s.buffer[0]) &&
      s.silence == TrailingSilence(s.buffer) &&
      NoClosingRun(s.buffer)
  }

  /**
   * The shape of an emitted segment: it starts with speech, ends in exactly
   * SilenceLimit silence frames, and no earlier point of it ends such a run.
   */
  ghost predicate WellFormed(seg: Segment)
  {
    |seg| > 0 && IsSpeech(seg[0]) &&
    TrailingSilence(seg) == SilenceLimit &&
    NoClosingRun(seg[..|seg| - 1])
  }

  /** What one callback produces: the next state and the segment emitted, if any. */
  datatype StepResult = StepResult(next: SegState, emitted: Option<Segment>)

  /** What a stream of callbacks produces: the final state and the segments emitted, in order. */
  datatype Trace = Trace(last: SegState, segments: seq<Segment>)

  /** One call of audio_callback: the next state and the segment it emits, if any. */
  function Step(s: SegState, f: Frame): (r: StepResult)
    // only a silence frame while recording can close a segment; the segment is
    // everything buffered plus that frame, and the segmenter goes back to idle
    ensures r.emitted.Some? ==> s.recording && !IsSpeech(f)
    ensures r.emitted.Some? ==> r.emitted.value == s.buffer + [f] && r.next == Idle
  {
    if IsSpeech(f) then StepResult(SegState(true, s.buffer + [f], 0), None)
    else if s.recording then
      var b := s.buffer + [f];
      if s.silence + 1 >= SilenceLimit then StepResult(Idle, Some(b))
      else StepResult(SegState(true, b, s.silence + 1), None)
    else StepResult(s, None)
  }

  /**
   * A step emits exactly on a silence frame while recording that makes the
   * trailing silence last 1.5 s, at 0.05 s per frame.
   */
  lemma StepEmitsAtSilenceDuration(s: SegState, f: Frame)
    ensures Step(s, f).emitted.Some? <==>
      s.recording && !IsSpeech(f) && (s.silence + 1) as real * 0.05 >= 1.5
  {
  }

  /** The segments a step emits, as a (possibly empty) list. */
  function Emitted(e: Option<Segment>): seq<Segment>
  {
    if e.Some? then [e.value] else []
  }

  /** audio_callback applied to every frame of a stream, in order. */
  function Run(s: SegState, fs: seq<Frame>): (t: Trace)
    ensures |t.segments| <= |fs|  // at most one segment per callback
    decreases |fs|
  {
    if |fs| == 0 then Trace(s, [])
    else
      var prior := Run(s, fs[..|fs| - 1]);
      var step := Step(prior.last, fs[|fs| - 1]);
      Trace(step.next, prior.segments + Emitted(step.emitted))
  }

  lemma AppendLast(b: seq<Frame>, f: Frame)
    ensures (b + [f])[..|b|] == b
    ensures TrailingSilence(b + [f]) == if IsSpeech(f) then 0 else TrailingSilence(b) + 1
  {
  }

  /** Extending a buffer keeps NoClosingRun when the longer buffer does not end in a closing run. */
  lemma ExtendNoClosingRun(b: seq<Frame>, f: Frame)
    requires NoClosingRun(b)
    requires TrailingSilence(b + [f]) < SilenceLimit
    ensures NoClosingRun(b + [f])
  {
    var b' := b + [f];
    forall j | 0 <= j <= |b'| ensures TrailingSilence(b'[..j]) < SilenceLimit {
      if j <= |b| {
        assert b'[..j] == b[..j];
      } else {
        assert b'[..j] == b';
      }
    }
  }

  /**
   * Every step keeps the invariant, and whatever it emits is well formed:
   * started by speech, closed by exactly SilenceLimit silence frames.
   */
  lemma StepPreservesInv(s: SegState, f: Frame)
    requires Inv(s)
    ensures Inv(Step(s, f).next)
    ensures Step(s, f).emitted.Some? ==> WellFormed(Step(s, f).emitted.value)
  {
    var b := s.buffer + [f];
    AppendLast(s.buffer, f);
    if IsSpeech(f) {
      if s.recording {
        ExtendNoClosingRun(s.buffer, f);
      } else {
        assert b == [f];
        forall j | 0 <= j <= |b| ensures TrailingSilence(b[..j]) < SilenceLimit {
          if j == 0 { assert b[..j] == []; } else { assert b[..j] == [f]; }
        }
      }
    } else if s.recording {
      if s.silence + 1 >= SilenceLimit {
        assert s.buffer[..|s.buffer|] == s.buffer;
        assert b[..|b| - 1] == s.buffer;
      } else {
        ExtendNoClosingRun(s.buffer, f);
      }
    }
  }

  /** Run keeps the invariant and every segment it emits is well formed. */
  lemma {:induction false} RunPreservesInv(s: SegState, fs: seq<Frame>)
    requires Inv(s)
    ensures Inv(Run(s, fs).last)
    ensures forall i :: 0 <= i < |Run(s, fs).segments| ==> WellFormed(Run(s, fs).segments[i])
  {
    if |fs| > 0 {
      var prior := Run(s, fs[..|fs| - 1]);
      RunPreservesInv(s, fs[..|fs| - 1]);
      StepPreservesInv(prior.last, fs[|fs| - 1]);
    }
  }

  /** x is a contiguous stretch of pool. */
  ghost predicate IsSlice(x: seq<Frame>, pool: seq<Frame>)
  {
    exists lo, hi :: 0 <= lo <= hi <= |pool| && x == pool[lo..hi]
  }

  /** x is a final stretch of pool. */
  ghost predicate IsSuffix(x: seq<Frame>, pool: seq<Frame>)
  {
    exists k :: 0 <= k <= |pool| && x == pool[k..]
  }

  /** A slice of a prefix of the pool is a slice of the pool. */
  lemma SliceOfLonger(x: seq<Frame>, pool: seq<Frame>, f: Frame)
    requires IsSlice(x, pool)
    ensures IsSlice(x, pool + [f])
  {
    var lo, hi :| 0 <= lo <= hi <= |pool| && x == pool[lo..hi];
    assert x == (pool + [f])[lo..hi];
  }

  /** A final stretch of pool, extended by f, is a final stretch (and so a stretch) of pool + [f]. */
  lemma SuffixExtends(x: seq<Frame>, pool: seq<Frame>, f: Frame)
    requires IsSuffix(x, pool)
    ensures IsSuffix(x + [f], pool + [f])
    ensures IsSlice(x + [f], pool + [f])
  {
    var k :| 0 <= k <= |pool| && x == pool[k..];
    assert x + [f] == (pool + [f])[k..] == (pool + [f])[k..|pool| + 1];
  }

  /** The empty buffer is a final stretch of any pool. */
  lemma EmptySuffix(pool: seq<Frame>)
    ensures IsSuffix([], pool)
  {
    assert [] == pool[|pool|..];
  }

  /** One step appends f to the stream and keeps buffer and emitted segment stretches of it. */
  lemma StepKeepsStreamOrder(t: SegState, f: Frame, pool: seq<Frame>)
    requires !t.recording ==> t.buffer == []
    requires IsSuffix(t.buffer, pool)
    ensures IsSuffix(Step(t, f).next.buffer, pool + [f])
    ensures Step(t, f).emitted.Some? ==> IsSlice(Step(t, f).emitted.value, pool + [f])
  {
    SuffixExtends(t.buffer, pool, f);
    EmptySuffix(pool + [f]);
  }

  /**
   * The segmenter keeps frames in arrival order and never drops one from the
   * middle of a segment: the buffer is always a final stretch of the frames it
   * held plus those it was given, and every emitted segment is a contiguous
   * stretch of them.
   */
  lemma {:induction false} RunKeepsStreamOrder(s: SegState, fs: seq<Frame>)
    requires Inv(s)
    ensures IsSuffix(Run(s, fs).last.buffer, s.buffer + fs)
    ensures forall i :: 0 <= i < |Run(s, fs).segments| ==> IsSlice(Run(s, fs).segments[i], s.buffer + fs)
  {
    if |fs| == 0 {
      assert s.buffer + fs == s.buffer;
      assert s.buffer == s.buffer[0..];
    } else {
      var p := fs[..|fs| - 1];
      var f := fs[|fs| - 1];
      var pool' := s.buffer + p;
      var pool := pool' + [f];
      assert s.buffer + fs == pool;
      var prior := Run(s, p);
      RunKeepsStreamOrder(s, p);
      RunPreservesInv(s, p);
      forall i | 0 <= i < |prior.segments| ensures IsSlice(prior.segments[i], pool) {
        SliceOfLonger(prior.segments[i], pool', f);
      }
      assert !prior.last.recording ==> prior.last.buffer == [];
      StepKeepsStreamOrder(prior.last, f, pool');
      assert Run(s, fs).segments == prior.segments + Emitted(Step(prior.last, f).emitted);
    }
  }

  /** From idle the pool is the stream itself: the buffer is some fs[k..] and each segment some fs[lo..hi]. */
  lemma RunFromIdleKeepsStreamOrder(fs: seq<Frame>)
    ensures IsSuffix(Run(Idle, fs).last.buffer, fs)
    ensures forall i :: 0 <= i < |Run(Idle, fs).segments| ==> IsSlice(Run(Idle, fs).segments[i], fs)
  {
    assert Idle.buffer + fs == fs;
    RunKeepsStreamOrder(Idle, fs);
  }

  /** A well-formed segment holds at least one speech frame and the full closing run. */
  lemma WellFormedLength(seg: Segment)
    requires WellFormed(seg)
    ensures |seg| >= SilenceLimit + 1
    ensures forall i :: |seg| - SilenceLimit <= i < |seg| ==> !IsSpeech(seg[i])
    ensures IsSpeech(seg[|seg| - 1 - SilenceLimit])
  {
    TrailingSilenceMeaning(seg);
  }

  /** Running over a concatenation is running over each part in turn. */
  lemma {:induction false} RunAppend(s: SegState, a: seq<Frame>, b: seq<Frame>)
    ensures Run(s, a + b).last == Run(Run(s, a).last, b).last
    ensures Run(s, a + b).segments == Run(s, a).segments + Run(Run(s, a).last, b).segments
    decreases |b|
  {
    if |b| == 0 {
      assert a + b == a;
    } else {
      var ab := a + b;
      assert ab[..|ab| - 1] == a + b[..|b| - 1];
      assert ab[|ab| - 1] == b[|b| - 1];
      RunAppend(s, a, b[..|b| - 1]);
    }
  }

  /** Silence while idle changes nothing and emits nothing: an all-silence stream yields no segment. */
  lemma {:induction false} SilenceWhileIdleEmitsNothing(s: SegState, fs: seq<Frame>)
    requires !s.recording
    requires forall i :: 0 <= i < |fs| ==> !IsSpeech(fs[i])
    ensures Run(s, fs) == Trace(s, [])
  {
    if |fs| > 0 {
      SilenceWhileIdleEmitsNothing(s, fs[..|fs| - 1]);
      assert Step(s, fs[|fs| - 1]) == StepResult(s, None);
      assert Run(s, fs).segments == [] + [];
    } else {
      assert Run(s, fs).segments == [];
    }
  }

  /** A run of speech frames starts (or continues) a segment holding exactly those frames. */
  lemma {:induction false} SpeechRun(s: SegState, sp: seq<Frame>)
    requires |sp| > 0
    requires forall i :: 0 <= i < |sp| ==> IsSpeech(sp[i])
    ensures Run(s, sp) == Trace(SegState(true, s.buffer + sp, 0), [])
  {
    if |sp| > 1 {
      var p := sp[..|sp| - 1];
      SpeechRun(s, p);
      assert s.buffer + p + [sp[|sp| - 1]] == s.buffer + sp;
      assert Run(s, sp).segments == [] + [];
    } else {
      assert |sp[..0]| == 0;
      assert sp == [sp[0]];
      assert Run(s, sp).segments == [] + [];
    }
  }

  /** Fewer than SilenceLimit silence frames while recording only extend the segment. */
  lemma {:induction false} ShortSilenceRun(b: seq<Frame>, c: nat, si: seq<Frame>)
    requires c + |si| < SilenceLimit
    requires forall i :: 0 <= i < |si| ==> !IsSpeech(si[i])
    ensures Run(SegState(true, b, c), si) == Trace(SegState(true, b + si, c + |si|), [])
  {
    if |si| == 0 {
      assert b + si == b;
      assert Run(SegState(true, b, c), si).segments == [];
    } else {
      var p := si[..|si| - 1];
      ShortSilenceRun(b, c, p);
      assert b + p + [si[|si| - 1]] == b + si;
      assert Step(SegState(true, b + p, c + |p|), si[|si| - 1]) == StepResult(SegState(true, b + si, c + |si|), None);
      assert Run(SegState(true, b, c), si).segments == [] + [];
    }
  }

  /** The silence frame that brings the counter to SilenceLimit closes and emits the segment. */
  lemma ClosingFrame(b: seq<Frame>, f: Frame)
    requires !IsSpeech(f)
    ensures Run(SegState(true, b, SilenceLimit - 1), [f]) == Trace(Idle, [b + [f]])
  {
  }

  /**
   * From idle, speech followed by SilenceLimit - 1 silence frames, one more
   * silence frame and any further silence yields exactly one segment: all the
   * speech plus the first SilenceLimit silence frames.  The segmenter ends
   * idle; the silence after the closing frame is dropped.
   */
  lemma SpeechThenSilence(sp: seq<Frame>, head: seq<Frame>, f: Frame, rest: seq<Frame>)
    requires |sp| > 0
    requires forall i :: 0 <= i < |sp| ==> IsSpeech(sp[i])
    requires |head| == SilenceLimit - 1
    requires forall i :: 0 <= i < |head| ==> !IsSpeech(head[i])
    requires !IsSpeech(f)
    requires forall i :: 0 <= i < |rest| ==> !IsSpeech(rest[i])
    ensures Run(Idle, sp + head + [f] + rest) == Trace(Idle, [sp + head + [f]])
  {
    var one := [f];
    var seg := sp + head + one;
    var s2 := SegState(true, sp + head, SilenceLimit - 1);
    assert Run(Idle, sp) == Trace(SegState(true, sp, 0), []) by {
      SpeechRun(Idle, sp);
      assert Idle.buffer + sp == sp;
    }
    assert Run(Idle, sp + head) == Trace(s2, []) by {
      ShortSilenceRun(sp, 0, head);
      RunAppend(Idle, sp, head);
    }
    assert Run(Idle, seg) == Trace(Idle, [seg]) by {
      ClosingFrame(sp + head, f);
      RunAppend(Idle, sp + head, one);
    }
    assert Run(Idle, seg + rest) == Trace(Idle, [seg]) by {
      SilenceWhileIdleEmitsNothing(Idle, rest);
      RunAppend(Idle, seg, rest);
    }
  }

  /**
   * From any state, a speech frame fs[i] followed by SilenceLimit silence
   * frames makes the segmenter emit at the last of them: the segments emitted
   * up to there are not empty, the last one ends with fs[i..i + SilenceLimit + 1],
   * and the segmenter is idle again.
   */
  lemma SpeechThenSilenceEmits(s: SegState, fs: seq<Frame>, i: nat)
    requires i + SilenceLimit + 1 <= |fs|
    requires IsSpeech(fs[i])
    requires forall k :: i < k <= i + SilenceLimit ==> !IsSpeech(fs[k])
    ensures var out := Run(s, fs[..i + SilenceLimit + 1]).segments;
      |out| > 0 && |out[|out| - 1]| >= SilenceLimit + 1 &&
      out[|out| - 1][|out[|out| - 1]| - (SilenceLimit + 1)..] == fs[i..i + SilenceLimit + 1]
    ensures Run(s, fs[..i + SilenceLimit + 1]).last == Idle
  {
    var n := i + SilenceLimit + 1;
    var p := fs[..i];
    var one := [fs[i]];
    var head := fs[i + 1..i + SilenceLimit];
    var last := [fs[i + SilenceLimit]];
    assert forall k :: 0 <= k < |head| ==> head[k] == fs[i + 1 + k];
    assert forall k :: 0 <= k < |head| ==> !IsSpeech(head[k]);
    assert fs[..n] == p + one + head + last;
    assert fs[i..n] == one + head + last;
    var r0 := Run(s, p);
    var b := r0.last.buffer + one;
    assert Run(s, p + one) == Trace(SegState(true, b, 0), r0.segments) by {
      SpeechRun(r0.last, one);
      RunAppend(s, p, one);
    }
    assert Run(s, p + one + head) == Trace(SegState(true, b + head, SilenceLimit - 1), r0.segments) by {
      ShortSilenceRun(b, 0, head);
      RunAppend(s, p + one, head);
    }
    var seg := b + head + last;
    assert Run(s, p + one + head + last) == Trace(Idle, r0.segments + [seg]) by {
      ClosingFrame(b + head, fs[i + SilenceLimit]);
      RunAppend(s, p + one + head, last);
    }
    assert seg[|seg| - n + i..] == one + head + last;
  }
}
