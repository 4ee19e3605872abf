# Speech segmentation of the emergency-dispatch voice assistant

This project models the voice front end of `EmergencyDispatcher` (Main.py) in Dafny and proves properties of the model. The modelled part is the code that splits a stream of 16-bit microphone frames into utterance segments, plus the checks that decide whether a segment is sent for transcription and whether the returned transcript starts a dialogue turn.

- **Frames** (`frames.dfy`): a frame is a sequence of `Int16` samples. `detect_speech` becomes `IsSpeech`, true when the sum of the sample magnitudes is above `700 * |frame|`, that is, when the mean magnitude is above 700, with the division removed. An empty frame counts as silence, as numpy's NaN mean does. `IsSpeech` is the evidently intended test. It differs from Main.py:30 on samples equal to -32768, whose magnitude numpy's int16 `abs` leaves at -32768. That as-written test is `DetectSpeechAsWritten` (see Findings).
- **Segmentation** (`segmentation.dfy`): `SegState` holds the callback's three fields: `is_recording`, `speech_frames` and `silence_frames`. `Step` is one call of `audio_callback` and returns the next state plus the segment it emits, if any. `Run` applies `Step` to every frame of a stream, in order. `Inv` is the invariant that links the flag, the buffer and the counter. `WellFormed` describes the shape of every emitted segment.
- **Dispatcher** (`dispatcher.dfy`): the class `EmergencyDispatcher` has the three fields, which `AudioCallback` updates in place. `ObserveStream` is the capture stream calling the callback once per frame. Both methods are proved against `Step` and `Run`.
- **Utterance** (`utterance.dfy`): the entry checks of `process_recorded_speech`. These are the empty-buffer check, the 0.05 s minimum duration, Python's `str.strip()`, and the blank-transcript check that decides whether a caller turn starts.

Constants: 16000 Hz sample rate, 800-sample frames (the stream's blocksize), speech threshold 700, and `SilenceLimit` = 30 frames. The source finalises a segment when `silence_frames * 0.05 >= 1.5`. In double precision this first holds at 30 frames, since `29 * 0.05 < 1.5` and `30 * 0.05` rounds to `1.5`, so the model uses the integer limit. In the same way, `len(audio_data) / 16000 < 0.05` holds exactly when the segment has fewer than 800 samples. The model states the gate that way, and `EntryGate`'s contract states it again as a duration over the reals.

Emitting a segment is modelled as a return value. This is the buffer that the source passes to `process_recorded_speech` at Main.py:43. `ProcessRecordedSpeech` is then a function of that buffer and of the text the external transcription service returns.

Three facts about Main.py. The model keeps the first; the other two concern code outside the model (see "## Left out"):
- A segment closes at `>=`, so it closes at exactly 30 silence frames (Main.py:42). `Step` and `StepEmitsAtSilenceDuration` state this rule.
- There is no exception handler around the transcription call (Main.py:67-68). An exception there would skip the reset at Main.py:44. The model has no exceptions, so `Step` always resets to idle after an emission.
- The fallback reply is sent only from the `except` clause (Main.py:92-94). When the 30 s poll runs out, nothing is sent. `handle_ai_response` is not modelled.

With the stream's blocksize of 800 samples, one frame already lasts 0.05 s. The duration gate of Main.py:57-58 therefore never rejects a segment the callback emits. `NonEmptySegmentAdmitted` and `EmittedSegmentsAreTranscribed` state this.

## Model

| member | source | states |
|---|---|---|
| `Frames.IsSpeech` | Main.py:29-30 | the speech test by true magnitude; only a non-empty frame can be speech |
| `Frames.DetectSpeechAsWritten` | Main.py:30 | the speech test with numpy's int16 `abs`, which leaves -32768 unchanged; only a non-empty frame can pass it |
| `Frames.SpeechIffMeanAboveThreshold` | Main.py:29-30 | a non-empty frame is speech iff its mean absolute amplitude is strictly above 700; a mean of exactly 700 is silence |
| `Frames.AsWrittenAgreesAwayFromMinimum` | Main.py:30 | on frames without the sample -32768, numpy's int16 `abs` sum equals the true one and the as-written test agrees with `IsSpeech` |
| `Frames.ClippedFrameReadAsSilence` | Main.py:30 | a non-empty frame whose samples are all -32768 is speech by magnitude, yet the source's test reads it as silence |
| `Segmentation.Step` | Main.py:36-44 | one callback: an emission happens only on a silence frame while recording, and it carries everything buffered plus that frame and leaves the segmenter idle |
| `Segmentation.StepEmitsAtSilenceDuration` | Main.py:39-42 | a callback emits exactly when it gets a silence frame while recording and the trailing silence, at 0.05 s per frame, reaches 1.5 s |
| `Segmentation.Run` | Main.py:47 | the callback applied to each frame of a stream in order; at most one segment per frame |
| `Segmentation.TrailingSilenceMeaning` | Main.py:39-41 | the trailing-silence count of a buffer is the number of silence frames after its last speech frame: those frames are silence and the frame before them is speech |
| `Segmentation.StepPreservesInv` | Main.py:36-44 | one callback keeps the invariant (idle ⇒ empty buffer and zero counter; recording ⇒ buffer starts with speech, counter equals its trailing silence, is below 30, and no earlier prefix ended in 30 silences), and anything it emits is well formed |
| `Segmentation.RunPreservesInv` | Main.py:36-44 | over any frame stream the invariant holds at the end and every emitted segment is well formed |
| `Segmentation.WellFormedLength` | Main.py:42-44 | an emitted segment has at least 1 + 30 frames, its last 30 frames are silence and the frame before them is speech |
| `Segmentation.StepKeepsStreamOrder` | Main.py:36-44 | one callback appends its frame to the stream seen so far; the new buffer is a final stretch of that stream and an emitted segment a contiguous stretch of it |
| `Segmentation.RunKeepsStreamOrder` | Main.py:36-44 | from any consistent state, the buffer at the end is a final stretch of the frames held at the start followed by the stream, and every emitted segment is a contiguous stretch of them, so frames keep their order and none is skipped inside a segment |
| `Segmentation.RunFromIdleKeepsStreamOrder` | Main.py:36-44 | from idle, the buffer is `fs[k..]` for some `k` and every emitted segment is `fs[lo..hi]` for some `lo <= hi` |
| `Segmentation.RunAppend` | Main.py:32-44 | processing two stretches of a stream in turn is the same as processing their concatenation |
| `Segmentation.SilenceWhileIdleEmitsNothing` | Main.py:36-39 | silence frames while idle leave the state exactly as it was and emit nothing, so an all-silence stream never emits a segment |
| `Segmentation.SpeechRun` | Main.py:36-38 | a run of speech frames, from any state, ends in recording with a zero counter and exactly those frames appended, with no emission |
| `Segmentation.ShortSilenceRun` | Main.py:39-42 | while recording, fewer silence frames than the limit raise the counter by their number and are appended, with no emission |
| `Segmentation.ClosingFrame` | Main.py:39-44 | the silence frame that brings the counter to 30 emits the whole buffer including that frame and returns to idle |
| `Segmentation.SpeechThenSilence` | Main.py:36-44 | from idle, one or more speech frames followed by 29 silence frames, a 30th silence frame and any further silence emit exactly one segment: all the speech plus those 30 silence frames; the segmenter ends idle |
| `Segmentation.SpeechThenSilenceEmits` | Main.py:36-44 | the converse of well-formedness: from any state, a speech frame `fs[i]` followed by 30 silence frames makes the segmenter emit on the 30th of them a segment ending with `fs[i..i+31]`, and go idle |
| `Dispatcher.EmergencyDispatcher.constructor` | Main.py:25-26 | a new dispatcher is idle with an empty buffer and a zero counter |
| `Dispatcher.EmergencyDispatcher.AudioCallback` | Main.py:32-44 | the four transitions: speech sets recording, resets the counter and appends the frame; idle silence changes nothing; recording silence below the limit counts and appends; the 30th silence emits the buffer with every trailing silence and resets to idle; the invariant is kept and the result agrees with `Step` |
| `Dispatcher.EmergencyDispatcher.ObserveStream` | Main.py:47 | calling the callback on each frame in order yields the final state and the emitted segments that `Run` gives, all well formed |
| `Utterance.TotalSamples` | Main.py:56 | the number of samples `np.concatenate` yields: no frame is longer than the total, and the total is zero exactly when every frame is empty |
| `Utterance.TotalSamplesUniform` | Main.py:56 | a segment of n frames of 800 samples concatenates to n * 800 samples |
| `Utterance.EntryGate` | Main.py:53-58 | the empty-buffer return happens exactly on an empty buffer; a buffer is admitted exactly when it is non-empty and lasts at least 0.05 s |
| `Utterance.TrimStartSpec` | Main.py:68 | the result is a suffix of the input, everything removed is whitespace, and it does not start with whitespace |
| `Utterance.TrimEndSpec` | Main.py:68 | the result is a prefix of the input, everything removed is whitespace, and it does not end with whitespace |
| `Utterance.Strip` | Main.py:68 | `str.strip()`: the result is no longer than the input and, when not empty, neither starts nor ends with whitespace |
| `Utterance.StripSlice` | Main.py:68 | `strip()` returns a contiguous slice of the input with only whitespace on either side, and the slice neither starts nor ends with whitespace |
| `Utterance.StripEmptyIffBlank` | Main.py:71 | the stripped transcript is empty exactly when every character is whitespace |
| `Utterance.NonEmptySegmentAdmitted` | Main.py:53-58 | any non-empty segment of 800-sample frames is neither empty nor shorter than 0.05 s, so the duration gate never fires for it |
| `Utterance.ProcessRecordedSpeech` | Main.py:52-74 | no transcription is requested exactly when the buffer is empty or lasts less than 0.05 s; after transcription, an all-whitespace transcript starts no turn, and a transcript with any other character starts a caller turn with its stripped, non-empty text |
| `Utterance.EmittedSegmentsAreTranscribed` | Main.py:42-58 | when the device delivers 800-sample frames, every segment the segmenter emits passes both entry checks |

## Left out

- Audio capture: `sd.InputStream`, the `time.sleep` polling loop of `record_and_process`, and the printing of `status` (Main.py:32-34, 46-50). These are device I/O and timing. The frame stream is a parameter of `ObserveStream`.
- The transcription call and `handle_ai_response` (Main.py:17-19, 68, 76-94). These are network calls to the OpenAI client, which is not part of this model. The transcript is a parameter of `ProcessRecordedSpeech`. The 30 s run-status polling, the reply retrieval and the fallback apology are not modelled.
- Exceptions: an exception raised by the transcription call inside the callback is not modelled. In the source it would skip the reset at Main.py:44.
- WAV encoding, the temporary file and its removal, and the directory deletion in `cleanup` (Main.py:27, 60-69, 99-103). These are filesystem I/O. The `call_in_progress` flag only stops the polling loop, so it is left out with that loop.
- The Flask route, the Socket.IO handlers, `socketio.emit`, the global `dispatcher` and the daemon thread (Main.py:105-121). These are web transport and concurrency.
- Floating point: durations are replaced by the integer frame and sample counts described above, and the float mean by an integer sum comparison.
- Main.py does not ignore frames after cancellation and does not reject a second concurrent session, so the model has neither.
- Lost frames: Main.py:43 runs the transcription and up to 30 s of reply polling synchronously inside the callback, so the device may drop frames meanwhile. The stream `fs` of `Run` and `ObserveStream` is the frames actually delivered to the callback, not every frame captured.
- Frames.IsSpeech: the segmenter classifies frames by true magnitude. The int16 wrap-around of Main.py:30 at -32768 is modelled only in `DetectSpeechAsWritten` and the lemmas about it.
- ProcessRecordedSpeech: the dialogue turn is represented only by the text it would start with (`CallerTurn`). The "Caller:" print and the dashboard event are not modelled.

## Findings

| source | as written | input that shows it | evidently intended | confidence | as-written member | corrected member |
|---|---|---|---|---|---|---|
| Main.py:30 | `np.abs` on the int16 block maps -32768 to -32768, so such samples lower the mean | a frame of 800 samples all equal to -32768 (fully clipped, maximally loud): the mean is -32768.0, so the frame is classified as silence | the mean of the sample magnitudes (32768 for that frame), so the frame is speech | high (numpy's documented int16 wrap-around); not executed | `Frames.ClippedFrameReadAsSilence` (about `Frames.DetectSpeechAsWritten`) | `Frames.SpeechIffMeanAboveThreshold` (about `Frames.IsSpeech`, which the rest of the model uses) |
