/**
 * What the three sherpa recording loops have in common: the buffers they read,
 * the callbacks and log lines they emit, the `loggedTexts` set behind
 * `logTextIfNotLogged`, and the per-buffer step that decodes, stamps words and
 * publishes the text. The three loops differ only in the order of their
 * effects, which `Loop` names. The recognizer itself (`acceptSamples`,
 * `isReady`, `decode`, `text`, `isEndpoint`) is outside the model: each buffer
 * arrives with what the recognizer answered for it.
 */
module DecoderSession {

  import opened KotlinText
  import opened WordTimestamps

  /** One iteration of the recording loop: `read` is what `audioRecord.read`
      returned (a missing recorder reads as 0); `steps` are the `decode()` calls
      of the `while (model.isReady())` loop, each with the hypothesis after it
      and the clock reading; `text` is `model.text` after the loop and
      `endpoint` is `model.isEndpoint()`. */
  datatype Chunk = Chunk(read: int, steps: seq<DecodeStep>, text: string, endpoint: bool)

  /** The effects of a loop that leave the loop: callbacks, log lines, resets. */
  datatype Event =
    | TextUpdated(text: string)           // updateText(text)
    | TextLogged(text: string)            // Log.i("WordTimestamp", "Text: $text, ...")
    | TranslationForwarded(text: string)  // updateAudioFileTranslation(text)
    | DecoderReset                        // model.reset()
    | WordsForwarded(words: seq<string>)  // updateAudioFileTranslation(keys.toList())
    | DurationReported(ms: int)           // updateFileTranscriptionDuration(diff)

  /** The local `wordTimestamps` map of one `processSamples` run, with the
      owner's `loggedTexts` and the effects emitted so far. */
  datatype Session = Session(wordTimestamps: seq<(string, int)>, loggedTexts: set<string>, events: seq<Event>)

  /** The order of the per-buffer effects: `SherpaNcnnActivity` resets before it
      publishes; `SherpaNcnnViewModel` publishes and logs, then resets;
      `SherpaOnnxViewModel` also forwards a newly logged text before the reset. */
  datatype Loop = ResetThenPublish | PublishThenReset | PublishForwardThenReset

  // ---------------------------------------------------------------------------
  // logTextIfNotLogged
  // ---------------------------------------------------------------------------

  /** The log line `logTextIfNotLogged` writes: one exactly when
      `loggedTexts.add(text)` reports a new element. */
  function LogEvents(logged: set<string>, text: string): (es: seq<Event>)
    ensures text in logged ==> es == []
    ensures text !in logged ==> es == [TextLogged(text)]
  {
    if text in logged then [] else [TextLogged(text)]
  }

  /** The forwarding of `SherpaOnnxViewModel.logTextIfNotLogged`, guarded by the
      same `add`. */
  function ForwardEvents(logged: set<string>, text: string): (es: seq<Event>)
    ensures text in logged ==> es == []
    ensures text !in logged ==> es == [TranslationForwarded(text)]
  {
    if text in logged then [] else [TranslationForwarded(text)]
  }

  /** No log line among `es`. */
  predicate Unlogged(es: seq<Event>) {
    forall i :: 0 <= i < |es| ==> !es[i].TextLogged?
  }

  /** Every text in `logged` has been logged exactly once, and no other text
      has been logged. */
  ghost predicate LoggedOnce(logged: set<string>, events: seq<Event>) {
    forall t :: multiset(events)[TextLogged(t)] == if t in logged then 1 else 0
  }

  lemma UnloggedCount(es: seq<Event>, t: string)
    requires Unlogged(es)
    ensures multiset(es)[TextLogged(t)] == 0
  {
  }

  /** One `logTextIfNotLogged(text)` between other effects that log nothing keeps
      every text logged exactly once. */
  lemma LoggedOnceStep(logged: set<string>, events: seq<Event>, before: seq<Event>, text: string, after: seq<Event>, es: seq<Event>)
    requires LoggedOnce(logged, events) && Unlogged(before) && Unlogged(after)
    requires es == events + before + LogEvents(logged, text) + after
    ensures LoggedOnce(logged + {text}, es)
  {
    assert multiset(es) == multiset(events) + multiset(before) + multiset(LogEvents(logged, text)) + multiset(after);
    forall t
      ensures multiset(es)[TextLogged(t)] == if t in logged + {text} then 1 else 0
    {
      UnloggedCount(before, t);
      UnloggedCount(after, t);
    }
  }

  /** Effects that log nothing keep every text logged exactly once. */
  lemma LoggedOnceAppend(logged: set<string>, events: seq<Event>, more: seq<Event>)
    requires LoggedOnce(logged, events) && Unlogged(more)
    ensures LoggedOnce(logged, events + more)
  {
    assert multiset(events + more) == multiset(events) + multiset(more);
    forall t
      ensures multiset(events + more)[TextLogged(t)] == if t in logged then 1 else 0
    {
      UnloggedCount(more, t);
    }
  }

  /** `logTextIfNotLogged(text)` on its own: at most one log line, present
      exactly for a new text, and afterwards every text of the grown set is
      logged exactly once. */
  lemma LogEventsOnce(logged: set<string>, events: seq<Event>, text: string)
    requires LoggedOnce(logged, events)
    ensures |LogEvents(logged, text)| <= 1
    ensures LogEvents(logged, text) != [] <==> text !in logged
    ensures LoggedOnce(logged + {text}, events + LogEvents(logged, text))
  {
    var es := events + LogEvents(logged, text);
    assert es == events + [] + LogEvents(logged, text) + [];
    LoggedOnceStep(logged, events, [], text, [], es);
  }

  /** The forwarding of `SherpaOnnxViewModel.logTextIfNotLogged(text)` writes no
      log line and forwards `text` once exactly when it is new, and no other text. */
  lemma ForwardEventsCount(logged: set<string>, text: string, t: string)
    ensures Unlogged(ForwardEvents(logged, text)) && |ForwardEvents(logged, text)| <= 1
    ensures multiset(ForwardEvents(logged, text))[TranslationForwarded(t)] == if t == text && text !in logged then 1 else 0
  {
  }

  // ---------------------------------------------------------------------------
  // One buffer
  // ---------------------------------------------------------------------------

  /** The `while (model.isReady())` loop of one buffer under the
      `model.text.isNotBlank()` guard of the two view models. */
  method DecodeWhileReady(m: seq<(string, int)>, steps: seq<DecodeStep>) returns (r: seq<(string, int)>)
    ensures r == RecordSteps(m, steps)
  {
    r := m;
    var j := 0;
    while j < |steps|
      invariant 0 <= j <= |steps|
      invariant r == RecordSteps(m, steps[..j])
    {
      var step := steps[j];
      assert steps[..j + 1][..j] == steps[..j];
      if !IsBlank(step.text) {
        r := RecordDecodeStep(r, step.text, step.now);
      }
      j := j + 1;
    }
    assert steps[..|steps|] == steps;
  }

  function ResetEvents(c: Chunk): seq<Event> {
    if c.endpoint then [DecoderReset] else []
  }

  /** The effects of one buffer after decoding, in the order of `loop`. */
  function ChunkEvents(loop: Loop, logged: set<string>, c: Chunk): seq<Event> {
    match loop
    case ResetThenPublish => ResetEvents(c) + [TextUpdated(c.text)] + LogEvents(logged, c.text)
    case PublishThenReset => [TextUpdated(c.text)] + LogEvents(logged, c.text) + ResetEvents(c)
    case PublishForwardThenReset =>
      [TextUpdated(c.text)] + LogEvents(logged, c.text) + ForwardEvents(logged, c.text) + ResetEvents(c)
  }

  /** One iteration of the recording loop: nothing at all when the read returned
      no samples; otherwise every decode step is recorded, the text is added to
      `loggedTexts`, and the buffer's effects are emitted. */
  function AfterChunk(loop: Loop, s: Session, c: Chunk): Session {
    if c.read <= 0 then s
    else Session(RecordSteps(s.wordTimestamps, c.steps), s.loggedTexts + {c.text}, s.events + ChunkEvents(loop, s.loggedTexts, c))
  }

  function AfterChunks(loop: Loop, s: Session, cs: seq<Chunk>): Session
    decreases |cs|
  {
    if |cs| == 0 then s else AfterChunk(loop, AfterChunks(loop, s, cs[..|cs| - 1]), cs[|cs| - 1])
  }

  /** One more buffer of a run is one more `AfterChunk`. */
  lemma AfterChunksPrefix(loop: Loop, s: Session, cs: seq<Chunk>, i: nat)
    requires i < |cs|
    ensures AfterChunks(loop, s, cs[..i + 1]) == AfterChunk(loop, AfterChunks(loop, s, cs[..i]), cs[i])
  {
    assert cs[..i + 1][..i] == cs[..i];
  }

  /** The decode steps that reach the recording block: those of the buffers
      that returned samples, in order, across endpoints. */
  function DecodedSteps(cs: seq<Chunk>): seq<DecodeStep>
    decreases |cs|
  {
    if |cs| == 0 then []
    else DecodedSteps(cs[..|cs| - 1]) + (if cs[|cs| - 1].read > 0 then cs[|cs| - 1].steps else [])
  }

  /** The texts published by the buffers that returned samples. */
  function PublishedTexts(cs: seq<Chunk>): set<string>
    decreases |cs|
  {
    if |cs| == 0 then {}
    else PublishedTexts(cs[..|cs| - 1]) + (if cs[|cs| - 1].read > 0 then {cs[|cs| - 1].text} else {})
  }

  // ---------------------------------------------------------------------------
  // Properties of the recording loop
  // ---------------------------------------------------------------------------

  /** The map is never cleared: after any buffers, endpoints included, it is
      the fold of every decode step seen since recording started. */
  lemma {:induction false} AfterChunksMap(loop: Loop, s: Session, cs: seq<Chunk>)
    ensures AfterChunks(loop, s, cs).wordTimestamps == RecordSteps(s.wordTimestamps, DecodedSteps(cs))
    decreases |cs|
  {
    if |cs| > 0 {
      var init := cs[..|cs| - 1];
      var c := cs[|cs| - 1];
      AfterChunksMap(loop, s, init);
      if c.read > 0 {
        RecordStepsAppend(s.wordTimestamps, DecodedSteps(init), c.steps);
      } else {
        assert DecodedSteps(cs) == DecodedSteps(init) + [] == DecodedSteps(init);
      }
    }
  }

  /** The effects of one buffer are the log line of its text between effects
      that log nothing. */
  lemma ChunkEventsSplit(loop: Loop, logged: set<string>, c: Chunk) returns (before: seq<Event>, after: seq<Event>)
    ensures Unlogged(before) && Unlogged(after)
    ensures ChunkEvents(loop, logged, c) == before + LogEvents(logged, c.text) + after
  {
    match loop {
      case ResetThenPublish =>
        before, after := ResetEvents(c) + [TextUpdated(c.text)], [];
      case PublishThenReset =>
        before, after := [TextUpdated(c.text)], ResetEvents(c);
      case PublishForwardThenReset =>
        before, after := [TextUpdated(c.text)], ForwardEvents(logged, c.text) + ResetEvents(c);
    }
  }

  lemma ChunkEventsLogged(loop: Loop, logged: set<string>, events: seq<Event>, c: Chunk)
    requires LoggedOnce(logged, events)
    ensures LoggedOnce(logged + {c.text}, events + ChunkEvents(loop, logged, c))
  {
    var before, after := ChunkEventsSplit(loop, logged, c);
    LoggedOnceStep(logged, events, before, c.text, after, events + ChunkEvents(loop, logged, c));
  }

  /** One buffer keeps every text logged exactly once and adds its text to
      `loggedTexts` when it had samples. */
  lemma AfterChunkLogged(loop: Loop, s: Session, c: Chunk)
    requires LoggedOnce(s.loggedTexts, s.events)
    ensures AfterChunk(loop, s, c).loggedTexts == s.loggedTexts + (if c.read > 0 then {c.text} else {})
    ensures LoggedOnce(AfterChunk(loop, s, c).loggedTexts, AfterChunk(loop, s, c).events)
    ensures s.events <= AfterChunk(loop, s, c).events
  {
    if c.read > 0 {
      ChunkEventsLogged(loop, s.loggedTexts, s.events, c);
    }
  }

  /** `loggedTexts` only grows, by exactly the published texts; each of them is
      logged exactly once; and effects already emitted stay as they were. */
  lemma {:induction false} AfterChunksLogged(loop: Loop, s: Session, cs: seq<Chunk>)
    requires LoggedOnce(s.loggedTexts, s.events)
    ensures AfterChunks(loop, s, cs).loggedTexts == s.loggedTexts + PublishedTexts(cs)
    ensures LoggedOnce(AfterChunks(loop, s, cs).loggedTexts, AfterChunks(loop, s, cs).events)
    ensures s.events <= AfterChunks(loop, s, cs).events
    decreases |cs|
  {
    if |cs| > 0 {
      var init := cs[..|cs| - 1];
      AfterChunksLogged(loop, s, init);
      AfterChunkLogged(loop, AfterChunks(loop, s, init), cs[|cs| - 1]);
    }
  }
}
