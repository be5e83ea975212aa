/**
 * `SherpaOnnxViewModel`: the recording thread of the sherpa-onnx module. Like
 * the sherpa-ncnn view model, but a text seen for the first time is also
 * forwarded to `updateAudioFileTranslation`, and because `loggedTexts` is a
 * field, a text forwarded once is never forwarded again, in this recording or
 * a later one. The loop never ends on its own (`while (true)`); the model
 * follows any finite run of buffers.
 */
module SherpaOnnxViewModel {

  import opened WordTimestamps
  import opened DecoderSession

  /** Every text in `logged` has been forwarded exactly once, and no other
      text has been forwarded. */
  ghost predicate ForwardedOnce(logged: set<string>, events: seq<Event>) {
    forall t :: multiset(events)[TranslationForwarded(t)] == if t in logged then 1 else 0
  }

  /** The forwardings of `t` among the effects of one buffer. */
  lemma ForwardCount(logged: set<string>, events: seq<Event>, c: Chunk, es: seq<Event>, t: string)
    requires es == events + ChunkEvents(PublishForwardThenReset, logged, c)
    ensures multiset(es)[TranslationForwarded(t)] ==
      multiset(events)[TranslationForwarded(t)] + if t == c.text && t !in logged then 1 else 0
  {
    var x := TranslationForwarded(t);
    var front, fwd, reset := [TextUpdated(c.text)] + LogEvents(logged, c.text), ForwardEvents(logged, c.text), ResetEvents(c);
    assert es == events + (front + fwd + reset);
    assert x !in front && x !in reset;
    assert multiset(front + fwd + reset)[x] == multiset(fwd)[x];
  }

  lemma ForwardedOnceStep(logged: set<string>, events: seq<Event>, c: Chunk, es: seq<Event>)
    requires ForwardedOnce(logged, events)
    requires es == events + ChunkEvents(PublishForwardThenReset, logged, c)
    ensures ForwardedOnce(logged + {c.text}, es)
  {
    forall t
      ensures multiset(es)[TranslationForwarded(t)] == if t in logged + {c.text} then 1 else 0
    {
      ForwardCount(logged, events, c, es, t);
    }
  }

  /** One buffer keeps every logged text forwarded exactly once. */
  lemma AfterChunkForwarded(s: Session, c: Chunk)
    requires ForwardedOnce(s.loggedTexts, s.events)
    ensures ForwardedOnce(AfterChunk(PublishForwardThenReset, s, c).loggedTexts, AfterChunk(PublishForwardThenReset, s, c).events)
  {
    if c.read > 0 {
      ForwardedOnceStep(s.loggedTexts, s.events, c, s.events + ChunkEvents(PublishForwardThenReset, s.loggedTexts, c));
    }
  }

  /** Over any buffers, each text is forwarded exactly once: when it is first
      published, and never again. */
  lemma {:induction false} AfterChunksForwarded(s: Session, cs: seq<Chunk>)
    requires ForwardedOnce(s.loggedTexts, s.events)
    ensures ForwardedOnce(AfterChunks(PublishForwardThenReset, s, cs).loggedTexts, AfterChunks(PublishForwardThenReset, s, cs).events)
    decreases |cs|
  {
    if |cs| > 0 {
      var init := cs[..|cs| - 1];
      AfterChunksForwarded(s, init);
      AfterChunkForwarded(AfterChunks(PublishForwardThenReset, s, init), cs[|cs| - 1]);
    }
  }

  /** A text forwarded before a run (a previous recording) is not forwarded
      during it. */
  lemma NoRepeatForward(s: Session, cs: seq<Chunk>, t: string)
    requires ForwardedOnce(s.loggedTexts, s.events) && LoggedOnce(s.loggedTexts, s.events)
    requires t in s.loggedTexts
    ensures var es := AfterChunks(PublishForwardThenReset, s, cs).events;
      |s.events| <= |es| && TranslationForwarded(t) !in es[|s.events|..]
  {
    var after := AfterChunks(PublishForwardThenReset, s, cs);
    AfterChunksForwarded(s, cs);
    AfterChunksLogged(PublishForwardThenReset, s, cs);
    assert t in after.loggedTexts;
    OnceNotAgain(s.events, after.events, TranslationForwarded(t));
  }

  /** An event occurring once in a prefix and once in the whole sequence does
      not occur after the prefix. */
  lemma OnceNotAgain(events: seq<Event>, es: seq<Event>, x: Event)
    requires events <= es
    requires multiset(events)[x] == 1 && multiset(es)[x] == 1
    ensures x !in es[|events|..]
  {
    var suffix := es[|events|..];
    assert es == events + suffix;
    assert multiset(es) == multiset(events) + multiset(suffix);
  }

  /** The order of the effects of a buffer with samples: `updateText` first;
      for a new text the log line and the forwarding next; the reset (present
      exactly on an endpoint) last. */
  lemma ChunkOrder(s: Session, c: Chunk)
    requires c.read > 0
    ensures var es := AfterChunk(PublishForwardThenReset, s, c).events;
      |s.events| < |es| && es[..|s.events|] == s.events &&
      es[|s.events|] == TextUpdated(c.text) &&
      (TranslationForwarded(c.text) in es[|s.events|..] <==> c.text !in s.loggedTexts) &&
      (c.text !in s.loggedTexts ==>
        es[|s.events| + 1] == TextLogged(c.text) && es[|s.events| + 2] == TranslationForwarded(c.text)) &&
      (DecoderReset in es[|s.events|..] <==> c.endpoint) &&
      (c.endpoint ==> es[|es| - 1] == DecoderReset)
  {
    var es := AfterChunk(PublishForwardThenReset, s, c).events;
    assert es[|s.events|..] == ChunkEvents(PublishForwardThenReset, s.loggedTexts, c);
  }

  class ViewModel {

    /** Texts already logged and forwarded; kept for the lifetime of the view
        model, across recordings. */
    var loggedTexts: set<string>

    /** Every effect emitted so far, in order. */
    var events: seq<Event>

    ghost predicate Valid()
      reads this
    {
      LoggedOnce(loggedTexts, events) && ForwardedOnce(loggedTexts, events)
    }

    constructor ()
      ensures loggedTexts == {} && events == []
      ensures Valid()
    {
      loggedTexts := {};
      events := [];
    }

    /** `loggedTexts.add(text)`; when it reports a new text, the log line and
        `updateAudioFileTranslation(text)`. */
    method LogTextIfNotLogged(text: string) returns (added: bool)
      modifies this
      ensures added <==> text !in old(loggedTexts)
      ensures loggedTexts == old(loggedTexts) + {text}
      ensures events == old(events) + LogEvents(old(loggedTexts), text) + ForwardEvents(old(loggedTexts), text)
    {
      added := text !in loggedTexts;
      loggedTexts := loggedTexts + {text};
      if added {
        events := events + [TextLogged(text)] + [TranslationForwarded(text)];
      }
    }

    /** One iteration of `while (true)`: decode, publish, log and forward, reset
        on an endpoint. */
    method ProcessChunk(wordTimestamps: seq<(string, int)>, c: Chunk) returns (r: seq<(string, int)>)
      modifies this
      ensures Session(r, loggedTexts, events) == AfterChunk(PublishForwardThenReset, Session(wordTimestamps, old(loggedTexts), old(events)), c)
    {
      r := wordTimestamps;
      if c.read > 0 {
        r := DecodeWhileReady(r, c.steps);
        events := events + [TextUpdated(c.text)];
        var _ := LogTextIfNotLogged(c.text);
        if c.endpoint {
          events := events + [DecoderReset];
        }
      }
    }

    /** `processSamples` over a finite run of buffers; `wordTimestamps` is the
        loop's local map afterwards. */
    method ProcessSamples(chunks: seq<Chunk>) returns (wordTimestamps: seq<(string, int)>)
      requires Valid()
      modifies this
      ensures Session(wordTimestamps, loggedTexts, events) == AfterChunks(PublishForwardThenReset, Session([], old(loggedTexts), old(events)), chunks)
      ensures Valid()
    {
      ghost var s0 := Session([], loggedTexts, events);
      wordTimestamps := [];
      var i := 0;
      while i < |chunks|
        invariant 0 <= i <= |chunks|
        invariant Session(wordTimestamps, loggedTexts, events) == AfterChunks(PublishForwardThenReset, s0, chunks[..i])
      {
        AfterChunksPrefix(PublishForwardThenReset, s0, chunks, i);
        wordTimestamps := ProcessChunk(wordTimestamps, chunks[i]);
        i := i + 1;
      }
      assert chunks[..|chunks|] == chunks;
      AfterChunksLogged(PublishForwardThenReset, s0, chunks);
      AfterChunksForwarded(s0, chunks);
    }
  }
}
