/**
 * `SherpaNcnnViewModel`: the recording thread of the sherpa-ncnn module. Each
 * buffer with samples is decoded, its words stamped, then the text is
 * published and logged once, and only then is the recognizer reset on an
 * endpoint. The loop never ends on its own (`while (true)`); the model follows
 * any finite run of buffers, and its timestamp map is the loop's local map
 * after them.
 */
module SherpaNcnnViewModel {

  import opened WordTimestamps
  import opened DecoderSession

  /** The order of the effects of a buffer with samples: `updateText` first,
      then the log line (present exactly for a new text), then the reset
      (present exactly on an endpoint) last. */
  lemma ChunkOrder(s: Session, c: Chunk)
    requires c.read > 0
    ensures var es := AfterChunk(PublishThenReset, s, c).events;
      |s.events| < |es| && es[..|s.events|] == s.events &&
      es[|s.events|] == TextUpdated(c.text) &&
      (TextLogged(c.text) in es[|s.events|..] <==> c.text !in s.loggedTexts) &&
      (c.text !in s.loggedTexts ==> es[|s.events| + 1] == TextLogged(c.text)) &&
      (DecoderReset in es[|s.events|..] <==> c.endpoint) &&
      (c.endpoint ==> es[|es| - 1] == DecoderReset)
  {
    var es := AfterChunk(PublishThenReset, s, c).events;
    assert es[|s.events|..] == ChunkEvents(PublishThenReset, s.loggedTexts, c);
  }

  class ViewModel {

    /** Texts already logged; kept for the lifetime of the view model. */
    var loggedTexts: set<string>

    /** Every effect emitted so far, in order. */
    var events: seq<Event>

    ghost predicate Valid()
      reads this
    {
      LoggedOnce(loggedTexts, events)
    }

    constructor ()
      ensures loggedTexts == {} && events == []
      ensures Valid()
    {
      loggedTexts := {};
      events := [];
    }

    /** `loggedTexts.add(text)`, with the log line when it reports a new text. */
    method LogTextIfNotLogged(text: string) returns (added: bool)
      modifies this
      ensures added <==> text !in old(loggedTexts)
      ensures loggedTexts == old(loggedTexts) + {text}
      ensures events == old(events) + LogEvents(old(loggedTexts), text)
    {
      added := text !in loggedTexts;
      loggedTexts := loggedTexts + {text};
      if added {
        events := events + [TextLogged(text)];
      }
    }

    /** One iteration of `while (true)`: decode, publish, log, reset on an
        endpoint. */
    method ProcessChunk(wordTimestamps: seq<(string, int)>, c: Chunk) returns (r: seq<(string, int)>)
      modifies this
      ensures Session(r, loggedTexts, events) == AfterChunk(PublishThenReset, Session(wordTimestamps, old(loggedTexts), old(events)), c)
    {
      r := wordTimestamps;
      if c.read > 0 {
        r := DecodeWhileReady(r, c.steps);
        events := events + [TextUpdated(c.text)];
        var _ := LogTextIfNotLogged(c.text);
        if c.endpoint {
          events := events + [DecoderReset];
        }
      }
    }

    /** `processSamples` over a finite run of buffers; `wordTimestamps` is the
        loop's local map afterwards. */
    method ProcessSamples(chunks: seq<Chunk>) returns (wordTimestamps: seq<(string, int)>)
      requires Valid()
      modifies this
      ensures Session(wordTimestamps, loggedTexts, events) == AfterChunks(PublishThenReset, Session([], old(loggedTexts), old(events)), chunks)
      ensures Valid()
    {
      ghost var s0 := Session([], loggedTexts, events);
      wordTimestamps := [];
      var i := 0;
      while i < |chunks|
        invariant 0 <= i <= |chunks|
        invariant Session(wordTimestamps, loggedTexts, events) == AfterChunks(PublishThenReset, s0, chunks[..i])
      {
        AfterChunksPrefix(PublishThenReset, s0, chunks, i);
        wordTimestamps := ProcessChunk(wordTimestamps, chunks[i]);
        i := i + 1;
      }
      assert chunks[..|chunks|] == chunks;
      AfterChunksLogged(PublishThenReset, s0, chunks);
    }
  }
}
