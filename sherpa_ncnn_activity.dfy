/**
 * `SherpaNcnnActivity`: the recording loop of the stand-alone sherpa-ncnn
 * screen. While recording, every buffer read is fed to the recognizer, each
 * decode step stamps its words, and the text is published and logged once.
 * An endpoint resets the recognizer but not the timestamp map. When recording
 * stops, the map is deduplicated, its keys are forwarded as the translation
 * and a transcription duration is reported.
 */
module SherpaNcnnActivity {

  import opened Wrappers
  import opened KotlinText
  import opened LinkedMaps
  import opened WordTimestamps
  import opened DecoderSession

  /** The guard around the recording block, `isNotBlank() && this != " "`. */
  predicate ShouldRecord(text: string) {
    !IsBlank(text) && text != " "
  }

  /** The second half of the guard never decides anything: `" "` is blank. */
  lemma ShouldRecordIsNotBlank(text: string)
    ensures ShouldRecord(text) <==> !IsBlank(text)
  {
    if text == " " {
      assert IsWhitespace(text[0]);
    }
  }

  /** What happens after the loop: the keys of the deduplicated map go to
      `updateAudioFileTranslation`, then the duration, when there is one. */
  function Report(f: seq<(string, int)>): seq<Event> {
    [WordsForwarded(KeysOf(f))] + match Duration(ValuesOf(f)) {
      case None => []
      case Some(d) => [DurationReported(d)]
    }
  }

  // ---------------------------------------------------------------------------
  // Properties of the loop
  // ---------------------------------------------------------------------------

  /** The order of the effects of a buffer with samples: the reset (present
      exactly on an endpoint) precedes `updateText`, and the log line, present
      exactly for a new text, comes last. */
  lemma ChunkOrder(s: Session, c: Chunk)
    requires c.read > 0
    ensures var es := AfterChunk(ResetThenPublish, s, c).events;
      |s.events| < |es| && es[..|s.events|] == s.events &&
      (c.endpoint ==> es[|s.events|] == DecoderReset && es[|s.events| + 1] == TextUpdated(c.text)) &&
      (!c.endpoint ==> es[|s.events|] == TextUpdated(c.text)) &&
      (TextLogged(c.text) in es[|s.events|..] <==> c.text !in s.loggedTexts) &&
      (c.text !in s.loggedTexts ==> es[|es| - 1] == TextLogged(c.text))
  {
    var es := AfterChunk(ResetThenPublish, s, c).events;
    assert es[|s.events|..] == ChunkEvents(ResetThenPublish, s.loggedTexts, c);
  }

  /** The report after the loop: the forwarded words are the keys of the
      deduplicated map, one per word index; a duration follows exactly when
      something was recorded, and it is then the spread of the kept timestamps. */
  lemma ReportSpec(m: seq<(string, int)>)
    ensures Report(Dedup(m))[0] == WordsForwarded(KeysOf(Dedup(m)))
    ensures |Report(Dedup(m))| == if |m| == 0 then 1 else 2
    ensures |m| > 0 ==> Report(Dedup(m))[1] == DurationReported(Duration(ValuesOf(Dedup(m))).value)
    ensures |m| > 0 ==> Report(Dedup(m))[1].ms >= 0
  {
    DedupKeys(m);
    if |m| > 0 {
      assert |Dedup(m)| > 0;
    }
  }

  lemma ReportUnlogged(f: seq<(string, int)>)
    ensures Unlogged(Report(f))
  {
    var r := Report(f);
    assert !r[0].TextLogged?;
    assert |r| == 2 ==> !r[1].TextLogged?;
  }

  /** The `while (model.isReady())` loop of one buffer: each decode step
      passing the guard is recorded. */
  method DecodeLoop(m: seq<(string, int)>, steps: seq<DecodeStep>) returns (r: seq<(string, int)>)
    ensures r == RecordSteps(m, steps)
  {
    r := m;
    var j := 0;
    while j < |steps|
      invariant 0 <= j <= |steps|
      invariant r == RecordSteps(m, steps[..j])
    {
      var step := steps[j];
      assert steps[..j + 1][..j] == steps[..j];
      ShouldRecordIsNotBlank(step.text);
      if ShouldRecord(step.text) {
        r := RecordDecodeStep(r, step.text, step.now);
      }
      j := j + 1;
    }
    assert steps[..|steps|] == steps;
  }

  class Activity {

    /** Texts already logged; kept for the lifetime of the activity. */
    var loggedTexts: set<string>

    /** Every effect emitted so far, in order. */
    var events: seq<Event>

    ghost predicate Valid()
      reads this
    {
      LoggedOnce(loggedTexts, events)
    }

    constructor ()
      ensures loggedTexts == {} && events == []
      ensures Valid()
    {
      loggedTexts := {};
      events := [];
    }

    /** `loggedTexts.add(text)`, with the log line when it reports a new text. */
    method LogTextIfNotLogged(text: string) returns (added: bool)
      modifies this
      ensures added <==> text !in old(loggedTexts)
      ensures loggedTexts == old(loggedTexts) + {text}
      ensures events == old(events) + LogEvents(old(loggedTexts), text)
    {
      added := text !in loggedTexts;
      loggedTexts := loggedTexts + {text};
      if added {
        events := events + [TextLogged(text)];
      }
    }

    /** One iteration of `while (isRecording)`: decode, reset on an endpoint,
        publish, log. */
    method ProcessChunk(wordTimestamps: seq<(string, int)>, c: Chunk) returns (r: seq<(string, int)>)
      modifies this
      ensures Session(r, loggedTexts, events) == AfterChunk(ResetThenPublish, Session(wordTimestamps, old(loggedTexts), old(events)), c)
    {
      r := wordTimestamps;
      if c.read > 0 {
        r := DecodeLoop(r, c.steps);
        if c.endpoint {
          events := events + [DecoderReset];
        }
        events := events + [TextUpdated(c.text)];
        var _ := LogTextIfNotLogged(c.text);
      }
    }

    /** The `while (isRecording)` loop over the buffers read while recording. */
    method RecordingLoop(chunks: seq<Chunk>) returns (wordTimestamps: seq<(string, int)>)
      modifies this
      ensures Session(wordTimestamps, loggedTexts, events) == AfterChunks(ResetThenPublish, Session([], old(loggedTexts), old(events)), chunks)
    {
      ghost var s0 := Session([], loggedTexts, events);
      wordTimestamps := [];
      var i := 0;
      while i < |chunks|
        invariant 0 <= i <= |chunks|
        invariant Session(wordTimestamps, loggedTexts, events) == AfterChunks(ResetThenPublish, s0, chunks[..i])
      {
        AfterChunksPrefix(ResetThenPublish, s0, chunks, i);
        wordTimestamps := ProcessChunk(wordTimestamps, chunks[i]);
        i := i + 1;
      }
      assert chunks[..|chunks|] == chunks;
    }

    /** After `removeDuplicates`: the forwarded keys and the duration. */
    method ReportFiltered(filtered: seq<(string, int)>)
      modifies this
      ensures loggedTexts == old(loggedTexts)
      ensures events == old(events) + Report(filtered)
    {
      events := events + [WordsForwarded(KeysOf(filtered))];
      var duration := Duration(ValuesOf(filtered));
      if duration.Some? {
        events := events + [DurationReported(duration.value)];
      }
    }

    /** `processSamples`: the recording loop, then the report. */
    method ProcessSamples(chunks: seq<Chunk>)
      requires Valid()
      modifies this
      ensures var s := AfterChunks(ResetThenPublish, Session([], old(loggedTexts), old(events)), chunks);
        loggedTexts == s.loggedTexts && events == s.events + Report(Dedup(s.wordTimestamps))
      ensures Valid()
    {
      ghost var s0 := Session([], loggedTexts, events);
      var wordTimestamps := RecordingLoop(chunks);
      AfterChunksLogged(ResetThenPublish, s0, chunks);
      ghost var looped := events;
      var filtered := RemoveDuplicates(wordTimestamps);
      ReportFiltered(filtered);
      ReportUnlogged(filtered);
      LoggedOnceAppend(loggedTexts, looped, Report(filtered));
    }
  }
}
