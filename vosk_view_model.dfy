/**
 * `VoskViewModel`: the Vosk speech service front-end. Every result the
 * recognizer delivers is merged into the accumulated `resultText` by
 * `updatePartialResult`, which appends only the words not yet seen, and the
 * accumulated text is forwarded to the audio-file list. The recognition
 * listener keeps its own word-timestamp map and a cursor into the text; the
 * map and the cursor are reset on a final result, an error and a timeout.
 * The JSON payload of a result is outside the model: methods receive the text
 * `parseJsonContent` extracted from it.
 */
module VoskViewModel {

  import opened Wrappers
  import opened KotlinText
  import opened LinkedMaps

  /** The initial `resultText`, replaced by the first non-empty result. */
  const Placeholder: string := "Preparing..."

  /** The message `stopListening` shows. */
  const StoppedMessage: string := "Stopped listening."

  /** The message shown when listening starts without a loaded model. */
  const NoModelMessage: string := "Model is not initialized."

  // ---------------------------------------------------------------------------
  // updatePartialResult
  // ---------------------------------------------------------------------------

  /** The two fields `updatePartialResult` reads and writes. */
  datatype ResultState = ResultState(resultText: string, lastPartialResult: string)

  /** The words of `current` not in the previous result: `current` without the
      `lastPartialResult` prefix (all of it when that is not a prefix), trimmed. */
  function NewWords(lastPartialResult: string, current: string): string {
    Trim(RemovePrefix(current, lastPartialResult))
  }

  /** One `updatePartialResult` with the parsed text `current`. */
  function PartialStep(st: ResultState, current: string): ResultState {
    if current == "" then st
    else if st.resultText == Placeholder then ResultState(current, current)
    else
      var w := NewWords(st.lastPartialResult, current);
      if w != "" then ResultState(Trim(st.resultText + " " + w), current) else st
  }

  /** An empty result changes nothing. */
  lemma PartialEmpty(st: ResultState)
    ensures PartialStep(st, "") == st
  {
  }

  /** While the placeholder is shown, the first non-empty result replaces it
      and becomes the last partial result. */
  lemma PartialPlaceholder(st: ResultState, current: string)
    requires st.resultText == Placeholder && current != ""
    ensures PartialStep(st, current) == ResultState(current, current)
  {
  }

  /** A result that extends the previous one by a space and a word appends
      exactly that word. */
  lemma PartialAppend(st: ResultState, w: string)
    requires st.resultText != Placeholder && IsTrimmedWord(st.resultText) && IsTrimmedWord(w)
    ensures PartialStep(st, st.lastPartialResult + " " + w) ==
      ResultState(st.resultText + " " + w, st.lastPartialResult + " " + w)
  {
    var current := st.lastPartialResult + " " + w;
    assert RemovePrefix(current, st.lastPartialResult) == " " + w;
    TrimPadded(" ", w, "");
    assert " " + w + "" == " " + w;
    TrimJoinTrimmed(st.resultText, w);
  }

  /** Once something other than the placeholder is shown, the text only grows:
      the old text stays a prefix, every change appends, the text stays trimmed,
      and `lastPartialResult` changes exactly when the text does, to `current`. */
  lemma PartialGrows(st: ResultState, current: string)
    requires st.resultText != Placeholder && IsTrimmedWord(st.resultText)
    ensures st.resultText <= PartialStep(st, current).resultText
    ensures IsTrimmedWord(PartialStep(st, current).resultText)
    ensures PartialStep(st, current).resultText != st.resultText <==> PartialStep(st, current) != st
    ensures PartialStep(st, current) != st ==> PartialStep(st, current).lastPartialResult == current
  {
    if current != "" {
      var w := NewWords(st.lastPartialResult, current);
      if w != "" {
        assert PartialStep(st, current) == ResultState(Trim(st.resultText + " " + w), current);
        JoinGrows(st.resultText, w);
      }
    }
  }

  /** Joining a trimmed text and new words by a space extends the text and is
      trimmed itself. */
  lemma JoinGrows(a: string, w: string)
    requires IsTrimmedWord(a) && IsTrimmedWord(w)
    ensures a < Trim(a + " " + w) && IsTrimmedWord(Trim(a + " " + w))
  {
    TrimJoinTrimmed(a, w);
    assert (a + " " + w)[..|a|] == a;
  }

  /** A result that repeats the last partial result brings no new words. */
  lemma NewWordsSame(current: string)
    ensures NewWords(current, current) == ""
  {
    assert RemovePrefix(current, current) == "";
  }

  /** After a step that appended words, the text holds a space, so it is not
      the placeholder. */
  lemma AppendedNotPlaceholder(resultText: string, w: string)
    requires !IsBlank(resultText) && w != "" && IsTrimmedWord(w)
    ensures Trim(resultText + " " + w) != Placeholder
  {
    TrimJoinKeepsSpace(resultText, w);
    assert ' ' !in Placeholder;
  }

  /** Feeding the same result twice in a row changes nothing the second time. */
  lemma PartialIdempotent(st: ResultState, current: string)
    requires st.resultText == Placeholder || !IsBlank(st.resultText)
    ensures PartialStep(PartialStep(st, current), current) == PartialStep(st, current)
  {
    if current != "" {
      NewWordsSame(current);
      if st.resultText != Placeholder {
        var w := NewWords(st.lastPartialResult, current);
        if w != "" {
          AppendedNotPlaceholder(st.resultText, w);
        }
      }
    }
  }

  // ---------------------------------------------------------------------------
  // parseAndStoreTimestamps
  // ---------------------------------------------------------------------------

  /** The listener's bookkeeping: the first time each word was seen, the cursor
      `lastAccumulatedLength` into the accumulated text, and
      `lastPartialResultTime`. */
  datatype ListenerState = ListenerState(wordTimestamps: seq<(string, int)>, lastAccumulatedLength: nat, lastPartialResultTime: int)

  /** The words past the cursor: `substring(cursor).trim().split(" ")` without
      the blank pieces. */
  function WordsAfter(current: string, cursor: nat): seq<string>
    requires cursor <= |current|
  {
    NonBlank(SplitOnChar(Trim(current[cursor..]), ' '))
  }

  /** `parseAndStoreTimestamps` with the parsed text `current` and the clock
      reading `now`: a blank text changes nothing; a cursor past the end of
      the text makes `substring` throw; otherwise each new word past the cursor
      is stamped with `now` unless already present, and the cursor moves to the
      end of the text. */
  function StoreTimestamps(st: ListenerState, current: string, now: int): Result<ListenerState, string> {
    if IsBlank(current) then Success(st)
    else if st.lastAccumulatedLength > |current| then Failure("StringIndexOutOfBoundsException")
    else Success(ListenerState(PutAllIfAbsent(st.wordTimestamps, WordsAfter(current, st.lastAccumulatedLength), now), |current|, now))
  }

  /** The call fails exactly when the text is not blank and the cursor lies
      past its end; a blank text leaves everything as it was. */
  lemma StoreTimestampsOutcome(st: ListenerState, current: string, now: int)
    ensures StoreTimestamps(st, current, now).Failure? <==> !IsBlank(current) && st.lastAccumulatedLength > |current|
    ensures IsBlank(current) ==> StoreTimestamps(st, current, now) == Success(st)
  {
  }

  /** After a successful call on a non-blank text: the cursor is the text's
      length and the time is `now`; earlier entries keep their place and their
      timestamp (first wins); new entries are the new words, keyed by the word
      alone and all stamped `now`; no word appears twice. */
  lemma StoreTimestampsSpec(st: ListenerState, current: string, now: int)
    requires UniqueKeys(st.wordTimestamps)
    requires !IsBlank(current) && st.lastAccumulatedLength <= |current|
    ensures var r := StoreTimestamps(st, current, now);
      r.Success? && r.value.lastAccumulatedLength == |current| && r.value.lastPartialResultTime == now &&
      st.wordTimestamps <= r.value.wordTimestamps && UniqueKeys(r.value.wordTimestamps) &&
      (forall k :: k in KeysOf(r.value.wordTimestamps) <==> k in KeysOf(st.wordTimestamps) || k in WordsAfter(current, st.lastAccumulatedLength)) &&
      (forall i :: |st.wordTimestamps| <= i < |r.value.wordTimestamps| ==> r.value.wordTimestamps[i].1 == now)
  {
    PutAllIfAbsentSpec(st.wordTimestamps, WordsAfter(current, st.lastAccumulatedLength), now);
  }

  /** When the text grows by `added`, the words recorded are those of `added`:
      the cursor makes every earlier word invisible to the call. */
  lemma StoreTimestampsIncremental(st: ListenerState, previous: string, added: string, now: int)
    requires st.lastAccumulatedLength == |previous| && !IsBlank(previous + added)
    ensures StoreTimestamps(st, previous + added, now) ==
      Success(ListenerState(PutAllIfAbsent(st.wordTimestamps, NonBlank(SplitOnChar(Trim(added), ' ')), now), |previous + added|, now))
  {
    assert (previous + added)[|previous|..] == added;
  }

  // ---------------------------------------------------------------------------
  // The view model and its recognition listener
  // ---------------------------------------------------------------------------

  class ViewModel {

    /** `_resultText.value`. */
    var resultText: string

    var lastPartialResult: string

    /** `_isRecording.value`. */
    var isRecording: bool

    /** `speechService != null`. */
    var listening: bool

    constructor ()
      ensures resultText == Placeholder && lastPartialResult == ""
      ensures !isRecording && !listening
    {
      resultText := Placeholder;
      lastPartialResult := "";
      isRecording := false;
      listening := false;
    }

    /** `updatePartialResult` with the parsed text of a result. */
    method UpdatePartialResult(current: string)
      modifies this
      ensures ResultState(resultText, lastPartialResult) == PartialStep(ResultState(old(resultText), old(lastPartialResult)), current)
      ensures isRecording == old(isRecording) && listening == old(listening)
    {
      if current != "" {
        if resultText == Placeholder {
          resultText := current;
          lastPartialResult := current;
        } else {
          var newWords := Trim(RemovePrefix(current, lastPartialResult));
          if newWords != "" {
            resultText := Trim(resultText + " " + newWords);
            lastPartialResult := current;
          }
        }
      }
    }

    /** `handleError`: the message replaces the shown text. */
    method HandleError(message: string)
      modifies this
      ensures resultText == message
      ensures lastPartialResult == old(lastPartialResult) && isRecording == old(isRecording) && listening == old(listening)
    {
      resultText := message;
    }

    /** `stopListening`. */
    method StopListening()
      modifies this
      ensures resultText == StoppedMessage && !isRecording && !listening
      ensures lastPartialResult == old(lastPartialResult)
    {
      listening := false;
      isRecording := false;
      resultText := StoppedMessage;
    }

    /** `startListening`: without a model the error is shown and nothing starts;
        otherwise a fresh listener starts with an empty map and the cursor at 0.
        `modelLoaded` says whether `initModel` has delivered a model; `now` is
        the clock reading the listener starts with. */
    method StartListening(modelLoaded: bool, now: int) returns (listener: Listener?)
      modifies this
      ensures !modelLoaded ==> listener == null && resultText == NoModelMessage
      ensures !modelLoaded ==> isRecording == old(isRecording) && listening == old(listening)
      ensures modelLoaded ==> listener != null && fresh(listener) && listener.vm == this
      ensures modelLoaded ==> listener.wordTimestamps == [] && listener.lastAccumulatedLength == 0 && listener.translations == []
      ensures modelLoaded ==> isRecording && listening && resultText == old(resultText)
      ensures lastPartialResult == old(lastPartialResult)
    {
      if !modelLoaded {
        HandleError(NoModelMessage);
        listener := null;
      } else {
        listener := new Listener(this, now);
        listening := true;
        isRecording := true;
      }
    }

    /** `toggleMicrophone`. */
    method ToggleMicrophone(modelLoaded: bool, now: int) returns (listener: Listener?)
      modifies this
      ensures old(listening) ==> listener == null && resultText == StoppedMessage && !isRecording && !listening
      ensures !old(listening) && modelLoaded ==> listener != null && fresh(listener) && listener.vm == this && isRecording && listening
      ensures !old(listening) && modelLoaded ==>
        listener.wordTimestamps == [] && listener.lastAccumulatedLength == 0 && listener.translations == [] && resultText == old(resultText)
      ensures !old(listening) && !modelLoaded ==> listener == null && resultText == NoModelMessage
      ensures !old(listening) && !modelLoaded ==> isRecording == old(isRecording) && listening == old(listening)
      ensures lastPartialResult == old(lastPartialResult)
    {
      if listening {
        StopListening();
        listener := null;
      } else {
        listener := StartListening(modelLoaded, now);
      }
    }
  }

  /** The `RecognitionListener` object `startListening` installs. */
  class Listener {

    const vm: ViewModel

    var wordTimestamps: seq<(string, int)>
    var lastPartialResultTime: int
    var lastAccumulatedLength: nat

    /** The texts passed to `updateAudioFileTranslation`, in order. */
    var translations: seq<string>

    constructor (vm: ViewModel, now: int)
      ensures this.vm == vm
      ensures wordTimestamps == [] && lastPartialResultTime == now && lastAccumulatedLength == 0 && translations == []
    {
      this.vm := vm;
      wordTimestamps := [];
      lastPartialResultTime := now;
      lastAccumulatedLength := 0;
      translations := [];
    }

    /** `onResult`: merge the result, then forward the whole accumulated text. */
    method OnResult(current: string)
      modifies this, vm
      ensures ResultState(vm.resultText, vm.lastPartialResult) == PartialStep(ResultState(old(vm.resultText), old(vm.lastPartialResult)), current)
      ensures translations == old(translations) + [vm.resultText]
      ensures vm.isRecording == old(vm.isRecording) && vm.listening == old(vm.listening)
      ensures wordTimestamps == old(wordTimestamps) && lastAccumulatedLength == old(lastAccumulatedLength)
      ensures lastPartialResultTime == old(lastPartialResultTime)
    {
      vm.UpdatePartialResult(current);
      translations := translations + [vm.resultText];
    }

    /** `onFinalResult`: recording is over and the map and the cursor are
        reset. Only `speechStreamService` is dropped, which nothing else reads:
        the `speechService` that `toggleMicrophone` tests stays set. */
    method OnFinalResult()
      modifies this, vm
      ensures !vm.isRecording && vm.listening == old(vm.listening)
      ensures wordTimestamps == [] && lastAccumulatedLength == 0
      ensures vm.resultText == old(vm.resultText) && vm.lastPartialResult == old(vm.lastPartialResult)
      ensures translations == old(translations) && lastPartialResultTime == old(lastPartialResultTime)
    {
      vm.isRecording := false;
      wordTimestamps := [];
      lastAccumulatedLength := 0;
    }

    /** `onError`: the error is shown; the map and the cursor are reset. */
    method OnError(message: string)
      modifies this, vm
      ensures vm.resultText == "Error: " + message
      ensures wordTimestamps == [] && lastAccumulatedLength == 0
      ensures vm.isRecording == old(vm.isRecording) && vm.listening == old(vm.listening)
      ensures vm.lastPartialResult == old(vm.lastPartialResult)
      ensures translations == old(translations) && lastPartialResultTime == old(lastPartialResultTime)
    {
      vm.HandleError("Error: " + message);
      wordTimestamps := [];
      lastAccumulatedLength := 0;
    }

    /** `onTimeout`: the map and the cursor are reset. */
    method OnTimeout()
      modifies this
      ensures wordTimestamps == [] && lastAccumulatedLength == 0
      ensures translations == old(translations) && lastPartialResultTime == old(lastPartialResultTime)
    {
      wordTimestamps := [];
      lastAccumulatedLength := 0;
    }

    /** `parseAndStoreTimestamps` with the parsed text `current` and the clock
        reading `now`; `error` is the exception `substring` throws. */
    method ParseAndStoreTimestamps(current: string, now: int) returns (error: Option<string>)
      modifies this
      ensures var r := StoreTimestamps(ListenerState(old(wordTimestamps), old(lastAccumulatedLength), old(lastPartialResultTime)), current, now);
        (r.Success? ==> error == None && ListenerState(wordTimestamps, lastAccumulatedLength, lastPartialResultTime) == r.value) &&
        (r.Failure? ==> (error == Some(r.error) &&
          wordTimestamps == old(wordTimestamps) && lastAccumulatedLength == old(lastAccumulatedLength) &&
          lastPartialResultTime == old(lastPartialResultTime)))
      ensures translations == old(translations)
    {
      error := None;
      if !IsBlank(current) {
        if lastAccumulatedLength > |current| {
          error := Some("StringIndexOutOfBoundsException");
          return;
        }
        var newWords := NonBlank(SplitOnChar(Trim(current[lastAccumulatedLength..]), ' '));
        wordTimestamps := StoreWords(wordTimestamps, newWords, now);
        lastPartialResultTime := now;
        lastAccumulatedLength := |current|;
      }
    }
  }

  /** The `forEach` of `parseAndStoreTimestamps`: every word not yet a key is
      put with `now`. */
  method StoreWords(m: seq<(string, int)>, words: seq<string>, now: int) returns (r: seq<(string, int)>)
    ensures r == PutAllIfAbsent(m, words, now)
  {
    r := m;
    for k := 0 to |words|
      invariant r == PutAllIfAbsent(m, words[..k], now)
    {
      assert words[..k + 1][..k] == words[..k];
      if words[k] !in KeysOf(r) {
        r := r + [(words[k], now)];
      }
    }
    assert words[..|words|] == words;
  }
}
