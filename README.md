# STT-Lab core in Dafny

STT-Lab is an Android workbench that compares on-device speech-to-text
engines: Sherpa-NCNN, Sherpa-ONNX and Vosk. An audio player plays a folder of
recordings. Each front-end transcribes what it hears, and the transcripts are
scored by word error rate against a reference transcript. This project models
the sequential text and record logic under the UI and the native recognizers,
and proves properties of it.

- `wrappers.dfy` (`Wrappers`): `Option` and `Result`.
- `kotlin_text.dfy` (`KotlinText`): the Kotlin string operations the core
  uses, with their exact semantics.
  - `trim`/`isBlank` use the JVM whitespace set; regex `\s` is a smaller set.
  - The module also covers `split(" ")`, `split(Regex("\\s+"))` and its
    `limit = 2` form, `removePrefix`, `substringAfter`, `substringAfterLast`,
    `substringBeforeLast`, `uppercase` and the decimal rendering of an index.
- `linked_maps.dfy` (`LinkedMaps`): a `LinkedHashMap<String, V>` as a sequence
  of pairs with unique keys. `m[k] = v` replaces in place or appends;
  `if (!containsKey) put` keeps the first value.
- `accuracy_calculator.dfy` (`AccuracyCalculator`):
  - `computeWER` fills its dynamic-programming table in a 2-D array and is
    proved equal to a recursive Levenshtein distance on token sequences;
  - `loadTranscriptions` parses transcript lines;
  - `calculateWERBasedOnReferenceFile` sums the per-id errors and word counts.
- `word_timestamps.dfy` (`WordTimestamps`), shared by the Sherpa front-ends:
  - the first-wins recording of `word_index` keys in one decode step;
  - `removeDuplicates` (group by index suffix, keep the first entry with the
    greatest timestamp);
  - the reported duration.
- `decoder_session.dfy` (`DecoderSession`): one recording run as a fold over
  the buffers read from the microphone, with the callbacks, log lines and
  decoder resets it emits as an event sequence.
- `sherpa_ncnn_activity.dfy`, `sherpa_ncnn_view_model.dfy`,
  `sherpa_onnx_view_model.dfy`: the three Sherpa front-ends as classes. Their
  `loggedTexts` field is updated in place, their recording loops are methods
  proved equal to the fold, and each has its own order of effects per buffer.
- `vosk_view_model.dfy` (`VoskViewModel`): the result merging of
  `updatePartialResult` starting from the `"Preparing..."` placeholder; the
  cursor-based word recording of `parseAndStoreTimestamps`; the listener
  callbacks and their resets.
- `audio_files.dfy` (`AudioFiles`): the `AudioFileData` record, the
  first-match lookup `indexOfFirst`, and the transcript line format with its
  read-back.
- `audio_player_presentation.dfy` (`AudioPlayerPresentation`): the
  presentation `AudioPlayerViewModel`. It has the per-file record table, the
  `updateFileName` decision with the `PLAYBACK_COMPLETE` marker, the
  translation bookkeeping and the export format.
- `audio_player.dfy` (`AudioPlayer`): the older `AudioPlayerViewModel`, with
  change detection, the recording flag, the transcription text and the
  appended transcript file.
- `audio_file_list.dfy` (`AudioFileList`): the sorted file list with the
  current file marked, and the three-file strip around the current file.

Clock readings, decoder hypotheses, the parsed text of Vosk results and the
outcome of file writes are parameters. Callbacks into other objects are
recorded as event sequences or as fields listing what was passed to them.

## Model

Source paths are relative to the repository root.

| member | source | states |
|---|---|---|
| KotlinText.Trim | audioplayer/src/main/java/com/android/klaudiak/audioplayer/AccuracyCalculator.kt:45-46 | `trim()` returns the slice after the leading whitespace; it is empty exactly for a blank text, and otherwise it neither starts nor ends with whitespace |
| KotlinText.TrimPadded | vosk-stt/src/main/java/com/android/klaudiak/vosk_stt/VoskViewModel.kt:149 | blank text around a trimmed word is removed again by `trim()` |
| KotlinText.TrimJoinTrimmed | vosk-stt/src/main/java/com/android/klaudiak/vosk_stt/VoskViewModel.kt:199 | two trimmed words joined by one space are already trimmed |
| KotlinText.SplitOnChar | sherpa-ncnn/src/main/java/com/android/klaudiak/sherpa_ncnn/SherpaNcnnActivity.kt:215 | `split(" ")` yields at least one piece and no piece contains the delimiter |
| KotlinText.JoinSplit | sherpa-ncnn/src/main/java/com/android/klaudiak/sherpa_ncnn/SherpaNcnnActivity.kt:215 | joining the pieces of `split(d)` with `d` gives the text back, so no character is lost |
| KotlinText.SplitOnCharJoin | sherpa-ncnn/src/main/java/com/android/klaudiak/sherpa_ncnn/SherpaNcnnActivity.kt:215 | the first piece of `u + d + t`, for `u` without `d`, is `u`, followed by the pieces of `t` |
| KotlinText.NonBlank | sherpa-ncnn/src/main/java/com/android/klaudiak/sherpa_ncnn/SherpaNcnnActivity.kt:216 | `filter { isNotBlank() }` keeps every non-blank piece, only non-blank pieces, and never more pieces than it was given; order and repetitions are stated by `NonBlankAppend` and `NonBlankSnoc` |
| KotlinText.NonBlankAppend | sherpa-ncnn/src/main/java/com/android/klaudiak/sherpa_ncnn/SherpaNcnnActivity.kt:216 | the filter of a concatenation is the concatenation of the filters, so order and repetitions are kept |
| KotlinText.NonBlankSnoc | sherpa-ncnn/src/main/java/com/android/klaudiak/sherpa_ncnn/SherpaNcnnActivity.kt:216 | the filter of the empty list is empty; one more piece is appended to the filtered list exactly when it is not blank |
| KotlinText.SplitOnSpaceRuns | audioplayer/src/main/java/com/android/klaudiak/audioplayer/AccuracyCalculator.kt:45-46 | `split(Regex("\\s+"))` yields at least one piece, none containing `\s`; which pieces they are is stated by `SplitOnSpaceRunsJoin` |
| KotlinText.SplitOnSpaceRunsJoin | audioplayer/src/main/java/com/android/klaudiak/audioplayer/AccuracyCalculator.kt:45-46 | splitting the words joined by single spaces gives back exactly the words, for non-empty words without `\s` |
| KotlinText.SplitOnSpaceRunsNonEmpty | audioplayer/src/main/java/com/android/klaudiak/audioplayer/AccuracyCalculator.kt:45-46 | on a text with no `\s` at either end, every piece is non-empty |
| KotlinText.SplitOnSpaceRunsLimit2 | audioplayer/src/main/java/com/android/klaudiak/audioplayer/AccuracyCalculator.kt:38 | the `limit = 2` split has one piece exactly when there is no `\s`; otherwise the first piece is the text up to the first `\s`, the second is the rest after the whole run of `\s` |
| KotlinText.Uppercase | audioplayer/src/main/java/com/android/klaudiak/audioplayer/AccuracyCalculator.kt:39 | `uppercase()` keeps the length, maps each character, and leaves no lower-case letter |
| KotlinText.RemovePrefix | vosk-stt/src/main/java/com/android/klaudiak/vosk_stt/VoskViewModel.kt:197 | `removePrefix(p)` drops `p` when the text starts with it, and returns the whole text otherwise |
| KotlinText.IndexOfFrom | audioplayer/src/main/java/com/android/klaudiak/audioplayer/presentation/AudioPlayerViewModel.kt:148 | `indexOf(d, from)` finds the first occurrence of `d` at or after `from`, or reports that there is none |
| KotlinText.SubstringAfter | audioplayer/src/main/java/com/android/klaudiak/audioplayer/presentation/AudioPlayerViewModel.kt:148 | the result is a suffix of the text; it starts just after the first occurrence of the delimiter, or is the whole text when the delimiter does not occur |
| KotlinText.SubstringAfterEmpty | audioplayer/src/main/java/com/android/klaudiak/audioplayer/presentation/AudioPlayerViewModel.kt:148 | `substringAfter("")` is the whole text |
| KotlinText.SubstringAfterPrefix | audioplayer/src/main/java/com/android/klaudiak/audioplayer/presentation/AudioPlayerViewModel.kt:148 | `(d + t).substringAfter(d)` is `t` |
| KotlinText.SubstringAfterMissing | audioplayer/src/main/java/com/android/klaudiak/audioplayer/presentation/AudioPlayerViewModel.kt:148 | a delimiter that does not occur gives the whole text |
| KotlinText.SubstringAfterLast | sherpa-ncnn/src/main/java/com/android/klaudiak/sherpa_ncnn/SherpaNcnnActivity.kt:280 | the result of `substringAfterLast("_")` contains no `_` |
| KotlinText.SubstringAfterLastJoin | sherpa-ncnn/src/main/java/com/android/klaudiak/sherpa_ncnn/SherpaNcnnActivity.kt:280 | the text after the last `c` of `w + c + t`, for `t` without `c`, is `t` |
| KotlinText.SubstringBeforeLast | audioplayer/src/main/java/com/android/klaudiak/audioplayer/presentation/AudioPlayerViewModel.kt:119 | `substringBeforeLast(".")` is a prefix; it is the whole name when there is no dot, and otherwise it ends right before the last dot |
| KotlinText.NatToStringRoundTrip | sherpa-ncnn/src/main/java/com/android/klaudiak/sherpa_ncnn/SherpaNcnnActivity.kt:218 | the decimal index written into a key reads back as the index |
| KotlinText.NatToStringInjective | sherpa-ncnn/src/main/java/com/android/klaudiak/sherpa_ncnn/SherpaNcnnActivity.kt:218 | different indices are written differently |
| LinkedMaps.Get | audioplayer/src/main/java/com/android/klaudiak/audioplayer/AccuracyCalculator.kt:21 | `map[k]` is non-null exactly when `k` is a key, and then it is the value stored with the key |
| LinkedMaps.Put | audioplayer/src/main/java/com/android/klaudiak/audioplayer/AccuracyCalculator.kt:41 | `m[k] = v` replaces the value of a present key in its place and appends a new key; the keys stay unique |
| LinkedMaps.PutGet | audioplayer/src/main/java/com/android/klaudiak/audioplayer/AccuracyCalculator.kt:41 | after `m[k] = v`, `k` maps to `v` and every other key keeps its value |
| LinkedMaps.PutIfAbsentGet | sherpa-ncnn/src/main/java/com/android/klaudiak/sherpa_ncnn/SherpaNcnnActivity.kt:218-220 | the map only grows at its end and keeps its keys unique; the key gets the new value exactly when it was absent, and every other key keeps its value |
| LinkedMaps.PutAllIfAbsentSpec | vosk-stt/src/main/java/com/android/klaudiak/vosk_stt/VoskViewModel.kt:153-158 | putting absent keys keeps the old map as a prefix and the keys unique; every new entry has the given value; the keys are the old keys and the given ones |
| AccuracyCalculator.Tokenize | audioplayer/src/main/java/com/android/klaudiak/audioplayer/AccuracyCalculator.kt:45-46 | a text always yields at least one token; a blank text yields exactly one empty token; otherwise every token is non-empty and contains no `\s` |
| AccuracyCalculator.DistanceUpperBound | audioplayer/src/main/java/com/android/klaudiak/audioplayer/AccuracyCalculator.kt:50-62 | every table cell is at most the longer of the two prefix lengths |
| AccuracyCalculator.DistanceLowerBound | audioplayer/src/main/java/com/android/klaudiak/audioplayer/AccuracyCalculator.kt:50-62 | every table cell is at least the difference of the two prefix lengths |
| AccuracyCalculator.DistanceZeroIff | audioplayer/src/main/java/com/android/klaudiak/audioplayer/AccuracyCalculator.kt:50-62 | a cell is zero exactly when the two prefixes are equal |
| AccuracyCalculator.EditDistanceZeroIff | audioplayer/src/main/java/com/android/klaudiak/audioplayer/AccuracyCalculator.kt:44-64 | zero errors exactly when the token lists are identical |
| AccuracyCalculator.EditDistanceBounds | audioplayer/src/main/java/com/android/klaudiak/audioplayer/AccuracyCalculator.kt:50-62 | ‖r‖−‖h‖ in absolute value ≤ errors ≤ the longer length |
| AccuracyCalculator.EditDistanceToPrefix | audioplayer/src/main/java/com/android/klaudiak/audioplayer/AccuracyCalculator.kt:50-62 | a hypothesis that is the first `k` reference tokens costs exactly the missing `|r| - k` deletions |
| AccuracyCalculator.FillRow | audioplayer/src/main/java/com/android/klaudiak/audioplayer/AccuracyCalculator.kt:54-61 | the inner loop fills row `i` with the distances of the `i`-token reference prefix and leaves every other row unchanged |
| AccuracyCalculator.ComputeWER | audioplayer/src/main/java/com/android/klaudiak/audioplayer/AccuracyCalculator.kt:44-65 | the table-filling method returns the edit distance of the two token lists and the number of reference tokens |
| AccuracyCalculator.ScoreProperties | audioplayer/src/main/java/com/android/klaudiak/audioplayer/AccuracyCalculator.kt:64 | the word count is the reference token count (≥ 1) and does not depend on the hypothesis; errors ≤ the longer token count; zero errors exactly for identical token lists |
| AccuracyCalculator.ParseLine | audioplayer/src/main/java/com/android/klaudiak/audioplayer/AccuracyCalculator.kt:38-39 | a line is dropped exactly when its trimmed text has no `\s`; otherwise the id is the non-empty text before the first `\s`, and the value is the non-empty upper-cased rest |
| AccuracyCalculator.LoadTranscriptions | audioplayer/src/main/java/com/android/klaudiak/audioplayer/AccuracyCalculator.kt:35-42 | the loaded map has unique keys |
| AccuracyCalculator.LoadTranscriptionsLastWins | audioplayer/src/main/java/com/android/klaudiak/audioplayer/AccuracyCalculator.kt:37-41 | an id is loaded exactly when some parsed line carries it, and its value is the one on the last such line |
| AccuracyCalculator.LoadTranscriptionsUppercase | audioplayer/src/main/java/com/android/klaudiak/audioplayer/AccuracyCalculator.kt:39 | no loaded value has a lower-case letter, which is the only case folding scoring gets |
| AccuracyCalculator.TotalsStep | audioplayer/src/main/java/com/android/klaudiak/audioplayer/AccuracyCalculator.kt:20-30 | one more reference entry adds its `computeWER` pair to the totals when the hypothesis has its id, and otherwise only lists the id as missing |
| AccuracyCalculator.CalculateWERBasedOnReferenceFile | audioplayer/src/main/java/com/android/klaudiak/audioplayer/AccuracyCalculator.kt:7-33 | the loop over the reference map returns the summed totals of the ids found in both files and the missing ids, in reference order |
| AccuracyCalculator.TotalsSameLookups | audioplayer/src/main/java/com/android/klaudiak/audioplayer/AccuracyCalculator.kt:20-22 | the result depends on the hypothesis only through the lookups of reference ids |
| AccuracyCalculator.TotalsIgnoreHypothesisOnlyIds | audioplayer/src/main/java/com/android/klaudiak/audioplayer/AccuracyCalculator.kt:20-22 | adding an id only the hypothesis has changes neither the totals nor the missing list |
| AccuracyCalculator.TotalsDisjoint | audioplayer/src/main/java/com/android/klaudiak/audioplayer/AccuracyCalculator.kt:27-29 | when no reference id is in the hypothesis, both totals are zero and every reference id is missing |
| AccuracyCalculator.TotalsOfContainedEntries | audioplayer/src/main/java/com/android/klaudiak/audioplayer/AccuracyCalculator.kt:20-30 | a hypothesis holding every reference entry gives zero errors, at least one word per id, and no missing id |
| AccuracyCalculator.TotalsSelf | audioplayer/src/main/java/com/android/klaudiak/audioplayer/AccuracyCalculator.kt:7-33 | a transcript scored against itself has no errors and no missing id |
| WordTimestamps.Words | sherpa-ncnn/src/main/java/com/android/klaudiak/sherpa_ncnn/SherpaNcnnActivity.kt:215-216 | the words of a hypothesis are non-blank and contain no space |
| WordTimestamps.StepKeys | sherpa-ncnn/src/main/java/com/android/klaudiak/sherpa_ncnn/SherpaNcnnActivity.kt:217-218 | the keys of one step are the words, each with its position after filtering |
| WordTimestamps.RecordDecodeStep | sherpa-ncnn/src/main/java/com/android/klaudiak/sherpa_ncnn/SherpaNcnnActivity.kt:207-224 | the recording block of one decode step is the first-wins insertion of its keys |
| WordTimestamps.RecordBlank | sherpa-ncnn/src/main/java/com/android/klaudiak/sherpa_ncnn/SherpaNcnnActivity.kt:208 | a blank hypothesis records nothing |
| WordTimestamps.RecordKeepsEntries | sherpa-ncnn/src/main/java/com/android/klaudiak/sherpa_ncnn/SherpaNcnnActivity.kt:218-220 | the first observation wins: the old map is a prefix of the new one and the keys stay unique |
| WordTimestamps.RecordSharedTimestamp | sherpa-ncnn/src/main/java/com/android/klaudiak/sherpa_ncnn/SherpaNcnnActivity.kt:213-220 | every entry one step adds carries that step's `startTime` |
| WordTimestamps.RecordKeys | sherpa-ncnn/src/main/java/com/android/klaudiak/sherpa_ncnn/SherpaNcnnActivity.kt:208-222 | the keys after a step are the old keys plus, for a non-blank hypothesis, the step's keys; at most one entry is added per word |
| WordTimestamps.SuffixOfWordKey | sherpa-ncnn/src/main/java/com/android/klaudiak/sherpa_ncnn/SherpaNcnnActivity.kt:280 | the suffix after the last `_` of `word_index` is the index, whatever the word contains |
| WordTimestamps.StepKeysDistinct | sherpa-ncnn/src/main/java/com/android/klaudiak/sherpa_ncnn/SherpaNcnnActivity.kt:217-218 | the keys of one step are pairwise different |
| WordTimestamps.RecordStepsKeepsEntries | sherpa-ncnn/src/main/java/com/android/klaudiak/sherpa_ncnn/SherpaNcnnActivity.kt:196-226 | over any number of decode steps, entries are never changed, moved or removed |
| WordTimestamps.RecordStepsAppend | sherpa-ncnn/src/main/java/com/android/klaudiak/sherpa_ncnn/SherpaNcnnActivity.kt:197-226 | recording is a fold: the steps of `a + b` act as those of `a` followed by those of `b` |
| WordTimestamps.MembersSpec | sherpa-ncnn/src/main/java/com/android/klaudiak/sherpa_ncnn/SherpaNcnnActivity.kt:278-282 | a group holds exactly the entries with its suffix |
| WordTimestamps.SuffixesSpec | sherpa-ncnn/src/main/java/com/android/klaudiak/sherpa_ncnn/SherpaNcnnActivity.kt:278-282 | the group ids are every suffix that occurs, each once |
| WordTimestamps.AddToGroupCases | sherpa-ncnn/src/main/java/com/android/klaudiak/sherpa_ncnn/SherpaNcnnActivity.kt:281 | `getOrPut(id).add(entry)` appends the entry to its group, or opens a new group at the end |
| WordTimestamps.GroupedSpec | sherpa-ncnn/src/main/java/com/android/klaudiak/sherpa_ncnn/SherpaNcnnActivity.kt:276-282 | the first loop groups the entries by suffix, in order of first occurrence, keeping map order inside each group |
| WordTimestamps.MaxByOrNull | sherpa-ncnn/src/main/java/com/android/klaudiak/sherpa_ncnn/SherpaNcnnActivity.kt:287-288 | `maxByOrNull` is null exactly for an empty group |
| WordTimestamps.MaxByOrNullSpec | sherpa-ncnn/src/main/java/com/android/klaudiak/sherpa_ncnn/SherpaNcnnActivity.kt:287-288 | the result is the first entry with the greatest timestamp |
| WordTimestamps.FilterGroupsShape | sherpa-ncnn/src/main/java/com/android/klaudiak/sherpa_ncnn/SherpaNcnnActivity.kt:284-292 | the second loop puts one entry per group, in group order, each the first maximum of its group |
| WordTimestamps.DedupShape | sherpa-ncnn/src/main/java/com/android/klaudiak/sherpa_ncnn/SherpaNcnnActivity.kt:274-295 | `removeDuplicates` keeps, for each suffix in order of first occurrence, the first maximum of its group |
| WordTimestamps.DedupKeys | sherpa-ncnn/src/main/java/com/android/klaudiak/sherpa_ncnn/SherpaNcnnActivity.kt:274-295 | exactly one entry per distinct suffix, in order of first occurrence, no more entries than the input, unique keys |
| WordTimestamps.DedupEntryLatest | sherpa-ncnn/src/main/java/com/android/klaudiak/sherpa_ncnn/SherpaNcnnActivity.kt:286-291 | each kept entry is an input entry whose timestamp is maximal among its suffix |
| WordTimestamps.DedupLatest | sherpa-ncnn/src/main/java/com/android/klaudiak/sherpa_ncnn/SherpaNcnnActivity.kt:286-291 | the same for every kept entry at once |
| WordTimestamps.DedupFirstLatest | sherpa-ncnn/src/main/java/com/android/klaudiak/sherpa_ncnn/SherpaNcnnActivity.kt:287-290 | on ties, the earliest-inserted entry of the group is kept |
| WordTimestamps.RemoveDuplicates | sherpa-ncnn/src/main/java/com/android/klaudiak/sherpa_ncnn/SherpaNcnnActivity.kt:274-295 | the two loops compute the deduplicated map |
| WordTimestamps.DurationAsWritten | sherpa-ncnn/src/main/java/com/android/klaudiak/sherpa_ncnn/SherpaNcnnActivity.kt:250-251 | `last() - first()` of the kept timestamps, which throws exactly on an empty map |
| WordTimestamps.Duration | sherpa-ncnn/src/main/java/com/android/klaudiak/sherpa_ncnn/SherpaNcnnActivity.kt:250-257 | the corrected duration: absent for an empty map; otherwise non-negative, at least every difference of two timestamps, and attained by one |
| WordTimestamps.DurationAgreesWhenSorted | sherpa-ncnn/src/main/java/com/android/klaudiak/sherpa_ncnn/SherpaNcnnActivity.kt:250-251 | when the kept timestamps ascend in map order, the code as written gives the corrected duration |
| WordTimestamps.RecordTwice | sherpa-ncnn/src/main/java/com/android/klaudiak/sherpa_ncnn/SherpaNcnnActivity.kt:215-220 | the map after the hypotheses `u v` and then `w v` |
| WordTimestamps.DedupOfThree | sherpa-ncnn/src/main/java/com/android/klaudiak/sherpa_ncnn/SherpaNcnnActivity.kt:274-295 | for three entries where the first and last share a suffix, the later one of those two is kept, in the first one's place |
| WordTimestamps.NegativeDuration | sherpa-ncnn/src/main/java/com/android/klaudiak/sherpa_ncnn/SherpaNcnnActivity.kt:250-251 | a re-decoded first word gives a negative duration as written, while the corrected duration is positive |
| WordTimestamps.NegativeDurationWitness | sherpa-ncnn/src/main/java/com/android/klaudiak/sherpa_ncnn/SherpaNcnnActivity.kt:250-251 | `"a b"` at time 1, then `"x b"` at time 5: −4 as written, 4 corrected |
| DecoderSession.LogEventsOnce | sherpa_ncnn/src/main/java/com/android/klaudiak/sherpa_ncnn/SherpaNcnnViewModel.kt:151-155 | at most one log line, and one exactly when `loggedTexts.add(text)` reports a new text; the log stays one line per logged text |
| DecoderSession.ForwardEventsCount | sherpa_onnx/src/main/java/com/android/klaudiak/sherpa_onnx/SherpaOnnxViewModel.kt:178-183 | at most one event, no log line; the text is forwarded once exactly when it is new, and nothing else is forwarded |
| DecoderSession.LoggedOnceStep | sherpa_ncnn/src/main/java/com/android/klaudiak/sherpa_ncnn/SherpaNcnnViewModel.kt:151-155 | one `logTextIfNotLogged` among other effects keeps every logged text logged exactly once |
| DecoderSession.LoggedOnceAppend | sherpa_ncnn/src/main/java/com/android/klaudiak/sherpa_ncnn/SherpaNcnnViewModel.kt:140-146 | effects that log nothing keep every text logged exactly once |
| DecoderSession.DecodeWhileReady | sherpa_ncnn/src/main/java/com/android/klaudiak/sherpa_ncnn/SherpaNcnnViewModel.kt:126-137 | the `while (model.isReady())` loop records every decode step in order |
| DecoderSession.AfterChunksMap | sherpa-ncnn/src/main/java/com/android/klaudiak/sherpa_ncnn/SherpaNcnnActivity.kt:196-238 | the map is never cleared, not even on an endpoint reset: it holds every decode step of every buffer that returned samples |
| DecoderSession.ChunkEventsSplit | sherpa_ncnn/src/main/java/com/android/klaudiak/sherpa_ncnn/SherpaNcnnViewModel.kt:140-146 | the effects of one buffer are its log line between effects that log nothing |
| DecoderSession.ChunkEventsLogged | sherpa_ncnn/src/main/java/com/android/klaudiak/sherpa_ncnn/SherpaNcnnViewModel.kt:140-146 | one buffer's effects keep every logged text logged exactly once, its own text included |
| DecoderSession.AfterChunkLogged | sherpa_ncnn/src/main/java/com/android/klaudiak/sherpa_ncnn/SherpaNcnnViewModel.kt:120-147 | one buffer adds its text to `loggedTexts` only when it returned samples, keeps the logged-once invariant and only appends effects |
| DecoderSession.AfterChunksLogged | sherpa_ncnn/src/main/java/com/android/klaudiak/sherpa_ncnn/SherpaNcnnViewModel.kt:151-155 | `loggedTexts` only grows, exactly by the published texts, and each distinct text is logged exactly once |
| SherpaNcnnActivity.ShouldRecordIsNotBlank | sherpa-ncnn/src/main/java/com/android/klaudiak/sherpa_ncnn/SherpaNcnnActivity.kt:208 | the guard `isNotBlank() && this != " "` is just `isNotBlank()` |
| SherpaNcnnActivity.ChunkOrder | sherpa-ncnn/src/main/java/com/android/klaudiak/sherpa_ncnn/SherpaNcnnActivity.kt:228-236 | per buffer, the reset (exactly on an endpoint) comes before `updateText`, and the log line (exactly for a new text) comes last |
| SherpaNcnnActivity.ReportSpec | sherpa-ncnn/src/main/java/com/android/klaudiak/sherpa_ncnn/SherpaNcnnActivity.kt:240-257 | after the loop the deduplicated keys are forwarded; a duration is reported only for a non-empty map, and it is the corrected, non-negative one |
| SherpaNcnnActivity.ReportUnlogged | sherpa-ncnn/src/main/java/com/android/klaudiak/sherpa_ncnn/SherpaNcnnActivity.kt:240-257 | the report writes no text log line |
| SherpaNcnnActivity.DecodeLoop | sherpa-ncnn/src/main/java/com/android/klaudiak/sherpa_ncnn/SherpaNcnnActivity.kt:203-225 | the decode loop records every step in order |
| SherpaNcnnActivity.Activity.LogTextIfNotLogged | sherpa-ncnn/src/main/java/com/android/klaudiak/sherpa_ncnn/SherpaNcnnActivity.kt:297-304 | reports whether the text was new, adds it to the field, and logs exactly when it was new |
| SherpaNcnnActivity.Activity.ProcessChunk | sherpa-ncnn/src/main/java/com/android/klaudiak/sherpa_ncnn/SherpaNcnnActivity.kt:198-237 | one loop iteration is one step of the fold in reset-then-publish order |
| SherpaNcnnActivity.Activity.RecordingLoop | sherpa-ncnn/src/main/java/com/android/klaudiak/sherpa_ncnn/SherpaNcnnActivity.kt:196-238 | the `while (isRecording)` loop is the fold over the buffers read |
| SherpaNcnnActivity.Activity.constructor | sherpa-ncnn/src/main/java/com/android/klaudiak/sherpa_ncnn/SherpaNcnnActivity.kt:60 | `loggedTexts` starts empty, no effect has been emitted, and the log is one line per logged text |
| SherpaNcnnActivity.Activity.ReportFiltered | sherpa-ncnn/src/main/java/com/android/klaudiak/sherpa_ncnn/SherpaNcnnActivity.kt:248-257 | the report appends the forwarded keys and the corrected duration (see Findings) and leaves `loggedTexts` alone |
| SherpaNcnnActivity.Activity.ProcessSamples | sherpa-ncnn/src/main/java/com/android/klaudiak/sherpa_ncnn/SherpaNcnnActivity.kt:184-272 | `processSamples` is the fold from an empty map, followed by the report of the deduplicated map with the corrected duration (see Findings) |
| SherpaNcnnViewModel.ChunkOrder | sherpa_ncnn/src/main/java/com/android/klaudiak/sherpa_ncnn/SherpaNcnnViewModel.kt:140-146 | per buffer, `updateText` comes first, then the log line (exactly for a new text), then the reset (exactly on an endpoint) |
| SherpaNcnnViewModel.ViewModel.LogTextIfNotLogged | sherpa_ncnn/src/main/java/com/android/klaudiak/sherpa_ncnn/SherpaNcnnViewModel.kt:151-155 | reports whether the text was new, adds it to the field, and logs exactly when it was new |
| SherpaNcnnViewModel.ViewModel.ProcessChunk | sherpa_ncnn/src/main/java/com/android/klaudiak/sherpa_ncnn/SherpaNcnnViewModel.kt:121-147 | one loop iteration is one step of the fold in publish-then-reset order; a read of no samples changes nothing |
| SherpaNcnnViewModel.ViewModel.constructor | sherpa_ncnn/src/main/java/com/android/klaudiak/sherpa_ncnn/SherpaNcnnViewModel.kt:30 | `loggedTexts` starts empty, no effect has been emitted, and the log is one line per logged text |
| SherpaNcnnViewModel.ViewModel.ProcessSamples | sherpa_ncnn/src/main/java/com/android/klaudiak/sherpa_ncnn/SherpaNcnnViewModel.kt:109-149 | the `while (true)` loop over the buffers read is the fold from an empty map |
| SherpaOnnxViewModel.ForwardCount | sherpa_onnx/src/main/java/com/android/klaudiak/sherpa_onnx/SherpaOnnxViewModel.kt:167-172 | one buffer forwards a text at most once, and only a new one |
| SherpaOnnxViewModel.ForwardedOnceStep | sherpa_onnx/src/main/java/com/android/klaudiak/sherpa_onnx/SherpaOnnxViewModel.kt:178-183 | one buffer keeps every logged text forwarded exactly once |
| SherpaOnnxViewModel.AfterChunkForwarded | sherpa_onnx/src/main/java/com/android/klaudiak/sherpa_onnx/SherpaOnnxViewModel.kt:138-174 | one loop iteration keeps the forwarded-once invariant |
| SherpaOnnxViewModel.AfterChunksForwarded | sherpa_onnx/src/main/java/com/android/klaudiak/sherpa_onnx/SherpaOnnxViewModel.kt:178-183 | over any buffers, each text is forwarded exactly once |
| SherpaOnnxViewModel.NoRepeatForward | sherpa_onnx/src/main/java/com/android/klaudiak/sherpa_onnx/SherpaOnnxViewModel.kt:39 | since `loggedTexts` is a field, a text forwarded in an earlier run is never forwarded again |
| SherpaOnnxViewModel.ChunkOrder | sherpa_onnx/src/main/java/com/android/klaudiak/sherpa_onnx/SherpaOnnxViewModel.kt:167-172 | per buffer, `updateText` comes first, then the log line and the forwarding of a new text, then the reset (exactly on an endpoint) |
| SherpaOnnxViewModel.ViewModel.LogTextIfNotLogged | sherpa_onnx/src/main/java/com/android/klaudiak/sherpa_onnx/SherpaOnnxViewModel.kt:178-183 | reports whether the text was new, adds it to the field, and logs and forwards exactly when it was new |
| SherpaOnnxViewModel.ViewModel.ProcessChunk | sherpa_onnx/src/main/java/com/android/klaudiak/sherpa_onnx/SherpaOnnxViewModel.kt:139-173 | one loop iteration is one step of the fold in publish-forward-then-reset order |
| SherpaOnnxViewModel.ViewModel.constructor | sherpa_onnx/src/main/java/com/android/klaudiak/sherpa_onnx/SherpaOnnxViewModel.kt:39 | `loggedTexts` starts empty, no effect has been emitted; the log and the forwardings are each one per logged text |
| SherpaOnnxViewModel.ViewModel.ProcessSamples | sherpa_onnx/src/main/java/com/android/klaudiak/sherpa_onnx/SherpaOnnxViewModel.kt:132-175 | the `while (true)` loop over the buffers read is the fold from an empty map |
| VoskViewModel.PartialEmpty | vosk-stt/src/main/java/com/android/klaudiak/vosk_stt/VoskViewModel.kt:192 | an empty parsed text changes neither `resultText` nor `lastPartialResult` |
| VoskViewModel.PartialPlaceholder | vosk-stt/src/main/java/com/android/klaudiak/vosk_stt/VoskViewModel.kt:193-195 | while the placeholder is shown, the first non-empty result replaces it and becomes `lastPartialResult` |
| VoskViewModel.PartialAppend | vosk-stt/src/main/java/com/android/klaudiak/vosk_stt/VoskViewModel.kt:197-200 | a result that extends the previous one by a space and a word appends that word after one space |
| VoskViewModel.PartialGrows | vosk-stt/src/main/java/com/android/klaudiak/vosk_stt/VoskViewModel.kt:196-202 | once real text is shown it only grows and stays trimmed; `lastPartialResult` changes only together with the text, and then it becomes the result |
| VoskViewModel.NewWordsSame | vosk-stt/src/main/java/com/android/klaudiak/vosk_stt/VoskViewModel.kt:197-198 | repeating the last result brings no new words |
| VoskViewModel.AppendedNotPlaceholder | vosk-stt/src/main/java/com/android/klaudiak/vosk_stt/VoskViewModel.kt:199 | text with words appended can never be mistaken for the placeholder |
| VoskViewModel.PartialIdempotent | vosk-stt/src/main/java/com/android/klaudiak/vosk_stt/VoskViewModel.kt:191-204 | feeding the same result twice in a row changes nothing the second time |
| VoskViewModel.StoreTimestampsOutcome | vosk-stt/src/main/java/com/android/klaudiak/vosk_stt/VoskViewModel.kt:148-149 | the call fails exactly when the text is not blank and the cursor lies past its end; a blank text changes nothing |
| VoskViewModel.StoreTimestampsSpec | vosk-stt/src/main/java/com/android/klaudiak/vosk_stt/VoskViewModel.kt:148-161 | after a non-blank text, the cursor is the text length and the time is the clock; old entries are kept (first wins); the new keys are the words past the cursor, keyed by the word alone, all with the same time |
| VoskViewModel.StoreTimestampsIncremental | vosk-stt/src/main/java/com/android/klaudiak/vosk_stt/VoskViewModel.kt:149-150 | when the text grows by `added`, only the words of `added` are considered |
| VoskViewModel.StoreWords | vosk-stt/src/main/java/com/android/klaudiak/vosk_stt/VoskViewModel.kt:153-158 | the `forEach` loop is the first-wins insertion of every word with one time |
| VoskViewModel.ViewModel.constructor | vosk-stt/src/main/java/com/android/klaudiak/vosk_stt/VoskViewModel.kt:30-33 | the text starts as the placeholder, not recording |
| VoskViewModel.ViewModel.UpdatePartialResult | vosk-stt/src/main/java/com/android/klaudiak/vosk_stt/VoskViewModel.kt:191-204 | the method's new text and `lastPartialResult` are one merge step; nothing else changes |
| VoskViewModel.ViewModel.HandleError | vosk-stt/src/main/java/com/android/klaudiak/vosk_stt/VoskViewModel.kt:214-216 | the message replaces the shown text and nothing else changes |
| VoskViewModel.ViewModel.StopListening | vosk-stt/src/main/java/com/android/klaudiak/vosk_stt/VoskViewModel.kt:82-87 | the service is dropped, recording stops, and `"Stopped listening."` is shown |
| VoskViewModel.ViewModel.StartListening | vosk-stt/src/main/java/com/android/klaudiak/vosk_stt/VoskViewModel.kt:89-98 | without a model the error is shown and nothing starts; otherwise a fresh listener with an empty map and the cursor at 0, and recording is on |
| VoskViewModel.ViewModel.ToggleMicrophone | vosk-stt/src/main/java/com/android/klaudiak/vosk_stt/VoskViewModel.kt:74-80 | stops when listening; otherwise starts a fresh listener with an empty map and the cursor at 0, or shows the missing-model error and changes nothing else; the partial-result cursor text stays |
| VoskViewModel.Listener.constructor | vosk-stt/src/main/java/com/android/klaudiak/vosk_stt/VoskViewModel.kt:95-98 | an empty map, cursor 0, and the start time |
| VoskViewModel.Listener.OnResult | vosk-stt/src/main/java/com/android/klaudiak/vosk_stt/VoskViewModel.kt:100-105 | merges the result, then forwards the whole accumulated text; the map, the cursor, the last result time and the recording flags stay |
| VoskViewModel.Listener.OnFinalResult | vosk-stt/src/main/java/com/android/klaudiak/vosk_stt/VoskViewModel.kt:107-118 | recording stops; only `speechStreamService` is dropped, so `speechService` (listening) stays as it was and the next toggle stops; the map is cleared and the cursor is 0; the shown text stays |
| VoskViewModel.Listener.OnError | vosk-stt/src/main/java/com/android/klaudiak/vosk_stt/VoskViewModel.kt:131-135 | `"Error: "` with the message is shown; the map is cleared and the cursor is 0; the recording flags, the last partial result, the forwarded texts and the last result time stay |
| VoskViewModel.Listener.OnTimeout | vosk-stt/src/main/java/com/android/klaudiak/vosk_stt/VoskViewModel.kt:137-140 | the map is cleared and the cursor is 0 |
| VoskViewModel.Listener.ParseAndStoreTimestamps | vosk-stt/src/main/java/com/android/klaudiak/vosk_stt/VoskViewModel.kt:142-162 | the fields become the successful result of `StoreTimestamps`; on the `substring` exception they are left as they were and the error is returned |
| AudioFiles.FileIndex | audioplayer/src/main/java/com/android/klaudiak/audioplayer/presentation/AudioPlayerViewModel.kt:122 | `indexOfFirst` finds the first position with the name, or −1 when there is none; a null name matches nothing |
| AudioFiles.SplitAtSpace | audioplayer/src/main/java/com/android/klaudiak/audioplayer/AccuracyCalculator.kt:38 | a plain name, a space and a trimmed word split into the name and the word |
| AudioFiles.ParseTranscriptLine | audioplayer/src/main/java/com/android/klaudiak/audioplayer/AccuracyCalculator.kt:38-39 | a transcript line reads back as its name and upper-cased transcription; a line with an empty transcription is dropped |
| AudioFiles.ReadLines | audioplayer/src/main/java/com/android/klaudiak/audioplayer/AccuracyCalculator.kt:36 | no line read contains LF |
| AudioFiles.SplitWrittenLines | audioplayer/src/main/java/com/android/klaudiak/audioplayer/presentation/AudioPlayerViewModel.kt:249-251 | splitting written lines on LF gives the lines and one empty piece after the last LF |
| AudioFiles.ReadWrittenLines | audioplayer/src/main/java/com/android/klaudiak/audioplayer/presentation/AudioPlayerViewModel.kt:249-251 | lines without LF, written one per line, read back as they were |
| AudioPlayerPresentation.NameWithoutExtension | audioplayer/src/main/java/com/android/klaudiak/audioplayer/presentation/AudioPlayerViewModel.kt:119 | the name before the last dot, or the whole name without a dot |
| AudioPlayerPresentation.WithDuration | audioplayer/src/main/java/com/android/klaudiak/audioplayer/presentation/AudioPlayerViewModel.kt:120-129 | the first entry with the name, or a new last one, becomes `(name, length, null, null)`, and lookups find it there; every other entry is unchanged |
| AudioPlayerPresentation.SameNamesIndex | audioplayer/src/main/java/com/android/klaudiak/audioplayer/presentation/AudioPlayerViewModel.kt:136-139 | lists with the same names answer every lookup alike |
| AudioPlayerPresentation.WithTranscriptionTime | audioplayer/src/main/java/com/android/klaudiak/audioplayer/presentation/AudioPlayerViewModel.kt:133-142 | only the first entry equal to the current file gets the transcription time; with no match the list is unchanged and nothing is appended |
| AudioPlayerPresentation.WithTranscription | audioplayer/src/main/java/com/android/klaudiak/audioplayer/presentation/AudioPlayerViewModel.kt:152-160 | only the first entry equal to the current file gets the transcription; with no match the list is unchanged |
| AudioPlayerPresentation.WithDurationLookup | audioplayer/src/main/java/com/android/klaudiak/audioplayer/presentation/AudioPlayerViewModel.kt:118-130 | after the update, a lookup of the file finds the fresh record, and lookups of other names find what they found before |
| AudioPlayerPresentation.WithDurationIdempotent | audioplayer/src/main/java/com/android/klaudiak/audioplayer/presentation/AudioPlayerViewModel.kt:118-130 | reporting the same length twice gives the same list as reporting it once |
| AudioPlayerPresentation.TranscriptionKeepsIndex | audioplayer/src/main/java/com/android/klaudiak/audioplayer/presentation/AudioPlayerViewModel.kt:132-160 | the transcription updates do not move any file |
| AudioPlayerPresentation.DecideCases | audioplayer/src/main/java/com/android/klaudiak/audioplayer/presentation/AudioPlayerViewModel.kt:78-85 | `PLAYBACK_COMPLETE` only sets the flag; a different name becomes current, clears the flag and is announced; the current name changes nothing; a name is announced exactly in the second case |
| AudioPlayerPresentation.DecideIdempotent | audioplayer/src/main/java/com/android/klaudiak/audioplayer/presentation/AudioPlayerViewModel.kt:78-85 | deciding twice on one name gives the state of deciding once and announces nothing the second time |
| AudioPlayerPresentation.DecideAllAnnouncements | audioplayer/src/main/java/com/android/klaudiak/audioplayer/presentation/AudioPlayerViewModel.kt:78-85 | over any run, no name is announced twice in a row; the last name announced is the current file; the first one was not current before |
| AudioPlayerPresentation.ExportLines | audioplayer/src/main/java/com/android/klaudiak/audioplayer/presentation/AudioPlayerViewModel.kt:249-251 | one line per file, in list order: the name, a space and the transcription or nothing, then LF |
| AudioPlayerPresentation.Exported | audioplayer/src/main/java/com/android/klaudiak/audioplayer/presentation/AudioPlayerViewModel.kt:249-251 | the expected reload holds only names of listed files |
| AudioPlayerPresentation.LoadExportLines | audioplayer/src/main/java/com/android/klaudiak/audioplayer/AccuracyCalculator.kt:35-42 | loading the export lines gives the files with a transcription, upper-cased, in list order |
| AudioPlayerPresentation.ExportRoundTrip | audioplayer/src/main/java/com/android/klaudiak/audioplayer/presentation/AudioPlayerViewModel.kt:248-252 | the exported file read back by `loadTranscriptions` gives every file with a non-empty transcription, upper-cased; a file with an empty one is dropped |
| AudioPlayerPresentation.ViewModel.constructor | audioplayer/src/main/java/com/android/klaudiak/audioplayer/presentation/AudioPlayerViewModel.kt:34-64 | no current file, an empty list, empty translations, no listener |
| AudioPlayerPresentation.ViewModel.SetPlaybackListener | audioplayer/src/main/java/com/android/klaudiak/audioplayer/presentation/AudioPlayerViewModel.kt:89-91 | a listener is set |
| AudioPlayerPresentation.ViewModel.UpdateFileDuration | audioplayer/src/main/java/com/android/klaudiak/audioplayer/presentation/AudioPlayerViewModel.kt:118-130 | the list becomes the replace-or-append update keyed on the name without extension; it never shrinks |
| AudioPlayerPresentation.ViewModel.UpdateFileTranscriptionDuration | audioplayer/src/main/java/com/android/klaudiak/audioplayer/presentation/AudioPlayerViewModel.kt:132-145 | the current file's first entry gets the time; the length is kept |
| AudioPlayerPresentation.ViewModel.UpdateAudioFileTranslation | audioplayer/src/main/java/com/android/klaudiak/audioplayer/presentation/AudioPlayerViewModel.kt:147-149 | the translation is the text after the first occurrence of the previous translation, or the whole text when that is empty or absent |
| AudioPlayerPresentation.ViewModel.UpdateTranslation | audioplayer/src/main/java/com/android/klaudiak/audioplayer/presentation/AudioPlayerViewModel.kt:151-165 | the current file's first entry gets the translation; the length is kept |
| AudioPlayerPresentation.ViewModel.UpdateFileName | audioplayer/src/main/java/com/android/klaudiak/audioplayer/presentation/AudioPlayerViewModel.kt:68-87 | the finished file gets its translation, which becomes the previous translation, and the model is reset; then the decision is applied, and its name is announced when a listener is set |
| AudioPlayerPresentation.ViewModel.StartRecording | audioplayer/src/main/java/com/android/klaudiak/audioplayer/presentation/AudioPlayerViewModel.kt:93-95 | recording is on and nothing else changes |
| AudioPlayerPresentation.ViewModel.StopRecording | audioplayer/src/main/java/com/android/klaudiak/audioplayer/presentation/AudioPlayerViewModel.kt:97-99 | recording is off and nothing else changes |
| AudioPlayerPresentation.ViewModel.UpdateTranscriptionText | audioplayer/src/main/java/com/android/klaudiak/audioplayer/presentation/AudioPlayerViewModel.kt:101-103 | the text is replaced wholesale |
| AudioPlayer.Select | audioplayer/src/main/java/com/android/klaudiak/audioplayer/AudioPlayerViewModel.kt:33-38 | the name becomes current; it is announced, once, exactly when it differs from the current one |
| AudioPlayer.SelectAllAnnouncements | audioplayer/src/main/java/com/android/klaudiak/audioplayer/AudioPlayerViewModel.kt:33-38 | over any run: the current file is the last name given; no name is announced twice in a row; the first announced was not current before; nothing announced means nothing changed |
| AudioPlayer.SelectRepeated | audioplayer/src/main/java/com/android/klaudiak/audioplayer/AudioPlayerViewModel.kt:34 | repeating one name announces it at most once, and exactly once when it was not current |
| AudioPlayer.WriteLinesSnoc | audioplayer/src/main/java/com/android/klaudiak/audioplayer/AudioPlayerViewModel.kt:65-66 | appending a line to a transcript file extends its text by that line and LF |
| AudioPlayer.ViewModel.constructor | audioplayer/src/main/java/com/android/klaudiak/audioplayer/AudioPlayerViewModel.kt:22-31 | no current file, not recording, empty text, no listener |
| AudioPlayer.ViewModel.SetPlaybackListener | audioplayer/src/main/java/com/android/klaudiak/audioplayer/AudioPlayerViewModel.kt:40-42 | a listener is set |
| AudioPlayer.ViewModel.UpdateFileName | audioplayer/src/main/java/com/android/klaudiak/audioplayer/AudioPlayerViewModel.kt:33-38 | a new name becomes current and is announced to a set listener; the current name changes nothing |
| AudioPlayer.ViewModel.StartRecording | audioplayer/src/main/java/com/android/klaudiak/audioplayer/AudioPlayerViewModel.kt:44-46 | recording is on and nothing else changes |
| AudioPlayer.ViewModel.StopRecording | audioplayer/src/main/java/com/android/klaudiak/audioplayer/AudioPlayerViewModel.kt:48-50 | recording is off and nothing else changes |
| AudioPlayer.ViewModel.UpdateTranscriptionText | audioplayer/src/main/java/com/android/klaudiak/audioplayer/AudioPlayerViewModel.kt:52-54 | the text is replaced wholesale |
| AudioPlayer.ViewModel.SaveTranscriptionToFile | audioplayer/src/main/java/com/android/klaudiak/audioplayer/AudioPlayerViewModel.kt:56-72 | the line `name transcription` and LF is appended; a failed write leaves the file as it was |
| AudioPlayer.SavedLineReadsBack | audioplayer/src/main/java/com/android/klaudiak/audioplayer/AudioPlayerViewModel.kt:66 | after a save, the file reads back as the earlier lines and the new one, which `loadTranscriptions` parses into the name and the upper-cased transcription |
| AudioFileList.NameLessEqTotal | audioplayer/src/main/java/com/android/klaudiak/audioplayer/presentation/AudioFileList.kt:34 | any two names are ordered one way or the other |
| AudioFileList.NameLessEqTrans | audioplayer/src/main/java/com/android/klaudiak/audioplayer/presentation/AudioFileList.kt:34 | the name order is transitive |
| AudioFileList.WithName | audioplayer/src/main/java/com/android/klaudiak/audioplayer/presentation/AudioFileList.kt:35 | the entries picked out all have the name |
| AudioFileList.InsertSorted | audioplayer/src/main/java/com/android/klaudiak/audioplayer/presentation/AudioFileList.kt:34 | inserting into a sorted list keeps it sorted |
| AudioFileList.InsertWithName | audioplayer/src/main/java/com/android/klaudiak/audioplayer/presentation/AudioFileList.kt:34 | an inserted file goes before the entries with its name |
| AudioFileList.SortByNameSpec | audioplayer/src/main/java/com/android/klaudiak/audioplayer/presentation/AudioFileList.kt:34 | `sortedBy { filename }` is in name order, lists every file exactly as often as given, and is stable: the files with any one name keep their order |
| AudioFileList.SortByNameSorted | audioplayer/src/main/java/com/android/klaudiak/audioplayer/presentation/AudioFileList.kt:34 | every pair of listed files is in name order |
| AudioFileList.ListRows | audioplayer/src/main/java/com/android/klaudiak/audioplayer/presentation/AudioFileList.kt:34-35 | one row per sorted file, marked current exactly when its name is the current file name |
| AudioFileList.ListRowsMarked | audioplayer/src/main/java/com/android/klaudiak/audioplayer/presentation/AudioFileList.kt:35 | the marked rows are exactly the files named like the current file, in their original order; with no current file none is marked |
| AudioFileList.StripWindow | audioplayer/src/main/java/com/android/klaudiak/audioplayer/presentation/AudioFileList.kt:67-72 | at most three files: the slice around the current file, which is in the strip (in the middle unless first); with no current file, the first file alone or nothing |

## Left out

- The Compose screens and the rendering of both file lists are not modelled.
  Only which files are listed and which are marked is modelled.
- `AudioRecord`, threads, `interrupt()` and `synchronized(model)` are not
  modelled. The buffers a recording loop reads are an input sequence. A
  `while (true)` loop is modelled over a finite prefix of buffers. A missing
  recorder reads as 0 samples.
- The native recognizers (Sherpa-NCNN, Sherpa-ONNX, the Vosk `Recognizer` and
  `SpeechService`) are foreign calls. Their hypotheses, endpoints and
  readiness are inputs.
- `parseJsonContent` and `org.json` are not modelled. The Vosk methods
  receive the text already parsed.
- Floating point is not modelled: sample normalisation, the real-time factor
  of `SherpaOnnxViewModel`, and the WER percentages that are printed. The
  integer totals are modelled.
- File and media I/O is not modelled: writers, `mkdirs`, ExoPlayer and
  `AudioPlayerManager`. File contents are strings, and a failed write is a
  boolean parameter.
- `readLines` is modelled only for files whose line terminator is LF; a CR
  is kept as part of the line.
- `delay` and coroutines are not modelled. The two launches of
  `updateFileName` run in order as one step, and the clock
  (`System.currentTimeMillis`) is a parameter.
- `initModel` and `createRecognizer` are reduced to a `modelLoaded` flag. The
  failure of `new Recognizer` and the `IOException` caught by
  `startListening` are not modelled.
- The `started` flag of `SherpaNcnnActivity` guards only a debug log line,
  so it is not modelled. The per-word timestamp log lines after the loop are
  not modelled either.
- The Vosk `onPartialResult` has an empty body and is not modelled.
  `updateFinalResult` is never called and is not modelled.
  `parseAndStoreTimestamps` is modelled as written, although every call to
  it is commented out.
- The `saveTranscriptionToFile` of the presentation view model writes the
  same line as the older view model's, which is modelled once (in
  `AudioPlayer`).
- The recording-time, player-control, export-path and WER-triggering
  functions of the presentation view model (`startRecordingTime`,
  `endRecordingTime`, `initializePlayer`, `play`, `pause`, `getWERMetric`) are
  I/O or clock driven and are not modelled.
- Characters are compared by code point, not by UTF-16 unit. The two orders
  differ only outside the Basic Multilingual Plane.
- Kotlin's `length` and `substring(lastAccumulatedLength)` count UTF-16 units,
  while the model counts characters. Outside the Basic Multilingual Plane the
  Vosk cursor of `parseAndStoreTimestamps` therefore differs from the one the
  model keeps.
- Integer widths are not modelled: `lastAccumulatedLength` is an `Int` and the
  timestamps and their differences are `Long`s, but the model's integers are
  unbounded, so no overflow is modelled.
- SherpaNcnnActivity.Activity.ReportFiltered: reports the corrected duration
  (latest minus earliest kept timestamp, nothing for an empty map). Lines
  250-257 of `SherpaNcnnActivity.kt` report `last() - first()` in map order
  and throw on an empty map. Both halves are modelled; see Findings.
- SherpaNcnnActivity.Activity.ProcessSamples: ends with the same corrected
  report as `ReportFiltered`, for the same reason.
- `uppercase()` is modelled on ASCII letters only.
- The Hilt modules, Gradle scripts, permission helpers and the benchmark
  module are configuration or instrumentation.
- VoskViewModel.PartialIdempotent: proved only when the shown text is the
  placeholder or is not blank. From the shown text `""` with
  `lastPartialResult` `"X"`, the result `"X Preparing..."` first makes the
  shown text equal `"Preparing..."`. A second call then treats that as the
  placeholder and replaces it.
- AudioPlayerPresentation.ExportRoundTrip: proved for lists of distinct
  names without whitespace whose transcriptions are empty, or trimmed and
  without LF. Other names and transcriptions do not read back as they were
  written.
- AudioFiles.ParseTranscriptLine: proved under the same restriction on the
  name and the transcription.

## Findings

| source | as written | input that shows it | evidently intended | confidence | as-written member | corrected member |
|---|---|---|---|---|---|---|
| sherpa-ncnn/src/main/java/com/android/klaudiak/sherpa_ncnn/SherpaNcnnActivity.kt:250-251 | the duration is the last kept timestamp minus the first, in map order | hypothesis `a b` at time 1, then `x b` at time 5: the kept entries are `x_0`@5 then `b_1`@1, so −4 ms is reported | the time from the earliest to the latest kept word, 4 ms, never negative | medium, not executed | WordTimestamps.NegativeDurationWitness | WordTimestamps.Duration |
| sherpa-ncnn/src/main/java/com/android/klaudiak/sherpa_ncnn/SherpaNcnnActivity.kt:250-251 | `first()`/`last()` on the values of the deduplicated map | a recording in which no non-blank hypothesis was decoded: the map is empty and `first()` throws `NoSuchElementException` on the recording thread | no duration reported for an empty recording | medium, not executed | WordTimestamps.DurationAsWritten | WordTimestamps.Duration |
