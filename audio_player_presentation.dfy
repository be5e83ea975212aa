/**
 * The player view model of the `presentation` package: the list of played
 * files keyed by their name without extension, the transcription each file
 * receives when the next one starts, the playback-complete marker, and the
 * export of all transcriptions as a transcript file. The two delayed
 * coroutines `updateFileName` launches run in the order of their delays
 * (2000 ms, then 3000 ms) and are modelled as one sequential step.
 */
module AudioPlayerPresentation {

  import opened Wrappers
  import opened KotlinText
  import opened LinkedMaps
  import opened AccuracyCalculator
  import opened AudioFiles

  /** The name the player reports once the playlist has ended. */
  const PlaybackComplete: string := "PLAYBACK_COMPLETE"

  /** `substringBeforeLast(".")`: the name without its extension, or the whole
      name when it has no dot. */
  function NameWithoutExtension(filename: string): (r: string)
    ensures r <= filename
    ensures '.' !in filename ==> r == filename
    ensures '.' in filename ==> |r| < |filename| && filename[|r|] == '.' && '.' !in filename[|r| + 1..]
  {
    SubstringBeforeLast(filename, '.')
  }

  // ---------------------------------------------------------------------------
  // The file list
  // ---------------------------------------------------------------------------

  /** A fresh record for a file whose length just became known. */
  function FreshFile(name: string, length: int): AudioFileData {
    AudioFileData(name, length, None, None)
  }

  /** The list update of `updateFileDuration`: the first entry with the name is
      replaced by a fresh record (dropping its transcription and its
      transcription time); without such an entry one fresh record is appended.
      The list never shrinks, and the record is then the first one with the
      name. */
  function WithDuration(files: seq<AudioFileData>, name: string, length: int): (r: seq<AudioFileData>)
    ensures |r| == |files| + (if FileIndex(files, Some(name)) == -1 then 1 else 0)
    ensures FileIndex(r, Some(name)) == (if FileIndex(files, Some(name)) == -1 then |files| else FileIndex(files, Some(name)))
    ensures r[FileIndex(r, Some(name))] == FreshFile(name, length)
    ensures forall j :: 0 <= j < |files| && j != FileIndex(files, Some(name)) ==> r[j] == files[j]
  {
    var i := FileIndex(files, Some(name));
    var r := if i == -1 then files + [FreshFile(name, length)] else files[i := FreshFile(name, length)];
    FileIndexUnique(r, Some(name), if i == -1 then |files| else i);
    r
  }

  /** The entries keep their names when only another field changes. */
  predicate SameNames(a: seq<AudioFileData>, b: seq<AudioFileData>) {
    |a| == |b| && forall j :: 0 <= j < |a| ==> a[j].filename == b[j].filename
  }

  /** Lists with the same names answer every lookup alike. */
  lemma {:induction false} SameNamesIndex(a: seq<AudioFileData>, b: seq<AudioFileData>, name: Option<string>)
    requires SameNames(a, b)
    ensures FileIndex(a, name) == FileIndex(b, name)
    decreases |a|
  {
    if |a| > 0 {
      SameNamesIndex(a[1..], b[1..], name);
    }
  }

  /** The list update of `updateFileTranscriptionDuration`: the first entry
      named `current` gets its transcription time; no match, or no current
      file, leaves the list as it was. */
  function WithTranscriptionTime(files: seq<AudioFileData>, current: Option<string>, time: int): (r: seq<AudioFileData>)
    ensures SameNames(files, r)
    ensures FileIndex(files, current) == -1 ==> r == files
    ensures FileIndex(files, current) >= 0 ==> r[FileIndex(files, current)].transcriptionTime == Some(time)
    ensures FileIndex(files, current) >= 0 ==>
      r[FileIndex(files, current)] == files[FileIndex(files, current)].(transcriptionTime := Some(time))
    ensures forall j :: 0 <= j < |files| && j != FileIndex(files, current) ==> r[j] == files[j]
  {
    var i := FileIndex(files, current);
    if i == -1 then files else files[i := files[i].(transcriptionTime := Some(time))]
  }

  /** The list update of `updateTranslation`: the first entry named `current`
      gets `text` as its transcription; nothing else changes. */
  function WithTranscription(files: seq<AudioFileData>, current: Option<string>, text: string): (r: seq<AudioFileData>)
    ensures SameNames(files, r)
    ensures FileIndex(files, current) == -1 ==> r == files
    ensures FileIndex(files, current) >= 0 ==>
      r[FileIndex(files, current)] == files[FileIndex(files, current)].(transcription := Some(text))
    ensures forall j :: 0 <= j < |files| && j != FileIndex(files, current) ==> r[j] == files[j]
  {
    var i := FileIndex(files, current);
    if i == -1 then files else files[i := files[i].(transcription := Some(text))]
  }

  /** After `updateFileDuration`, looking up the file finds the fresh record,
      and looking up any other name finds what it found before. */
  lemma WithDurationLookup(files: seq<AudioFileData>, name: string, length: int, other: Option<string>)
    ensures var r := WithDuration(files, name, length);
      (other == Some(name) ==> FileIndex(r, other) >= 0 && r[FileIndex(r, other)] == FreshFile(name, length)) &&
      (other != Some(name) ==> FileIndex(r, other) == FileIndex(files, other))
  {
    var r := WithDuration(files, name, length);
    if other != Some(name) {
      var i := FileIndex(files, Some(name));
      assert forall j :: 0 <= j < |r| ==> (other == Some(r[j].filename) <==> j < |files| && other == Some(files[j].filename));
    }
  }

  /** Reporting the same length twice gives the same list as reporting it once. */
  lemma WithDurationIdempotent(files: seq<AudioFileData>, name: string, length: int)
    ensures WithDuration(WithDuration(files, name, length), name, length) == WithDuration(files, name, length)
  {
  }

  /** The two updates keyed on the current file change only that file, so a
      later lookup of the current file finds the same position. */
  lemma TranscriptionKeepsIndex(files: seq<AudioFileData>, current: Option<string>, time: int, text: string, name: Option<string>)
    ensures FileIndex(WithTranscriptionTime(files, current, time), name) == FileIndex(files, name)
    ensures FileIndex(WithTranscription(files, current, text), name) == FileIndex(files, name)
  {
    SameNamesIndex(files, WithTranscriptionTime(files, current, time), name);
    SameNamesIndex(files, WithTranscription(files, current, text), name);
  }

  // ---------------------------------------------------------------------------
  // The decision of updateFileName
  // ---------------------------------------------------------------------------

  /** `_currentFileName` and `_isPlaybackComplete`. */
  datatype PlaybackState = PlaybackState(currentFileName: Option<string>, isPlaybackComplete: bool)

  /** The delayed decision of `updateFileName`: the new state and the name
      announced to the playback listener, if any. */
  function Decide(st: PlaybackState, newFileName: string): (PlaybackState, Option<string>) {
    var name := NameWithoutExtension(newFileName);
    if name == PlaybackComplete then (st.(isPlaybackComplete := true), None)
    else if st.currentFileName != Some(name) then (PlaybackState(Some(name), false), Some(name))
    else (st, None)
  }

  /** The three outcomes: the end marker only sets the flag; a new name becomes
      current, clears the flag and is announced; the current name changes
      nothing and is not announced. */
  lemma DecideCases(st: PlaybackState, newFileName: string)
    ensures var name := NameWithoutExtension(newFileName);
      var (st', note) := Decide(st, newFileName);
      (name == PlaybackComplete ==> st'.currentFileName == st.currentFileName && st'.isPlaybackComplete && note == None) &&
      (name != PlaybackComplete && st.currentFileName != Some(name) ==>
        st' == PlaybackState(Some(name), false) && note == Some(name)) &&
      (name != PlaybackComplete && st.currentFileName == Some(name) ==> st' == st && note == None) &&
      (note.Some? <==> name != PlaybackComplete && st.currentFileName != Some(name))
  {
  }

  /** Deciding on the same name twice announces it at most once. */
  lemma DecideIdempotent(st: PlaybackState, newFileName: string)
    ensures Decide(Decide(st, newFileName).0, newFileName).0 == Decide(st, newFileName).0
    ensures Decide(Decide(st, newFileName).0, newFileName).1 == None
  {
  }

  /** A run of `updateFileName` calls: the final state and the names announced,
      in order. */
  function DecideAll(st: PlaybackState, names: seq<string>): (PlaybackState, seq<string>)
    decreases |names|
  {
    if |names| == 0 then (st, [])
    else
      var (s1, n1) := DecideAll(st, names[..|names| - 1]);
      var (s2, note) := Decide(s1, names[|names| - 1]);
      (s2, n1 + match note { case None => [] case Some(n) => [n] })
  }

  /** Over any run, no name is announced twice in a row, the last name
      announced is the current file, and nothing is announced that the state
      already held as current. */
  lemma {:induction false} DecideAllAnnouncements(st: PlaybackState, names: seq<string>)
    ensures var (st', notes) := DecideAll(st, names);
      (forall i :: 0 <= i < |notes| - 1 ==> notes[i] != notes[i + 1]) &&
      (|notes| > 0 ==> st'.currentFileName == Some(notes[|notes| - 1]) && st.currentFileName != Some(notes[0])) &&
      (|notes| == 0 ==> st'.currentFileName == st.currentFileName)
    decreases |names|
  {
    if |names| > 0 {
      DecideAllAnnouncements(st, names[..|names| - 1]);
    }
  }

  // ---------------------------------------------------------------------------
  // Export
  // ---------------------------------------------------------------------------

  /** `file.transcription ?: ""`. */
  function TranscriptionOf(f: AudioFileData): string {
    match f.transcription
    case None => ""
    case Some(t) => t
  }

  /** The lines `exportTranscriptionsToTxt` writes, without their LF: one per
      file, in list order. */
  function ExportLines(files: seq<AudioFileData>): (r: seq<string>)
    ensures |r| == |files|
    ensures forall i :: 0 <= i < |files| ==> WriteLines([r[i]]) == TranscriptLine(files[i].filename, TranscriptionOf(files[i]))
  {
    seq(|files|, i requires 0 <= i < |files| => files[i].filename + " " + TranscriptionOf(files[i]))
  }

  /** The text of the exported file. */
  function ExportText(files: seq<AudioFileData>): string {
    WriteLines(ExportLines(files))
  }

  /** What a later `loadTranscriptions` of the export should give: the files
      with a non-empty transcription, in order, with the transcription upper-
      cased. */
  function Exported(files: seq<AudioFileData>): (m: seq<(string, string)>)
    ensures |m| <= |files|
    ensures forall k :: k in KeysOf(m) ==> exists i :: 0 <= i < |files| && files[i].filename == k
    decreases |files|
  {
    if |files| == 0 then []
    else
      var m0 := Exported(files[..|files| - 1]);
      var f := files[|files| - 1];
      var t := TranscriptionOf(f);
      if t == "" then m0
      else
        KeysOfAppend(m0, f.filename, Uppercase(t));
        m0 + [(f.filename, Uppercase(t))]
  }

  /** The files the export can carry through a reload: distinct plain names,
      transcriptions that are empty or start and end with a non-blank
      character, and no LF inside a transcription. */
  predicate Exportable(files: seq<AudioFileData>) {
    (forall i :: 0 <= i < |files| ==> PlainName(files[i].filename)) &&
    (forall i :: 0 <= i < |files| ==> TranscriptionOf(files[i]) == "" || IsTrimmedWord(TranscriptionOf(files[i]))) &&
    (forall i :: 0 <= i < |files| ==> '\n' !in TranscriptionOf(files[i])) &&
    (forall i, j :: 0 <= i < j < |files| ==> files[i].filename != files[j].filename)
  }

  /** An export line becomes one `Put` of the loaded map, or none when the
      transcription is empty. */
  lemma LoadLastExportLine(files: seq<AudioFileData>)
    requires |files| > 0
    requires PlainName(files[|files| - 1].filename)
    requires TranscriptionOf(files[|files| - 1]) == "" || IsTrimmedWord(TranscriptionOf(files[|files| - 1]))
    ensures var f := files[|files| - 1];
      var m0 := LoadTranscriptions(ExportLines(files[..|files| - 1]));
      LoadTranscriptions(ExportLines(files)) ==
        if TranscriptionOf(f) == "" then m0 else Put(m0, f.filename, Uppercase(TranscriptionOf(f)))
  {
    var n := |files| - 1;
    var f := files[n];
    var lines := ExportLines(files);
    assert lines[..n] == ExportLines(files[..n]);
    assert lines[n] == f.filename + " " + TranscriptionOf(f);
    ParseTranscriptLine(f.filename, TranscriptionOf(f));
  }

  lemma {:induction false} LoadExportLines(files: seq<AudioFileData>)
    requires Exportable(files)
    ensures LoadTranscriptions(ExportLines(files)) == Exported(files)
    decreases |files|
  {
    if |files| > 0 {
      var n := |files| - 1;
      var init := files[..n];
      var f := files[n];
      assert Exportable(init) by {
        assert forall i :: 0 <= i < n ==> init[i] == files[i];
      }
      LoadExportLines(init);
      LoadLastExportLine(files);
      if TranscriptionOf(f) != "" {
        forall i | 0 <= i < n
          ensures init[i].filename != f.filename
        {
          assert init[i] == files[i];
        }
        assert f.filename !in KeysOf(Exported(init));
      }
    }
  }

  /** The exported file read back by `loadTranscriptions` gives every file with
      a transcription, in list order, and drops those without. */
  lemma ExportRoundTrip(files: seq<AudioFileData>)
    requires Exportable(files)
    ensures LoadTranscriptions(ReadLines(ExportText(files))) == Exported(files)
  {
    var lines := ExportLines(files);
    forall i | 0 <= i < |lines|
      ensures '\n' !in lines[i]
    {
      assert lines[i] == files[i].filename + " " + TranscriptionOf(files[i]);
    }
    ReadWrittenLines(lines);
    LoadExportLines(files);
  }

  // ---------------------------------------------------------------------------
  // The view model
  // ---------------------------------------------------------------------------

  class ViewModel {

    var currentFileName: Option<string>
    var isPlaybackComplete: bool
    var isRecording: bool
    var transcriptionText: string

    /** `_files.value`. */
    var files: seq<AudioFileData>

    /** The text forwarded since the current file started. */
    var translation: string

    /** Everything forwarded before the current file started. */
    var previousTranslation: string

    /** `playbackListener != null`. */
    var hasListener: bool

    /** The names passed to `onNewAudioFileStarted`, in order. */
    var announced: seq<string>

    /** How many times the `resetModel` callback ran. */
    var modelResets: nat

    constructor ()
      ensures currentFileName == None && !isPlaybackComplete && !isRecording && transcriptionText == ""
      ensures files == [] && translation == "" && previousTranslation == ""
      ensures !hasListener && announced == [] && modelResets == 0
    {
      currentFileName := None;
      isPlaybackComplete := false;
      isRecording := false;
      transcriptionText := "";
      files := [];
      translation := "";
      previousTranslation := "";
      hasListener := false;
      announced := [];
      modelResets := 0;
    }

    method SetPlaybackListener()
      modifies this`hasListener
      ensures hasListener
    {
      hasListener := true;
    }

    /** `updateFileDuration`, the player's callback when a file's length is known. */
    method UpdateFileDuration(filename: string, length: int)
      modifies this`files
      ensures files == WithDuration(old(files), NameWithoutExtension(filename), length)
      ensures |files| >= |old(files)|
    {
      var name := SubstringBeforeLast(filename, '.');
      var index := FileIndex(files, Some(name));
      if index != -1 {
        files := files[index := AudioFileData(name, length, None, None)];
      } else {
        files := files + [AudioFileData(name, length, None, None)];
      }
    }

    method UpdateFileTranscriptionDuration(transcriptionLength: int)
      modifies this`files
      ensures files == WithTranscriptionTime(old(files), currentFileName, transcriptionLength)
      ensures |files| == |old(files)|
    {
      var index := FileIndex(files, currentFileName);
      if index != -1 {
        files := files[index := files[index].(transcriptionTime := Some(transcriptionLength))];
      }
    }

    /** `updateAudioFileTranslation`: keep what was forwarded after the text of
        the earlier files. */
    method UpdateAudioFileTranslation(translations: string)
      modifies this`translation
      ensures translation == SubstringAfter(translations, previousTranslation)
    {
      translation := SubstringAfter(translations, previousTranslation);
    }

    method UpdateTranslation()
      modifies this`files
      ensures files == WithTranscription(old(files), currentFileName, translation)
      ensures |files| == |old(files)|
    {
      var index := FileIndex(files, currentFileName);
      if index != -1 {
        files := files[index := files[index].(transcription := Some(translation))];
      }
    }

    /** `updateFileName`: first (after 2000 ms) the finished file receives its
        transcription, the forwarded text so far becomes the prefix to cut and
        the model is reset; then (after 3000 ms) the decision on the new name,
        announced to the listener if one is set. */
    method UpdateFileName(newFileName: string)
      modifies this`files, this`previousTranslation, this`modelResets, this`currentFileName, this`isPlaybackComplete, this`announced
      ensures files == WithTranscription(old(files), old(currentFileName), old(translation))
      ensures previousTranslation == old(translation) && translation == old(translation)
      ensures modelResets == old(modelResets) + 1
      ensures var (st, note) := Decide(PlaybackState(old(currentFileName), old(isPlaybackComplete)), newFileName);
        currentFileName == st.currentFileName && isPlaybackComplete == st.isPlaybackComplete &&
        announced == old(announced) + (if hasListener && note.Some? then [note.value] else [])
      ensures |files| == |old(files)|
    {
      UpdateTranslation();
      previousTranslation := translation;
      modelResets := modelResets + 1;

      var name := SubstringBeforeLast(newFileName, '.');
      if name == PlaybackComplete {
        isPlaybackComplete := true;
      } else if currentFileName != Some(name) {
        currentFileName := Some(name);
        isPlaybackComplete := false;
        if hasListener {
          announced := announced + [name];
        }
      }
    }

    method StartRecording()
      modifies this`isRecording
      ensures isRecording
    {
      isRecording := true;
    }

    method StopRecording()
      modifies this`isRecording
      ensures !isRecording
    {
      isRecording := false;
    }

    method UpdateTranscriptionText(text: string)
      modifies this`transcriptionText
      ensures transcriptionText == text
    {
      transcriptionText := text;
    }
  }
}
