/**
 * The first player view model of the `audioplayer` package: the current file,
 * announced to the playback listener when it changes, the recording flag, the
 * shown transcription, and the transcript file `saveTranscriptionToFile`
 * appends to.
 */
module AudioPlayer {

  import opened Wrappers
  import opened KotlinText
  import opened AccuracyCalculator
  import opened AudioFiles

  /** `updateFileName`: the new current file and the names announced. A name
      is announced exactly when it differs from the current one. */
  function Select(current: Option<string>, newFileName: string): (r: (Option<string>, seq<string>))
    ensures r.0 == Some(newFileName)
    ensures r.1 == [] <==> current == Some(newFileName)
    ensures r.1 != [] ==> r.1 == [newFileName]
  {
    if current != Some(newFileName) then (Some(newFileName), [newFileName]) else (current, [])
  }

  /** A run of `updateFileName` calls: the current file afterwards and every
      name announced, in order. */
  function SelectAll(current: Option<string>, names: seq<string>): (Option<string>, seq<string>)
    decreases |names|
  {
    if |names| == 0 then (current, [])
    else
      var (c1, n1) := SelectAll(current, names[..|names| - 1]);
      var (c2, n2) := Select(c1, names[|names| - 1]);
      (c2, n1 + n2)
  }

  /** Over any run: the current file is the last name given; the names
      announced are the given names with every repetition of the then-current
      name left out, so no name is announced twice in a row, and a run that
      repeats one name announces it at most once. */
  lemma {:induction false} SelectAllAnnouncements(current: Option<string>, names: seq<string>)
    ensures var (c, notes) := SelectAll(current, names);
      (|names| > 0 ==> c == Some(names[|names| - 1])) &&
      (|notes| == 0 ==> c == current) &&
      |notes| <= |names| &&
      (forall i :: 0 <= i < |notes| - 1 ==> notes[i] != notes[i + 1]) &&
      (|notes| > 0 ==> c == Some(notes[|notes| - 1]) && current != Some(notes[0]))
    decreases |names|
  {
    if |names| > 0 {
      SelectAllAnnouncements(current, names[..|names| - 1]);
    }
  }

  /** Repeating one name announces it at most once. */
  lemma {:induction false} SelectRepeated(current: Option<string>, name: string, n: nat)
    ensures var notes := SelectAll(current, seq(n, _ => name)).1;
      |notes| <= 1 && (|notes| == 1 <==> n > 0 && current != Some(name))
    decreases n
  {
    if n > 0 {
      var names := seq(n, _ => name);
      assert names[..n - 1] == seq(n - 1, _ => name);
      SelectRepeated(current, name, n - 1);
      if n > 1 {
        SelectAllAnnouncements(current, names[..n - 1]);
      }
    }
  }

  /** A transcript file extended by one saved line reads back with that line
      last. */
  lemma {:induction false} WriteLinesSnoc(lines: seq<string>, line: string)
    ensures WriteLines(lines + [line]) == WriteLines(lines) + line + "\n"
    decreases |lines|
  {
    if |lines| > 0 {
      WriteLinesSnoc(lines[1..], line);
      assert (lines + [line])[1..] == lines[1..] + [line];
    }
  }

  class ViewModel {

    var currentFileName: Option<string>
    var isRecording: bool
    var transcriptionText: string

    /** `playbackListener != null`. */
    var hasListener: bool

    /** The names passed to `onNewAudioFileStarted`, in order. */
    var announced: seq<string>

    /** The contents of `transcriptions/transcriptions.txt`. */
    var transcriptFile: string

    constructor (transcriptFile: string)
      ensures currentFileName == None && !isRecording && transcriptionText == ""
      ensures !hasListener && announced == [] && this.transcriptFile == transcriptFile
    {
      currentFileName := None;
      isRecording := false;
      transcriptionText := "";
      hasListener := false;
      announced := [];
      this.transcriptFile := transcriptFile;
    }

    method SetPlaybackListener()
      modifies this`hasListener
      ensures hasListener
    {
      hasListener := true;
    }

    /** `updateFileName`: a different name becomes current and is announced to
        the listener, if one is set; the current name changes nothing. */
    method UpdateFileName(newFileName: string)
      modifies this`currentFileName, this`announced
      ensures currentFileName == Select(old(currentFileName), newFileName).0
      ensures announced == old(announced) + (if hasListener then Select(old(currentFileName), newFileName).1 else [])
    {
      if currentFileName != Some(newFileName) {
        currentFileName := Some(newFileName);
        if hasListener {
          announced := announced + [newFileName];
        }
      }
    }

    method StartRecording()
      modifies this`isRecording
      ensures isRecording
    {
      isRecording := true;
    }

    method StopRecording()
      modifies this`isRecording
      ensures !isRecording
    {
      isRecording := false;
    }

    method UpdateTranscriptionText(text: string)
      modifies this`transcriptionText
      ensures transcriptionText == text
    {
      transcriptionText := text;
    }

    /** `saveTranscriptionToFile`: append one transcript line; when the write
        fails (`ioError`) the error is logged and the file is as it was. */
    method SaveTranscriptionToFile(audioFileName: string, transcription: string, ioError: bool)
      modifies this`transcriptFile
      ensures transcriptFile == if ioError then old(transcriptFile) else old(transcriptFile) + TranscriptLine(audioFileName, transcription)
    {
      if !ioError {
        transcriptFile := transcriptFile + TranscriptLine(audioFileName, transcription);
      }
    }
  }

  /** Writing one more line without LF reads back with that line last. */
  lemma AppendedLineReadsBack(lines: seq<string>, line: string)
    requires forall i :: 0 <= i < |lines| ==> '\n' !in lines[i]
    requires '\n' !in line
    ensures ReadLines(WriteLines(lines) + line + "\n") == lines + [line]
  {
    var all := lines + [line];
    assert forall i :: 0 <= i < |all| ==> '\n' !in all[i];
    WriteLinesSnoc(lines, line);
    ReadWrittenLines(all);
  }

  /** A transcript file of saved lines keeps being one: after saving, it reads
      back as the earlier lines followed by the new one, and
      `loadTranscriptions` gets the name and the upper-cased transcription. */
  lemma SavedLineReadsBack(lines: seq<string>, name: string, transcription: string)
    requires forall i :: 0 <= i < |lines| ==> '\n' !in lines[i]
    requires PlainName(name) && IsTrimmedWord(transcription) && '\n' !in transcription
    ensures ReadLines(WriteLines(lines) + TranscriptLine(name, transcription)) == lines + [name + " " + transcription]
    ensures ParseLine(name + " " + transcription) == Some((name, Uppercase(transcription)))
  {
    var line := name + " " + transcription;
    assert ReadLines(WriteLines(lines) + TranscriptLine(name, transcription)) == lines + [line] by {
      assert '\n' !in name;
      assert '\n' !in line;
      AppendedLineReadsBack(lines, line);
      assert WriteLines(lines) + TranscriptLine(name, transcription) == WriteLines(lines) + line + "\n";
    }
    assert ParseLine(line) == Some((name, Uppercase(transcription))) by {
      ParseTranscriptLine(name, transcription);
    }
  }
}
