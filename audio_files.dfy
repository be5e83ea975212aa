/**
 * The audio-file records both player view models keep (`AudioFileData`), the
 * first-match lookup they share, and the transcript line both of them write:
 * `"<name> <transcription>\n"`, the format `AccuracyCalculator` reads back.
 */
module AudioFiles {

  import opened Wrappers
  import opened KotlinText
  import opened AccuracyCalculator

  /** One played file: its name without extension, its length in ms, and, once
      known, its transcription and the time the transcription took. */
  datatype AudioFileData = AudioFileData(filename: string, length: int, transcription: Option<string>, transcriptionTime: Option<int>)

  /** `files.indexOfFirst { it.filename == name }` where `name` is a nullable
      string: the first position whose filename is `name`, or -1; a null name
      matches nothing. */
  function FileIndex(files: seq<AudioFileData>, name: Option<string>): (i: int)
    ensures -1 <= i < |files|
    ensures i >= 0 ==> name == Some(files[i].filename)
    ensures forall j :: 0 <= j < |files| && (i == -1 || j < i) ==> name != Some(files[j].filename)
    decreases |files|
  {
    if |files| == 0 then -1
    else if name == Some(files[0].filename) then 0
    else
      var k := FileIndex(files[1..], name);
      if k == -1 then -1 else k + 1
  }

  /** The position `FileIndex` returns is the only one meeting its contract. */
  lemma FileIndexUnique(files: seq<AudioFileData>, name: Option<string>, i: int)
    requires -1 <= i < |files|
    requires i >= 0 ==> name == Some(files[i].filename)
    requires forall j :: 0 <= j < |files| && (i == -1 || j < i) ==> name != Some(files[j].filename)
    ensures FileIndex(files, name) == i
  {
  }

  /** `"$audioFileName $transcription\n"`: one line of a transcript file. */
  function TranscriptLine(name: string, text: string): string {
    name + " " + text + "\n"
  }

  /** A name `loadTranscriptions` can read back as an id: non-empty and without
      whitespace. */
  predicate PlainName(s: string) {
    |s| > 0 && forall i :: 0 <= i < |s| ==> !IsWhitespace(s[i])
  }

  /** `split(Regex("\\s+"), limit = 2)` of a plain name, one space and a
      trimmed word gives the name and the word. */
  lemma SplitAtSpace(name: string, text: string)
    requires PlainName(name) && IsTrimmedWord(text)
    ensures SplitOnSpaceRunsLimit2(name + " " + text) == [name, text]
  {
    var line := name + " " + text;
    assert line[|name|] == ' ';
    var parts := SplitOnSpaceRunsLimit2(line);
    assert |parts| == 2;
    var p := |parts[0]|;
    assert forall i :: 0 <= i < |name| ==> line[i] == name[i];
    assert p <= |name| by {
      assert forall i :: 0 <= i < p ==> parts[0][i] == line[i];
    }
    assert p == |name|;
    var e := |line| - |parts[1]|;
    assert line[|line| - 1] == text[|text| - 1];
    assert line[|name| + 1] == text[0];
    assert e == |name| + 1;
    assert parts[0] == name && parts[1] == text;
  }

  /** A transcript line read back (without its terminator) gives the name and
      the upper-cased transcription; a line with an empty transcription is
      dropped. */
  lemma ParseTranscriptLine(name: string, text: string)
    requires PlainName(name) && (text == "" || IsTrimmedWord(text))
    ensures ParseLine(name + " " + text) == if text == "" then None else Some((name, Uppercase(text)))
  {
    assert IsTrimmedWord(name);
    if text == "" {
      TrimPadded("", name, " ");
      assert "" + name + " " == name + " " + text;
    } else {
      var line := name + " " + text;
      TrimJoinTrimmed(name, text);
      assert line[|name|] == ' ';
      SplitAtSpace(name, text);
    }
  }

  /** `File.readLines()` on text whose only line terminator is LF: the pieces
      between the LFs, without the empty piece after a final LF. */
  function ReadLines(text: string): (r: seq<string>)
    ensures forall i :: 0 <= i < |r| ==> '\n' !in r[i]
  {
    var parts := SplitOnChar(text, '\n');
    if parts[|parts| - 1] == "" then parts[..|parts| - 1] else parts
  }

  /** The text of `lines` written one after another, each followed by LF. */
  function WriteLines(lines: seq<string>): string
    decreases |lines|
  {
    if |lines| == 0 then "" else lines[0] + "\n" + WriteLines(lines[1..])
  }

  lemma {:induction false} SplitWrittenLines(lines: seq<string>)
    requires forall i :: 0 <= i < |lines| ==> '\n' !in lines[i]
    ensures SplitOnChar(WriteLines(lines), '\n') == lines + [""]
    decreases |lines|
  {
    if |lines| > 0 {
      var rest := lines[1..];
      assert forall i :: 0 <= i < |rest| ==> rest[i] == lines[i + 1];
      SplitWrittenLines(rest);
      var w := WriteLines(rest);
      assert WriteLines(lines) == lines[0] + ['\n'] + w by {
        assert "\n" == ['\n'];
      }
      assert '\n' !in lines[0];
      SplitOnCharJoin(lines[0], '\n', w);
      ConsSnoc(lines, "");
    }
  }

  /** Appending after the head is appending to the tail. */
  lemma ConsSnoc(x: seq<string>, e: string)
    requires |x| > 0
    ensures x + [e] == [x[0]] + (x[1..] + [e])
  {
    assert x == [x[0]] + x[1..];
  }

  /** Lines without LF that are written out are read back as they were. */
  lemma ReadWrittenLines(lines: seq<string>)
    requires forall i :: 0 <= i < |lines| ==> '\n' !in lines[i]
    ensures ReadLines(WriteLines(lines)) == lines
  {
    SplitWrittenLines(lines);
    assert (lines + [""])[..|lines|] == lines;
  }
}
