/**
 * What the two file-list composables show: `AudioFileList` lists every file
 * sorted by name and marks the current one; `AnimatedAudioFileStrip` shows the
 * current file between its neighbours. Only the selection is modelled, not
 * the rendering.
 */
module AudioFileList {

  import opened Wrappers
  import opened AudioFiles

  // ---------------------------------------------------------------------------
  // String order
  // ---------------------------------------------------------------------------

  /** `a.compareTo(b) <= 0`: lexicographic order on characters, a proper
      prefix first. */
  predicate NameLessEq(a: string, b: string)
    decreases |a|
  {
    |a| == 0 || (|b| > 0 && (a[0] < b[0] || (a[0] == b[0] && NameLessEq(a[1..], b[1..]))))
  }

  lemma {:induction false} NameLessEqRefl(a: string)
    ensures NameLessEq(a, a)
    decreases |a|
  {
    if |a| > 0 {
      NameLessEqRefl(a[1..]);
    }
  }

  lemma {:induction false} NameLessEqTotal(a: string, b: string)
    ensures NameLessEq(a, b) || NameLessEq(b, a)
    decreases |a|
  {
    if |a| > 0 && |b| > 0 && a[0] == b[0] {
      NameLessEqTotal(a[1..], b[1..]);
    }
  }

  lemma {:induction false} NameLessEqTrans(a: string, b: string, c: string)
    requires NameLessEq(a, b) && NameLessEq(b, c)
    ensures NameLessEq(a, c)
    decreases |a|
  {
    if |a| > 0 && a[0] == b[0] && b[0] == c[0] {
      NameLessEqTrans(a[1..], b[1..], c[1..]);
    }
  }

  // ---------------------------------------------------------------------------
  // files.sortedBy { it.filename }
  // ---------------------------------------------------------------------------

  /** Insert `f` before the first entry it does not come after, so that it
      stays ahead of the entries with its name. */
  function Insert(f: AudioFileData, s: seq<AudioFileData>): seq<AudioFileData>
    decreases |s|
  {
    if |s| == 0 || NameLessEq(f.filename, s[0].filename) then [f] + s
    else [s[0]] + Insert(f, s[1..])
  }

  /** `sortedBy { it.filename }`, a stable sort. */
  function SortByName(files: seq<AudioFileData>): seq<AudioFileData>
    decreases |files|
  {
    if |files| == 0 then [] else Insert(files[0], SortByName(files[1..]))
  }

  /** Each entry's name is at most the next one's. */
  predicate AdjacentSorted(s: seq<AudioFileData>) {
    forall i :: 0 <= i < |s| - 1 ==> NameLessEq(s[i].filename, s[i + 1].filename)
  }

  /** Every entry's name is at most every later one's. */
  predicate SortedByName(s: seq<AudioFileData>) {
    forall i, j :: 0 <= i < j < |s| ==> NameLessEq(s[i].filename, s[j].filename)
  }

  /** The entries named `name`, in order. */
  function WithName(s: seq<AudioFileData>, name: string): (r: seq<AudioFileData>)
    ensures forall i :: 0 <= i < |r| ==> r[i].filename == name
    decreases |s|
  {
    if |s| == 0 then []
    else (if s[0].filename == name then [s[0]] else []) + WithName(s[1..], name)
  }

  lemma {:induction false} InsertSorted(f: AudioFileData, s: seq<AudioFileData>)
    requires AdjacentSorted(s)
    ensures AdjacentSorted(Insert(f, s))
    ensures |Insert(f, s)| == |s| + 1
    ensures Insert(f, s)[0] == f || (|s| > 0 && Insert(f, s)[0] == s[0])
    decreases |s|
  {
    if |s| > 0 && !NameLessEq(f.filename, s[0].filename) {
      var rest := s[1..];
      assert AdjacentSorted(rest) by {
        assert forall i :: 0 <= i < |rest| ==> rest[i] == s[i + 1];
      }
      InsertSorted(f, rest);
      NameLessEqTotal(f.filename, s[0].filename);
      var ins := Insert(f, rest);
      assert NameLessEq(s[0].filename, ins[0].filename);
      assert Insert(f, s) == [s[0]] + ins;
    }
  }

  lemma {:induction false} InsertMultiset(f: AudioFileData, s: seq<AudioFileData>)
    ensures multiset(Insert(f, s)) == multiset(s) + multiset{f}
    decreases |s|
  {
    if |s| > 0 && !NameLessEq(f.filename, s[0].filename) {
      InsertMultiset(f, s[1..]);
      assert s == [s[0]] + s[1..];
    }
  }

  lemma {:induction false} InsertWithName(f: AudioFileData, s: seq<AudioFileData>, name: string)
    ensures WithName(Insert(f, s), name) == (if f.filename == name then [f] else []) + WithName(s, name)
    decreases |s|
  {
    var r := Insert(f, s);
    var fpart := if f.filename == name then [f] else [];
    if |s| > 0 && !NameLessEq(f.filename, s[0].filename) {
      NameLessEqRefl(f.filename);
      var rest := s[1..];
      InsertWithName(f, rest, name);
      var ins := Insert(f, rest);
      var spart := if s[0].filename == name then [s[0]] else [];
      assert r[1..] == ins;
      assert WithName(r, name) == spart + WithName(ins, name);
      assert WithName(s, name) == spart + WithName(rest, name);
      assert spart == [] || fpart == [];
    } else {
      assert r[1..] == s;
    }
  }

  lemma {:induction false} SortByNameAdjacent(files: seq<AudioFileData>)
    ensures AdjacentSorted(SortByName(files)) && |SortByName(files)| == |files|
    decreases |files|
  {
    if |files| > 0 {
      SortByNameAdjacent(files[1..]);
      InsertSorted(files[0], SortByName(files[1..]));
    }
  }

  lemma {:induction false} SortByNameMultiset(files: seq<AudioFileData>)
    ensures multiset(SortByName(files)) == multiset(files)
    decreases |files|
  {
    if |files| > 0 {
      SortByNameMultiset(files[1..]);
      InsertMultiset(files[0], SortByName(files[1..]));
      assert files == [files[0]] + files[1..];
    }
  }

  lemma {:induction false} SortByNameWithName(files: seq<AudioFileData>, name: string)
    ensures WithName(SortByName(files), name) == WithName(files, name)
    decreases |files|
  {
    if |files| > 0 {
      SortByNameWithName(files[1..], name);
      InsertWithName(files[0], SortByName(files[1..]), name);
    }
  }

  /** `sortedBy` is in name order, lists every file exactly as often as it is
      given, and is stable: the entries with any one name come out in the order
      they went in. */
  lemma SortByNameSpec(files: seq<AudioFileData>)
    ensures AdjacentSorted(SortByName(files))
    ensures multiset(SortByName(files)) == multiset(files)
    ensures |SortByName(files)| == |files|
    ensures forall name :: WithName(SortByName(files), name) == WithName(files, name)
  {
    SortByNameAdjacent(files);
    SortByNameMultiset(files);
    forall name
      ensures WithName(SortByName(files), name) == WithName(files, name)
    {
      SortByNameWithName(files, name);
    }
  }

  lemma {:induction false} AdjacentSortedIsSorted(s: seq<AudioFileData>, i: nat, j: nat)
    requires AdjacentSorted(s) && i <= j < |s|
    ensures NameLessEq(s[i].filename, s[j].filename)
    decreases j - i
  {
    if i == j {
      NameLessEqRefl(s[i].filename);
    } else {
      AdjacentSortedIsSorted(s, i + 1, j);
      NameLessEqTrans(s[i].filename, s[i + 1].filename, s[j].filename);
    }
  }

  /** Every pair of entries of the sorted list is in name order. */
  lemma SortByNameSorted(files: seq<AudioFileData>)
    ensures SortedByName(SortByName(files))
  {
    var s := SortByName(files);
    SortByNameSpec(files);
    forall i, j | 0 <= i < j < |s|
      ensures NameLessEq(s[i].filename, s[j].filename)
    {
      AdjacentSortedIsSorted(s, i, j);
    }
  }

  // ---------------------------------------------------------------------------
  // The full list and the strip
  // ---------------------------------------------------------------------------

  /** The rows of `AudioFileList`: each sorted file with whether it is shown as
      the current one. */
  function ListRows(files: seq<AudioFileData>, currentFileName: Option<string>): (rows: seq<(AudioFileData, bool)>)
    ensures |rows| == |SortByName(files)|
    ensures forall i :: 0 <= i < |rows| ==> rows[i].0 == SortByName(files)[i]
    ensures forall i :: 0 <= i < |rows| ==> (rows[i].1 <==> currentFileName == Some(rows[i].0.filename))
  {
    var sorted := SortByName(files);
    seq(|sorted|, i requires 0 <= i < |sorted| => (sorted[i], currentFileName == Some(sorted[i].filename)))
  }

  /** The files of the rows shown as current, in order. */
  function Marked(rows: seq<(AudioFileData, bool)>): seq<AudioFileData>
    decreases |rows|
  {
    if |rows| == 0 then [] else (if rows[0].1 then [rows[0].0] else []) + Marked(rows[1..])
  }

  lemma {:induction false} MarkedIsWithName(rows: seq<(AudioFileData, bool)>, s: seq<AudioFileData>, name: string)
    requires |rows| == |s|
    requires forall i :: 0 <= i < |rows| ==> rows[i].0 == s[i] && (rows[i].1 <==> s[i].filename == name)
    ensures Marked(rows) == WithName(s, name)
    decreases |rows|
  {
    if |rows| > 0 {
      MarkedIsWithName(rows[1..], s[1..], name);
    }
  }

  /** The rows shown as current are exactly the files named `currentFileName`,
      in their original order; with no current file none is. */
  lemma ListRowsMarked(files: seq<AudioFileData>, currentFileName: Option<string>)
    ensures currentFileName.Some? ==> Marked(ListRows(files, currentFileName)) == WithName(files, currentFileName.value)
    ensures currentFileName.None? ==> Marked(ListRows(files, currentFileName)) == []
  {
    var rows := ListRows(files, currentFileName);
    SortByNameSpec(files);
    if currentFileName.Some? {
      MarkedIsWithName(rows, SortByName(files), currentFileName.value);
    } else {
      MarkedNone(rows);
    }
  }

  lemma {:induction false} MarkedNone(rows: seq<(AudioFileData, bool)>)
    requires forall i :: 0 <= i < |rows| ==> !rows[i].1
    ensures Marked(rows) == []
    decreases |rows|
  {
    if |rows| > 0 {
      MarkedNone(rows[1..]);
    }
  }

  /** `files.getOrNull(i)` as a list of at most one element, for
      `listOfNotNull`. */
  function EntryAt(files: seq<AudioFileData>, i: int): seq<AudioFileData> {
    if 0 <= i < |files| then [files[i]] else []
  }

  /** The files of `AnimatedAudioFileStrip`: those at positions index - 1,
      index and index + 1 of the current file, where present. */
  function Strip(files: seq<AudioFileData>, currentFileName: Option<string>): seq<AudioFileData> {
    var index := FileIndex(files, currentFileName);
    EntryAt(files, index - 1) + EntryAt(files, index) + EntryAt(files, index + 1)
  }

  /** The three positions around a present entry form a slice of the list. */
  lemma WindowAt(files: seq<AudioFileData>, i: int)
    requires 0 <= i < |files|
    ensures var lo := if i == 0 then 0 else i - 1;
      var hi := if i + 2 <= |files| then i + 2 else |files|;
      EntryAt(files, i - 1) + EntryAt(files, i) + EntryAt(files, i + 1) == files[lo..hi]
  {
    var lo := if i == 0 then 0 else i - 1;
    var hi := if i + 2 <= |files| then i + 2 else |files|;
    assert files[lo..i] == EntryAt(files, i - 1);
    assert files[i + 1..hi] == EntryAt(files, i + 1);
    assert files[lo..hi] == files[lo..i] + [files[i]] + files[i + 1..hi];
  }

  /** The strip is the window of at most three files around the current one;
      it holds the current file, in the middle unless it is the first; with the
      current file missing it is the first file alone, or empty. */
  lemma StripWindow(files: seq<AudioFileData>, currentFileName: Option<string>)
    ensures var i := FileIndex(files, currentFileName);
      var r := Strip(files, currentFileName);
      |r| <= 3 &&
      (i >= 0 ==> r == files[if i == 0 then 0 else i - 1 .. if i + 2 <= |files| then i + 2 else |files|]) &&
      (i >= 0 ==> r[if i == 0 then 0 else 1] == files[i]) &&
      (i == -1 ==> r == if |files| > 0 then [files[0]] else [])
  {
    var i := FileIndex(files, currentFileName);
    if i >= 0 {
      WindowAt(files, i);
    }
  }
}
