/**
 * The word-error scorer (`AccuracyCalculator`): a word-level Levenshtein distance
 * computed with a dynamic-programming table, the parser for transcript lines of the
 * form `<id> <text>`, and the error and word totals summed over the ids of a
 * reference transcript that also appear in a hypothesis transcript.
 */
module AccuracyCalculator {

  import opened Wrappers
  import opened KotlinText
  import opened LinkedMaps

  // ---------------------------------------------------------------------------
  // Tokenisation and the edit distance
  // ---------------------------------------------------------------------------

  /** `text.trim().split(Regex("\\s+"))`. A blank text still gives one (empty)
      token; any other text gives non-empty tokens without `\s` in them. */
  function Tokenize(text: string): (r: seq<string>)
    ensures |r| >= 1
    ensures IsBlank(text) ==> r == [""]
    ensures !IsBlank(text) ==> forall i :: 0 <= i < |r| ==> |r[i]| > 0 && NoRegexSpace(r[i])
    ensures forall i :: 0 <= i < |r| ==> NoRegexSpace(r[i])
  {
    var t := Trim(text);
    if t == [] then SplitOnSpaceRuns(t)
    else
      SplitOnSpaceRunsNonEmpty(t);
      SplitOnSpaceRuns(t)
  }

  /** The substitution cost: exact equality of tokens, no case folding. */
  function Cost(a: string, b: string): nat {
    if a == b then 0 else 1
  }

  function Min3(a: nat, b: nat, c: nat): (m: nat)
    ensures m <= a && m <= b && m <= c
    ensures m == a || m == b || m == c
  {
    if a <= b && a <= c then a else if b <= c then b else c
  }

  /** The Levenshtein distance between the first `i` reference tokens and the
      first `j` hypothesis tokens: the recurrence the table implements. */
  function Distance(r: seq<string>, h: seq<string>, i: nat, j: nat): nat
    requires i <= |r| && j <= |h|
    decreases i + j
  {
    if i == 0 then j
    else if j == 0 then i
    else Min3(Distance(r, h, i - 1, j) + 1,
              Distance(r, h, i, j - 1) + 1,
              Distance(r, h, i - 1, j - 1) + Cost(r[i - 1], h[j - 1]))
  }

  /** The edit distance between two token sequences. */
  function EditDistance(r: seq<string>, h: seq<string>): nat {
    Distance(r, h, |r|, |h|)
  }

  /** The distance is at most the longer length. */
  lemma {:induction false} DistanceUpperBound(r: seq<string>, h: seq<string>, i: nat, j: nat)
    requires i <= |r| && j <= |h|
    ensures Distance(r, h, i, j) <= if i >= j then i else j
    decreases i + j
  {
    if i > 0 && j > 0 {
      DistanceUpperBound(r, h, i - 1, j - 1);
    }
  }

  /** The distance is at least the length difference. */
  lemma {:induction false} DistanceLowerBound(r: seq<string>, h: seq<string>, i: nat, j: nat)
    requires i <= |r| && j <= |h|
    ensures Distance(r, h, i, j) >= if i >= j then i - j else j - i
    decreases i + j
  {
    if i > 0 && j > 0 {
      DistanceLowerBound(r, h, i - 1, j);
      DistanceLowerBound(r, h, i, j - 1);
      DistanceLowerBound(r, h, i - 1, j - 1);
    }
  }

  /** The distance is zero exactly when the two prefixes are equal. */
  lemma {:induction false} DistanceZeroIff(r: seq<string>, h: seq<string>, i: nat, j: nat)
    requires i <= |r| && j <= |h|
    ensures Distance(r, h, i, j) == 0 <==> r[..i] == h[..j]
    decreases i + j
  {
    if i > 0 && j > 0 {
      DistanceZeroIff(r, h, i - 1, j - 1);
      assert r[..i] == r[..i - 1] + [r[i - 1]];
      assert h[..j] == h[..j - 1] + [h[j - 1]];
      if r[..i] == h[..j] {
        assert r[..i - 1] == h[..j - 1] && r[i - 1] == h[j - 1];
      }
      if Distance(r, h, i, j) == 0 {
        assert Distance(r, h, i - 1, j - 1) + Cost(r[i - 1], h[j - 1]) == 0;
      }
    } else if i == 0 && j > 0 {
      assert |h[..j]| > 0;
    } else if i > 0 {
      assert |r[..i]| > 0;
    }
  }

  /** Identical token lists give no errors, and only identical ones do. */
  lemma EditDistanceZeroIff(r: seq<string>, h: seq<string>)
    ensures EditDistance(r, h) == 0 <==> r == h
  {
    DistanceZeroIff(r, h, |r|, |h|);
    assert r[..|r|] == r && h[..|h|] == h;
  }

  /** The bounds on the whole sequences: `||r| - |h|| <= errors <= max(|r|, |h|)`. */
  lemma EditDistanceBounds(r: seq<string>, h: seq<string>)
    ensures EditDistance(r, h) <= if |r| >= |h| then |r| else |h|
    ensures EditDistance(r, h) >= if |r| >= |h| then |r| - |h| else |h| - |r|
  {
    DistanceUpperBound(r, h, |r|, |h|);
    DistanceLowerBound(r, h, |r|, |h|);
  }

  /** A hypothesis that stops after the first `k` reference words costs exactly
      one deletion per missing word. */
  lemma {:induction false} EditDistanceToPrefix(r: seq<string>, k: nat)
    requires k <= |r|
    ensures EditDistance(r, r[..k]) == |r| - k
  {
    var h := r[..k];
    var i := k;
    DistanceZeroIff(r, h, k, k);
    assert h[..k] == r[..k];
    while i < |r|
      invariant k <= i <= |r|
      invariant Distance(r, h, i, k) == i - k
    {
      i := i + 1;
      DistanceUpperBound(r, h, i, k);
      DistanceLowerBound(r, h, i, k);
    }
  }

  /** One cell of the recurrence, stated on the neighbours' values. */
  lemma DistanceStep(r: seq<string>, h: seq<string>, i: nat, j: nat, up: nat, left: nat, diag: nat)
    requires 1 <= i <= |r| && 1 <= j <= |h|
    requires up == Distance(r, h, i - 1, j) && left == Distance(r, h, i, j - 1)
    requires diag == Distance(r, h, i - 1, j - 1)
    ensures Distance(r, h, i, j) == Min3(up + 1, left + 1, diag + Cost(r[i - 1], h[j - 1]))
  {
  }

  /** The inner loop of `computeWER`: fills row `i` from row `i - 1`. */
  method FillRow(d: array2<nat>, r: seq<string>, h: seq<string>, i: nat)
    requires d.Length0 == |r| + 1 && d.Length1 == |h| + 1 && 1 <= i <= |r|
    requires forall b {:trigger d[i - 1, b]} :: 0 <= b <= |h| ==> d[i - 1, b] == Distance(r, h, i - 1, b)
    requires d[i, 0] == i
    modifies d
    ensures forall b {:trigger d[i, b]} :: 0 <= b <= |h| ==> d[i, b] == Distance(r, h, i, b)
    ensures forall a, b {:trigger d[a, b]} :: 0 <= a <= |r| && 0 <= b <= |h| && a != i ==> d[a, b] == old(d[a, b])
  {
    for j := 1 to |h| + 1
      invariant forall b {:trigger d[i, b]} :: 0 <= b < j ==> d[i, b] == Distance(r, h, i, b)
      invariant forall a, b {:trigger d[a, b]} :: 0 <= a <= |r| && 0 <= b <= |h| && a != i ==> d[a, b] == old(d[a, b])
    {
      var cost := if r[i - 1] == h[j - 1] then 0 else 1;
      var up, left, diag := d[i - 1, j], d[i, j - 1], d[i - 1, j - 1];
      DistanceStep(r, h, i, j, up, left, diag);
      d[i, j] := Min3(up + 1, left + 1, diag + cost);
    }
  }

  /** `computeWER(ref, hyp)`: fills the `(|r| + 1) x (|h| + 1)` table row by row and
      returns the bottom-right cell and the number of reference tokens. */
  method ComputeWER(ref: string, hyp: string) returns (errors: nat, words: nat)
    ensures (errors, words) == Score(ref, hyp)
  {
    var r := Tokenize(ref);
    var h := Tokenize(hyp);
    var d := new nat[|r| + 1, |h| + 1];
    for i := 0 to |r| + 1
      invariant forall a {:trigger d[a, 0]} :: 0 <= a < i ==> d[a, 0] == a
    {
      d[i, 0] := i;
    }
    for j := 0 to |h| + 1
      invariant forall a {:trigger d[a, 0]} :: 0 <= a <= |r| ==> d[a, 0] == a
      invariant forall b {:trigger d[0, b]} :: 0 <= b < j ==> d[0, b] == b
    {
      d[0, j] := j;
    }
    for i := 1 to |r| + 1
      invariant forall b {:trigger d[i - 1, b]} :: 0 <= b <= |h| ==> d[i - 1, b] == Distance(r, h, i - 1, b)
      invariant forall a {:trigger d[a, 0]} :: i <= a <= |r| ==> d[a, 0] == a
    {
      FillRow(d, r, h, i);
    }
    errors, words := d[|r|, |h|], |r|;
  }

  /** The pair `computeWER` returns, as a function of the two texts. */
  function Score(refText: string, hypText: string): (nat, nat) {
    (EditDistance(Tokenize(refText), Tokenize(hypText)), |Tokenize(refText)|)
  }

  /** What one score promises: at least one reference word, an error count within
      the length bounds, and no errors exactly when the token lists agree. */
  lemma ScoreProperties(refText: string, hypText: string)
    ensures Score(refText, hypText).1 == |Tokenize(refText)| >= 1
    ensures Score(refText, hypText).0 <= if |Tokenize(refText)| >= |Tokenize(hypText)| then |Tokenize(refText)| else |Tokenize(hypText)|
    ensures Score(refText, hypText).0 == 0 <==> Tokenize(refText) == Tokenize(hypText)
  {
    EditDistanceBounds(Tokenize(refText), Tokenize(hypText));
    EditDistanceZeroIff(Tokenize(refText), Tokenize(hypText));
  }

  // ---------------------------------------------------------------------------
  // loadTranscriptions: line parsing
  // ---------------------------------------------------------------------------

  /** One line of a transcript file: `line.trim().split(Regex("\\s+"), limit = 2)`;
      two parts give `(id, rest.uppercase())`, fewer give nothing. A line whose
      trimmed text has no `\s` is dropped; otherwise the id is the non-empty text
      before the first `\s` and the value is non-empty and upper-case. */
  function ParseLine(line: string): (r: Option<(string, string)>)
    ensures r.None? <==> NoRegexSpace(Trim(line))
    ensures r.Some? ==> |r.value.0| > 0 && NoRegexSpace(r.value.0)
    ensures r.Some? ==> |r.value.0| < |Trim(line)| && r.value.0 == Trim(line)[..|r.value.0|]
    ensures r.Some? ==> IsRegexSpace(Trim(line)[|r.value.0|])
    ensures r.Some? ==> |r.value.1| > 0 && forall i :: 0 <= i < |r.value.1| ==> !IsAsciiLower(r.value.1[i])
  {
    var t := Trim(line);
    var parts := SplitOnSpaceRunsLimit2(t);
    if |parts| == 2 then Some((parts[0], Uppercase(parts[1]))) else None
  }

  /** `readLines().mapNotNull(::parse).toMap()`: later lines overwrite the value of an
      id seen before, keeping its position. */
  function LoadTranscriptions(lines: seq<string>): (m: seq<(string, string)>)
    ensures UniqueKeys(m)
    decreases |lines|
  {
    if |lines| == 0 then []
    else
      var m0 := LoadTranscriptions(lines[..|lines| - 1]);
      match ParseLine(lines[|lines| - 1])
      case None => m0
      case Some(p) => Put(m0, p.0, p.1)
  }

  /** The value of the last line whose id is `k`, searching from the end. */
  function LastValue(lines: seq<string>, k: string): Option<string>
    decreases |lines|
  {
    if |lines| == 0 then None
    else match ParseLine(lines[|lines| - 1])
      case Some(p) => if p.0 == k then Some(p.1) else LastValue(lines[..|lines| - 1], k)
      case None => LastValue(lines[..|lines| - 1], k)
  }

  /** An id is loaded exactly when some line carries it, and its value is the one
      from the last such line (the last line wins). */
  lemma {:induction false} LoadTranscriptionsLastWins(lines: seq<string>, k: string)
    ensures Get(LoadTranscriptions(lines), k) == LastValue(lines, k)
    decreases |lines|
  {
    if |lines| > 0 {
      LoadTranscriptionsLastWins(lines[..|lines| - 1], k);
      match ParseLine(lines[|lines| - 1])
      case None =>
      case Some(p) => PutGet(LoadTranscriptions(lines[..|lines| - 1]), p.0, p.1, k);
    }
  }

  /** No value of `m` has a lower-case ASCII letter. */
  ghost predicate ValuesUppercase(m: seq<(string, string)>) {
    forall i, j :: 0 <= i < |m| && 0 <= j < |m[i].1| ==> !IsAsciiLower(m[i].1[j])
  }

  /** Every loaded value is upper-case: case-insensitive scoring comes from here. */
  lemma {:induction false} LoadTranscriptionsUppercase(lines: seq<string>)
    ensures ValuesUppercase(LoadTranscriptions(lines))
    decreases |lines|
  {
    if |lines| > 0 {
      var m0 := LoadTranscriptions(lines[..|lines| - 1]);
      LoadTranscriptionsUppercase(lines[..|lines| - 1]);
      match ParseLine(lines[|lines| - 1])
      case None =>
      case Some(p) =>
        PutEntries(m0, p.0, p.1);
    }
  }

  // ---------------------------------------------------------------------------
  // calculateWERBasedOnReferenceFile: the integer totals
  // ---------------------------------------------------------------------------

  /** Adds one id's `(errors, words)` to the running totals. */
  function AddScore(totals: (nat, nat), score: (nat, nat)): (nat, nat) {
    (totals.0 + score.0, totals.1 + score.1)
  }

  /** The sums of the per-id scores over the reference ids found in the hypothesis,
      in reference order; ids missing from the hypothesis add nothing. */
  function Totals(refMap: seq<(string, string)>, hypMap: seq<(string, string)>): (nat, nat)
    decreases |refMap|
  {
    if |refMap| == 0 then (0, 0)
    else
      var t := Totals(refMap[..|refMap| - 1], hypMap);
      match Get(hypMap, refMap[|refMap| - 1].0)
      case None => t
      case Some(hypText) => AddScore(t, Score(refMap[|refMap| - 1].1, hypText))
  }

  /** The reference ids reported as missing from the hypothesis, in reference order. */
  function MissingIds(refMap: seq<(string, string)>, hypMap: seq<(string, string)>): seq<string>
    decreases |refMap|
  {
    if |refMap| == 0 then []
    else
      MissingIds(refMap[..|refMap| - 1], hypMap)
      + (if Get(hypMap, refMap[|refMap| - 1].0).None? then [refMap[|refMap| - 1].0] else [])
  }

  /** Extending the reference prefix by one entry adds that entry's score, or its id
      to the missing list. */
  lemma TotalsStep(refMap: seq<(string, string)>, hypMap: seq<(string, string)>, n: nat)
    requires n < |refMap|
    ensures Get(hypMap, refMap[n].0).None? ==> Totals(refMap[..n + 1], hypMap) == Totals(refMap[..n], hypMap)
    ensures Get(hypMap, refMap[n].0).None? ==> MissingIds(refMap[..n + 1], hypMap) == MissingIds(refMap[..n], hypMap) + [refMap[n].0]
    ensures Get(hypMap, refMap[n].0).Some? ==>
      Totals(refMap[..n + 1], hypMap) == AddScore(Totals(refMap[..n], hypMap), Score(refMap[n].1, Get(hypMap, refMap[n].0).value))
    ensures Get(hypMap, refMap[n].0).Some? ==> MissingIds(refMap[..n + 1], hypMap) == MissingIds(refMap[..n], hypMap)
  {
    assert refMap[..n + 1][..n] == refMap[..n];
  }

  /** `calculateWERBasedOnReferenceFile` on the lines of the two files: loads both,
      then walks the reference entries, scoring each id the hypothesis also has and
      reporting each id it lacks. Printing the percentages is not modelled. */
  method CalculateWERBasedOnReferenceFile(refLines: seq<string>, hypLines: seq<string>)
    returns (totalErrors: nat, totalWords: nat, missing: seq<string>)
    ensures (totalErrors, totalWords) == Totals(LoadTranscriptions(refLines), LoadTranscriptions(hypLines))
    ensures missing == MissingIds(LoadTranscriptions(refLines), LoadTranscriptions(hypLines))
  {
    var refMap := LoadTranscriptions(refLines);
    var hypMap := LoadTranscriptions(hypLines);
    var totals := (0, 0);
    missing := [];
    for n := 0 to |refMap|
      invariant totals == Totals(refMap[..n], hypMap)
      invariant missing == MissingIds(refMap[..n], hypMap)
    {
      TotalsStep(refMap, hypMap, n);
      var hypText := Get(hypMap, refMap[n].0);
      if hypText.Some? {
        var errors, words := ComputeWER(refMap[n].1, hypText.value);
        totals := AddScore(totals, (errors, words));
      } else {
        missing := missing + [refMap[n].0];
      }
    }
    assert refMap[..|refMap|] == refMap;
    totalErrors, totalWords := totals.0, totals.1;
  }

  /** The totals and the missing list depend on the hypothesis only through the
      lookups of the reference ids. */
  lemma {:induction false} TotalsSameLookups(refMap: seq<(string, string)>, h1: seq<(string, string)>, h2: seq<(string, string)>)
    requires forall i :: 0 <= i < |refMap| ==> Get(h1, refMap[i].0) == Get(h2, refMap[i].0)
    ensures Totals(refMap, h1) == Totals(refMap, h2)
    ensures MissingIds(refMap, h1) == MissingIds(refMap, h2)
    decreases |refMap|
  {
    if |refMap| > 0 {
      TotalsSameLookups(refMap[..|refMap| - 1], h1, h2);
    }
  }

  /** Ids only the hypothesis has change neither total nor the missing list. */
  lemma TotalsIgnoreHypothesisOnlyIds(refMap: seq<(string, string)>, hypMap: seq<(string, string)>, k: string, v: string)
    requires UniqueKeys(hypMap) && k !in KeysOf(refMap)
    ensures Totals(refMap, Put(hypMap, k, v)) == Totals(refMap, hypMap)
    ensures MissingIds(refMap, Put(hypMap, k, v)) == MissingIds(refMap, hypMap)
  {
    forall i | 0 <= i < |refMap|
      ensures Get(Put(hypMap, k, v), refMap[i].0) == Get(hypMap, refMap[i].0)
    {
      assert KeysOf(refMap)[i] == refMap[i].0;
      PutGet(hypMap, k, v, refMap[i].0);
    }
    TotalsSameLookups(refMap, Put(hypMap, k, v), hypMap);
  }

  /** When no reference id is in the hypothesis, both totals are zero and every
      reference id is reported missing. */
  lemma {:induction false} TotalsDisjoint(refMap: seq<(string, string)>, hypMap: seq<(string, string)>)
    requires forall i :: 0 <= i < |refMap| ==> refMap[i].0 !in KeysOf(hypMap)
    ensures Totals(refMap, hypMap) == (0, 0)
    ensures MissingIds(refMap, hypMap) == KeysOf(refMap)
    decreases |refMap|
  {
    if |refMap| > 0 {
      TotalsDisjoint(refMap[..|refMap| - 1], hypMap);
      assert KeysOf(refMap) == KeysOf(refMap[..|refMap| - 1]) + [refMap[|refMap| - 1].0];
    }
  }

  /** Scoring a transcript against a hypothesis that holds every one of its entries
      (for instance, against itself) gives no errors, reports nothing missing, and
      counts at least one word per id. */
  lemma {:induction false} TotalsOfContainedEntries(refMap: seq<(string, string)>, hypMap: seq<(string, string)>)
    requires UniqueKeys(hypMap)
    requires forall i :: 0 <= i < |refMap| ==> refMap[i] in hypMap
    ensures Totals(refMap, hypMap).0 == 0
    ensures Totals(refMap, hypMap).1 >= |refMap|
    ensures MissingIds(refMap, hypMap) == []
    decreases |refMap|
  {
    if |refMap| > 0 {
      var e := refMap[|refMap| - 1];
      TotalsOfContainedEntries(refMap[..|refMap| - 1], hypMap);
      var j :| 0 <= j < |hypMap| && hypMap[j] == e;
      GetAt(hypMap, j);
      ScoreProperties(e.1, e.1);
    }
  }

  /** A transcript scored against itself has no errors. */
  lemma TotalsSelf(lines: seq<string>)
    ensures Totals(LoadTranscriptions(lines), LoadTranscriptions(lines)).0 == 0
    ensures Totals(LoadTranscriptions(lines), LoadTranscriptions(lines)).1 >= |LoadTranscriptions(lines)|
    ensures MissingIds(LoadTranscriptions(lines), LoadTranscriptions(lines)) == []
  {
    TotalsOfContainedEntries(LoadTranscriptions(lines), LoadTranscriptions(lines));
  }
}
