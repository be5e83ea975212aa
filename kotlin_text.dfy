/**
 * The Kotlin standard-library string operations the transcription core relies on,
 * with their exact edge cases: `trim`, `isBlank`, `split(" ")`, `split(Regex("\\s+"))`
 * (with and without `limit = 2`), `removePrefix`, `substringAfter`,
 * `substringAfterLast`, `substringBeforeLast`, `uppercase` and the decimal rendering
 * of an `Int` in a string template.
 */
module KotlinText {

  import opened Wrappers

  // ---------------------------------------------------------------------------
  // Character classes
  // ---------------------------------------------------------------------------

  /** `Char.isWhitespace()` on the JVM: the ASCII controls TAB, LF, VT, FF, CR,
      the information separators U+001C..U+001F, and the Unicode space,
      line and paragraph separators. `trim()` and `isBlank()` use it. */
  predicate IsWhitespace(c: char) {
    || c == '\t' || c == '\n' || c == '\U{B}' || c == '\U{C}' || c == '\r'
    || ('\U{1C}' <= c <= '\U{1F}')
    || c == ' ' || c == '\U{A0}' || c == '\U{1680}'
    || ('\U{2000}' <= c <= '\U{200A}')
    || c == '\U{2028}' || c == '\U{2029}' || c == '\U{202F}' || c == '\U{205F}' || c == '\U{3000}'
  }

  /** The characters the Java regular-expression class `\s` matches. */
  predicate IsRegexSpace(c: char) {
    c == ' ' || c == '\t' || c == '\n' || c == '\U{B}' || c == '\U{C}' || c == '\r'
  }

  /** `CharSequence.isBlank()`: empty or only whitespace. */
  predicate IsBlank(s: string) {
    forall i :: 0 <= i < |s| ==> IsWhitespace(s[i])
  }

  /** No character of `s` is matched by `\s`. */
  predicate NoRegexSpace(s: string) {
    forall i :: 0 <= i < |s| ==> !IsRegexSpace(s[i])
  }

  /** `s` is non-empty and neither starts nor ends with whitespace. */
  predicate IsTrimmedWord(s: string) {
    |s| > 0 && !IsWhitespace(s[0]) && !IsWhitespace(s[|s| - 1])
  }

  // ---------------------------------------------------------------------------
  // trim()
  // ---------------------------------------------------------------------------

  /** The number of whitespace characters at the start of `s`. */
  function LeadingWhitespace(s: string): (n: nat)
    ensures n <= |s|
    ensures forall i :: 0 <= i < n ==> IsWhitespace(s[i])
    ensures n < |s| ==> !IsWhitespace(s[n])
  {
    if |s| == 0 || !IsWhitespace(s[0]) then 0 else 1 + LeadingWhitespace(s[1..])
  }

  /** The number of whitespace characters at the end of `s`. */
  function TrailingWhitespace(s: string): (n: nat)
    ensures n <= |s|
    ensures forall i :: |s| - n <= i < |s| ==> IsWhitespace(s[i])
    ensures n < |s| ==> !IsWhitespace(s[|s| - 1 - n])
  {
    if |s| == 0 || !IsWhitespace(s[|s| - 1]) then 0
    else 1 + TrailingWhitespace(s[..|s| - 1])
  }

  /** `String.trim()`: drops whitespace at both ends. The result is the slice of
      `s` that starts after its leading whitespace; it is empty exactly when `s`
      is blank, and otherwise starts and ends with a non-whitespace character. */
  function Trim(s: string): (r: string)
    ensures |r| <= |s|
    ensures LeadingWhitespace(s) + |r| <= |s| && r == s[LeadingWhitespace(s)..LeadingWhitespace(s) + |r|]
    ensures r == [] <==> IsBlank(s)
    ensures r != [] ==> IsTrimmedWord(r)
  {
    var a := LeadingWhitespace(s);
    var t := s[a..];
    var r := t[..|t| - TrailingWhitespace(t)];
    assert IsBlank(s) ==> a == |s|;
    assert !IsBlank(s) ==> a < |s|;
    assert t != [] ==> TrailingWhitespace(t) < |t|;
    r
  }

  /** Trimming a string that already has no whitespace at its ends changes nothing. */
  lemma TrimTrimmed(s: string)
    requires s == [] || IsTrimmedWord(s)
    ensures Trim(s) == s
  {
  }

  /** Whitespace added around a trimmed word is removed again by `trim()`. */
  lemma TrimPadded(pre: string, w: string, post: string)
    requires IsBlank(pre) && IsBlank(post) && IsTrimmedWord(w)
    ensures Trim(pre + w + post) == w
  {
    var s := pre + w + post;
    assert s[|pre|] == w[0];
    LeadingIsPrefixLength(s, pre);
    var t := s[|pre|..];
    assert t == w + post;
    TrailingIsSuffixLength(t, post);
  }

  /** Joining a non-blank text and a trimmed word with a space and trimming the
      result keeps that space. */
  lemma TrimJoinKeepsSpace(a: string, w: string)
    requires !IsBlank(a) && IsTrimmedWord(w)
    ensures ' ' in Trim(a + " " + w)
  {
    var s := a + " " + w;
    var lead := LeadingWhitespace(s);
    var i :| 0 <= i < |a| && !IsWhitespace(a[i]);
    assert s[i] == a[i];
    assert lead <= i;
    var t := s[lead..];
    assert t[|t| - 1] == w[|w| - 1];
    assert TrailingWhitespace(t) == 0;
    assert Trim(s) == t;
    assert t[|a| - lead] == ' ';
  }

  /** Two trimmed words joined by a space are trimmed already. */
  lemma TrimJoinTrimmed(a: string, w: string)
    requires IsTrimmedWord(a) && IsTrimmedWord(w)
    ensures Trim(a + " " + w) == a + " " + w
  {
    var s := a + " " + w;
    assert s[0] == a[0] && s[|s| - 1] == w[|w| - 1];
    TrimTrimmed(s);
  }

  lemma LeadingIsPrefixLength(s: string, pre: string)
    requires pre <= s && IsBlank(pre) && (|pre| < |s| ==> !IsWhitespace(s[|pre|]))
    ensures LeadingWhitespace(s) == |pre|
    decreases |pre|
  {
    if |pre| > 0 {
      LeadingIsPrefixLength(s[1..], pre[1..]);
    }
  }

  lemma TrailingIsSuffixLength(t: string, post: string)
    requires |post| <= |t| && t[|t| - |post|..] == post && IsBlank(post)
    requires |post| < |t| ==> !IsWhitespace(t[|t| - 1 - |post|])
    ensures TrailingWhitespace(t) == |post|
    decreases |post|
  {
    if |post| > 0 {
      var t' := t[..|t| - 1];
      var p' := post[..|post| - 1];
      assert t'[|t'| - |p'|..] == p';
      TrailingIsSuffixLength(t', p');
    }
  }

  // ---------------------------------------------------------------------------
  // split(" ") and joinToString(" ")
  // ---------------------------------------------------------------------------

  /** The index of the first `c` in `s`, or `|s|` when there is none. */
  function IndexOfChar(s: string, c: char): (k: nat)
    ensures k <= |s|
    ensures forall i :: 0 <= i < k ==> s[i] != c
    ensures k < |s| ==> s[k] == c
  {
    if |s| == 0 then 0 else if s[0] == c then 0 else 1 + IndexOfChar(s[1..], c)
  }

  /** `s.split(d.toString())`: the pieces between consecutive occurrences of `d`,
      empty pieces included (Kotlin keeps leading and trailing empty pieces). */
  function SplitOnChar(s: string, d: char): (r: seq<string>)
    ensures |r| >= 1
    ensures forall i :: 0 <= i < |r| ==> d !in r[i]
    decreases |s|
  {
    var k := IndexOfChar(s, d);
    if k == |s| then [s] else [s[..k]] + SplitOnChar(s[k + 1..], d)
  }

  /** A string without `d` is a single piece. */
  lemma SplitOnCharNone(s: string, d: char)
    requires d !in s
    ensures SplitOnChar(s, d) == [s]
  {
  }

  /** The first piece of `u + d + t`, when `u` has no `d`, is `u`; the rest are the
      pieces of `t`. */
  lemma SplitOnCharJoin(u: string, d: char, t: string)
    requires d !in u
    ensures SplitOnChar(u + [d] + t, d) == [u] + SplitOnChar(t, d)
  {
    var s := u + [d] + t;
    assert forall i :: 0 <= i < |u| ==> s[i] == u[i];
    assert s[|u|] == d;
    assert IndexOfChar(s, d) == |u|;
    assert s[..|u|] == u && s[|u| + 1..] == t;
  }

  /** `parts.joinToString(d.toString())`. */
  function JoinWith(parts: seq<string>, d: char): string
    decreases |parts|
  {
    if |parts| == 0 then "" else if |parts| == 1 then parts[0]
    else parts[0] + [d] + JoinWith(parts[1..], d)
  }

  /** Splitting on a character and joining with it again gives the input back:
      `split(" ")` loses nothing. */
  lemma {:induction false} JoinSplit(s: string, d: char)
    ensures JoinWith(SplitOnChar(s, d), d) == s
    decreases |s|
  {
    var k := IndexOfChar(s, d);
    if k < |s| {
      JoinSplit(s[k + 1..], d);
      assert s == s[..k] + [d] + s[k + 1..];
    }
  }

  /** `filter { it.isNotBlank() }`: the non-blank pieces, in order. */
  function NonBlank(parts: seq<string>): (r: seq<string>)
    ensures |r| <= |parts|
    ensures forall i :: 0 <= i < |r| ==> !IsBlank(r[i]) && r[i] in parts
    ensures forall p :: p in parts && !IsBlank(p) ==> p in r
  {
    if |parts| == 0 then []
    else (if IsBlank(parts[0]) then [] else [parts[0]]) + NonBlank(parts[1..])
  }

  /** The filter distributes over concatenation: the pieces kept from `a + b` are
      those kept from `a` followed by those kept from `b`. */
  lemma {:induction false} NonBlankAppend(a: seq<string>, b: seq<string>)
    ensures NonBlank(a + b) == NonBlank(a) + NonBlank(b)
    decreases |a|
  {
    if |a| > 0 {
      assert (a + b)[0] == a[0];
      assert (a + b)[1..] == a[1..] + b;
      NonBlankAppend(a[1..], b);
    } else {
      assert a + b == b;
    }
  }

  /** `filter { it.isNotBlank() }` is the filter, order and repetitions kept:
      nothing from nothing, and one more piece is kept, at the end, exactly when
      it is not blank. */
  lemma NonBlankSnoc(a: seq<string>, p: string)
    ensures NonBlank([]) == []
    ensures NonBlank(a + [p]) == NonBlank(a) + (if IsBlank(p) then [] else [p])
  {
    NonBlankAppend(a, [p]);
    assert [p][1..] == [];
  }

  // ---------------------------------------------------------------------------
  // split(Regex("\\s+")) and split(Regex("\\s+"), limit = 2)
  // ---------------------------------------------------------------------------

  /** The index of the first `\s` character of `s`, or `|s|` when there is none. */
  function FirstRegexSpace(s: string): (k: nat)
    ensures k <= |s|
    ensures forall i :: 0 <= i < k ==> !IsRegexSpace(s[i])
    ensures k < |s| ==> IsRegexSpace(s[k])
  {
    if |s| == 0 then 0 else if IsRegexSpace(s[0]) then 0 else 1 + FirstRegexSpace(s[1..])
  }

  /** The end of the maximal run of `\s` characters that starts at `k`: the greedy
      match of `\s+` there. */
  function RunEnd(s: string, k: nat): (e: nat)
    requires k < |s| && IsRegexSpace(s[k])
    ensures k < e <= |s|
    ensures forall i :: k <= i < e ==> IsRegexSpace(s[i])
    ensures e < |s| ==> !IsRegexSpace(s[e])
    decreases |s| - k
  {
    if k + 1 < |s| && IsRegexSpace(s[k + 1]) then RunEnd(s, k + 1) else k + 1
  }

  /** `s.split(Regex("\\s+"))`: the pieces between maximal runs of `\s`.
      Kotlin keeps empty leading and trailing pieces, so `""` gives `[""]`. */
  function SplitOnSpaceRuns(s: string): (r: seq<string>)
    ensures |r| >= 1
    ensures forall i :: 0 <= i < |r| ==> NoRegexSpace(r[i])
    decreases |s|
  {
    var k := FirstRegexSpace(s);
    if k == |s| then [s] else [s[..k]] + SplitOnSpaceRuns(s[RunEnd(s, k)..])
  }

  /** The first piece of a join is a prefix of it. */
  lemma JoinWithHead(ts: seq<string>, d: char)
    requires |ts| > 0
    ensures ts[0] <= JoinWith(ts, d)
  {
  }

  /** Non-empty `\s`-free tokens joined by single spaces split back into
      exactly those tokens: the pieces of `split(Regex("\\s+"))` are the text's
      words, in order. */
  lemma {:induction false} SplitOnSpaceRunsJoin(ts: seq<string>)
    requires |ts| > 0
    requires forall i :: 0 <= i < |ts| ==> |ts[i]| > 0 && NoRegexSpace(ts[i])
    ensures SplitOnSpaceRuns(JoinWith(ts, ' ')) == ts
    decreases |ts|
  {
    var s := JoinWith(ts, ' ');
    if |ts| == 1 {
      assert s == ts[0];
      assert FirstRegexSpace(s) == |s|;
    } else {
      var rest := JoinWith(ts[1..], ' ');
      var n := |ts[0]|;
      assert s == ts[0] + [' '] + rest;
      assert forall i :: 0 <= i < n ==> s[i] == ts[0][i];
      assert s[n] == ' ';
      var k := FirstRegexSpace(s);
      assert k == n;
      JoinWithHead(ts[1..], ' ');
      assert ts[1..][0] == ts[1];
      assert s[n + 1] == rest[0] == ts[1][0];
      assert RunEnd(s, k) == n + 1;
      assert s[..k] == ts[0] && s[n + 1..] == rest;
      assert forall i :: 0 <= i < |ts[1..]| ==> ts[1..][i] == ts[i + 1];
      SplitOnSpaceRunsJoin(ts[1..]);
      assert ts == [ts[0]] + ts[1..];
    }
  }

  /** On a string with no `\s` at either end, every piece is non-empty. */
  lemma {:induction false} SplitOnSpaceRunsNonEmpty(s: string)
    requires |s| > 0 && !IsRegexSpace(s[0]) && !IsRegexSpace(s[|s| - 1])
    ensures forall i :: 0 <= i < |SplitOnSpaceRuns(s)| ==> |SplitOnSpaceRuns(s)[i]| > 0
    decreases |s|
  {
    var k := FirstRegexSpace(s);
    if k < |s| {
      var e := RunEnd(s, k);
      assert e < |s|;
      SplitOnSpaceRunsNonEmpty(s[e..]);
    }
  }

  /** `s.split(Regex("\\s+"), limit = 2)`: the text before the first run of `\s`
      and everything after that run, or `[s]` when `s` has no `\s`. */
  function SplitOnSpaceRunsLimit2(s: string): (r: seq<string>)
    ensures 1 <= |r| <= 2
    ensures |r| == 1 <==> NoRegexSpace(s)
    ensures |r| == 1 ==> r[0] == s
    ensures |r| == 2 ==> NoRegexSpace(r[0]) && |r[0]| < |s| && r[0] == s[..|r[0]|] && IsRegexSpace(s[|r[0]|])
    ensures |r| == 2 ==> |r[0]| < |s| - |r[1]| && r[1] == s[|s| - |r[1]|..]
    ensures |r| == 2 ==> forall i :: |r[0]| <= i < |s| - |r[1]| ==> IsRegexSpace(s[i])
    ensures |r| == 2 && |r[1]| > 0 ==> !IsRegexSpace(r[1][0])
    ensures |r| == 2 && !IsRegexSpace(s[|s| - 1]) ==> |r[1]| > 0
  {
    var k := FirstRegexSpace(s);
    if k == |s| then [s] else [s[..k], s[RunEnd(s, k)..]]
  }

  // ---------------------------------------------------------------------------
  // uppercase()
  // ---------------------------------------------------------------------------

  predicate IsAsciiLower(c: char) { 'a' <= c <= 'z' }

  /** `Char.uppercaseChar()` on ASCII letters. */
  function UpperChar(c: char): (u: char)
    ensures !IsAsciiLower(u)
    ensures IsWhitespace(u) <==> IsWhitespace(c)
    ensures IsRegexSpace(u) <==> IsRegexSpace(c)
  {
    if IsAsciiLower(c) then (c as int - 32) as char else c
  }

  /** `String.uppercase()`, character by character. */
  function Uppercase(s: string): (r: string)
    ensures |r| == |s|
    ensures forall i :: 0 <= i < |r| ==> r[i] == UpperChar(s[i])
    ensures forall i :: 0 <= i < |r| ==> !IsAsciiLower(r[i])
  {
    seq(|s|, i requires 0 <= i < |s| => UpperChar(s[i]))
  }

  // ---------------------------------------------------------------------------
  // removePrefix, substringAfter, substringAfterLast, substringBeforeLast
  // ---------------------------------------------------------------------------

  /** `s.removePrefix(p)`: `s` without `p` when `s` starts with `p`, else `s` itself. */
  function RemovePrefix(s: string, p: string): (r: string)
    ensures p <= s ==> p + r == s
    ensures !(p <= s) ==> r == s
  {
    if p <= s then s[|p|..] else s
  }

  /** `d` occurs in `s` at position `i`. */
  predicate OccursAt(s: string, d: string, i: int) {
    0 <= i && i + |d| <= |s| && s[i..i + |d|] == d
  }

  /** `s.indexOf(d, from)`: the first position `>= from` where `d` occurs. */
  function IndexOfFrom(s: string, d: string, from: nat): (r: Option<nat>)
    ensures r.Some? ==> from <= r.value && OccursAt(s, d, r.value)
    ensures r.Some? ==> forall j :: from <= j < r.value ==> !OccursAt(s, d, j)
    ensures r.None? ==> forall j :: from <= j ==> !OccursAt(s, d, j)
    decreases |s| - from
  {
    if from + |d| > |s| then None
    else if OccursAt(s, d, from) then Some(from)
    else IndexOfFrom(s, d, from + 1)
  }

  /** `s.substringAfter(d)`: the text after the first occurrence of `d`, or the
      whole of `s` when `d` does not occur. */
  function SubstringAfter(s: string, d: string): (r: string)
    ensures |r| <= |s| && r == s[|s| - |r|..]
    ensures IndexOfFrom(s, d, 0).Some? ==> |s| - |r| == IndexOfFrom(s, d, 0).value + |d|
    ensures IndexOfFrom(s, d, 0).None? ==> r == s
  {
    match IndexOfFrom(s, d, 0)
    case None => s
    case Some(i) => s[i + |d|..]
  }

  /** With an empty delimiter, `substringAfter` returns its input unchanged
      (`indexOf("")` is 0). */
  lemma SubstringAfterEmpty(s: string)
    ensures SubstringAfter(s, "") == s
  {
    assert OccursAt(s, "", 0);
  }

  /** When `s` is `d` followed by `t` (and `d` occurs nowhere earlier, as at
      position 0), `substringAfter` isolates `t`. */
  lemma SubstringAfterPrefix(d: string, t: string)
    ensures SubstringAfter(d + t, d) == t
  {
    assert OccursAt(d + t, d, 0);
  }

  /** When `d` does not occur in `s`, `substringAfter` returns all of `s`. */
  lemma SubstringAfterMissing(s: string, d: string)
    requires forall j :: !OccursAt(s, d, j)
    ensures SubstringAfter(s, d) == s
  {
  }

  /** The index of the last `c` in `s`, or -1. */
  function LastIndexOfChar(s: string, c: char): (r: int)
    ensures -1 <= r < |s|
    ensures r >= 0 ==> s[r] == c
    ensures forall j :: r < j < |s| ==> s[j] != c
  {
    if |s| == 0 then -1
    else if s[|s| - 1] == c then |s| - 1
    else LastIndexOfChar(s[..|s| - 1], c)
  }

  /** `s.substringAfterLast(c.toString())`. */
  function SubstringAfterLast(s: string, c: char): (r: string)
    ensures c !in r
  {
    var k := LastIndexOfChar(s, c);
    if k == -1 then s else s[k + 1..]
  }

  /** `s.substringBeforeLast(c.toString())`. */
  function SubstringBeforeLast(s: string, c: char): (r: string)
    ensures |r| <= |s| && r <= s
    ensures c !in s ==> r == s
    ensures c in s ==> |r| < |s| && s[|r|] == c && c !in s[|r| + 1..]
  {
    var k := LastIndexOfChar(s, c);
    if k == -1 then s else s[..k]
  }

  /** The text after the last `c` of `w + [c] + t` is `t` when `t` has no `c`. */
  lemma SubstringAfterLastJoin(w: string, c: char, t: string)
    requires c !in t
    ensures SubstringAfterLast(w + [c] + t, c) == t
  {
    var s := w + [c] + t;
    var k := LastIndexOfChar(s, c);
    assert s[|w|] == c;
    assert forall j :: |w| < j < |s| ==> s[j] == t[j - |w| - 1];
  }

  // ---------------------------------------------------------------------------
  // "$n" for a non-negative Int
  // ---------------------------------------------------------------------------

  predicate IsDigitChar(c: char) { '0' <= c <= '9' }

  function DigitChar(d: nat): (c: char)
    requires d < 10
    ensures IsDigitChar(c) && c as int - '0' as int == d
  {
    ('0' as int + d) as char
  }

  /** The decimal rendering of `n`, without leading zeros. */
  function NatToString(n: nat): (r: string)
    ensures |r| >= 1
    ensures forall i :: 0 <= i < |r| ==> IsDigitChar(r[i])
  {
    if n < 10 then [DigitChar(n)] else NatToString(n / 10) + [DigitChar(n % 10)]
  }

  /** The value of a string of decimal digits. */
  function DigitsValue(s: string): nat
    requires forall i :: 0 <= i < |s| ==> IsDigitChar(s[i])
  {
    if |s| == 0 then 0
    else
      assert IsDigitChar(s[|s| - 1]);
      DigitsValue(s[..|s| - 1]) * 10 + (s[|s| - 1] as int - '0' as int)
  }

  /** Reading the decimal rendering back gives the number. */
  lemma {:induction false} NatToStringRoundTrip(n: nat)
    ensures DigitsValue(NatToString(n)) == n
  {
    if n >= 10 {
      NatToStringRoundTrip(n / 10);
      var s := NatToString(n);
      assert s[..|s| - 1] == NatToString(n / 10);
    }
  }

  /** Different numbers render differently. */
  lemma NatToStringInjective(m: nat, n: nat)
    requires NatToString(m) == NatToString(n)
    ensures m == n
  {
    NatToStringRoundTrip(m);
    NatToStringRoundTrip(n);
  }
}
