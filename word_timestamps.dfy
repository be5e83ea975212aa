/**
 * The word-timestamp bookkeeping shared by the decoder front-ends: after every
 * `decode()` the hypothesis is split into words, and each `word_index` key is
 * stamped with the step's clock reading unless it is already present. When
 * recording stops, `removeDuplicates` keeps one entry per index (the key suffix
 * after the last `_`), the one with the latest timestamp. Maps are the
 * insertion-ordered association lists of `LinkedMaps`; timestamps are `Long`
 * milliseconds, here `int`.
 */
module WordTimestamps {

  import opened Wrappers
  import opened KotlinText
  import opened LinkedMaps

  /** One `decode()` of the recognizer: the hypothesis text after it, and what
      `System.currentTimeMillis()` returns right after it. */
  datatype DecodeStep = DecodeStep(text: string, now: int)

  // ---------------------------------------------------------------------------
  // Recording one decode step
  // ---------------------------------------------------------------------------

  /** `text.split(" ").filter { it.isNotBlank() }`: the words of a hypothesis. */
  function Words(text: string): (ws: seq<string>)
    ensures forall i :: 0 <= i < |ws| ==> !IsBlank(ws[i]) && ' ' !in ws[i]
  {
    var parts := SplitOnChar(text, ' ');
    var ws := NonBlank(parts);
    assert forall i :: 0 <= i < |ws| ==> ws[i] in parts;
    ws
  }

  /** `word + "_$index"`. */
  function WordKey(w: string, i: nat): string {
    w + "_" + NatToString(i)
  }

  /** The keys one step tries to insert: each word with its position among the
      non-blank words. */
  function StepKeys(text: string): (ks: seq<string>)
    ensures |ks| == |Words(text)|
    ensures forall i :: 0 <= i < |ks| ==> ks[i] == WordKey(Words(text)[i], i)
  {
    var ws := Words(text);
    seq(|ws|, i requires 0 <= i < |ws| => WordKey(ws[i], i))
  }

  /** What one decode step does to the map: nothing for a blank hypothesis,
      otherwise every key of the step is inserted with `now` unless present. */
  function Record(m: seq<(string, int)>, text: string, now: int): seq<(string, int)> {
    if IsBlank(text) then m else PutAllIfAbsent(m, StepKeys(text), now)
  }

  /** The recording block of `processSamples`: the `isNotBlank` check and the
      `forEachIndexed` loop with its `containsKey` test. */
  method RecordDecodeStep(m: seq<(string, int)>, text: string, now: int) returns (r: seq<(string, int)>)
    ensures r == Record(m, text, now)
  {
    r := m;
    if !IsBlank(text) {
      var words := Words(text);
      ghost var keys := StepKeys(text);
      for index := 0 to |words|
        invariant r == PutAllIfAbsent(m, keys[..index], now)
      {
        var key := words[index] + "_" + NatToString(index);
        assert keys[..index + 1][..index] == keys[..index] && keys[index] == key;
        if key !in KeysOf(r) {
          r := Put(r, key, now);
        }
      }
      assert keys[..|words|] == keys;
    }
  }

  /** A blank hypothesis records nothing. */
  lemma RecordBlank(m: seq<(string, int)>, text: string, now: int)
    requires IsBlank(text)
    ensures Record(m, text, now) == m
  {
  }

  /** First observation wins: every entry already in the map keeps its value and
      its position, and the map stays a map. */
  lemma RecordKeepsEntries(m: seq<(string, int)>, text: string, now: int)
    requires UniqueKeys(m)
    ensures m <= Record(m, text, now)
    ensures UniqueKeys(Record(m, text, now))
  {
    if !IsBlank(text) {
      PutAllIfAbsentSpec(m, StepKeys(text), now);
    }
  }

  /** Every entry added by one step carries that step's timestamp. */
  lemma RecordSharedTimestamp(m: seq<(string, int)>, text: string, now: int)
    requires UniqueKeys(m)
    ensures forall i :: |m| <= i < |Record(m, text, now)| ==> Record(m, text, now)[i].1 == now
  {
    if !IsBlank(text) {
      PutAllIfAbsentSpec(m, StepKeys(text), now);
    }
  }

  /** The keys after a step are the old keys and, for a non-blank hypothesis,
      the `word_index` keys of its words; nothing else. */
  lemma RecordKeys(m: seq<(string, int)>, text: string, now: int, k: string)
    requires UniqueKeys(m)
    ensures k in KeysOf(Record(m, text, now)) <==>
      k in KeysOf(m) || (!IsBlank(text) && exists i :: 0 <= i < |Words(text)| && k == WordKey(Words(text)[i], i))
    ensures |Record(m, text, now)| <= |m| + |Words(text)|
  {
    if !IsBlank(text) {
      var ks := StepKeys(text);
      PutAllIfAbsentSpec(m, ks, now);
      if k in ks {
        var i :| 0 <= i < |ks| && ks[i] == k;
        assert k == WordKey(Words(text)[i], i);
      }
    }
  }

  /** The key `word_index` carries its index after the last `_`, whatever the
      word: a word never contains a space but may contain `_`. */
  lemma SuffixOfWordKey(w: string, i: nat)
    ensures Suffix(WordKey(w, i)) == NatToString(i)
  {
    var t := NatToString(i);
    assert '_' !in t by {
      forall j | 0 <= j < |t| ensures t[j] != '_' {
        assert IsDigitChar(t[j]);
      }
    }
    assert WordKey(w, i) == w + ['_'] + t;
    SubstringAfterLastJoin(w, '_', t);
  }

  /** The keys of one step are pairwise different, since their indices are. */
  lemma StepKeysDistinct(text: string, i: nat, j: nat)
    requires i < j < |StepKeys(text)|
    ensures StepKeys(text)[i] != StepKeys(text)[j]
  {
    var ws := Words(text);
    SuffixOfWordKey(ws[i], i);
    SuffixOfWordKey(ws[j], j);
    if StepKeys(text)[i] == StepKeys(text)[j] {
      NatToStringInjective(i, j);
    }
  }

  /** Applying the decode steps in order. */
  function RecordSteps(m: seq<(string, int)>, steps: seq<DecodeStep>): seq<(string, int)>
    decreases |steps|
  {
    if |steps| == 0 then m
    else Record(RecordSteps(m, steps[..|steps| - 1]), steps[|steps| - 1].text, steps[|steps| - 1].now)
  }

  /** Over any number of steps, entries are never changed, moved or removed. */
  lemma {:induction false} RecordStepsKeepsEntries(m: seq<(string, int)>, steps: seq<DecodeStep>)
    requires UniqueKeys(m)
    ensures m <= RecordSteps(m, steps)
    ensures UniqueKeys(RecordSteps(m, steps))
    decreases |steps|
  {
    if |steps| > 0 {
      var init := steps[..|steps| - 1];
      var last := steps[|steps| - 1];
      RecordStepsKeepsEntries(m, init);
      RecordKeepsEntries(RecordSteps(m, init), last.text, last.now);
    }
  }

  /** Recording is a fold: the steps of `a + b` are those of `a`, then those of `b`. */
  lemma {:induction false} RecordStepsAppend(m: seq<(string, int)>, a: seq<DecodeStep>, b: seq<DecodeStep>)
    ensures RecordSteps(m, a + b) == RecordSteps(RecordSteps(m, a), b)
    decreases |b|
  {
    if |b| == 0 {
      assert a + b == a;
    } else {
      var b' := b[..|b| - 1];
      assert (a + b)[..|a + b| - 1] == a + b';
      RecordStepsAppend(m, a, b');
    }
  }

  // ---------------------------------------------------------------------------
  // removeDuplicates
  // ---------------------------------------------------------------------------

  /** `key.substringAfterLast("_")`: the index part of a key. */
  function Suffix(key: string): string {
    SubstringAfterLast(key, '_')
  }

  /** The entries of `e` whose key has suffix `id`, in order. */
  function Members(e: seq<(string, int)>, id: string): (r: seq<(string, int)>)
    ensures |r| <= |e|
    decreases |e|
  {
    if |e| == 0 then []
    else
      Members(e[..|e| - 1], id) + (if Suffix(e[|e| - 1].0) == id then [e[|e| - 1]] else [])
  }

  /** `Members` is the filter of `e` by suffix. */
  lemma {:induction false} MembersSpec(e: seq<(string, int)>, id: string)
    ensures forall x :: x in Members(e, id) <==> x in e && Suffix(x.0) == id
    decreases |e|
  {
    if |e| > 0 {
      var init := e[..|e| - 1];
      MembersSpec(init, id);
      assert e == init + [e[|e| - 1]];
    }
  }

  /** The suffixes of the keys of `e`, each once, in order of first occurrence:
      `e.map { suffix }.distinct()`. */
  function Suffixes(e: seq<(string, int)>): seq<string>
    decreases |e|
  {
    if |e| == 0 then []
    else
      var ids := Suffixes(e[..|e| - 1]);
      var id := Suffix(e[|e| - 1].0);
      if id in ids then ids else ids + [id]
  }

  /** The suffixes of `e` are those of all but its last entry, with the last
      entry's suffix added when it is new. */
  lemma SuffixesSnoc(e: seq<(string, int)>)
    requires |e| > 0
    ensures var ids := Suffixes(e[..|e| - 1]);
      var last := Suffix(e[|e| - 1].0);
      Suffixes(e) == if last in ids then ids else ids + [last]
  {
  }

  /** No suffix is listed twice. */
  lemma {:induction false} SuffixesDistinct(e: seq<(string, int)>)
    ensures forall i, j :: 0 <= i < j < |Suffixes(e)| ==> Suffixes(e)[i] != Suffixes(e)[j]
    ensures |Suffixes(e)| <= |e|
    decreases |e|
  {
    if |e| > 0 {
      var init := e[..|e| - 1];
      SuffixesDistinct(init);
      SuffixesSnoc(e);
    }
  }

  /** Some entry of `e` has the suffix `id`. */
  predicate Occurs(e: seq<(string, int)>, id: string) {
    exists i :: 0 <= i < |e| && Suffix(e[i].0) == id
  }

  /** An id occurs in `e` when it occurs in all but the last entry or is the
      last entry's suffix. */
  lemma OccursSnoc(e: seq<(string, int)>, id: string)
    requires |e| > 0
    ensures Occurs(e, id) <==> Occurs(e[..|e| - 1], id) || Suffix(e[|e| - 1].0) == id
  {
    var init := e[..|e| - 1];
    if Occurs(e, id) {
      var i :| 0 <= i < |e| && Suffix(e[i].0) == id;
      if i < |init| {
        assert init[i] == e[i];
      }
    }
    if Occurs(init, id) {
      var i :| 0 <= i < |init| && Suffix(init[i].0) == id;
      assert init[i] == e[i];
    }
  }

  /** One id is listed exactly when it occurs. */
  lemma {:induction false} SuffixOccurs(e: seq<(string, int)>, id: string)
    ensures id in Suffixes(e) <==> Occurs(e, id)
    decreases |e|
  {
    if |e| > 0 {
      SuffixOccurs(e[..|e| - 1], id);
      SuffixesSnoc(e);
      OccursSnoc(e, id);
    }
  }

  /** Exactly the suffixes that occur are listed. */
  lemma SuffixesOccur(e: seq<(string, int)>)
    ensures forall id :: id in Suffixes(e) <==> exists i :: 0 <= i < |e| && Suffix(e[i].0) == id
  {
    forall id
      ensures id in Suffixes(e) <==> Occurs(e, id)
    {
      SuffixOccurs(e, id);
    }
  }

  /** `Suffixes` lists every suffix that occurs, and only those, without repetition. */
  lemma SuffixesSpec(e: seq<(string, int)>)
    ensures forall i, j :: 0 <= i < j < |Suffixes(e)| ==> Suffixes(e)[i] != Suffixes(e)[j]
    ensures forall id :: id in Suffixes(e) <==> exists i :: 0 <= i < |e| && Suffix(e[i].0) == id
    ensures |Suffixes(e)| <= |e|
  {
    SuffixesDistinct(e);
    SuffixesOccur(e);
  }

  /** A suffix has entries exactly when it is among the `Suffixes`. */
  lemma {:induction false} MembersNonEmpty(e: seq<(string, int)>, id: string)
    ensures Members(e, id) != [] <==> id in Suffixes(e)
    decreases |e|
  {
    if |e| > 0 {
      MembersNonEmpty(e[..|e| - 1], id);
    }
  }

  lemma SnocCases(e: seq<(string, int)>, x: (string, int))
    ensures forall id :: Members(e + [x], id) == Members(e, id) + (if Suffix(x.0) == id then [x] else [])
    ensures Suffixes(e + [x]) == if Suffix(x.0) in Suffixes(e) then Suffixes(e) else Suffixes(e) + [Suffix(x.0)]
  {
    assert (e + [x])[..|e|] == e;
  }

  /** `groupedMap.getOrPut(identifier) { mutableListOf() }.add(key to timestamp)`. */
  function AddToGroup(groups: seq<(string, seq<(string, int)>)>, entry: (string, int)): seq<(string, seq<(string, int)>)> {
    var id := Suffix(entry.0);
    var current := Get(groups, id);
    Put(groups, id, (if current.Some? then current.value else []) + [entry])
  }

  /** The two cases of `getOrPut(..).add(..)`: the entry is appended to the
      group of its suffix, in place, or a new group of one is appended. */
  lemma AddToGroupCases(g: seq<(string, seq<(string, int)>)>, x: (string, int))
    ensures Suffix(x.0) in KeysOf(g) ==>
      AddToGroup(g, x) == g[IndexOfKey(g, Suffix(x.0)) := (Suffix(x.0), g[IndexOfKey(g, Suffix(x.0))].1 + [x])]
    ensures Suffix(x.0) !in KeysOf(g) ==> AddToGroup(g, x) == g + [(Suffix(x.0), [x])]
    ensures KeysOf(AddToGroup(g, x)) == if Suffix(x.0) in KeysOf(g) then KeysOf(g) else KeysOf(g) + [Suffix(x.0)]
  {
    if Suffix(x.0) !in KeysOf(g) {
      assert [] + [x] == [x];
    }
  }

  /** `groupedMap` after the first loop of `removeDuplicates`. */
  function Grouped(e: seq<(string, int)>): seq<(string, seq<(string, int)>)>
    decreases |e|
  {
    if |e| == 0 then [] else AddToGroup(Grouped(e[..|e| - 1]), e[|e| - 1])
  }

  /** What `groupedMap` holds after the entries `e`: one group per suffix, in
      order of first occurrence, holding exactly the entries with that suffix in
      map order. */
  ghost predicate GroupsExact(e: seq<(string, int)>, g: seq<(string, seq<(string, int)>)>) {
    KeysOf(g) == Suffixes(e) &&
    forall j :: 0 <= j < |g| ==> g[j].1 == Members(e, g[j].0)
  }

  /** An entry whose suffix has a group joins the end of that group. */
  lemma GroupsExactJoin(e: seq<(string, int)>, x: (string, int), g: seq<(string, seq<(string, int)>)>, p: nat)
    requires GroupsExact(e, g) && p < |g| && g[p].0 == Suffix(x.0)
    ensures GroupsExact(e + [x], g[p := (g[p].0, g[p].1 + [x])])
  {
    var e' := e + [x];
    var g' := g[p := (g[p].0, g[p].1 + [x])];
    SnocCases(e, x);
    assert g[p].0 in KeysOf(g);
    assert KeysOf(g') == KeysOf(g);
    forall j | 0 <= j < |g'| ensures g'[j].1 == Members(e', g'[j].0) {
      if j != p {
        assert g[j].0 != g[p].0 by {
          SuffixesSpec(e);
          assert KeysOf(g)[j] == g[j].0 && KeysOf(g)[p] == g[p].0;
        }
      }
    }
  }

  /** An entry with a new suffix opens a group of its own at the end. */
  lemma GroupsExactNew(e: seq<(string, int)>, x: (string, int), g: seq<(string, seq<(string, int)>)>)
    requires GroupsExact(e, g) && Suffix(x.0) !in KeysOf(g)
    ensures GroupsExact(e + [x], g + [(Suffix(x.0), [x])])
  {
    var id := Suffix(x.0);
    var e' := e + [x];
    var g' := g + [(id, [x])];
    SnocCases(e, x);
    MembersNonEmpty(e, id);
    assert KeysOf(g') == KeysOf(g) + [id];
    forall j | 0 <= j < |g'| ensures g'[j].1 == Members(e', g'[j].0) {
      if j < |g| {
        assert g'[j] == g[j] && g[j].0 != id;
      }
    }
  }

  /** `groupedMap` groups the entries by suffix, in order of first occurrence. */
  lemma {:induction false} GroupedSpec(e: seq<(string, int)>)
    ensures GroupsExact(e, Grouped(e))
    decreases |e|
  {
    if |e| > 0 {
      GroupedSpec(e[..|e| - 1]);
      GroupsExactAdd(e, Grouped(e[..|e| - 1]));
    }
  }

  /** Adding the last entry of `e` to the groups of the others gives the
      groups of `e`. */
  lemma GroupsExactAdd(e: seq<(string, int)>, g: seq<(string, seq<(string, int)>)>)
    requires |e| > 0 && GroupsExact(e[..|e| - 1], g)
    ensures GroupsExact(e, AddToGroup(g, e[|e| - 1]))
  {
    var init, x := e[..|e| - 1], e[|e| - 1];
    assert init + [x] == e;
    AddToGroupCases(g, x);
    if Suffix(x.0) in KeysOf(g) {
      GroupsExactJoin(init, x, g, IndexOfKey(g, Suffix(x.0)));
    } else {
      GroupsExactNew(init, x, g);
    }
  }

  /** `entries.maxByOrNull { it.second }`: scans left to right and replaces the
      candidate only on a strictly greater timestamp, so the first maximum wins. */
  function MaxByOrNull(es: seq<(string, int)>): (r: Option<(string, int)>)
    ensures r.None? <==> |es| == 0
    decreases |es|
  {
    if |es| == 0 then None
    else
      match MaxByOrNull(es[..|es| - 1])
      case None => Some(es[|es| - 1])
      case Some(best) => if best.1 < es[|es| - 1].1 then Some(es[|es| - 1]) else Some(best)
  }

  /** The result of `maxByOrNull` is the entry at some position `k` whose
      timestamp is at least every other and strictly greater than every earlier
      one: the first of the latest. */
  lemma {:induction false} MaxByOrNullSpec(es: seq<(string, int)>)
    requires |es| > 0
    ensures exists k :: 0 <= k < |es| && MaxByOrNull(es) == Some(es[k]) && IsFirstMax(es, k)
    decreases |es|
  {
    var n := |es| - 1;
    var init := es[..n];
    if n == 0 {
      assert MaxByOrNull(es) == Some(es[0]) && IsFirstMax(es, 0);
    } else {
      MaxByOrNullSpec(init);
      var k :| 0 <= k < |init| && MaxByOrNull(init) == Some(init[k]) && IsFirstMax(init, k);
      if es[k].1 < es[n].1 {
        assert IsFirstMax(es, n);
      } else {
        assert IsFirstMax(es, k);
      }
    }
  }

  /** `es[k]` has the greatest timestamp, and every entry before it a smaller one. */
  predicate IsFirstMax(es: seq<(string, int)>, k: nat)
    requires k < |es|
  {
    (forall j :: 0 <= j < |es| ==> es[j].1 <= es[k].1) &&
    (forall j :: 0 <= j < k ==> es[j].1 < es[k].1)
  }

  /** `filteredMap` after the second loop: the best entry of each group, put in
      group order. */
  function FilterGroups(groups: seq<(string, seq<(string, int)>)>): seq<(string, int)>
    decreases |groups|
  {
    if |groups| == 0 then []
    else
      var f := FilterGroups(groups[..|groups| - 1]);
      match MaxByOrNull(groups[|groups| - 1].1)
      case None => f
      case Some(best) => Put(f, best.0, best.1)
  }

  /** Groups with pairwise different ids, none empty, each holding only entries
      whose suffix is its id. */
  ghost predicate ProperGroups(g: seq<(string, seq<(string, int)>)>) {
    (forall i, j :: 0 <= i < j < |g| ==> g[i].0 != g[j].0) &&
    (forall j :: 0 <= j < |g| ==> g[j].1 != []) &&
    (forall j, x :: 0 <= j < |g| && x in g[j].1 ==> Suffix(x.0) == g[j].0)
  }

  /** The second loop keeps the best entry of every group, one entry per
      group in group order: the best entries have different suffixes, so every
      `put` appends. */
  lemma {:induction false} FilterGroupsShape(g: seq<(string, seq<(string, int)>)>)
    requires ProperGroups(g)
    ensures |FilterGroups(g)| == |g|
    ensures forall j :: 0 <= j < |g| ==>
      Suffix(FilterGroups(g)[j].0) == g[j].0 && MaxByOrNull(g[j].1) == Some(FilterGroups(g)[j])
    decreases |g|
  {
    if |g| > 0 {
      var n := |g| - 1;
      var init := g[..n];
      assert ProperGroups(init);
      FilterGroupsShape(init);
      var f := FilterGroups(init);
      MaxByOrNullSpec(g[n].1);
      var best := MaxByOrNull(g[n].1).value;
      assert best in g[n].1;
      assert best.0 !in KeysOf(f) by {
        forall j | 0 <= j < |f| ensures f[j].0 != best.0 {
          assert Suffix(f[j].0) == init[j].0 == g[j].0 != g[n].0;
        }
      }
      assert FilterGroups(g) == f + [best];
    }
  }

  /** The groups built by the first loop are proper. */
  lemma GroupedProper(e: seq<(string, int)>)
    ensures ProperGroups(Grouped(e))
  {
    var g := Grouped(e);
    GroupedSpec(e);
    SuffixesSpec(e);
    forall i, j | 0 <= i < j < |g| ensures g[i].0 != g[j].0 {
      assert KeysOf(g)[i] == g[i].0 && KeysOf(g)[j] == g[j].0;
    }
    forall j | 0 <= j < |g| ensures g[j].1 != [] && forall x :: x in g[j].1 ==> Suffix(x.0) == g[j].0 {
      assert KeysOf(g)[j] == g[j].0;
      MembersNonEmpty(e, g[j].0);
      MembersSpec(e, g[j].0);
    }
  }

  /** `removeDuplicates` keeps, for every suffix in order of first occurrence,
      the entry `maxByOrNull` picks among the entries with that suffix. */
  lemma DedupShape(e: seq<(string, int)>)
    ensures |Dedup(e)| == |Suffixes(e)|
    ensures forall j :: 0 <= j < |Dedup(e)| ==>
      Suffix(Dedup(e)[j].0) == Suffixes(e)[j] && MaxByOrNull(Members(e, Suffixes(e)[j])) == Some(Dedup(e)[j])
  {
    var g := Grouped(e);
    GroupedSpec(e);
    GroupedProper(e);
    FilterGroupsShape(g);
    forall j | 0 <= j < |g| ensures g[j].0 == Suffixes(e)[j] {
      assert KeysOf(g)[j] == g[j].0;
    }
  }

  /** What `removeDuplicates` returns. */
  function Dedup(e: seq<(string, int)>): seq<(string, int)> {
    FilterGroups(Grouped(e))
  }

  /** What `removeDuplicates` promises about the keys: one entry per index
      suffix, in order of first occurrence, and every suffix of the input kept. */
  lemma DedupKeys(e: seq<(string, int)>)
    ensures |Dedup(e)| <= |e|
    ensures |Dedup(e)| == |Suffixes(e)|
    ensures forall j :: 0 <= j < |Dedup(e)| ==> Suffix(Dedup(e)[j].0) == Suffixes(e)[j]
    ensures forall i, j :: 0 <= i < j < |Dedup(e)| ==> Suffix(Dedup(e)[i].0) != Suffix(Dedup(e)[j].0)
    ensures UniqueKeys(Dedup(e))
    ensures forall i :: 0 <= i < |e| ==> exists j :: 0 <= j < |Dedup(e)| && Suffix(Dedup(e)[j].0) == Suffix(e[i].0)
  {
    var d := Dedup(e);
    var ids := Suffixes(e);
    DedupShape(e);
    SuffixesSpec(e);
    forall i | 0 <= i < |e| ensures exists j :: 0 <= j < |d| && Suffix(d[j].0) == Suffix(e[i].0) {
      assert Suffix(e[i].0) in ids;
      var j :| 0 <= j < |ids| && ids[j] == Suffix(e[i].0);
      assert Suffix(d[j].0) == ids[j];
    }
  }

  /** The kept entry for one suffix is an input entry with the latest timestamp. */
  lemma DedupEntryLatest(e: seq<(string, int)>, j: nat)
    requires j < |Dedup(e)|
    ensures Dedup(e)[j] in e
    ensures forall i :: 0 <= i < |e| && Suffix(e[i].0) == Suffix(Dedup(e)[j].0) ==> e[i].1 <= Dedup(e)[j].1
  {
    var d := Dedup(e);
    DedupShape(e);
    var id := Suffixes(e)[j];
    var ms := Members(e, id);
    MembersSpec(e, id);
    MembersNonEmpty(e, id);
    MaxByOrNullSpec(ms);
    var k :| 0 <= k < |ms| && MaxByOrNull(ms) == Some(ms[k]) && IsFirstMax(ms, k);
    assert ms[k] == d[j] && ms[k] in ms;
    forall i | 0 <= i < |e| && Suffix(e[i].0) == Suffix(d[j].0) ensures e[i].1 <= d[j].1 {
      assert e[i] in ms;
      var t :| 0 <= t < |ms| && ms[t] == e[i];
    }
  }

  /** What `removeDuplicates` promises about the values: each kept entry comes
      from the input, and no entry with the same suffix has a later timestamp. */
  lemma DedupLatest(e: seq<(string, int)>)
    ensures forall j :: 0 <= j < |Dedup(e)| ==> Dedup(e)[j] in e
    ensures forall j, i :: 0 <= j < |Dedup(e)| && 0 <= i < |e| && Suffix(e[i].0) == Suffix(Dedup(e)[j].0) ==>
      e[i].1 <= Dedup(e)[j].1
  {
    forall j | 0 <= j < |Dedup(e)| ensures Dedup(e)[j] in e &&
      forall i :: 0 <= i < |e| && Suffix(e[i].0) == Suffix(Dedup(e)[j].0) ==> e[i].1 <= Dedup(e)[j].1
    {
      DedupEntryLatest(e, j);
    }
  }

  /** Among the entries with its suffix, in map order, the kept entry is the
      first one carrying the latest timestamp. */
  lemma DedupFirstLatest(e: seq<(string, int)>, j: nat)
    requires j < |Dedup(e)|
    ensures exists k :: (0 <= k < |Members(e, Suffix(Dedup(e)[j].0))| &&
      Members(e, Suffix(Dedup(e)[j].0))[k] == Dedup(e)[j] && IsFirstMax(Members(e, Suffix(Dedup(e)[j].0)), k))
  {
    DedupShape(e);
    var id := Suffixes(e)[j];
    MembersNonEmpty(e, id);
    MaxByOrNullSpec(Members(e, id));
  }

  lemma GroupedPrefix(e: seq<(string, int)>, n: nat)
    requires n < |e|
    ensures Grouped(e[..n + 1]) == AddToGroup(Grouped(e[..n]), e[n])
  {
    assert e[..n + 1][..n] == e[..n];
  }

  lemma FilterGroupsPrefix(groups: seq<(string, seq<(string, int)>)>, g: nat)
    requires g < |groups|
    ensures FilterGroups(groups[..g + 1]) ==
      match MaxByOrNull(groups[g].1)
      case None => FilterGroups(groups[..g])
      case Some(best) => Put(FilterGroups(groups[..g]), best.0, best.1)
  {
    assert groups[..g + 1][..g] == groups[..g];
  }

  /** `removeDuplicates(wordTimestamps)`: groups the entries by suffix, then keeps
      the latest entry of each group. */
  method RemoveDuplicates(wordTimestamps: seq<(string, int)>) returns (filteredMap: seq<(string, int)>)
    ensures filteredMap == Dedup(wordTimestamps)
  {
    var groupedMap: seq<(string, seq<(string, int)>)> := [];
    for n := 0 to |wordTimestamps|
      invariant groupedMap == Grouped(wordTimestamps[..n])
    {
      var (key, timestamp) := wordTimestamps[n];
      GroupedPrefix(wordTimestamps, n);
      var identifier := SubstringAfterLast(key, '_');
      var entries := Get(groupedMap, identifier);
      var list := if entries.Some? then entries.value else [];
      groupedMap := Put(groupedMap, identifier, list + [(key, timestamp)]);
    }
    assert wordTimestamps[..|wordTimestamps|] == wordTimestamps;
    filteredMap := [];
    for g := 0 to |groupedMap|
      invariant filteredMap == FilterGroups(groupedMap[..g])
    {
      FilterGroupsPrefix(groupedMap, g);
      var entryWithHighestTimestamp := MaxByOrNull(groupedMap[g].1);
      if entryWithHighestTimestamp.Some? {
        filteredMap := Put(filteredMap, entryWithHighestTimestamp.value.0, entryWithHighestTimestamp.value.1);
      }
    }
    assert groupedMap[..|groupedMap|] == groupedMap;
  }

  // ---------------------------------------------------------------------------
  // The reported duration
  // ---------------------------------------------------------------------------

  /** `with(values) { last() - first() }` as written: the timestamp of the last
      kept entry minus that of the first; `first()` throws on an empty map. */
  function DurationAsWritten(vs: seq<int>): (r: Result<int, string>)
    ensures r.Failure? <==> |vs| == 0
  {
    if |vs| == 0 then Failure("NoSuchElementException") else Success(vs[|vs| - 1] - vs[0])
  }

  /** The greatest of `vs`. */
  function MaxOf(vs: seq<int>): (m: int)
    requires |vs| > 0
    ensures m in vs && forall i :: 0 <= i < |vs| ==> vs[i] <= m
    decreases |vs|
  {
    if |vs| == 1 then vs[0]
    else
      var m := MaxOf(vs[..|vs| - 1]);
      assert forall i :: 0 <= i < |vs| - 1 ==> vs[..|vs| - 1][i] == vs[i];
      if m < vs[|vs| - 1] then vs[|vs| - 1] else m
  }

  /** The least of `vs`. */
  function MinOf(vs: seq<int>): (m: int)
    requires |vs| > 0
    ensures m in vs && forall i :: 0 <= i < |vs| ==> m <= vs[i]
    decreases |vs|
  {
    if |vs| == 1 then vs[0]
    else
      var m := MinOf(vs[..|vs| - 1]);
      assert forall i :: 0 <= i < |vs| - 1 ==> vs[..|vs| - 1][i] == vs[i];
      if vs[|vs| - 1] < m then vs[|vs| - 1] else m
  }

  /** The duration meant: from the earliest to the latest kept timestamp, and
      nothing to report when no word was recognized. */
  function Duration(vs: seq<int>): (r: Option<int>)
    ensures r.None? <==> |vs| == 0
    ensures r.Some? ==> r.value >= 0
    ensures r.Some? ==> forall i, j :: 0 <= i < |vs| && 0 <= j < |vs| ==> vs[j] - vs[i] <= r.value
    ensures r.Some? ==> exists i, j :: 0 <= i < |vs| && 0 <= j < |vs| && vs[j] - vs[i] == r.value
  {
    if |vs| == 0 then None
    else
      var hi := MaxOf(vs);
      var lo := MinOf(vs);
      assert vs[0] <= hi;
      Some(hi - lo)
  }

  predicate NonDecreasing(vs: seq<int>) {
    forall i, j :: 0 <= i <= j < |vs| ==> vs[i] <= vs[j]
  }

  /** When the kept timestamps ascend in map order, the code as written reports
      the intended duration. */
  lemma DurationAgreesWhenSorted(vs: seq<int>)
    requires |vs| > 0 && NonDecreasing(vs)
    ensures DurationAsWritten(vs) == Success(Duration(vs).value)
  {
    var hi := MaxOf(vs);
    var lo := MinOf(vs);
    assert hi <= vs[|vs| - 1] && vs[0] <= lo;
  }

  /** Keys with the same index and different words differ. */
  lemma WordKeyInjective(u: string, w: string, i: nat)
    requires WordKey(u, i) == WordKey(w, i)
    ensures u == w
  {
    assert |u| == |w|;
    assert WordKey(u, i)[..|u|] == u && WordKey(w, i)[..|w|] == w;
  }

  /** The words of `u + " " + v` for two words without spaces. */
  lemma WordsOfTwo(u: string, v: string)
    requires !IsBlank(u) && !IsBlank(v) && ' ' !in u && ' ' !in v
    ensures Words(u + " " + v) == [u, v]
    ensures StepKeys(u + " " + v) == [WordKey(u, 0), WordKey(v, 1)]
    ensures !IsBlank(u + " " + v)
  {
    assert u + " " + v == u + [' '] + v;
    SplitOnCharJoin(u, ' ', v);
    SplitOnCharNone(v, ' ');
    assert NonBlank([v]) == [v];
    assert [u, v][1..] == [v];
    var ks := StepKeys(u + " " + v);
    assert |ks| == 2 && ks[0] == WordKey(u, 0) && ks[1] == WordKey(v, 1);
    var i :| 0 <= i < |u| && !IsWhitespace(u[i]);
    assert (u + " " + v)[i] == u[i];
  }

  /** The map after `u + " " + v` at `t1` and then `w + " " + v` at `t2`. */
  lemma RecordTwice(u: string, v: string, w: string, t1: int, t2: int)
    requires !IsBlank(u) && !IsBlank(v) && !IsBlank(w) && ' ' !in u && ' ' !in v && ' ' !in w && u != w
    ensures Record(Record([], u + " " + v, t1), w + " " + v, t2) ==
      [(WordKey(u, 0), t1), (WordKey(v, 1), t1), (WordKey(w, 0), t2)]
  {
    WordsOfTwo(u, v);
    WordsOfTwo(w, v);
    var ku, kv, kw := WordKey(u, 0), WordKey(v, 1), WordKey(w, 0);
    SuffixOfWordKey(u, 0);
    SuffixOfWordKey(v, 1);
    SuffixOfWordKey(w, 0);
    if NatToString(0) == NatToString(1) {
      NatToStringInjective(0, 1);
    }
    if kw == ku {
      WordKeyInjective(w, u, 0);
    }
    assert ku != kv && kw != kv && kw != ku;
    RecordTwoSteps(u + " " + v, w + " " + v, ku, kv, kw, t1, t2);
  }

  /** Two steps whose keys are `ku, kv` and then `kw, kv`, all different. */
  lemma RecordTwoSteps(s1: string, s2: string, ku: string, kv: string, kw: string, t1: int, t2: int)
    requires !IsBlank(s1) && !IsBlank(s2) && StepKeys(s1) == [ku, kv] && StepKeys(s2) == [kw, kv]
    requires ku != kv && kw != kv && kw != ku
    ensures Record(Record([], s1, t1), s2, t2) == [(ku, t1), (kv, t1), (kw, t2)]
  {
    var m1 := [(ku, t1), (kv, t1)];
    RecordFirstStep(s1, ku, kv, t1);
    KeysOfTwo(ku, kv, t1);
    assert Record(m1, s2, t2) == PutAllIfAbsent(m1, [kw, kv], t2);
    PutNewThenOld(m1, kw, kv, t2);
  }

  lemma RecordFirstStep(s1: string, ku: string, kv: string, t1: int)
    requires !IsBlank(s1) && StepKeys(s1) == [ku, kv] && ku != kv
    ensures Record([], s1, t1) == [(ku, t1), (kv, t1)]
  {
    var m0: seq<(string, int)> := [];
    PutTwoNew(m0, ku, kv, t1);
    assert m0 + [(ku, t1), (kv, t1)] == [(ku, t1), (kv, t1)];
  }

  lemma KeysOfTwo(ku: string, kv: string, t: int)
    ensures KeysOf([(ku, t), (kv, t)]) == [ku, kv]
  {
    var m0: seq<(string, int)> := [];
    KeysOfAppend(m0, ku, t);
    KeysOfAppend([(ku, t)], kv, t);
    assert m0 + [(ku, t)] == [(ku, t)];
    assert [(ku, t)] + [(kv, t)] == [(ku, t), (kv, t)];
  }

  lemma PutTwoNew(m: seq<(string, int)>, k1: string, k2: string, v: int)
    requires k1 !in KeysOf(m) && k2 !in KeysOf(m) && k1 != k2
    ensures PutAllIfAbsent(m, [k1, k2], v) == m + [(k1, v), (k2, v)]
  {
    assert [k1, k2][..1] == [k1] && [k1][..0] == [];
    KeysOfAppend(m, k1, v);
    assert PutAllIfAbsent(m, [k1], v) == m + [(k1, v)];
  }

  lemma PutNewThenOld(m: seq<(string, int)>, k1: string, k2: string, v: int)
    requires k1 !in KeysOf(m) && k2 in KeysOf(m)
    ensures PutAllIfAbsent(m, [k1, k2], v) == m + [(k1, v)]
  {
    assert [k1, k2][..1] == [k1] && [k1][..0] == [];
    KeysOfAppend(m, k1, v);
    assert PutAllIfAbsent(m, [k1], v) == m + [(k1, v)];
  }

  /** The suffixes and groups of three entries whose first and last share a suffix. */
  lemma GroupsOfThree(a: (string, int), b: (string, int), c: (string, int))
    requires Suffix(a.0) == Suffix(c.0) != Suffix(b.0)
    ensures Suffixes([a, b, c]) == [Suffix(a.0), Suffix(b.0)]
    ensures Members([a, b, c], Suffix(a.0)) == [a, c]
    ensures Members([a, b, c], Suffix(b.0)) == [b]
  {
    var e := [a, b, c];
    assert e[..2] == [a, b] && e[..2][..1] == [a] && [a][..0] == [];
    assert Suffixes([a]) == [Suffix(a.0)];
    assert Suffixes([a, b]) == [Suffix(a.0), Suffix(b.0)];
    assert Members([a], Suffix(a.0)) == [a];
    assert Members([a, b], Suffix(a.0)) == [a];
    assert Members([a], Suffix(b.0)) == [];
  }

  /** What `removeDuplicates` keeps of that map: for index 0 the later entry,
      for index 1 the only one, in order of first occurrence. */
  lemma DedupOfThree(a: (string, int), b: (string, int), c: (string, int))
    requires Suffix(a.0) == Suffix(c.0) != Suffix(b.0) && a.1 < c.1
    ensures Dedup([a, b, c]) == [c, b]
  {
    var e := [a, b, c];
    GroupsOfThree(a, b, c);
    MaxOfTwo(a, c);
    assert MaxByOrNull([b]) == Some(b);
    DedupShape(e);
    var d := Dedup(e);
    assert |d| == 2;
    assert MaxByOrNull(Members(e, Suffixes(e)[0])) == Some(d[0]);
    assert MaxByOrNull(Members(e, Suffixes(e)[1])) == Some(d[1]);
    assert d == [d[0], d[1]];
  }

  /** Of two entries the later-stamped one is the maximum. */
  lemma MaxOfTwo(a: (string, int), c: (string, int))
    requires a.1 < c.1
    ensures MaxByOrNull([a, c]) == Some(c)
  {
    assert [a, c][..1] == [a];
  }

  /** How the keys of the example relate: index 0 twice, index 1 once. */
  lemma ExampleKeySuffixes(u: string, v: string, w: string)
    ensures Suffix(WordKey(u, 0)) == Suffix(WordKey(w, 0)) != Suffix(WordKey(v, 1))
  {
    SuffixOfWordKey(u, 0);
    SuffixOfWordKey(v, 1);
    SuffixOfWordKey(w, 0);
    if NatToString(0) == NatToString(1) {
      NatToStringInjective(0, 1);
    }
  }

  /** The reported duration of two kept entries, stamped `x` and then `y`. */
  lemma DurationsOfTwo(kx: string, ky: string, x: int, y: int)
    requires y < x
    ensures DurationAsWritten(ValuesOf([(kx, x), (ky, y)])) == Success(y - x)
    ensures Duration(ValuesOf([(kx, x), (ky, y)])) == Some(x - y)
  {
    var vs := ValuesOf([(kx, x), (ky, y)]);
    assert vs == [x, y];
    assert vs[..1] == [x];
    assert MaxOf(vs) == x && MinOf(vs) == y;
  }

  /** A re-decoded first word: the recognizer first hears `u v` and later
      revises it to `w v`. Index 0 is kept as `w_0` with the later timestamp,
      index 1 as `v_1` with the earlier one, in that order, so the code as
      written reports `t1 - t2`, a negative duration; the intended one is `t2 - t1`. */
  lemma NegativeDuration(u: string, v: string, w: string, t1: int, t2: int)
    requires !IsBlank(u) && !IsBlank(v) && !IsBlank(w) && ' ' !in u && ' ' !in v && ' ' !in w && u != w
    requires t1 < t2
    ensures Dedup(Record(Record([], u + " " + v, t1), w + " " + v, t2)) == [(WordKey(w, 0), t2), (WordKey(v, 1), t1)]
    ensures DurationAsWritten(ValuesOf(Dedup(Record(Record([], u + " " + v, t1), w + " " + v, t2)))) == Success(t1 - t2)
    ensures Duration(ValuesOf(Dedup(Record(Record([], u + " " + v, t1), w + " " + v, t2)))) == Some(t2 - t1)
  {
    RecordTwice(u, v, w, t1, t2);
    ExampleKeySuffixes(u, v, w);
    DedupOfThree((WordKey(u, 0), t1), (WordKey(v, 1), t1), (WordKey(w, 0), t2));
    DurationsOfTwo(WordKey(w, 0), WordKey(v, 1), t2, t1);
  }

  /** The smallest instance: "a b" at time 1, then "x b" at time 5; the code as
      written reports -4 where 4 is meant. */
  lemma NegativeDurationWitness(u: string, v: string, w: string)
    requires u == "a" && v == "b" && w == "x"
    ensures DurationAsWritten(ValuesOf(Dedup(Record(Record([], u + " " + v, 1), w + " " + v, 5)))) == Success(-4)
    ensures Duration(ValuesOf(Dedup(Record(Record([], u + " " + v, 1), w + " " + v, 5)))) == Some(4)
  {
    ExampleWords(u, v, w);
    NegativeDuration(u, v, w, 1, 5);
  }

  lemma ExampleWords(u: string, v: string, w: string)
    requires u == "a" && v == "b" && w == "x"
    ensures !IsBlank(u) && !IsBlank(v) && !IsBlank(w) && ' ' !in u && ' ' !in v && ' ' !in w && u != w
  {
    assert !IsWhitespace('a') && !IsWhitespace('b') && !IsWhitespace('x');
    assert u[0] == 'a' && v[0] == 'b' && w[0] == 'x';
  }
}
