/**
 * Kotlin's `LinkedHashMap` (also what `mutableMapOf()` and `toMap()` build) as an
 * association list: a sequence of entries in insertion order, with no key twice.
 * Keys are strings throughout the core. `put` on a present key replaces the value
 * where the entry stands; on a new key it appends.
 */
module LinkedMaps {

  import opened Wrappers

  /** The keys of `m`, in iteration order. */
  function KeysOf<V>(m: seq<(string, V)>): (ks: seq<string>)
    ensures |ks| == |m|
    ensures forall i :: 0 <= i < |m| ==> ks[i] == m[i].0
  {
    seq(|m|, i requires 0 <= i < |m| => m[i].0)
  }

  /** The values of `m`, in iteration order (`map.values`). */
  function ValuesOf<V>(m: seq<(string, V)>): (vs: seq<V>)
    ensures |vs| == |m|
    ensures forall i :: 0 <= i < |m| ==> vs[i] == m[i].1
  {
    seq(|m|, i requires 0 <= i < |m| => m[i].1)
  }

  /** No key occurs twice: the invariant of every map. */
  predicate UniqueKeys<V>(m: seq<(string, V)>) {
    forall i, j :: 0 <= i < j < |m| ==> m[i].0 != m[j].0
  }

  /** The position of key `k` in `m`, or `|m|` when `k` is absent. */
  function IndexOfKey<V>(m: seq<(string, V)>, k: string): (i: nat)
    ensures i <= |m|
    ensures i < |m| <==> k in KeysOf(m)
    ensures i < |m| ==> m[i].0 == k
    ensures forall j :: 0 <= j < i ==> m[j].0 != k
  {
    if |m| == 0 then 0 else if m[0].0 == k then 0 else 1 + IndexOfKey(m[1..], k)
  }

  /** `m[k]`: the value stored for `k`, or `null`. */
  function Get<V>(m: seq<(string, V)>, k: string): (r: Option<V>)
    ensures r.Some? <==> k in KeysOf(m)
    ensures r.Some? ==> (k, r.value) in m
  {
    var i := IndexOfKey(m, k);
    if i < |m| then Some(m[i].1) else None
  }

  /** In a map, the entry at position `i` is what `Get` finds for its key. */
  lemma GetAt<V>(m: seq<(string, V)>, i: nat)
    requires UniqueKeys(m) && i < |m|
    ensures Get(m, m[i].0) == Some(m[i].1)
  {
  }

  /** `m[k] = v`: replaces the value of a present key in place, appends a new key. */
  function Put<V>(m: seq<(string, V)>, k: string, v: V): (r: seq<(string, V)>)
    ensures k in KeysOf(m) ==> |r| == |m| && r[IndexOfKey(m, k)] == (k, v)
    ensures k in KeysOf(m) ==> forall j :: 0 <= j < |m| && j != IndexOfKey(m, k) ==> r[j] == m[j]
    ensures k !in KeysOf(m) ==> r == m + [(k, v)]
    ensures UniqueKeys(m) ==> UniqueKeys(r)
    ensures forall k' :: k' in KeysOf(r) <==> k' in KeysOf(m) || k' == k
  {
    var i := IndexOfKey(m, k);
    if i < |m| then
      assert KeysOf(m[i := (k, v)]) == KeysOf(m);
      m[i := (k, v)]
    else
      assert KeysOf(m + [(k, v)]) == KeysOf(m) + [k];
      m + [(k, v)]
  }

  /** After `Put(m, k, v)` the key `k` maps to `v` and every other key keeps its value:
      the defining law of a map update. */
  lemma PutGet<V>(m: seq<(string, V)>, k: string, v: V, k': string)
    requires UniqueKeys(m)
    ensures Get(Put(m, k, v), k') == if k' == k then Some(v) else Get(m, k')
  {
    var r := Put(m, k, v);
    if k' == k {
      GetAt(r, IndexOfKey(r, k));
      if k in KeysOf(m) {
        assert r[IndexOfKey(m, k)] == (k, v);
        GetAt(r, IndexOfKey(m, k));
      } else {
        assert r[|m|] == (k, v);
        GetAt(r, |m|);
      }
    } else if k' in KeysOf(m) {
      var j := IndexOfKey(m, k');
      assert r[j] == m[j];
      GetAt(r, j);
    }
  }

  /** Every entry after `Put(m, k, v)` is the new entry or the old entry at its place. */
  lemma PutEntries<V>(m: seq<(string, V)>, k: string, v: V)
    ensures forall i :: 0 <= i < |Put(m, k, v)| ==> Put(m, k, v)[i] == (k, v) || (i < |m| && Put(m, k, v)[i] == m[i])
  {
  }

  /** `if (!m.containsKey(k)) m[k] = v`: the first value stored for a key wins. */
  function PutIfAbsent<V>(m: seq<(string, V)>, k: string, v: V): (r: seq<(string, V)>)
    ensures k in KeysOf(m) ==> r == m
    ensures k !in KeysOf(m) ==> r == m + [(k, v)]
  {
    if k in KeysOf(m) then m else m + [(k, v)]
  }

  /** What `PutIfAbsent` means for a map: the old entries stay a prefix and the
      keys stay unique; `k` keeps a value it already had and otherwise gets `v`;
      every other key keeps what it had. */
  lemma PutIfAbsentGet<V>(m: seq<(string, V)>, k: string, v: V, k': string)
    requires UniqueKeys(m)
    ensures m <= PutIfAbsent(m, k, v) && UniqueKeys(PutIfAbsent(m, k, v))
    ensures Get(PutIfAbsent(m, k, v), k') == if k' == k && Get(m, k).None? then Some(v) else Get(m, k')
  {
    if k !in KeysOf(m) {
      PutGet(m, k, v, k');
    }
  }

  lemma KeysOfAppend<V>(m: seq<(string, V)>, k: string, v: V)
    ensures KeysOf(m + [(k, v)]) == KeysOf(m) + [k]
  {
  }

  /** `PutIfAbsent` of every key of `ks` with the same value `v`, in order. */
  function PutAllIfAbsent<V>(m: seq<(string, V)>, ks: seq<string>, v: V): (r: seq<(string, V)>)
    decreases |ks|
  {
    if |ks| == 0 then m
    else PutIfAbsent(PutAllIfAbsent(m, ks[..|ks| - 1], v), ks[|ks| - 1], v)
  }

  /** What `PutAllIfAbsent` does: the old entries stay as they were and where they
      were (first wins); the appended entries all carry `v`; the keys afterwards are
      the old keys and the keys of `ks`; and no key is ever duplicated. */
  lemma {:induction false} PutAllIfAbsentSpec<V>(m: seq<(string, V)>, ks: seq<string>, v: V)
    requires UniqueKeys(m)
    ensures m <= PutAllIfAbsent(m, ks, v)
    ensures UniqueKeys(PutAllIfAbsent(m, ks, v))
    ensures forall i :: |m| <= i < |PutAllIfAbsent(m, ks, v)| ==> PutAllIfAbsent(m, ks, v)[i].1 == v
    ensures forall k :: k in KeysOf(PutAllIfAbsent(m, ks, v)) <==> k in KeysOf(m) || k in ks
    ensures |PutAllIfAbsent(m, ks, v)| <= |m| + |ks|
    decreases |ks|
  {
    if |ks| > 0 {
      var ks' := ks[..|ks| - 1];
      PutAllIfAbsentSpec(m, ks', v);
      var p := PutAllIfAbsent(m, ks', v);
      var k := ks[|ks| - 1];
      assert ks == ks' + [k];
      KeysOfAppend(p, k, v);
    }
  }
}
