/** JavaScript's `Map` with string keys, as the list of its entries in
    insertion order: `set` on a present key replaces the value in place,
    on a new key appends an entry; `new Map(entries)` replays `set` over
    the entries in order. */
module JsMaps {
  import opened Wrappers
  import Seqs

  datatype JsMap<V> = JsMap(entries: seq<(string, V)>)

  /** The keys of a list of entries, in order. */
  function KeysOf<V>(es: seq<(string, V)>): (ks: seq<string>)
    ensures |ks| == |es|
    ensures forall i :: 0 <= i < |es| ==> ks[i] == es[i].0
  {
    seq(|es|, i requires 0 <= i < |es| => es[i].0)
  }

  /** The entries of a map have pairwise distinct keys. */
  predicate Valid<V>(m: JsMap<V>)
  {
    forall i, j :: 0 <= i < j < |m.entries| ==> m.entries[i].0 != m.entries[j].0
  }

  /** The position of the first entry with key `k`. */
  function IndexOfKey<V>(es: seq<(string, V)>, k: string): (r: Option<nat>)
    ensures r.Some? ==> r.value < |es| && es[r.value].0 == k
    ensures r.Some? ==> forall j :: 0 <= j < r.value ==> es[j].0 != k
    ensures r.None? <==> forall j :: 0 <= j < |es| ==> es[j].0 != k
  {
    if es == [] then None
    else if es[0].0 == k then Some(0)
    else match IndexOfKey(es[1..], k)
      case None => None
      case Some(i) => Some(i + 1)
  }

  /** `m.has(k)`. */
  predicate Has<V>(m: JsMap<V>, k: string)
  {
    IndexOfKey(m.entries, k).Some?
  }

  /** `m.get(k)`, with `None` for `undefined`. */
  function Get<V>(m: JsMap<V>, k: string): (r: Option<V>)
    ensures r.Some? <==> Has(m, k)
  {
    match IndexOfKey(m.entries, k)
    case None => None
    case Some(i) => Some(m.entries[i].1)
  }

  /** In a map with distinct keys, the entry at position `i` is what `get`
      returns for its key. */
  lemma GetAt<V>(m: JsMap<V>, i: nat)
    requires Valid(m) && i < |m.entries|
    ensures Get(m, m.entries[i].0) == Some(m.entries[i].1)
  {
  }

  /** Two entry lists with the same keys find a key at the same position. */
  lemma IndexOfSameKeys<V>(a: seq<(string, V)>, b: seq<(string, V)>, k: string)
    requires KeysOf(a) == KeysOf(b)
    ensures IndexOfKey(a, k) == IndexOfKey(b, k)
  {
    var ia := IndexOfKey(a, k);
    var ib := IndexOfKey(b, k);
    assert forall j :: 0 <= j < |a| ==> a[j].0 == b[j].0 by {
      forall j | 0 <= j < |a|
        ensures a[j].0 == b[j].0
      {
        assert KeysOf(a)[j] == KeysOf(b)[j];
      }
    }
    if ia.Some? && ib.Some? {
      assert !(ia.value < ib.value) && !(ib.value < ia.value);
    }
  }

  /** `m.set(k, v)`. */
  function Set<V>(m: JsMap<V>, k: string, v: V): (r: JsMap<V>)
    requires Valid(m)
    ensures Valid(r)
    ensures Get(r, k) == Some(v)
    ensures forall k' :: k' != k ==> Get(r, k') == Get(m, k')
    ensures Has(m, k) ==> KeysOf(r.entries) == KeysOf(m.entries)
    ensures !Has(m, k) ==> KeysOf(r.entries) == KeysOf(m.entries) + [k]
    ensures forall i :: 0 <= i < |r.entries| ==> r.entries[i] in m.entries || r.entries[i] == (k, v)
  {
    match IndexOfKey(m.entries, k)
    case Some(i) =>
      var r := JsMap(m.entries[i := (k, v)]);
      assert KeysOf(r.entries) == KeysOf(m.entries);
      forall k' | k' != k
        ensures Get(r, k') == Get(m, k')
      {
        IndexOfSameKeys(r.entries, m.entries, k');
      }
      r
    case None =>
      var r := JsMap(m.entries + [(k, v)]);
      assert KeysOf(r.entries) == KeysOf(m.entries) + [k];
      AppendNewKey(m.entries, (k, v));
      forall k' | k' != k
        ensures Get(r, k') == Get(m, k')
      {
        AppendKeepsIndex(m.entries, (k, v), k');
      }
      r
  }

  /** The first position holding key `k` is the one `IndexOfKey` finds. */
  lemma IndexOfKeyIs<V>(es: seq<(string, V)>, k: string, i: nat)
    requires i < |es| && es[i].0 == k
    requires forall j :: 0 <= j < i ==> es[j].0 != k
    ensures IndexOfKey(es, k) == Some(i)
  {
  }

  lemma AppendKeepsIndex<V>(es: seq<(string, V)>, e: (string, V), k: string)
    requires e.0 != k
    ensures IndexOfKey(es + [e], k) == IndexOfKey(es, k)
  {
    var es' := es + [e];
    match IndexOfKey(es, k)
    case Some(i) =>
      assert es'[i] == es[i];
      assert forall j :: 0 <= j < i ==> es'[j] == es[j];
      IndexOfKeyIs(es', k, i);
    case None =>
      assert forall j :: 0 <= j < |es'| ==> es'[j].0 != k by {
        forall j | 0 <= j < |es'|
          ensures es'[j].0 != k
        {
          if j < |es| {
            assert es'[j] == es[j];
          }
        }
      }
  }

  lemma AppendNewKey<V>(es: seq<(string, V)>, e: (string, V))
    requires IndexOfKey(es, e.0).None?
    ensures IndexOfKey(es + [e], e.0) == Some(|es|)
  {
    var es' := es + [e];
    assert forall j :: 0 <= j < |es| ==> es'[j] == es[j];
    IndexOfKeyIs(es', e.0, |es|);
  }

  /** `new Map(es)`: `set` replayed over the entries in order. */
  function FromEntries<V>(es: seq<(string, V)>): (r: JsMap<V>)
    ensures Valid(r)
    ensures forall i :: 0 <= i < |r.entries| ==> r.entries[i] in es
  {
    if es == [] then JsMap([])
    else
      var last := es[|es| - 1];
      Set(FromEntries(es[..|es| - 1]), last.0, last.1)
  }

  /** The keys of `new Map(es)` are the keys of `es` in order of first
      appearance. */
  lemma {:induction false} FromEntriesKeys<V>(es: seq<(string, V)>)
    ensures KeysOf(FromEntries(es).entries) == Seqs.Dedup(KeysOf(es))
    decreases |es|
  {
    if es != [] {
      var init := es[..|es| - 1];
      var last := es[|es| - 1];
      var prev := FromEntries(init);
      FromEntriesKeys(init);
      assert FromEntries(es) == Set(prev, last.0, last.1);
      KeysOfInit(es);
      SetKeysStep(prev, last.0, last.1, KeysOf(init));
    }
  }

  lemma SetKeysStep<V>(m: JsMap<V>, k: string, v: V, ks: seq<string>)
    requires Valid(m) && KeysOf(m.entries) == Seqs.Dedup(ks)
    ensures KeysOf(Set(m, k, v).entries) == Seqs.Dedup(ks + [k])
  {
    HasIffInKeys(m, k);
    Seqs.DedupSnoc(ks, k);
  }

  lemma KeysOfInit<V>(es: seq<(string, V)>)
    requires es != []
    ensures KeysOf(es) == KeysOf(es[..|es| - 1]) + [es[|es| - 1].0]
  {
  }

  /** Each key of `new Map(es)` holds the value of its last entry in `es`. */
  lemma {:induction false} FromEntriesLastWins<V>(es: seq<(string, V)>)
    ensures forall i :: 0 <= i < |es| && (forall j :: i < j < |es| ==> es[j].0 != es[i].0) ==>
      Get(FromEntries(es), es[i].0) == Some(es[i].1)
    decreases |es|
  {
    if es != [] {
      var init := es[..|es| - 1];
      FromEntriesLastWins(init);
      forall i | 0 <= i < |es| - 1 && (forall j :: i < j < |es| ==> es[j].0 != es[i].0)
        ensures Get(FromEntries(es), es[i].0) == Some(es[i].1)
      {
        assert init[i] == es[i];
        assert es[|es| - 1].0 != es[i].0;
        assert forall j :: i < j < |init| ==> init[j] == es[j];
      }
    }
  }

  /** A key is present exactly when it is among the keys of the entries. */
  lemma HasIffInKeys<V>(m: JsMap<V>, k: string)
    ensures Has(m, k) <==> k in KeysOf(m.entries)
  {
    if k in KeysOf(m.entries) {
      var i :| 0 <= i < |m.entries| && KeysOf(m.entries)[i] == k;
      assert m.entries[i].0 == k;
    }
  }

  /** Rebuilding a map from its entry list gives the same map:
      `new Map(Array.from(m.entries()))` equals `m`. */
  lemma {:induction false} FromEntriesRoundTrip<V>(m: JsMap<V>)
    requires Valid(m)
    ensures FromEntries(m.entries) == m
    decreases |m.entries|
  {
    var es := m.entries;
    if es != [] {
      var init := es[..|es| - 1];
      var last := es[|es| - 1];
      ValidInit(m);
      FromEntriesRoundTrip(JsMap(init));
      assert FromEntries(es) == Set(JsMap(init), last.0, last.1);
      SetLastKey(m);
    }
  }

  /** Dropping the last entry keeps the keys distinct. */
  lemma ValidInit<V>(m: JsMap<V>)
    requires Valid(m) && m.entries != []
    ensures Valid(JsMap(m.entries[..|m.entries| - 1]))
  {
  }

  /** Setting the last key of a map on the map without its last entry
      gives the map back. */
  lemma SetLastKey<V>(m: JsMap<V>)
    requires Valid(m) && m.entries != []
    ensures Valid(JsMap(m.entries[..|m.entries| - 1]))
    ensures Set(JsMap(m.entries[..|m.entries| - 1]), m.entries[|m.entries| - 1].0, m.entries[|m.entries| - 1].1) == m
  {
    var es := m.entries;
    var init, last := es[..|es| - 1], es[|es| - 1];
    assert IndexOfKey(init, last.0).None?;
    assert init + [last] == es;
  }

  /** `for (const [k, v] of es) if (!m.has(k)) m.set(k, v)`. The keys of
      `m` stay first, in their order. */
  function AddMissing<V>(m: JsMap<V>, es: seq<(string, V)>): (r: JsMap<V>)
    requires Valid(m)
    ensures Valid(r)
    ensures |m.entries| <= |r.entries|
    ensures KeysOf(r.entries)[..|m.entries|] == KeysOf(m.entries)
    decreases |es|
  {
    if es == [] then m
    else
      var k0 := es[0].0;
      var m' := if Has(m, k0) then m else Set(m, k0, es[0].1);
      assert KeysOf(m'.entries)[..|m.entries|] == KeysOf(m.entries);
      var r := AddMissing(m', es[1..]);
      PrefixOfPrefix(KeysOf(r.entries), KeysOf(m'.entries), KeysOf(m.entries));
      r
  }

  lemma PrefixOfPrefix<T>(a: seq<T>, b: seq<T>, c: seq<T>)
    requires |c| <= |b| <= |a|
    requires a[..|b|] == b && b[..|c|] == c
    ensures a[..|c|] == c
  {
    assert a[..|c|] == a[..|b|][..|c|];
  }

  /** Every key `m` already holds keeps its value, and every other key
      gets the value of its first entry in `es`, or stays absent. */
  lemma {:induction false} AddMissingGet<V>(m: JsMap<V>, es: seq<(string, V)>, k: string)
    requires Valid(m)
    ensures Get(AddMissing(m, es), k) == if Has(m, k) then Get(m, k) else Get(JsMap(es), k)
    decreases |es|
  {
    if es != [] {
      var k0 := es[0].0;
      var m' := if Has(m, k0) then m else Set(m, k0, es[0].1);
      AddMissingGet(m', es[1..], k);
      if k != k0 {
        assert Get(m', k) == Get(m, k);
        TailIndex(es, k);
      }
    }
  }

  /** A key other than the first entry's is found as in the rest of the
      entries. */
  lemma TailIndex<V>(es: seq<(string, V)>, k: string)
    requires es != [] && es[0].0 != k
    ensures Get(JsMap(es), k) == Get(JsMap(es[1..]), k)
  {
    match IndexOfKey(es[1..], k)
    case None =>
    case Some(i) =>
      assert es[1..][i] == es[i + 1];
  }
}
