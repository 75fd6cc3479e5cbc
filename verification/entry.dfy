/** Index building, the cached index per hardware kind, and the CPU/GPU
    lookup merge (src/entry.js). Fetching the benchmark page is the
    parameter `fetched`: the table rows of the page, or `None` when the
    background fetch failed. */
module Entry {
  import opened Wrappers
  import opened JsMaps
  import opened Records
  import opened Parser
  import opened Storage
  import Seqs

  datatype Kind = Cpu | Gpu

  /** A lookup table from normalised names to records. */
  type Index = JsMap<HardwareRecord>

  /** What the cache holds for a kind: the index as its entry list. */
  type IndexStore = Store<seq<(string, HardwareRecord)>>

  /** `` `passmark-${kind}` ``. */
  function CacheKey(kind: Kind): (r: string)
    ensures r == "passmark-" + (if kind == Cpu then "cpu" else "gpu")
  {
    match kind
    case Cpu => "passmark-cpu"
    case Gpu => "passmark-gpu"
  }

  /** The two kinds are cached under different keys. */
  lemma CacheKeysDistinct()
    ensures CacheKey(Cpu) != CacheKey(Gpu)
  {
    assert CacheKey(Cpu)[9] != CacheKey(Gpu)[9];
  }

  /** The list parser for a kind. */
  function ParseList(kind: Kind, rows: seq<Row>): seq<HardwareRecord>
  {
    if kind == Cpu then ParseCpuList(rows) else ParseGpuList(rows)
  }

  /** Each record paired with its key. */
  function KeyedEntries(list: seq<HardwareRecord>): (es: seq<(string, HardwareRecord)>)
    ensures |es| == |list|
    ensures forall i :: 0 <= i < |list| ==> es[i] == (list[i].key, list[i])
  {
    seq(|list|, i requires 0 <= i < |list| => (list[i].key, list[i]))
  }

  /** `const map = new Map(); for (const item of list) map.set(item.key, item)`. */
  function BuildIndex(list: seq<HardwareRecord>): (r: Index)
    ensures Valid(r)
    ensures forall i :: 0 <= i < |r.entries| ==> r.entries[i].1 in list && r.entries[i].1.key == r.entries[i].0
  {
    var es := KeyedEntries(list);
    var r := FromEntries(es);
    assert forall i :: 0 <= i < |r.entries| ==> r.entries[i] in es;
    r
  }

  /** The index holds exactly the keys of the items, in order of first
      appearance. */
  lemma BuildIndexKeys(list: seq<HardwareRecord>)
    ensures KeysOf(BuildIndex(list).entries) == Seqs.Dedup(KeysOf(KeyedEntries(list)))
    ensures forall k :: Has(BuildIndex(list), k) <==> exists i :: 0 <= i < |list| && list[i].key == k
  {
    var es := KeyedEntries(list);
    var idx := BuildIndex(list);
    FromEntriesKeys(es);
    var ks := KeysOf(es);
    var d := Seqs.Dedup(ks);
    forall k
      ensures Has(idx, k) <==> exists i :: 0 <= i < |list| && list[i].key == k
    {
      HasIffInKeys(idx, k);
      if Has(idx, k) {
        var j :| 0 <= j < |d| && d[j] == k;
        assert d[j] in ks;
        var i :| 0 <= i < |ks| && ks[i] == k;
        assert list[i].key == k;
      }
      if exists i :: 0 <= i < |list| && list[i].key == k {
        var i :| 0 <= i < |list| && list[i].key == k;
        assert ks[i] == k;
        assert ks[i] in d;
      }
    }
  }

  /** On a duplicate key the last item with that key wins. */
  lemma BuildIndexLastWins(list: seq<HardwareRecord>, i: nat)
    requires i < |list|
    requires forall j :: i < j < |list| ==> list[j].key != list[i].key
    ensures Get(BuildIndex(list), list[i].key) == Some(list[i])
  {
    var es := KeyedEntries(list);
    FromEntriesLastWins(es);
    assert es[i] == (list[i].key, list[i]);
  }

  /** `const lookup = new Map(cpuIndex); for (const [k, v] of gpuIndex) if
      (!lookup.has(k)) lookup.set(k, v)`. */
  function Merge(cpu: Index, gpu: Index): (r: Index)
    ensures Valid(r)
  {
    AddMissing(FromEntries(cpu.entries), gpu.entries)
  }

  /** The merged lookup answers with the CPU item when the CPU index has the
      key, and with the GPU item otherwise; so its keys are the union of
      both. */
  lemma MergeGet(cpu: Index, gpu: Index, k: string)
    requires Valid(cpu)
    ensures Get(Merge(cpu, gpu), k) == if Has(cpu, k) then Get(cpu, k) else Get(gpu, k)
    ensures Has(Merge(cpu, gpu), k) <==> Has(cpu, k) || Has(gpu, k)
  {
    FromEntriesRoundTrip(cpu);
    AddMissingGet(cpu, gpu.entries, k);
  }

  /** The merged lookup lists the CPU keys first, in their order. */
  lemma MergeKeepsCpuOrder(cpu: Index, gpu: Index)
    requires Valid(cpu)
    ensures |cpu.entries| <= |Merge(cpu, gpu).entries|
    ensures KeysOf(Merge(cpu, gpu).entries)[..|cpu.entries|] == KeysOf(cpu.entries)
  {
    FromEntriesRoundTrip(cpu);
  }

  /** The outcome of `ensureIndex`: the index, or `None` when the fetch
      failed and the call threw, and the cache afterwards. */
  datatype Ensured = Ensured(index: Option<Index>, store: IndexStore)

  /** `ensureIndex(kind)`, reading the cache at time `now`: a fresh cache
      entry is rebuilt into a map; otherwise the fetched page is parsed,
      indexed, and its entry list cached under the kind's key, stamped with
      the time `written` that `setCached` reads once the fetch is done. */
  function EnsureIndex(store: IndexStore, now: int, written: int, kind: Kind, fetched: Option<seq<Row>>): (r: Ensured)
    ensures r.index.Some? ==> Valid(r.index.value)
    ensures r.index.None? <==> GetCached(store, CacheKey(kind), now).None? && fetched.None?
    ensures GetCached(store, CacheKey(kind), now).Some? ==>
      r.store == store && r.index == Some(FromEntries(store[CacheKey(kind)].payload))
    ensures GetCached(store, CacheKey(kind), now).None? && fetched.Some? ==>
      var idx := BuildIndex(ParseList(kind, fetched.value));
      && r.index == Some(idx)
      && r.store == SetCached(store, CacheKey(kind), idx.entries, written)
    ensures r.store.Keys <= store.Keys + {CacheKey(kind)}
    ensures forall k :: k in store && k != CacheKey(kind) ==> k in r.store && r.store[k] == store[k]
  {
    match GetCached(store, CacheKey(kind), now)
    case Some(entries) => Ensured(Some(FromEntries(entries)), store)
    case None =>
      match fetched
      case None => Ensured(None, store)
      case Some(rows) =>
        var idx := BuildIndex(ParseList(kind, rows));
        Ensured(Some(idx), SetCached(store, CacheKey(kind), idx.entries, written))
  }

  /** After a fetch whose result was cached at time `w`, a second call
      within seven days of `w` is answered from the cache with the same
      index, whatever a fetch would have returned, and leaves the cache as
      it is. */
  lemma RepeatIsCached(store: IndexStore, t: int, w: int, kind: Kind, rows: seq<Row>,
                       t2: int, w2: int, fetched2: Option<seq<Row>>)
    requires GetCached(store, CacheKey(kind), t).None?
    requires t2 - w <= TtlMs
    ensures var r1 := EnsureIndex(store, t, w, kind, Some(rows));
      var r2 := EnsureIndex(r1.store, t2, w2, kind, fetched2);
      r2.index == r1.index && r2.store == r1.store
  {
    var r1 := EnsureIndex(store, t, w, kind, Some(rows));
    FromEntriesRoundTrip(r1.index.value);
  }

  /** The two kinds touch different cache keys, so running them in either
      order, each at its own read and write times, gives the same indexes
      and the same cache. */
  lemma KindsCommute(store: IndexStore, cpuNow: int, cpuWritten: int, gpuNow: int, gpuWritten: int,
                     cpuRows: Option<seq<Row>>, gpuRows: Option<seq<Row>>)
    ensures
      var c1 := EnsureIndex(store, cpuNow, cpuWritten, Cpu, cpuRows);
      var g1 := EnsureIndex(c1.store, gpuNow, gpuWritten, Gpu, gpuRows);
      var g2 := EnsureIndex(store, gpuNow, gpuWritten, Gpu, gpuRows);
      var c2 := EnsureIndex(g2.store, cpuNow, cpuWritten, Cpu, cpuRows);
      c1.index == c2.index && g1.index == g2.index && g1.store == c2.store
  {
    CacheKeysDistinct();
    OtherKindUnaffected(store, cpuNow, cpuWritten, Cpu, cpuRows, gpuNow, Gpu, gpuRows);
    OtherKindUnaffected(store, gpuNow, gpuWritten, Gpu, gpuRows, cpuNow, Cpu, cpuRows);
    var c1 := EnsureIndex(store, cpuNow, cpuWritten, Cpu, cpuRows);
    var g2 := EnsureIndex(store, gpuNow, gpuWritten, Gpu, gpuRows);
    var sc := Written(store, cpuNow, cpuWritten, Cpu, cpuRows);
    var sg := Written(store, gpuNow, gpuWritten, Gpu, gpuRows);
    WrittenIsStore(store, cpuNow, cpuWritten, Cpu, cpuRows);
    WrittenIsStore(store, gpuNow, gpuWritten, Gpu, gpuRows);
    WrittenIsStore(c1.store, gpuNow, gpuWritten, Gpu, gpuRows);
    WrittenIsStore(g2.store, cpuNow, cpuWritten, Cpu, cpuRows);
    assert Written(c1.store, gpuNow, gpuWritten, Gpu, gpuRows) == sg;
    assert Written(g2.store, cpuNow, cpuWritten, Cpu, cpuRows) == sc;
    UpdatesCommute(store, CacheKey(Cpu), sc, CacheKey(Gpu), sg);
  }

  /** The cache entry `ensureIndex` writes, if any. */
  function Written(store: IndexStore, now: int, written: int, kind: Kind, fetched: Option<seq<Row>>): Option<CacheEntry<seq<(string, HardwareRecord)>>>
  {
    if GetCached(store, CacheKey(kind), now).None? && fetched.Some? then
      Some(CacheEntry(written, BuildIndex(ParseList(kind, fetched.value)).entries))
    else None
  }

  function Update(store: IndexStore, k: string, w: Option<CacheEntry<seq<(string, HardwareRecord)>>>): IndexStore
  {
    match w
    case None => store
    case Some(e) => store[k := e]
  }

  lemma WrittenIsStore(store: IndexStore, now: int, written: int, kind: Kind, fetched: Option<seq<Row>>)
    ensures EnsureIndex(store, now, written, kind, fetched).store
      == Update(store, CacheKey(kind), Written(store, now, written, kind, fetched))
  {
  }

  lemma UpdatesCommute(store: IndexStore, a: string, wa: Option<CacheEntry<seq<(string, HardwareRecord)>>>,
                       b: string, wb: Option<CacheEntry<seq<(string, HardwareRecord)>>>)
    requires a != b
    ensures Update(Update(store, a, wa), b, wb) == Update(Update(store, b, wb), a, wa)
  {
  }

  /** Ensuring one kind's index leaves what the other kind's call sees and
      does unchanged, whenever that call reads the cache. */
  lemma OtherKindUnaffected(store: IndexStore, aNow: int, aWritten: int, a: Kind, aRows: Option<seq<Row>>,
                            bNow: int, b: Kind, bRows: Option<seq<Row>>)
    requires a != b
    ensures var ra := EnsureIndex(store, aNow, aWritten, a, aRows);
      && GetCached(ra.store, CacheKey(b), bNow) == GetCached(store, CacheKey(b), bNow)
      && forall bWritten: int :: EnsureIndex(ra.store, bNow, bWritten, b, bRows).index
                                  == EnsureIndex(store, bNow, bWritten, b, bRows).index
  {
    CacheKeysDistinct();
    var ra := EnsureIndex(store, aNow, aWritten, a, aRows);
    var kb := CacheKey(b);
    if kb in store {
      assert ra.store[kb] == store[kb];
    }
    assert GetCached(ra.store, kb, bNow) == GetCached(store, kb, bNow);
    forall bWritten: int
      ensures EnsureIndex(ra.store, bNow, bWritten, b, bRows).index == EnsureIndex(store, bNow, bWritten, b, bRows).index
    {
      SameViewSameIndex(ra.store, store, bNow, bWritten, b, bRows);
    }
  }

  /** `ensureIndex` sees the cache only through `getCached` of its key. */
  lemma SameViewSameIndex(s1: IndexStore, s2: IndexStore, now: int, written: int, kind: Kind, fetched: Option<seq<Row>>)
    requires GetCached(s1, CacheKey(kind), now) == GetCached(s2, CacheKey(kind), now)
    ensures EnsureIndex(s1, now, written, kind, fetched).index == EnsureIndex(s2, now, written, kind, fetched).index
  {
  }

  /** The outcome of `run` up to the page scan: the merged lookup, or
      `None` when either index could not be had, and the cache afterwards. */
  datatype Loaded = Loaded(lookup: Option<Index>, store: IndexStore)

  /** The loading half of `run`: both indexes are ensured, each with its own
      cache read and write times (each writes its own cache key, so their
      order does not matter), and when both are had they are merged with
      the CPU entries taking precedence. */
  function Load(store: IndexStore, cpuNow: int, cpuWritten: int, gpuNow: int, gpuWritten: int,
                cpuRows: Option<seq<Row>>, gpuRows: Option<seq<Row>>): (r: Loaded)
    ensures
      var c := EnsureIndex(store, cpuNow, cpuWritten, Cpu, cpuRows);
      var g := EnsureIndex(c.store, gpuNow, gpuWritten, Gpu, gpuRows);
      && (r.lookup.Some? <==> c.index.Some? && g.index.Some?)
      && (r.lookup.Some? ==>
            forall k :: Get(r.lookup.value, k) ==
              if Has(c.index.value, k) then Get(c.index.value, k) else Get(g.index.value, k))
  {
    var c := EnsureIndex(store, cpuNow, cpuWritten, Cpu, cpuRows);
    var g := EnsureIndex(c.store, gpuNow, gpuWritten, Gpu, gpuRows);
    if c.index.Some? && g.index.Some? then
      forall k
        ensures Get(Merge(c.index.value, g.index.value), k) ==
          if Has(c.index.value, k) then Get(c.index.value, k) else Get(g.index.value, k)
      {
        MergeGet(c.index.value, g.index.value, k);
      }
      Loaded(Some(Merge(c.index.value, g.index.value)), g.store)
    else Loaded(None, g.store)
  }
}
