/**
 * The process-local analysis cache of app/api/analyze/route.ts: a JavaScript
 * `Map` from cache key to `{words, ts}`, read with lazy expiry after 30
 * minutes and written with eviction of the first-inserted key once 200
 * entries are held. The map's iteration order is its insertion order, which
 * is kept explicitly as the sequence `keys`.
 */
module AnalysisCache {
  import opened Wrappers
  import opened Js
  import Seqs

  /**
   * One element of a model response's `words` array: an object, field name to
   * value, or any other JSON value (`null`, a string, a number, an array).
   */
  datatype RawWord = Object(fields: map<string, Value>) | Other(value: Value)

  /** 30 minutes, in milliseconds. */
  const CacheTtl: int := 1000 * 60 * 30
  const MaxCacheSize: nat := 200

  datatype Entry = Entry(words: seq<RawWord>, ts: int)

  /** The contents of the `Map`: its keys in insertion order and its entries. */
  datatype CacheState = CacheState(keys: seq<string>, entries: map<string, Entry>)

  predicate Distinct(keys: seq<string>) {
    forall i, j :: 0 <= i < j < |keys| ==> keys[i] != keys[j]
  }

  /** `keys` lists every key of `entries` exactly once. */
  ghost predicate ValidState(st: CacheState) {
    Distinct(st.keys) && forall k :: k in st.entries <==> k in st.keys
  }

  /** The filter that drops `k`. */
  function Other(k: string): string -> bool {
    x => x != k
  }

  /** `keys` without `k`, the others in their order. */
  function Remove(keys: seq<string>, k: string): (r: seq<string>)
    ensures forall x :: x in r <==> x in keys && x != k
    ensures Distinct(keys) ==> Distinct(r)
    ensures k !in keys ==> r == keys
    ensures Distinct(keys) && keys != [] && keys[0] == k ==> r == keys[1..]
  {
    if keys == [] then []
    else if keys[0] == k then Remove(keys[1..], k)
    else DistinctTail(keys); [keys[0]] + Remove(keys[1..], k)
  }

  /** Deleting a key keeps the other keys in their insertion order: it is `filter(x => x !== k)`. */
  lemma {:induction false} RemoveKeepsOrder(keys: seq<string>, k: string)
    ensures Remove(keys, k) == Seqs.Filter(keys, Other(k))
    decreases |keys|
  {
    if keys != [] {
      RemoveKeepsOrder(keys[1..], k);
    }
  }

  lemma DistinctTail(keys: seq<string>)
    requires keys != []
    ensures Distinct(keys) ==> Distinct(keys[1..]) && keys[0] !in keys[1..]
  {
    if Distinct(keys) {
      forall j | 0 <= j < |keys| - 1 ensures keys[1..][j] != keys[0] {
        assert keys[1..][j] == keys[j + 1];
      }
    }
  }

  lemma DeleteValid(st: CacheState, k: string)
    requires ValidState(st)
    ensures ValidState(Delete(st, k))
  {
  }

  lemma PutValid(st: CacheState, k: string, e: Entry)
    requires ValidState(st)
    ensures ValidState(Put(st, k, e))
  {
    if k !in st.entries {
      var ks := st.keys + [k];
      forall i, j | 0 <= i < j < |ks| ensures ks[i] != ks[j] {
        if j == |ks| - 1 {
          assert ks[i] == st.keys[i];
        } else {
          assert ks[i] == st.keys[i] && ks[j] == st.keys[j];
        }
      }
    }
  }

  /** `map.delete(k)`. */
  function Delete(st: CacheState, k: string): CacheState {
    CacheState(Remove(st.keys, k), st.entries - {k})
  }

  /** `map.set(k, e)`: an existing key keeps its place in the order, a new key goes last. */
  function Put(st: CacheState, k: string, e: Entry): CacheState {
    if k in st.entries then CacheState(st.keys, st.entries[k := e])
    else CacheState(st.keys + [k], st.entries[k := e])
  }

  /** What `getFromCache(key)` returns at time `now`. */
  function Lookup(st: CacheState, key: string, now: int): Option<seq<RawWord>> {
    if key !in st.entries || now - st.entries[key].ts > CacheTtl then None
    else Some(st.entries[key].words)
  }

  /** The map after `getFromCache(key)` at time `now`: an expired entry is deleted. */
  function AfterLookup(st: CacheState, key: string, now: int): CacheState {
    if key in st.entries && now - st.entries[key].ts > CacheTtl then Delete(st, key) else st
  }

  /** Whether `setCache` deletes the first-inserted key first: the map is full and that key is truthy. */
  predicate EvictsOldest(st: CacheState) {
    |st.keys| >= MaxCacheSize && st.keys[0] != ""
  }

  /** The map after `setCache(key, words)` at time `now`. */
  function AfterSet(st: CacheState, key: string, words: seq<RawWord>, now: int): CacheState {
    var st1 := if EvictsOldest(st) then Delete(st, st.keys[0]) else st;
    Put(st1, key, Entry(words, now))
  }

  /** A live entry is returned and stays; an expired or absent one yields nothing, and the expired one is gone. */
  lemma LookupSpec(st: CacheState, key: string, now: int)
    requires ValidState(st)
    ensures key in st.entries && now - st.entries[key].ts <= CacheTtl ==>
      Lookup(st, key, now) == Some(st.entries[key].words) && AfterLookup(st, key, now) == st
    ensures key in st.entries && now - st.entries[key].ts > CacheTtl ==>
      Lookup(st, key, now).None? && key !in AfterLookup(st, key, now).entries
      && AfterLookup(st, key, now).entries == st.entries - {key}
    ensures key !in st.entries ==> Lookup(st, key, now).None? && AfterLookup(st, key, now) == st
    ensures ValidState(AfterLookup(st, key, now))
  {
  }

  /** `setCache` as a change of the key order and of the entries. */
  lemma SetSpec(st: CacheState, key: string, words: seq<RawWord>, now: int)
    requires ValidState(st)
    ensures var kept := if EvictsOldest(st) then st.keys[1..] else st.keys;
      var r := AfterSet(st, key, words, now);
      r.keys == (if key in kept then kept else kept + [key])
      && r.entries == (if EvictsOldest(st) then st.entries - {st.keys[0]} else st.entries)[key := Entry(words, now)]
    ensures ValidState(AfterSet(st, key, words, now))
    ensures var r := AfterSet(st, key, words, now);
      forall k :: k in st.entries && k != key && !(EvictsOldest(st) && k == st.keys[0]) ==>
        k in r.entries && r.entries[k] == st.entries[k]
  {
    if EvictsOldest(st) {
      var st1 := Delete(st, st.keys[0]);
      assert st1.keys == st.keys[1..];
      assert ValidState(st1);
      PutValid(st1, key, Entry(words, now));
    } else {
      PutValid(st, key, Entry(words, now));
    }
  }

  /** The set of keys of a duplicate-free sequence has as many members as the sequence. */
  lemma {:induction false} DistinctCardinality(keys: seq<string>)
    requires Distinct(keys)
    ensures |set k | k in keys| == |keys|
    decreases |keys|
  {
    if keys != [] {
      var tail := keys[1..];
      DistinctCardinality(tail);
      assert (set k | k in keys) == (set k | k in tail) + {keys[0]};
      assert keys[0] !in tail by {
        forall j | 0 <= j < |tail| ensures tail[j] != keys[0] {
          assert tail[j] == keys[j + 1];
        }
      }
    }
  }

  /** The key order after `setCache`, and the map stays well formed. */
  lemma SetKeys(st: CacheState, key: string, words: seq<RawWord>, now: int)
    requires ValidState(st)
    ensures var kept := if EvictsOldest(st) then st.keys[1..] else st.keys;
      AfterSet(st, key, words, now).keys == (if key in kept then kept else kept + [key])
    ensures ValidState(AfterSet(st, key, words, now))
  {
    SetSpec(st, key, words, now);
  }

  /** The `Map`'s `size` is the length of the key order. */
  lemma SizeIsKeyCount(st: CacheState)
    requires ValidState(st)
    ensures |st.entries| == |st.keys|
  {
    assert st.entries.Keys == set k | k in st.keys;
    DistinctCardinality(st.keys);
  }

  /** No key of the map is the empty string, which `setCache` would decline to evict. */
  predicate TruthyKeys(st: CacheState) {
    forall i :: 0 <= i < |st.keys| ==> st.keys[i] != ""
  }

  /** With truthy keys, a map of at most 200 entries still holds at most 200 after `setCache`. */
  lemma SetBounded(st: CacheState, key: string, words: seq<RawWord>, now: int)
    requires ValidState(st) && TruthyKeys(st) && |st.entries| <= MaxCacheSize && key != ""
    ensures |AfterSet(st, key, words, now).entries| <= MaxCacheSize
    ensures TruthyKeys(AfterSet(st, key, words, now))
  {
    SizeIsKeyCount(st);
    SetKeys(st, key, words, now);
    var r := AfterSet(st, key, words, now);
    SizeIsKeyCount(r);
    var kept := if EvictsOldest(st) then st.keys[1..] else st.keys;
    assert |kept| < MaxCacheSize by {
      assert |st.keys| >= MaxCacheSize ==> st.keys[0] != "";
    }
    assert |r.keys| <= |kept| + 1;
    assert forall i :: 0 <= i < |kept| ==> kept[i] != "" by {
      if EvictsOldest(st) {
        forall i | 0 <= i < |kept| ensures kept[i] != "" {
          assert kept[i] == st.keys[i + 1];
        }
      }
    }
    AppendTruthy(kept, key);
  }

  lemma AppendTruthy(kept: seq<string>, key: string)
    requires forall i :: 0 <= i < |kept| ==> kept[i] != ""
    requires key != ""
    ensures var keys := if key in kept then kept else kept + [key];
      forall i :: 0 <= i < |keys| ==> keys[i] != ""
  {
  }

  /**
   * When the map is full, `setCache` removes exactly its first-inserted key
   * (which comes back last when it is the key being set); it stays full
   * unless the key being set was already held elsewhere.
   */
  lemma SetEvictsOldest(st: CacheState, key: string, words: seq<RawWord>, now: int)
    requires ValidState(st) && TruthyKeys(st) && |st.entries| == MaxCacheSize
    ensures var r := AfterSet(st, key, words, now);
      r.keys == (if key in st.keys[1..] then st.keys[1..] else st.keys[1..] + [key])
    ensures st.keys[0] != key ==> st.keys[0] !in AfterSet(st, key, words, now).entries
    ensures |AfterSet(st, key, words, now).entries| == if key in st.keys[1..] then MaxCacheSize - 1 else MaxCacheSize
  {
    SizeIsKeyCount(st);
    assert st.keys[0] != "";
    var st1 := Delete(st, st.keys[0]);
    assert st1.keys == st.keys[1..];
    assert forall k :: k in st1.entries <==> k in st.keys[1..];
    var r := Put(st1, key, Entry(words, now));
    assert r == AfterSet(st, key, words, now);
    DeleteValid(st, st.keys[0]);
    PutValid(st1, key, Entry(words, now));
    SizeIsKeyCount(r);
  }

  /** Reading back within the time-to-live returns exactly the words just written. */
  lemma SetThenLookup(st: CacheState, key: string, words: seq<RawWord>, now: int, later: int)
    requires later - now <= CacheTtl
    ensures Lookup(AfterSet(st, key, words, now), key, later) == Some(words)
    ensures AfterLookup(AfterSet(st, key, words, now), key, later) == AfterSet(st, key, words, now)
  {
  }

  /** Reading never adds a key: truthy keys stay truthy and the map does not grow. */
  lemma LookupKeepsBounds(st: CacheState, key: string, now: int)
    requires ValidState(st) && TruthyKeys(st)
    ensures TruthyKeys(AfterLookup(st, key, now))
    ensures |AfterLookup(st, key, now).entries| <= |st.entries|
  {
    var r := AfterLookup(st, key, now);
    forall i | 0 <= i < |r.keys| ensures r.keys[i] != "" {
      assert r.keys[i] in st.keys;
    }
  }

  /** Every cached word list is non-empty. */
  predicate NoEmptyResults(st: CacheState) {
    forall k :: k in st.entries ==> st.entries[k].words != []
  }

  /** Reading never stores anything, and writing a non-empty list keeps every cached list non-empty. */
  lemma NoEmptyResultsPreserved(st: CacheState, key: string, words: seq<RawWord>, now: int)
    requires NoEmptyResults(st)
    ensures NoEmptyResults(AfterLookup(st, key, now))
    ensures words != [] ==> NoEmptyResults(AfterSet(st, key, words, now))
  {
  }

  /** The module-level `analysisCache` together with `getFromCache` and `setCache`. */
  class Cache {
    var keys: seq<string>
    var entries: map<string, Entry>

    function State(): CacheState
      reads this
    {
      CacheState(keys, entries)
    }

    ghost predicate Valid()
      reads this
    {
      ValidState(State())
    }

    constructor ()
      ensures Valid() && State() == CacheState([], map[])
    {
      keys := [];
      entries := map[];
    }

    /** `getFromCache(key)` at time `now`. */
    method Get(key: string, now: int) returns (r: Option<seq<RawWord>>)
      requires Valid()
      modifies this
      ensures Valid()
      ensures r == Lookup(old(State()), key, now)
      ensures State() == AfterLookup(old(State()), key, now)
    {
      if key !in entries {
        return None;
      }
      var entry := entries[key];
      if now - entry.ts > CacheTtl {
        keys := Remove(keys, key);
        entries := entries - {key};
        return None;
      }
      return Some(entry.words);
    }

    /** `setCache(key, words)` at time `now`. */
    method Set(key: string, words: seq<RawWord>, now: int)
      requires Valid()
      modifies this
      ensures Valid()
      ensures State() == AfterSet(old(State()), key, words, now)
    {
      SetSpec(State(), key, words, now);
      if |keys| >= MaxCacheSize {
        var oldest := keys[0];
        if oldest != "" {
          keys := keys[1..];
          entries := entries - {oldest};
        }
      }
      if key in entries {
        entries := entries[key := Entry(words, now)];
      } else {
        keys := keys + [key];
        entries := entries[key := Entry(words, now)];
      }
    }
  }
}
