/** The eviction rule of `setInCache` and `deleteWithMinTime`: when a model already has
    at least `max_count` keys, the key with the least remaining TTL goes. */
module Eviction {
  import opened Types
  import opened Glob
  import opened CacheKeys
  import opened Store

  /** `keys[j]` has the least TTL of all `keys`, and every key before it has a larger one. */
  ghost predicate IsEarliestMin(entries: map<string, Entry>, keys: seq<string>, j: nat)
  {
    && j < |keys|
    && (forall i | 0 <= i < |keys| :: TtlOf(entries, keys[j]) <= TtlOf(entries, keys[i]))
    && (forall i | 0 <= i < j :: TtlOf(entries, keys[j]) < TtlOf(entries, keys[i]))
  }

  /** The index `deleteWithMinTime` settles on: it walks the list keeping the first key
      seen with the smallest TTL, replacing it only on a strictly smaller one. */
  function EarliestMin(entries: map<string, Entry>, keys: seq<string>): (j: nat)
    requires |keys| > 0
    ensures IsEarliestMin(entries, keys, j)
    decreases |keys|
  {
    if |keys| == 1 then 0
    else
      var j := EarliestMin(entries, keys[..|keys| - 1]);
      if TtlOf(entries, keys[|keys| - 1]) < TtlOf(entries, keys[j]) then |keys| - 1 else j
  }

  /** Only one index is the earliest minimum. */
  lemma EarliestMinUnique(entries: map<string, Entry>, keys: seq<string>, j: nat)
    requires IsEarliestMin(entries, keys, j)
    ensures j == EarliestMin(entries, keys)
  {
  }

  /** The entries after the eviction step of `setInCache`, given the scanned `keys`. */
  function Evicted(entries: map<string, Entry>, keys: seq<string>, maxCount: int): (r: map<string, Entry>)
    requires maxCount >= 1
    ensures forall k | k in r :: k in entries && r[k] == entries[k]
    ensures forall k | k in entries && k !in r :: |keys| >= maxCount && k == keys[EarliestMin(entries, keys)]
  {
    if |keys| >= maxCount then entries - {keys[EarliestMin(entries, keys)]} else entries
  }

  /** The eviction step never adds a key, so no pattern matches more keys after it. */
  lemma EvictedCountNoLarger(entries: map<string, Entry>, keys: seq<string>, maxCount: int, pattern: string)
    requires maxCount >= 1
    ensures |MatchingKeys(Evicted(entries, keys, maxCount), pattern)| <= |MatchingKeys(entries, pattern)|
  {
    var after, before := MatchingKeys(Evicted(entries, keys, maxCount), pattern), MatchingKeys(entries, pattern);
    assert before == after + (before - after);
    assert after * (before - after) == {};
  }

  /** The eviction step removes nothing while fewer than `maxCount` keys are scanned, and
      otherwise exactly one scanned key: one whose TTL is least, the first such in list
      order. Every other entry keeps its value and TTL. */
  lemma EvictionRemovesOneMinimal(entries: map<string, Entry>, keys: seq<string>, maxCount: int)
    requires maxCount >= 1
    ensures forall k | k in Evicted(entries, keys, maxCount) :: k in entries && Evicted(entries, keys, maxCount)[k] == entries[k]
    ensures |keys| < maxCount ==> Evicted(entries, keys, maxCount) == entries
    ensures |keys| >= maxCount ==>
      exists j: nat :: IsEarliestMin(entries, keys, j) && Evicted(entries, keys, maxCount) == entries - {keys[j]}
  {
    if |keys| >= maxCount {
      var j := EarliestMin(entries, keys);
      assert IsEarliestMin(entries, keys, j);
    }
  }

  /** The insertion of `setInCache` keeps the capacity bound: if at most `maxCount` keys
      match the model's scan pattern before a fresh key of that model is inserted, at most
      `maxCount` match afterwards. */
  lemma {:induction false} InsertKeepsCapacity(entries: map<string, Entry>, keys: seq<string>,
                                               model: string, id: Option<nat>, e: Entry, maxCount: int)
    requires maxCount >= 1
    requires NoWildcards(model)
    requires IsScan(entries, ScanPattern(model), keys)
    requires Key(model, id) !in entries
    requires |MatchingKeys(entries, ScanPattern(model))| <= maxCount
    ensures |MatchingKeys(Evicted(entries, keys, maxCount)[Key(model, id) := e], ScanPattern(model))| <= maxCount
  {
    var p := ScanPattern(model);
    var k := Key(model, id);
    var before := MatchingKeys(entries, p);
    var after := Evicted(entries, keys, maxCount)[k := e];
    ScanSize(entries, p, keys);
    OwnKeyScanned(model, id);
    if |keys| >= maxCount {
      var v := keys[EarliestMin(entries, keys)];
      assert v in before;
      assert MatchingKeys(after, p) == before - {v} + {k};
      assert |before - {v}| == |before| - 1;
    } else {
      assert MatchingKeys(after, p) == before + {k};
    }
  }

  /** The SET of `setAttribute` has no eviction step: when its key is absent (evicted or
      cleared since `find`), the write adds one more key to the class's count, so a class
      already at `maxCount` keys ends above it. */
  lemma RewriteAddsCountedKey(entries: map<string, Entry>, model: string, id: Option<nat>, e: Entry)
    requires NoWildcards(model)
    requires Key(model, id) !in entries
    ensures |MatchingKeys(entries[Key(model, id) := e], ScanPattern(model))|
         == |MatchingKeys(entries, ScanPattern(model))| + 1
  {
    OwnKeyScanned(model, id);
    assert MatchingKeys(entries[Key(model, id) := e], ScanPattern(model))
        == MatchingKeys(entries, ScanPattern(model)) + {Key(model, id)};
  }

  /** When every listed key has the same TTL, as every entry the repository writes has,
      the first key in KEYS order is the one evicted. */
  lemma {:induction false} EqualTtlsEvictFirst(entries: map<string, Entry>, keys: seq<string>, t: int)
    requires |keys| > 0
    requires forall i | 0 <= i < |keys| :: TtlOf(entries, keys[i]) == t
    ensures EarliestMin(entries, keys) == 0
  {
    assert IsEarliestMin(entries, keys, 0);
    EarliestMinUnique(entries, keys, 0);
  }

  /** Capacity 2, two entries with TTLs 10 and 20 listed in either order: the eviction
      step removes the one with TTL 10. */
  lemma EvictionExample(k1: string, k2: string, r1: Record, r2: Record, keys: seq<string>)
    requires k1 != k2
    requires keys == [k1, k2] || keys == [k2, k1]
    ensures Evicted(map[k1 := Entry(r1, 10), k2 := Entry(r2, 20)], keys, 2) == map[k2 := Entry(r2, 20)]
  {
  }
}
