/** RedisCacheRepository: a read-through Redis cache of the Eloquent models of one class. */
module Repositories {
  import opened Types
  import opened Glob
  import opened CacheKeys
  import opened Records
  import opened Store
  import opened Eviction

  class RedisCacheRepository {
    /** `app('redis')`, shared with every other repository. */
    const redis: KeyStore
    /** The database behind the model classes. */
    const db: Database
    /** The model classes that use the caching trait, i.e. have `checkCacheTrait`. */
    const cacheable: set<string>
    /** `config('redisCache.max_count')` */
    const maxCount: int
    /** `config('redisCache.time')`, the TTL in seconds of every entry written. */
    const time: int

    var model: string
    var id: Option<nat>
    var data: Record

    ghost predicate Valid()
    {
      maxCount >= 1 && time >= 1
    }

    constructor (redis: KeyStore, db: Database, cacheable: set<string>, maxCount: int, time: int)
      requires maxCount >= 1 && time >= 1
      ensures Valid()
      ensures this.redis == redis && this.db == db && this.cacheable == cacheable
      ensures this.maxCount == maxCount && this.time == time
      ensures model == "" && id == None && data == Null
    {
      this.redis, this.db, this.cacheable := redis, db, cacheable;
      this.maxCount, this.time := maxCount, time;
      model, id, data := "", None, Null;
    }

    /** Selects the model class; the class is recorded even when it is refused. */
    method SetModel(name: string) returns (r: Outcome)
      modifies this`model
      ensures model == name
      ensures r.Pass? <==> name in cacheable
      ensures r.Fail? ==> r.error == NotUsedTrait
    {
      model := name;
      if name !in cacheable {
        return Fail(NotUsedTrait);
      }
      return Pass;
    }

    /** Loads `$data` from the entry under the current key; a missing entry gives null. */
    method SetData()
      modifies this`data
      ensures Key(model, id) in redis.entries ==> data == redis.entries[Key(model, id)].value
      ensures Key(model, id) !in redis.entries ==> data == Null
    {
      data := redis.Get(Key(model, id));
    }

    /** Whether the current key is cached. */
    method ExistInCache() returns (b: bool)
      ensures b <==> Key(model, id) in redis.entries
    {
      b := redis.Exists(Key(model, id));
    }

    /** Evicts the listed key with the least TTL, the first such in list order. */
    method DeleteWithMinTime(keys: seq<string>)
      requires |keys| > 0
      modifies redis
      ensures redis.entries == old(redis.entries) - {keys[EarliestMin(old(redis.entries), keys)]}
    {
      var min := redis.Ttl(keys[0]);
      var keyWithMin := keys[0];
      ghost var j := 0;
      for i := 0 to |keys|
        invariant redis.entries == old(redis.entries)
        invariant j < |keys| && keyWithMin == keys[j] && min == TtlOf(redis.entries, keys[j])
        invariant forall k | 0 <= k < i :: min <= TtlOf(redis.entries, keys[k])
        invariant forall k | 0 <= k < j :: min < TtlOf(redis.entries, keys[k])
      {
        var t := redis.Ttl(keys[i]);
        if t < min {
          min := redis.Ttl(keys[i]);
          keyWithMin := keys[i];
          j := i;
        }
      }
      EarliestMinUnique(redis.entries, keys, j);
      redis.Del(keyWithMin);
    }

    /** Fetches the current record from the database and caches it for `time` seconds,
        first evicting one key of the model when `maxCount` of them are cached. When no
        model class is set, the query fails after the eviction and nothing is written. */
    method SetInCache() returns (r: Outcome)
      requires Valid()
      modifies redis
      ensures r.Fail? <==> model !in db.models
      ensures r.Fail? ==> r.error == NoSuchClass
      ensures exists keys ::
        (IsScan(old(redis.entries), ScanPattern(model), keys)
         && (r.Pass? ==> redis.entries == Evicted(old(redis.entries), keys, maxCount)[Key(model, id) := Entry(Fetch(db.rows, model, id), time)])
         && (r.Fail? ==> redis.entries == Evicted(old(redis.entries), keys, maxCount)))
    {
      var keys := redis.Keys(ScanPattern(model));
      if |keys| >= maxCount {
        DeleteWithMinTime(keys);
      }
      assert IsScan(old(redis.entries), ScanPattern(model), keys);
      var cache := db.Find(model, id);
      if cache.Err? {
        return Fail(cache.error);
      }
      redis.Set(Key(model, id), cache.value, time);
      return Pass;
    }

    /** Read-through lookup: on a miss the database's record is cached first; either way
        `$data` ends up equal to the cached record. A miss while no model class is set
        fails after the eviction step, caching nothing and leaving `$data` as it was. */
    method Find(id: nat) returns (r: Outcome)
      requires Valid()
      modifies this`id, this`data, redis
      ensures this.id == Some(id)
      ensures r.Fail? <==> old(Key(model, Some(id)) !in redis.entries) && model !in db.models
      ensures r.Fail? ==> r.error == NoSuchClass && data == old(data) && Key(model, Some(id)) !in redis.entries
      ensures r.Fail? ==> exists keys ::
        (IsScan(old(redis.entries), ScanPattern(model), keys)
         && redis.entries == Evicted(old(redis.entries), keys, maxCount))
      ensures r.Pass? ==> Key(model, Some(id)) in redis.entries
      ensures r.Pass? ==> data == redis.entries[Key(model, Some(id))].value
      ensures old(Key(model, Some(id)) in redis.entries) ==> redis.entries == old(redis.entries)
      ensures r.Pass? && old(Key(model, Some(id)) !in redis.entries) ==>
        && data == Fetch(db.rows, model, Some(id))
        && redis.entries[Key(model, Some(id))].ttl == time
        && exists keys :: IsScan(old(redis.entries), ScanPattern(model), keys)
             && redis.entries == Evicted(old(redis.entries), keys, maxCount)[Key(model, Some(id)) := Entry(data, time)]
      ensures NoWildcards(model) && |MatchingKeys(old(redis.entries), ScanPattern(model))| <= maxCount ==>
        |MatchingKeys(redis.entries, ScanPattern(model))| <= maxCount
    {
      this.id := Some(id);
      var cached := ExistInCache();
      if !cached {
        var o := SetInCache();
        ghost var keys :| IsScan(old(redis.entries), ScanPattern(model), keys)
          && (o.Pass? ==> redis.entries == Evicted(old(redis.entries), keys, maxCount)[Key(model, Some(id)) := Entry(Fetch(db.rows, model, Some(id)), time)])
          && (o.Fail? ==> redis.entries == Evicted(old(redis.entries), keys, maxCount));
        if o.Fail? {
          EvictedCountNoLarger(old(redis.entries), keys, maxCount, ScanPattern(model));
          return o;
        }
        if NoWildcards(model) && |MatchingKeys(old(redis.entries), ScanPattern(model))| <= maxCount {
          InsertKeepsCapacity(old(redis.entries), keys, model, Some(id), Entry(Fetch(db.rows, model, Some(id)), time), maxCount);
        }
      }
      SetData();
      return Pass;
    }

    /** The value of an attribute of `$data`; an error when nothing is loaded. */
    function GetAttribute(attribute: string): (v: Result<Value>)
      reads this
      ensures v.Err? <==> data.Null?
    {
      Read(data, attribute)
    }

    /** Sets an attribute of `$data` and rewrites the cached entry with a fresh TTL.
        The database is not written. */
    method SetAttribute(attribute: string, value: Value) returns (r: Outcome)
      modifies this`data, redis
      ensures r.Fail? <==> old(data).Null?
      ensures r.Fail? ==> r.error == NullData && data == old(data) && redis.entries == old(redis.entries)
      ensures r.Pass? ==> data == Assign(old(data), attribute, value).value
      ensures r.Pass? ==> GetAttribute(attribute) == Ok(value)
      ensures r.Pass? ==> redis.entries == old(redis.entries)[Key(model, id) := Entry(data, time)]
    {
      match Assign(data, attribute, value)
      case Err(e) =>
        r := Fail(e);
      case Ok(d) =>
        ReadAfterAssign(data, attribute, value, attribute);
        data := d;
        redis.Set(Key(model, id), data, time);
        r := Pass;
    }

    /** `setAttribute` for each pair in order, so the last pair naming an attribute wins. */
    method SetAttributes(pairs: seq<(string, Value)>) returns (r: Outcome)
      modifies this`data, redis
      ensures r.Pass? <==> AssignAll(old(data), pairs).Ok?
      ensures r.Fail? ==> r.error == NullData && data == old(data) && redis.entries == old(redis.entries)
      ensures r.Pass? ==> data == AssignAll(old(data), pairs).value
      ensures r.Pass? && pairs == [] ==> redis.entries == old(redis.entries)
      ensures r.Pass? && pairs != [] ==> redis.entries == old(redis.entries)[Key(model, id) := Entry(data, time)]
    {
      AssignAllOutcome(data, pairs);
      for i := 0 to |pairs|
        invariant i > 0 ==> old(data).Row? && data.Row?
        invariant AssignAll(old(data), pairs[..i]) == Ok(data)
        invariant i == 0 ==> redis.entries == old(redis.entries)
        invariant i > 0 ==> redis.entries == old(redis.entries)[Key(model, id) := Entry(data, time)]
      {
        AssignAllSnoc(old(data), pairs[..i], pairs[i]);
        assert pairs[..i + 1] == pairs[..i] + [pairs[i]];
        var o := SetAttribute(pairs[i].0, pairs[i].1);
        if o.Fail? {
          return o;
        }
      }
      assert pairs[..|pairs|] == pairs;
      return Pass;
    }

    /** `$data->save()`: writes the loaded record back to its database row. */
    method Save() returns (r: Outcome)
      modifies db
      ensures r.Fail? <==> data.Null?
      ensures r.Fail? ==> r.error == NullData && db.rows == old(db.rows)
      ensures r.Pass? && (data.model, data.key) in old(db.rows) ==>
        db.rows == old(db.rows)[(data.model, data.key) := data.attributes]
      ensures r.Pass? && (data.model, data.key) !in old(db.rows) ==> db.rows == old(db.rows)
    {
      if data.Null? {
        return Fail(NullData);
      }
      db.Update(data);
      return Pass;
    }

    /** Deletes every key the model's clear pattern matches. */
    method ClearCache() returns (done: string)
      modifies redis
      ensures done == "Done"
      ensures redis.entries == old(redis.entries) - MatchingKeys(old(redis.entries), ClearPattern(model))
    {
      var keys := redis.Keys(ClearPattern(model));
      for i := 0 to |keys|
        invariant forall k :: k in redis.entries <==> k in old(redis.entries) && k !in keys[..i]
        invariant forall k | k in redis.entries :: redis.entries[k] == old(redis.entries)[k]
      {
        redis.Del(keys[i]);
        assert keys[..i + 1] == keys[..i] + [keys[i]];
      }
      assert keys[..|keys|] == keys;
      return "Done";
    }
  }
}
