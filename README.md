# RedisCache repository, modelled in Dafny

This project models `RedisCacheRepository`, the read-through Redis cache of the
RedisCache package for Laravel. A repository is bound to one Eloquent model class. It
caches that class's records in Redis under the key `Model_id`. On a miss, `find` loads the
record from the database into the cache (`setInCache`). Before that insert, at most one key
of the class is evicted: the one with the least remaining TTL, once `max_count` keys of the
class are cached. Attribute edits rewrite the cached snapshot with a fresh TTL, and that
write has no eviction step. So the `max_count` bound is kept by `find` only: `setAttribute`
re-creates an entry that was evicted or cleared since `find` and can push the class above
`max_count` (`RewriteAddsCountedKey`). `clearCache` drops every key of the class.

Layout, one module per file:

- `types.dfy` (`Types`): attribute values, records (PHP `null` or a loaded Eloquent model),
  Redis entries (record and TTL), the errors, `Outcome` and `Result`.
- `glob.dfy` (`Glob`): Redis KEYS glob matching (`*`, `?`, backslash escape) and the
  one-character `str_ireplace` that builds the scan patterns.
- `cache_keys.dfy` (`CacheKeys`): the key `model . '_' . id`, the two scan patterns, key
  injectivity, and what each pattern matches.
- `records.dfy` (`Records`): `getAttribute`/`setAttribute` on the loaded model, and
  applying a list of pairs in order.
- `store.dfy` (`Store`): Redis as a class over a map from key to entry (GET, SET EX,
  EXISTS, TTL, DEL, KEYS), and the database as a class over a map from (class, id) to row.
- `eviction.dfy` (`Eviction`): the key `deleteWithMinTime` picks, the eviction step of
  `setInCache`, and the capacity bound.
- `repository.dfy` (`Repositories`): the class `RedisCacheRepository` with its fields
  `$model`, `$id` and `$data`, and the shared Redis and database objects.

The model follows the code, including where it departs from a write-through cache with TTL refresh:

- A cache hit in `find` does not refresh the entry's TTL.
- `setAttribute` writes only to the cache. The database changes only in `save()`.
- `clearCache` turns backslashes of the class name into `?` instead of escaping them. So
  it also deletes the keys of a class that differs only where the name has a backslash
  (`ClearDeletesOtherModel`).
- Neither pattern escapes the `_` separator. So the scan for class `M` also counts and
  clears the keys of a class named `M_x` (`ScanCountsExtendedModel`).

## Model

| member | source | states |
|---|---|---|
| `CacheKeys.Key` | src/Repositories/RedisCacheRepository.php:49 | the key is the class name, then `_`, then the id's text, which holds no `_` |
| `CacheKeys.IdText` | src/Repositories/RedisCacheRepository.php:74 | the id's text in a key: its decimal form, or empty for a null id; never contains `_` |
| `CacheKeys.Decimal` | src/Repositories/RedisCacheRepository.php:87 | an id renders as one or more decimal digits, a single digit exactly for ids below 10 |
| `CacheKeys.ScanPattern` | src/Repositories/RedisCacheRepository.php:81 | the scan pattern is `model . '_'` with each backslash doubled, followed by `*` |
| `CacheKeys.ClearPattern` | src/Repositories/RedisCacheRepository.php:169 | the clear pattern is `model . '_'` with each backslash turned into `?`, followed by `*` |
| `Glob.Matches` | src/Repositories/RedisCacheRepository.php:81 | Redis KEYS matching; a pattern without `*` matches no key longer than itself, and one without `*` or `\` only keys of its own length |
| `Glob.ReplaceChar` | src/Repositories/RedisCacheRepository.php:169 | `str_ireplace` of one character: every other character stays, the replaced character is gone if the replacement lacks it, and a one-character replacement keeps the length |
| `Records.AssignAll` | src/Repositories/RedisCacheRepository.php:153-155 | the pairs applied in order fail only on null data; a loaded record stays a row of the same class and primary key |
| `Store.IsScan` | src/Repositories/RedisCacheRepository.php:81 | a KEYS reply lists only cached keys the pattern matches, each once, and all of them |
| `Eviction.Evicted` | src/Repositories/RedisCacheRepository.php:82-84 | the eviction step keeps every survivor's value and TTL, and removes a key only when at least `max_count` are listed, and then only the one `deleteWithMinTime` picks |
| `Eviction.RewriteAddsCountedKey` | src/Repositories/RedisCacheRepository.php:141 | the SET of `setAttribute` on an absent key adds one key to the class's count without any eviction, so a class at `max_count` goes above it |
| `Eviction.EqualTtlsEvictFirst` | src/Repositories/RedisCacheRepository.php:96-103 | when all listed keys have the same TTL, the first key in KEYS order is evicted |
| `CacheKeys.KeyInjective` | src/Repositories/RedisCacheRepository.php:49 | two different (class, id) pairs never produce the same key `model . '_' . id` |
| `CacheKeys.ScanMatchesPrefix` | src/Repositories/RedisCacheRepository.php:81 | for a class name without `*`/`?`, the scan pattern with doubled backslashes matches exactly the keys starting with `model . '_'` |
| `CacheKeys.ClearMatchesLoosePrefix` | src/Repositories/RedisCacheRepository.php:169 | the clear pattern matches the keys starting with `model . '_'`, except that each backslash of the name may stand for any character |
| `CacheKeys.OwnKeyScanned` | src/Repositories/RedisCacheRepository.php:81-87 | the key inserted by `setInCache` is one of those its scan counts |
| `CacheKeys.ScannedAreCleared` | src/Repositories/RedisCacheRepository.php:167-172 | every key the insert scan counts is deleted by `clearCache` |
| `CacheKeys.ScanCountsExtendedModel` | src/Repositories/RedisCacheRepository.php:81 | the scan for class `M` also matches keys of the different class `M_x`, because `_` is not escaped |
| `CacheKeys.ClearDeletesOtherModel` | src/Repositories/RedisCacheRepository.php:169 | the clear pattern of class `A\B` matches key `AxB_1`, which the scan pattern of `A\B` does not |
| `Glob.EscapedPrefix` | src/Repositories/RedisCacheRepository.php:81 | doubling the backslashes of a wildcard-free name gives a Redis pattern that matches that name literally |
| `Glob.WildcardPrefix` | src/Repositories/RedisCacheRepository.php:169 | turning the backslashes of a wildcard-free name into `?` gives a pattern that matches the name anywhere but at its backslashes |
| `Records.Read` | src/Repositories/RedisCacheRepository.php:128-131 | reading an attribute fails exactly when `$data` is null |
| `Records.Assign` | src/Repositories/RedisCacheRepository.php:140 | setting an attribute fails exactly when `$data` is null, and keeps the record's class and primary key |
| `Records.ReadAfterAssign` | src/Repositories/RedisCacheRepository.php:138-145 | after setting `a` to `v`, reading `a` gives `v` and every other attribute reads as before |
| `Records.AssignAllOutcome` | src/Repositories/RedisCacheRepository.php:151-158 | on a loaded record every pair applies; on a null record only the empty list succeeds |
| `Records.AssignAllLastWins` | src/Repositories/RedisCacheRepository.php:153-155 | the last pair naming an attribute decides its value |
| `Records.AssignAllUntouched` | src/Repositories/RedisCacheRepository.php:153-155 | an attribute no pair names keeps its value |
| `Store.ScanSize` | src/Repositories/RedisCacheRepository.php:82 | `sizeof($keys)` equals the number of cached keys the pattern matches |
| `Store.Fetch` | src/Repositories/RedisCacheRepository.php:86 | the database gives null for a null id or a missing row, else the row tagged with its class and id |
| `Store.KeyStore.Keys` | src/Repositories/RedisCacheRepository.php:81 | KEYS returns every matching key exactly once |
| `Store.KeyStore.Get` | src/Repositories/RedisCacheRepository.php:49 | GET returns the cached record, or null for a missing key |
| `Store.KeyStore.Exists` | src/Repositories/RedisCacheRepository.php:74 | EXISTS holds exactly for cached keys |
| `Store.KeyStore.Ttl` | src/Repositories/RedisCacheRepository.php:96 | TTL gives the remaining seconds, or -2 for a missing key |
| `Store.KeyStore.Set` | src/Repositories/RedisCacheRepository.php:87 | SET EX replaces one entry and changes nothing else |
| `Store.KeyStore.Del` | src/Repositories/RedisCacheRepository.php:104 | DEL removes one key and changes nothing else |
| `Store.Database.Find` | src/Repositories/RedisCacheRepository.php:86 | `$model::query()->find($id)` fails with `NoSuchClass` exactly when `$model` is no model class (null included); otherwise it returns the row of that class and id, or null |
| `Store.Database.Update` | src/Repositories/RedisCacheRepository.php:161 | saving a loaded record overwrites the row with its original primary key; no row, no change |
| `Eviction.EarliestMin` | src/Repositories/RedisCacheRepository.php:94-103 | the chosen key's TTL is at most every listed key's TTL, and strictly less than that of every key before it |
| `Eviction.EarliestMinUnique` | src/Repositories/RedisCacheRepository.php:98-103 | the strict `<` scan has a single possible outcome: the first key of least TTL |
| `Eviction.EvictedCountNoLarger` | src/Repositories/RedisCacheRepository.php:82-84 | the eviction step never raises the number of keys any pattern matches |
| `Eviction.EvictionRemovesOneMinimal` | src/Repositories/RedisCacheRepository.php:82-84 | with fewer than `max_count` keys nothing is evicted; otherwise exactly one key of least TTL; all other entries keep value and TTL |
| `Eviction.InsertKeepsCapacity` | src/Repositories/RedisCacheRepository.php:79-89 | inserting a fresh key keeps the class's matching-key count within `max_count`, if it was within it before |
| `Eviction.EvictionExample` | src/Repositories/RedisCacheRepository.php:94-105 | with capacity 2 and TTLs 10 and 20, the TTL-10 entry is evicted, whatever the listing order |
| `Repositories.RedisCacheRepository.constructor` | src/Repositories/RedisCacheRepository.php:22-30 | a new repository has no class, a null id and null data |
| `Repositories.RedisCacheRepository.SetModel` | src/Repositories/RedisCacheRepository.php:58-67 | records the class name, then fails with `NotUsedTrait` exactly when the class lacks the caching trait |
| `Repositories.RedisCacheRepository.SetData` | src/Repositories/RedisCacheRepository.php:47-51 | `$data` becomes the record cached under the current key, or null |
| `Repositories.RedisCacheRepository.ExistInCache` | src/Repositories/RedisCacheRepository.php:72-75 | true exactly when the current key is cached |
| `Repositories.RedisCacheRepository.DeleteWithMinTime` | src/Repositories/RedisCacheRepository.php:94-105 | deletes exactly the earliest listed key of least TTL; every other entry is unchanged |
| `Repositories.RedisCacheRepository.SetInCache` | src/Repositories/RedisCacheRepository.php:79-89 | for the scanned keys, evicts as `Evicted` says; then, when the class exists, caches the database's record under the current key for `time` seconds, and otherwise fails with `NoSuchClass` having written nothing more; nothing else changes |
| `Repositories.RedisCacheRepository.Find` | src/Repositories/RedisCacheRepository.php:111-122 | a hit changes no entry and succeeds even without a class; a miss caches the database's record with TTL `time` after at most one eviction; on success the key is cached and `$data` equals the cached record; a miss with no model class set fails with `NoSuchClass` after the eviction step, caches nothing and keeps `$data`; either way the class's key count stays within `max_count` |
| `Repositories.RedisCacheRepository.GetAttribute` | src/Repositories/RedisCacheRepository.php:128-131 | fails exactly when no record is loaded |
| `Repositories.RedisCacheRepository.SetAttribute` | src/Repositories/RedisCacheRepository.php:138-145 | on a loaded record: the attribute then reads back as the new value, and the entry under the same key holds the updated `$data` with TTL `time`; on null data: fails and changes nothing |
| `Repositories.RedisCacheRepository.SetAttributes` | src/Repositories/RedisCacheRepository.php:151-158 | `$data` becomes the pairs applied in order; the entry holds the final `$data` with TTL `time`; on null data, any non-empty list fails and changes nothing |
| `Repositories.RedisCacheRepository.Save` | src/Repositories/RedisCacheRepository.php:159-162 | writes the loaded record to its database row; fails on null data without touching the database |
| `Repositories.RedisCacheRepository.ClearCache` | src/Repositories/RedisCacheRepository.php:167-174 | deletes exactly the keys the clear pattern matches, leaves all other entries as they were, and returns `"Done"` |

## Left out

- `getStatic` and `getData` are not modelled separately. `getStatic` only constructs an instance. `getData` only returns `$data`, which is a public field here.
- The Redis transport and `serialize`/`unserialize`. Redis stores records as values. A missing key reads as null.
- Wall-clock expiry. Entries never age, so TTLs change only when an entry is written. Every entry the repository writes gets the same TTL `time`, so among such entries the least-TTL rule evicts the first key KEYS lists (`EqualTtlsEvictFirst`), not the oldest write. TTLs differ only for entries already present in the initial store. A key that expires between KEYS and TTL is not modelled.
- Redis rejects a non-positive `EX` time. The repository therefore requires `time` to be at least 1. `KeyStore.Set` itself accepts any TTL.
- Redis KEYS character classes (`[...]`). The matcher treats `[` as an ordinary character. Class names cannot contain it.
- The case-insensitivity of `str_ireplace` is not modelled. It has no effect on a backslash.
- Eloquent's query layer is reduced to a map from (class, id) to attribute map. Ids are non-negative integers; string ids are not modelled.
- Eloquent accessors, mutators, casts and relations in `getAttribute`/`setAttribute` are not modelled.
- `Store.Database.Update`: overwrites the whole row. Eloquent's `save` writes only the changed columns and maintains timestamps.
- Repositories.RedisCacheRepository.Save: inherits the whole-row overwrite. When two repositories hold the same row, one sets `x` and saves, and the other then sets `y` and saves, the model loses `x`. Eloquent would keep it.
- `method_exists($model, 'checkCacheTrait')` is modelled as membership in the repository's set `cacheable` of trait-using classes. Which names are model classes at all is the database's set `models`. Nothing ties the two sets together, as nothing ties the trait to the class table in PHP.
- `config('redisCache.max_count')` and `config('redisCache.time')` are constructor parameters. Both must be at least 1. With a smaller `max_count` and no cached keys, the source reads `$keys[0]` of an empty list.
- `Repositories.RedisCacheRepository.Find`: does not state that a hit makes no database query, because database reads leave no trace in the model. It states only that a hit changes no cache entry.
- PHP exceptions and the error for calling a method on null are returned as `Outcome`/`Result` values.
- Concurrent use of the shared Redis by several processes is not modelled.
