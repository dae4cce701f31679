/** The two stores the repository talks to: Redis (`app('redis')`) and the database
    behind Eloquent's `find` and `save`. Only the commands the repository issues are here. */
module Store {
  import opened Types
  import opened Glob

  /** The reply of Redis TTL: the remaining seconds, or -2 for a missing key. */
  function TtlOf(entries: map<string, Entry>, k: string): (t: int)
    ensures k !in entries ==> t == -2
  {
    if k in entries then entries[k].ttl else -2
  }

  predicate Distinct(keys: seq<string>)
  {
    forall i, j | 0 <= i < j < |keys| :: keys[i] != keys[j]
  }

  /** The keys of `entries` that `pattern` matches. */
  function MatchingKeys(entries: map<string, Entry>, pattern: string): set<string>
  {
    set k | k in entries && Matches(pattern, k)
  }

  /** `keys` is a possible reply of `KEYS pattern`: each matching key once, in some order. */
  predicate IsScan(entries: map<string, Entry>, pattern: string, keys: seq<string>)
    ensures IsScan(entries, pattern, keys) ==>
      forall i | 0 <= i < |keys| :: keys[i] in entries && Matches(pattern, keys[i])
  {
    && Distinct(keys)
    && (forall i | 0 <= i < |keys| :: keys[i] in MatchingKeys(entries, pattern))
    && (forall k | k in MatchingKeys(entries, pattern) :: k in keys)
  }

  /** A list without repetitions has as many elements as it has members. */
  lemma {:induction false} DistinctCardinality(keys: seq<string>)
    requires Distinct(keys)
    ensures |set k | k in keys| == |keys|
  {
    if keys != [] {
      DistinctCardinality(keys[1..]);
      assert (set k | k in keys) == {keys[0]} + (set k | k in keys[1..]);
      assert keys[0] !in (set k | k in keys[1..]);
    }
  }

  /** A reply of `KEYS pattern` has exactly as many keys as match. */
  lemma ScanSize(entries: map<string, Entry>, pattern: string, keys: seq<string>)
    requires IsScan(entries, pattern, keys)
    ensures |keys| == |MatchingKeys(entries, pattern)|
  {
    DistinctCardinality(keys);
    assert (set k | k in keys) == MatchingKeys(entries, pattern);
  }

  /** What `$model::query()->find($id)` returns: the row as a record, or null when the id
      is null or no row has it. */
  function Fetch(rows: map<(string, nat), map<string, Value>>, model: string, id: Option<nat>): (r: Record)
    ensures r.Null? <==> id.None? || (model, id.value) !in rows
    ensures r.Row? ==> r.model == model && id == Some(r.key) && r.attributes == rows[(model, r.key)]
  {
    if id.Some? && (model, id.value) in rows then Row(model, id.value, rows[(model, id.value)]) else Null
  }

  /** Redis, as a map from key to entry. */
  class KeyStore {
    var entries: map<string, Entry>

    constructor (initial: map<string, Entry>)
      ensures entries == initial
    {
      entries := initial;
    }

    /** GET followed by `unserialize`: a missing key reads as null. */
    method Get(key: string) returns (r: Record)
      ensures key in entries ==> r == entries[key].value
      ensures key !in entries ==> r == Null
    {
      r := if key in entries then entries[key].value else Null;
    }

    /** SET key value EX ttl */
    method Set(key: string, value: Record, ttl: int)
      modifies this
      ensures entries == old(entries)[key := Entry(value, ttl)]
    {
      entries := entries[key := Entry(value, ttl)];
    }

    /** EXISTS key */
    method Exists(key: string) returns (b: bool)
      ensures b <==> key in entries
    {
      b := key in entries;
    }

    /** TTL key */
    method Ttl(key: string) returns (t: int)
      ensures key in entries ==> t == entries[key].ttl
      ensures key !in entries ==> t == -2
    {
      t := TtlOf(entries, key);
    }

    /** DEL key: a missing key is left missing. */
    method Del(key: string)
      modifies this
      ensures entries == old(entries) - {key}
    {
      entries := entries - {key};
    }

    /** KEYS pattern: every matching key once, in an order Redis does not promise. */
    method Keys(pattern: string) returns (keys: seq<string>)
      ensures IsScan(entries, pattern, keys)
    {
      var pending := MatchingKeys(entries, pattern);
      keys := [];
      while pending != {}
        invariant Distinct(keys)
        invariant forall k :: k in keys ==> k !in pending
        invariant forall k :: k in MatchingKeys(entries, pattern) <==> k in keys || k in pending
        decreases pending
      {
        var k :| k in pending;
        keys := keys + [k];
        pending := pending - {k};
      }
    }
  }

  /** The database, as the rows of each model class by primary key. */
  class Database {
    /** The model classes the application defines; a class name is never empty. */
    const models: set<string>
    var rows: map<(string, nat), map<string, Value>>

    constructor (models: set<string>, initial: map<(string, nat), map<string, Value>>)
      requires "" !in models
      ensures this.models == models && rows == initial
    {
      this.models := models;
      rows := initial;
    }

    /** `$model::query()->find($id)`: the row as a record, or null when there is none;
        an error when `model` is no model class (PHP's null class among them). */
    method Find(model: string, id: Option<nat>) returns (r: Result<Record>)
      ensures model !in models ==> r == Err(NoSuchClass)
      ensures model in models ==> r == Ok(Fetch(rows, model, id))
    {
      if model !in models {
        return Err(NoSuchClass);
      }
      r := Ok(Fetch(rows, model, id));
    }

    /** `$record->save()` on a record loaded from the database: the row with the record's
        original primary key takes the record's attributes; no row, no change. */
    method Update(record: Record)
      requires record.Row?
      modifies this
      ensures (record.model, record.key) in old(rows) ==> rows == old(rows)[(record.model, record.key) := record.attributes]
      ensures (record.model, record.key) !in old(rows) ==> rows == old(rows)
    {
      if (record.model, record.key) in rows {
        rows := rows[(record.model, record.key) := record.attributes];
      }
    }
  }
}
