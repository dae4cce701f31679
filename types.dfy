/** Values shared by every part of the model of RedisCacheRepository. */
module Types {

  datatype Option<T> = None | Some(value: T)

  /** An attribute value of an Eloquent model (a database column value). */
  datatype Value = Nil | Int(i: int) | Str(s: string) | Bool(b: bool)

  /** What `$this->data` holds: PHP `null` (nothing loaded, or the database had no row),
      or an Eloquent model of class `model` loaded from the row whose primary key is `key`. */
  datatype Record = Null | Row(model: string, key: nat, attributes: map<string, Value>)

  /** A Redis entry: the serialized record and its remaining time to live in seconds. */
  datatype Entry = Entry(value: Record, ttl: int)

  /** `NotUsedTrait` is `NotUsedTraitException`; `NullData` is PHP's error for calling a
      method (`getAttribute`, `setAttribute`, `save`) on `$this->data` while it is null;
      `NoSuchClass` is PHP's error for `$model::query()` when `$model` is null or names no
      model class. */
  datatype Error = NotUsedTrait | NullData | NoSuchClass

  datatype Outcome = Pass | Fail(error: Error)

  datatype Result<T> = Ok(value: T) | Err(error: Error)
}
