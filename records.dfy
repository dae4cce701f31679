/** The Eloquent model the repository keeps in `$data`, seen as a record of attributes. */
module Records {
  import opened Types

  /** `$data->getAttribute($a)`: the attribute's value, `null` for an attribute the
      record lacks, and an error when `$data` is null. */
  function Read(r: Record, a: string): (v: Result<Value>)
    ensures v.Err? <==> r.Null?
    ensures v.Err? ==> v.error == NullData
  {
    match r
    case Null => Err(NullData)
    case Row(_, _, attributes) => Ok(if a in attributes then attributes[a] else Nil)
  }

  /** `$data->setAttribute($a, $v)`: the record with `a` set to `v`, and an error when
      `$data` is null. */
  function Assign(r: Record, a: string, v: Value): (s: Result<Record>)
    ensures s.Err? <==> r.Null?
    ensures s.Ok? ==> s.value.Row? && s.value.model == r.model && s.value.key == r.key
  {
    match r
    case Null => Err(NullData)
    case Row(model, key, attributes) => Ok(Row(model, key, attributes[a := v]))
  }

  /** The pairs applied one after another, stopping at the first error. */
  function AssignAll(r: Record, pairs: seq<(string, Value)>): (s: Result<Record>)
    ensures s.Err? ==> r.Null? && s.error == NullData
    ensures s.Ok? ==> (s.value.Row? <==> r.Row?)
    ensures s.Ok? && r.Row? ==> s.value.model == r.model && s.value.key == r.key
    decreases |pairs|
  {
    if pairs == [] then Ok(r)
    else
      match Assign(r, pairs[0].0, pairs[0].1)
      case Err(e) => Err(e)
      case Ok(r') => AssignAll(r', pairs[1..])
  }

  /** Reading an attribute just written gives the written value; every other attribute
      reads as before. */
  lemma ReadAfterAssign(r: Record, a: string, v: Value, b: string)
    requires r.Row?
    ensures Assign(r, a, v).Ok?
    ensures Read(Assign(r, a, v).value, a) == Ok(v)
    ensures b != a ==> Read(Assign(r, a, v).value, b) == Read(r, b)
  {
  }

  /** Applying the pairs up to and including one more is applying that pair afterwards. */
  lemma {:induction false} AssignAllSnoc(r: Record, pairs: seq<(string, Value)>, p: (string, Value))
    ensures AssignAll(r, pairs + [p])
         == match AssignAll(r, pairs)
            case Err(e) => Err(e)
            case Ok(r') => Assign(r', p.0, p.1)
    decreases |pairs|
  {
    if pairs == [] {
      assert pairs + [p] == [p];
      assert [p][1..] == [];
    } else {
      assert (pairs + [p])[0] == pairs[0];
      assert (pairs + [p])[1..] == pairs[1..] + [p];
      match Assign(r, pairs[0].0, pairs[0].1)
      case Err(e) =>
      case Ok(r') => AssignAllSnoc(r', pairs[1..], p);
    }
  }

  /** On a loaded record every pair applies: the result is a row of the same model and
      key. On a null record anything but the empty list of pairs fails. */
  lemma {:induction false} AssignAllOutcome(r: Record, pairs: seq<(string, Value)>)
    ensures r.Row? ==> AssignAll(r, pairs).Ok? && AssignAll(r, pairs).value.Row?
    ensures r.Row? ==> AssignAll(r, pairs).value.model == r.model && AssignAll(r, pairs).value.key == r.key
    ensures r.Null? ==> (AssignAll(r, pairs).Ok? <==> pairs == [])
    decreases |pairs|
  {
    if pairs != [] && r.Row? {
      AssignAllOutcome(Assign(r, pairs[0].0, pairs[0].1).value, pairs[1..]);
    }
  }

  /** The last pair naming an attribute decides its value. */
  lemma {:induction false} AssignAllLastWins(r: Record, pairs: seq<(string, Value)>, j: nat)
    requires r.Row?
    requires j < |pairs|
    requires forall i | j < i < |pairs| :: pairs[i].0 != pairs[j].0
    ensures AssignAll(r, pairs).Ok?
    ensures Read(AssignAll(r, pairs).value, pairs[j].0) == Ok(pairs[j].1)
    decreases |pairs|
  {
    var r' := Assign(r, pairs[0].0, pairs[0].1).value;
    AssignAllOutcome(r', pairs[1..]);
    if j == 0 {
      AssignAllUntouched(r', pairs[1..], pairs[0].0);
    } else {
      AssignAllLastWins(r', pairs[1..], j - 1);
    }
  }

  /** An attribute no pair names keeps its value. */
  lemma {:induction false} AssignAllUntouched(r: Record, pairs: seq<(string, Value)>, a: string)
    requires r.Row?
    requires forall i | 0 <= i < |pairs| :: pairs[i].0 != a
    ensures AssignAll(r, pairs).Ok?
    ensures Read(AssignAll(r, pairs).value, a) == Read(r, a)
    decreases |pairs|
  {
    if pairs != [] {
      var r' := Assign(r, pairs[0].0, pairs[0].1).value;
      AssignAllUntouched(r', pairs[1..], a);
    }
  }
}
