/**
  The records kept in the user store: JSON objects as JSON.parse and
  express.json() produce them, with a conventional numeric "id" field.
  Nothing about a record is validated; only the "id" field takes part in
  the handlers' logic.
*/
module Records {
  import opened Wrappers

  /** A JSON value. Numbers are told apart from everything else because only a
      number can be strictly equal to a coerced path id; arrays and nested
      objects are carried opaquely as their JSON text. */
  datatype Value =
    | Num(n: int)
    | Str(s: string)
    | Bool(b: bool)
    | Null
    | Compound(json: string)

  /** A JSON object: field names mapped to values. */
  type Record = map<string, Value>

  /** The value of a record's "id" field when that field holds a number. */
  function IdOf(r: Record): (id: Option<int>)
    ensures id.Some? <==> "id" in r && r["id"].Num?
    ensures id.Some? ==> r["id"] == Num(id.value)
  {
    if "id" in r && r["id"].Num? then Some(r["id"].n) else None
  }

  /** `user.id === Number(id)`: strict equality with the coerced path id.
      `None` stands for NaN, which equals nothing; a record without an "id"
      field, or whose "id" is not a number (the string "1", say), never
      matches, because strict equality does not coerce. */
  predicate Matches(r: Record, target: Option<int>): (matched: bool)
    ensures matched <==> target.Some? && "id" in r && r["id"] == Num(target.value)
  {
    target.Some? && IdOf(r) == target
  }

  /** `{ ...user, ...patch }`: a shallow merge in which the patch's fields win. */
  function Merge(user: Record, patch: Record): (merged: Record)
    ensures merged.Keys == user.Keys + patch.Keys
    ensures forall k :: k in patch ==> merged[k] == patch[k]
    ensures forall k :: k in user && k !in patch ==> merged[k] == user[k]
  {
    user + patch
  }

  /** Merging the same patch a second time changes nothing more. */
  lemma MergeIdempotent(user: Record, patch: Record)
    ensures Merge(Merge(user, patch), patch) == Merge(user, patch)
  {
  }

  /** A patch without an "id" field leaves the record's id as it was. */
  lemma MergeKeepsId(user: Record, patch: Record)
    requires "id" !in patch
    ensures IdOf(Merge(user, patch)) == IdOf(user)
  {
  }
}
