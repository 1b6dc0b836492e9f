/** The JSON values the application reads from galleries' metadata and
    keeps in its preferences. An object is an ordered list of entries, as a
    Python `dict` keeps insertion order. */
module Json {
  import opened Wrappers

  /** A number written without fraction or exponent is an `int`; one
      written with either is a `float`, held here as an exact real. */
  datatype Json =
    | Null
    | Bool(b: bool)
    | Num(n: int)
    | Float(x: real)
    | Str(s: string)
    | Arr(items: seq<Json>)
    | Obj(fields: seq<(string, Json)>)

  type Fields = seq<(string, Json)>

  /** `d.get(key)`: the value of the first entry named `key`. */
  function Lookup(fields: Fields, key: string): (r: Option<Json>)
    ensures r.Some? <==> exists i :: 0 <= i < |fields| && fields[i].0 == key
    ensures r.Some? ==> r.value in Values(fields)
    decreases |fields|
  {
    if |fields| == 0 then None
    else if fields[0].0 == key then Some(fields[0].1)
    else
      var r := Lookup(fields[1..], key);
      assert forall i :: 1 <= i < |fields| ==> fields[i] == fields[1..][i - 1];
      r
  }

  ghost function Values(fields: Fields): set<Json> {
    set i | 0 <= i < |fields| :: fields[i].1
  }

  predicate HasKey(fields: Fields, key: string) {
    exists i :: 0 <= i < |fields| && fields[i].0 == key
  }

  /** `d[key] = value`: an existing entry keeps its place, a new one goes last. */
  function Update(fields: Fields, key: string, value: Json): (r: Fields)
    ensures Lookup(r, key) == Some(value)
    ensures forall k :: k != key ==> Lookup(r, k) == Lookup(fields, k)
    ensures |r| == |fields| || |r| == |fields| + 1
    decreases |fields|
  {
    if |fields| == 0 then [(key, value)]
    else if fields[0].0 == key then [(key, value)] + fields[1..]
    else [fields[0]] + Update(fields[1..], key, value)
  }

  /** `del d[key]` (every entry with that name goes). */
  function Remove(fields: Fields, key: string): (r: Fields)
    ensures Lookup(r, key) == None
    ensures forall k :: k != key ==> Lookup(r, k) == Lookup(fields, k)
    ensures |r| <= |fields|
    decreases |fields|
  {
    if |fields| == 0 then []
    else if fields[0].0 == key then Remove(fields[1..], key)
    else [fields[0]] + Remove(fields[1..], key)
  }

  /** Adding a fresh key and removing it again restores the object. */
  lemma {:induction false} RemoveUpdateFresh(fields: Fields, key: string, value: Json)
    requires Lookup(fields, key) == None
    ensures Remove(Update(fields, key, value), key) == fields
    decreases |fields|
  {
    if |fields| > 0 {
      assert fields[0].0 != key;
      assert Lookup(fields[1..], key) == None;
      RemoveUpdateFresh(fields[1..], key, value);
    }
  }

  /** Python truthiness of a JSON value. */
  predicate Truthy(v: Json) {
    match v
    case Null => false
    case Bool(b) => b
    case Num(n) => n != 0
    case Float(x) => x != 0.0
    case Str(s) => |s| > 0
    case Arr(items) => |items| > 0
    case Obj(fields) => |fields| > 0
  }

  /** `value.get(key)` when `value` must be an object: `None` when it is
      not one (the source's `AttributeError`), `Some(Null)` when the key is
      missing (Python's `None`). */
  function Member(value: Json, key: string): (r: Option<Json>)
    ensures r.Some? <==> value.Obj?
    ensures value.Obj? && !HasKey(value.fields, key) ==> r == Some(Null)
  {
    match value
    case Obj(fields) => Some(Lookup(fields, key).GetOr(Null))
    case _ => None
  }
}
