/** The Python values `json.loads` produces, and Python truthiness on them. */
module JsonValues {
  import opened Wrappers

  /** `None`, `bool`, `int`, `float`, `str`, `list` and `dict`. A `dict` keeps
      its key/value pairs in insertion order. */
  datatype Json =
    | Null
    | Bool(b: bool)
    | Int(i: int)
    | Float(f: real)
    | Str(s: string)
    | Array(items: seq<Json>)
    | Object(fields: seq<(string, Json)>)

  /** `bool(v)`: `None`, `False`, zero, and empty strings, lists and dicts are
      false; everything else is true. */
  predicate Truthy(v: Json): (b: bool)
    ensures !b <==> v in {Null, Bool(false), Int(0), Float(0.0), Str(""), Array([]), Object([])}
  {
    match v
    case Null => false
    case Bool(b) => b
    case Int(i) => i != 0
    case Float(f) => f != 0.0
    case Str(s) => s != ""
    case Array(items) => items != []
    case Object(fields) => fields != []
  }

  /** `d.get(key)` on the pairs of a dict; with a repeated key the later pair
      wins, as it does when `json.loads` builds the dict. */
  function Lookup(fields: seq<(string, Json)>, key: string): (r: Option<Json>)
    ensures r.Some? ==> exists k | 0 <= k < |fields| :: fields[k] == (key, r.value)
    ensures r.None? <==> forall k | 0 <= k < |fields| :: fields[k].0 != key
    decreases |fields|
  {
    if fields == [] then None
    else
      var last := fields[|fields| - 1];
      if last.0 == key then Some(last.1)
      else
        var r := Lookup(fields[..|fields| - 1], key);
        assert forall k | 0 <= k < |fields| - 1 :: fields[..|fields| - 1][k] == fields[k];
        r
  }

  /** A dict literal with two distinct keys maps each to its value. */
  lemma LookupTwo(k1: string, v1: Json, k2: string, v2: Json)
    requires k1 != k2
    ensures Lookup([(k1, v1), (k2, v2)], k1) == Some(v1)
    ensures Lookup([(k1, v1), (k2, v2)], k2) == Some(v2)
  {
    assert [(k1, v1), (k2, v2)][..1] == [(k1, v1)];
  }

  /** A dict literal with three distinct keys maps each to its value. */
  lemma LookupThree(k1: string, v1: Json, k2: string, v2: Json, k3: string, v3: Json)
    requires k1 != k2 && k1 != k3 && k2 != k3
    ensures Lookup([(k1, v1), (k2, v2), (k3, v3)], k1) == Some(v1)
    ensures Lookup([(k1, v1), (k2, v2), (k3, v3)], k2) == Some(v2)
    ensures Lookup([(k1, v1), (k2, v2), (k3, v3)], k3) == Some(v3)
  {
    assert [(k1, v1), (k2, v2), (k3, v3)][..2] == [(k1, v1), (k2, v2)];
    LookupTwo(k1, v1, k2, v2);
  }

  /** `v.get(key)` when `v` is a dict, nothing otherwise. */
  function Field(v: Json, key: string): Option<Json> {
    if v.Object? then Lookup(v.fields, key) else None
  }
}
