/** A parsed JSON document, as `json.load` returns it, with the defaulting
    accessors the modelled code reads it through (`d.get(key, default)`,
    `key in d`, `len(x)`, truthiness). Where Python would raise because a value
    has the wrong type (`.get` on a list, `len` of a number), the accessors
    return the default instead. */
module Json {
  import opened Wrappers

  datatype Json =
    | JNull
    | JBool(b: bool)
    | JNum(n: real)
    | JStr(s: string)
    | JArr(items: seq<Json>)
    | JObj(fields: seq<(string, Json)>)

  /** The value of the first field named `key`; a decoded dict has no repeated key. */
  function Lookup(fields: seq<(string, Json)>, key: string): (r: Option<Json>)
    ensures r.None? <==> forall i :: 0 <= i < |fields| ==> fields[i].0 != key
    ensures r.Some? ==> exists i :: (0 <= i < |fields| && fields[i] == (key, r.value) &&
      forall j :: 0 <= j < i ==> fields[j].0 != key)
    decreases |fields|
  {
    if |fields| == 0 then None
    else if fields[0].0 == key then Some(fields[0].1)
    else
      var r := Lookup(fields[1..], key);
      assert forall j :: 1 <= j < |fields| ==> fields[j] == fields[1..][j - 1];
      r
  }

  /** `key in d` for a dict `d`. */
  predicate Has(j: Json, key: string) {
    j.JObj? && Lookup(j.fields, key).Some?
  }

  /** `d.get(key, dflt)`. */
  function Get(j: Json, key: string, dflt: Json): (r: Json)
    ensures !Has(j, key) ==> r == dflt
    ensures Has(j, key) ==> exists i :: 0 <= i < |j.fields| && j.fields[i] == (key, r)
  {
    if Has(j, key) then Lookup(j.fields, key).value else dflt
  }

  /** `list(d.keys())` for a dict `d`, in insertion order. */
  function Keys(j: Json): (r: seq<string>)
    ensures j.JObj? ==> |r| == |j.fields| && forall i :: 0 <= i < |r| ==> Has(j, r[i])
    ensures !j.JObj? ==> r == []
  {
    if j.JObj? then
      var r := seq(|j.fields|, i requires 0 <= i < |j.fields| => j.fields[i].0);
      assert forall i :: 0 <= i < |r| ==> Lookup(j.fields, r[i]).Some? by {
        forall i | 0 <= i < |r| ensures Lookup(j.fields, r[i]).Some? {
          assert j.fields[i].0 == r[i];
        }
      }
      r
    else []
  }

  /** Iterating over a list. */
  function Elements(j: Json): seq<Json> {
    if j.JArr? then j.items else []
  }

  /** `len(x)`: list, dict and string lengths. */
  function Len(j: Json): (n: nat)
    ensures j.JArr? ==> n == |j.items|
    ensures j.JObj? ==> n == |j.fields|
    ensures j.JStr? ==> n == |j.s|
  {
    match j
    case JArr(items) => |items|
    case JObj(fields) => |fields|
    case JStr(s) => |s|
    case _ => 0
  }

  /** `bool(x)`: None, False, zero and empty containers are false. */
  predicate Truthy(j: Json) {
    match j
    case JNull => false
    case JBool(b) => b
    case JNum(n) => n != 0.0
    case JStr(s) => |s| > 0
    case JArr(items) => |items| > 0
    case JObj(fields) => |fields| > 0
  }

  /** `isinstance(x, (int, float))`: a boolean is an int in Python. */
  predicate IsNumber(j: Json) {
    j.JNum? || j.JBool?
  }

  function NumValue(j: Json): real
    requires IsNumber(j)
  {
    if j.JNum? then j.n else if j.b then 1.0 else 0.0
  }

  /** The text of a string value; anything else reads as `dflt`. */
  function StrOr(j: Json, dflt: string): string {
    if j.JStr? then j.s else dflt
  }
}
