/**
 * JSON values as the scraper sees them after `json.loads`/`r.json()`: a tagged union
 * whose objects are ordered key/value lists (Python dicts keep insertion order), with
 * Python's truthiness, `dict.get`, `a or b or c`, `str(x)` and `str(x).isdigit()`.
 * Booleans and floats are not part of the model.
 */
module JsonValue {
  import opened PyText

  datatype Json =
    | JNull
    | JInt(i: int)
    | JStr(s: string)
    | JArr(items: seq<Json>)
    | JObj(fields: seq<(string, Json)>)

  /** The values a product record or a metadata dict holds: None, an int or a str. */
  type Scalar = j: Json | j.JNull? || j.JInt? || j.JStr? witness JNull

  /** Python's `bool(x)`. */
  predicate Truthy(j: Json) {
    match j
    case JNull => false
    case JInt(i) => i != 0
    case JStr(s) => s != []
    case JArr(items) => items != []
    case JObj(fields) => fields != []
  }

  predicate HasKey(fields: seq<(string, Json)>, key: string) {
    exists k :: 0 <= k < |fields| && fields[k].0 == key
  }

  /**
   * `d.get(key)` on the dict `json.loads` builds from the pairs: a repeated key keeps
   * its last value, so the value is the one of the last pair with that key, or None.
   */
  function Get(fields: seq<(string, Json)>, key: string): (r: Json)
    ensures !HasKey(fields, key) ==> r == JNull
    ensures forall k :: 0 <= k < |fields| && fields[k].0 == key && LastWithKey(fields, key, k) ==> r == fields[k].1
    decreases |fields|
  {
    if fields == [] then JNull
    else
      var n := |fields| - 1;
      if fields[n].0 == key then fields[n].1
      else
        assert forall k :: 0 <= k < n ==> fields[..n][k] == fields[k];
        assert forall k :: 0 <= k < n && LastWithKey(fields, key, k) ==> LastWithKey(fields[..n], key, k);
        Get(fields[..n], key)
  }

  /** No pair after position `k` has the key. */
  predicate LastWithKey(fields: seq<(string, Json)>, key: string, k: nat) {
    forall j :: k < j < |fields| ==> fields[j].0 != key
  }

  /** `a or b`: `a` when it is truthy, else `b`. */
  function Or(a: Json, b: Json): (r: Json)
    ensures r == a || r == b
    ensures Truthy(r) <==> Truthy(a) || Truthy(b)
    ensures Truthy(a) ==> r == a
  {
    if Truthy(a) then a else b
  }

  /** `str(x)` for None, an int or a str. */
  function PyStr(x: Scalar): string {
    match x
    case JNull => "None"
    case JInt(i) => IntToString(i)
    case JStr(s) => s
  }

  /** `x is not None and str(x).isdigit()`: a non-negative int or a string of digits. */
  predicate IsDigitValue(j: Json) {
    match j
    case JInt(i) => i >= 0
    case JStr(s) => IsDigits(s)
    case _ => false
  }

  /** `int(x)` for a value satisfying IsDigitValue. */
  function DigitValueOf(j: Json): nat
    requires IsDigitValue(j)
  {
    match j
    case JInt(i) => i
    case JStr(s) => DecimalValue(s)
  }
}
