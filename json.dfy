/**
 * JSON values as `json.load` hands them to the pack manifest code, and the
 * jsonschema type tests the manifest schema uses.
 */
module Json {

  /** Numbers are kept as reals: draft 7 jsonschema counts `1.0` as an integer. */
  datatype Json =
    | JNull
    | JBool(b: bool)
    | JNum(x: real)
    | JStr(s: string)
    | JArr(items: seq<Json>)
    | JObj(fields: map<string, Json>)

  /** `{"type": "integer"}`: a number without fractional part (booleans are not numbers). */
  predicate IsInteger(j: Json)
  {
    j.JNum? && j.x.Floor as real == j.x
  }

  /** `{"type": "array", "items": {"type": "string"}}` */
  predicate IsStrArray(j: Json)
  {
    j.JArr? && forall i :: 0 <= i < |j.items| ==> j.items[i].JStr?
  }

  /** `{"type": "object", "additionalProperties": {"type": "string"}}` */
  predicate IsStrObject(j: Json)
  {
    j.JObj? && forall k :: k in j.fields ==> j.fields[k].JStr?
  }

  function StrItems(j: Json): (r: seq<string>)
    requires IsStrArray(j)
    ensures |r| == |j.items| && forall i :: 0 <= i < |r| ==> j.items[i] == JStr(r[i])
  {
    seq(|j.items|, i requires 0 <= i < |j.items| => j.items[i].s)
  }

  function StrArray(xs: seq<string>): (r: Json)
    ensures IsStrArray(r) && StrItems(r) == xs
  {
    JArr(seq(|xs|, i requires 0 <= i < |xs| => JStr(xs[i])))
  }

  function StrMap(j: Json): (r: map<string, string>)
    requires IsStrObject(j)
    ensures r.Keys == j.fields.Keys && forall k :: k in r ==> j.fields[k] == JStr(r[k])
  {
    map k | k in j.fields :: j.fields[k].s
  }

  function StrObject(m: map<string, string>): (r: Json)
    ensures IsStrObject(r) && StrMap(r) == m
  {
    JObj(map k | k in m :: JStr(m[k]))
  }

  /** Reading a string array and writing it back gives the same JSON value. */
  lemma StrArrayItems(j: Json)
    requires IsStrArray(j)
    ensures StrArray(StrItems(j)) == j
  {
  }
}
