/** The JavaScript values the TCX viewer's XML converter produces and the
    parser then walks: strings, plain objects (whose properties keep their
    insertion order) and arrays. A property that is not there — JavaScript's
    `undefined` — is `None` wherever a lookup can miss. */
module Json {
  import opened Wrappers
  import OrderedMap

  datatype JValue =
    | JString(s: string)
    | JObject(fields: OrderedMap.Entries<string, JValue>)
    | JArray(items: seq<JValue>)

  /** JavaScript truthiness of a possibly missing value: only `undefined`
      and the empty string are falsy here (objects and arrays, even empty
      ones, are truthy). */
  predicate Truthy(v: Option<JValue>) {
    v.Some? && (v.value.JString? ==> v.value.s != "")
  }

  /** `v.key` (or `v[key]`) for a property name: objects answer from their
      own fields; a string or an array has none of the names looked up. */
  function Get(v: Option<JValue>, key: string): (r: Option<JValue>)
    ensures r.Some? ==> v.Some? && v.value.JObject? && key in OrderedMap.Keys(v.value.fields)
  {
    if v.Some? && v.value.JObject? then OrderedMap.Get(v.value.fields, key) else None
  }

  /** `Object.keys(v)` as far as the parser's searches see it: the property
      names of an object in insertion order; nothing for other values. */
  function Keys(v: JValue): (ks: seq<string>)
    ensures forall i :: 0 <= i < |ks| ==> Get(Some(v), ks[i]).Some?
  {
    if v.JObject? then OrderedMap.Keys(v.fields) else []
  }

  /** `a || b` on values. */
  function Or(a: Option<JValue>, b: JValue): (r: JValue)
    ensures Truthy(a) ==> r == a.value
    ensures !Truthy(a) ==> r == b
  {
    if Truthy(a) then a.value else b
  }

  /** An array's elements, or the value alone otherwise: the elements the parser iterates over. */
  function AsList(v: Option<JValue>): (r: seq<Option<JValue>>)
    ensures v.Some? && v.value.JArray? ==>
      (|r| == |v.value.items| && forall i :: 0 <= i < |r| ==> r[i] == Some(v.value.items[i]))
    ensures !(v.Some? && v.value.JArray?) ==> r == [v]
  {
    if v.Some? && v.value.JArray? then Wrap(v.value.items) else [v]
  }

  function Wrap(items: seq<JValue>): (r: seq<Option<JValue>>)
    ensures |r| == |items|
    ensures forall i :: 0 <= i < |r| ==> r[i] == Some(items[i])
  {
    if items == [] then [] else [Some(items[0])] + Wrap(items[1..])
  }
}
