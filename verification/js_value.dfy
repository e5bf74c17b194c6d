/** Values produced by `JSON.parse` and the few JavaScript conversions the
    tools apply to them: `Object.entries`, `String(v)` and truthiness. */
module JsValues {
  import opened Text
  import opened Wrappers
  import opened OrderedMap

  /** A parsed JSON value. A number is kept as the decimal text `String(n)`
      prints for it, so `0` is `JNumber("0")`. */
  datatype JsValue =
    | JNull
    | JBool(b: bool)
    | JNumber(text: string)
    | JString(s: string)
    | JArray(items: seq<JsValue>)
    | JObject(fields: OMap<JsValue>)

  /** `typeof v === 'object'`, which holds for `null` as well. */
  predicate IsTypeofObject(v: JsValue)
  {
    v.JNull? || v.JArray? || v.JObject?
  }

  /** The falsy values JSON can produce: `null`, `false`, `0` and `""`. */
  predicate IsFalsy(v: JsValue)
  {
    match v
    case JNull => true
    case JBool(b) => !b
    case JNumber(t) => t == "0"
    case JString(s) => s == ""
    case _ => false
  }

  /** `Object.entries(v)`; `None` when it throws, which it does for `null`.
      Strings and arrays list their elements under the index keys, numbers
      and booleans have no own enumerable keys. */
  function Entries(v: JsValue): (r: Option<OMap<JsValue>>)
    ensures r.None? <==> v.JNull?
    ensures v.JObject? ==> r == Some(v.fields)
    ensures v.JArray? ==> r.Some? && |r.value| == |v.items|
    ensures v.JString? ==> r.Some? && |r.value| == |v.s|
    ensures r.Some? && (v.JArray? || v.JString?) ==>
      forall i :: 0 <= i < |r.value| ==> r.value[i].key == NatToString(i)
  {
    match v
    case JNull => None
    case JBool(_) => Some([])
    case JNumber(_) => Some([])
    case JString(s) => Some(seq(|s|, i requires 0 <= i < |s| => Entry(NatToString(i), JString([s[i]]))))
    case JArray(items) => Some(seq(|items|, i requires 0 <= i < |items| => Entry(NatToString(i), items[i])))
    case JObject(fields) => Some(fields)
  }

  /** `Object.values(v)`. */
  function Values(m: OMap<JsValue>): (r: seq<JsValue>)
    ensures |r| == |m|
    ensures forall i :: 0 <= i < |m| ==> r[i] == m[i].value
  {
    seq(|m|, i requires 0 <= i < |m| => m[i].value)
  }

  /** `String(v)`. An array prints its elements joined by commas, `null`
      elements as nothing; an object prints as `[object Object]`. */
  function ToJsString(v: JsValue): (r: string)
    ensures v.JString? ==> r == v.s
    ensures v.JNumber? ==> r == v.text
    ensures v.JNull? ==> r == "null"
    decreases v, 1
  {
    match v
    case JNull => "null"
    case JBool(b) => if b then "true" else "false"
    case JNumber(t) => t
    case JString(s) => s
    case JArray(items) => Join(seq(|items|, i requires 0 <= i < |items| => ElementString(v, items[i])), ",")
    case JObject(_) => "[object Object]"
  }

  /** How `Array.prototype.join` prints one element of the array `parent`. */
  function ElementString(parent: JsValue, x: JsValue): (r: string)
    requires parent.JArray? && x in parent.items
    ensures x.JNull? ==> r == ""
    decreases parent, 0
  {
    if x.JNull? then "" else ToJsString(x)
  }
}
