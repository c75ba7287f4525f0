/**
 An abstract JSON tree, the value `JSONSerialization.jsonObject` hands back, and the
 dynamic casts (`as? String`, `as? Bool`, `as? NSDictionary`, `as? [NSDictionary]`) that
 the package decoder applies to it.
 */
module Json {
  import opened Wrappers

  datatype Value =
    | JNull
    | JBool(b: bool)
    | JNumber(n: int)
    | JString(s: string)
    | JArray(items: seq<Value>)
    | JObject(fields: map<string, Value>)

  /** The fields of a JSON object (an `NSDictionary` with string keys). */
  type Object = map<string, Value>

  /** The outcome of parsing raw bytes: a JSON tree, or the parser's rejection. */
  datatype Document = Malformed | WellFormed(root: Value)

  /** `obj[key] as? String`: present only when the field exists and is a string. */
  function StringAt(obj: Object, key: string): Option<string> {
    if key in obj && obj[key].JString? then Some(obj[key].s) else None
  }

  /** `obj[key] as? Bool`: present only when the field exists and is a boolean. */
  function BoolAt(obj: Object, key: string): Option<bool> {
    if key in obj && obj[key].JBool? then Some(obj[key].b) else None
  }

  /** `obj[key] as? NSDictionary`: present only when the field exists and is an object. */
  function ObjectAt(obj: Object, key: string): Option<Object> {
    if key in obj && obj[key].JObject? then Some(obj[key].fields) else None
  }

  /** True when every element of `items` is a JSON object. */
  predicate AllObjects(items: seq<Value>) {
    forall i :: 0 <= i < |items| ==> items[i].JObject?
  }

  /**
   The element-wise cast `items as? [NSDictionary]`: it succeeds only when every element
   is an object, and then yields their fields in the same order.
   */
  function ObjectsOf(items: seq<Value>): (r: Option<seq<Object>>)
    ensures r.Some? <==> AllObjects(items)
    ensures r.Some? ==> |r.value| == |items|
    ensures r.Some? ==> forall i :: 0 <= i < |items| ==> items[i] == JObject(r.value[i])
  {
    if |items| == 0 then Some([])
    else if !items[0].JObject? then None
    else
      var rest := ObjectsOf(items[1..]);
      if rest.None? then None else Some([items[0].fields] + rest.value)
  }

  /** `j as? [NSDictionary]`: an array whose every element is an object, or nothing. */
  function ArrayOfObjects(j: Value): Option<seq<Object>> {
    if j.JArray? then ObjectsOf(j.items) else None
  }

  /** `obj[key] as? [NSDictionary]`. */
  function ArrayOfObjectsAt(obj: Object, key: string): Option<seq<Object>> {
    if key in obj then ArrayOfObjects(obj[key]) else None
  }
}
