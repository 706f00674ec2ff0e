/** JavaScript values as the backend sees them in request bodies, CSV rows
    and template data objects. Only the parts the controllers depend on are
    kept: whether a value is a string, its truthiness, and the text that
    `String(value)` produces when it is spliced into a template. */
module Js {

  datatype Option<+T> = None | Some(value: T)

  /** A JSON-ish value. `JsOther` stands for every non-string value
      (numbers, booleans, null, undefined, objects): `shown` is the text
      `String(v)` yields and `truthy` is its truthiness. */
  datatype JsValue = JsString(s: string) | JsOther(shown: string, truthy: bool)

  /** The value of an absent property. */
  const Undefined: JsValue := JsOther("undefined", false)

  /** JavaScript truthiness: a string is truthy iff it is non-empty. */
  predicate Truthy(v: JsValue) {
    match v
    case JsString(s) => s != []
    case JsOther(_, t) => t
  }

  /** What `String(v)` produces. */
  function Shown(v: JsValue): string {
    match v
    case JsString(s) => s
    case JsOther(t, _) => t
  }

  /** A plain object, as the ordered list of its own enumerable entries
      (the order `Object.entries` reports). */
  type Object = seq<(string, JsValue)>

  /** `Object.keys(o)`. */
  function Keys(o: Object): (ks: seq<string>)
    ensures |ks| == |o|
    ensures forall i :: 0 <= i < |o| ==> ks[i] == o[i].0
  {
    if o == [] then [] else [o[0].0] + Keys(o[1..])
  }

  /** `o[k]`: the value of the first entry named `k`, or undefined. */
  function Lookup(o: Object, k: string): (v: JsValue)
    ensures k !in Keys(o) ==> v == Undefined
    ensures k in Keys(o) ==> exists i :: FirstEntry(o, k, i) && o[i].1 == v
  {
    if o == [] then Undefined
    else if o[0].0 == k then
      assert FirstEntry(o, k, 0);
      o[0].1
    else
      var v := Lookup(o[1..], k);
      assert k in Keys(o) ==> exists i :: FirstEntry(o, k, i) && o[i].1 == v by {
        if k in Keys(o) {
          assert Keys(o) == [o[0].0] + Keys(o[1..]);
          var i :| FirstEntry(o[1..], k, i) && o[1..][i].1 == v;
          assert FirstEntry(o, k, i + 1);
        }
      }
      v
  }

  /** Entry `i` is the first one named `k`. */
  predicate FirstEntry(o: Object, k: string, i: int) {
    0 <= i < |o| && o[i].0 == k && forall j :: 0 <= j < i ==> o[j].0 != k
  }
}
