/** JavaScript values as they reach the ingestion code: CSV cells, JSON documents and request bodies. */
module JsValues {
  import JsText

  /**
   * A JavaScript value. An object is the sequence of its own enumerable
   * properties in `Object.keys` order, each key once; numbers are exact.
   */
  datatype JsValue =
    | JUndefined
    | JNull
    | JBool(b: bool)
    | JNum(x: real)
    | JStr(s: string)
    | JObj(fields: seq<(string, JsValue)>)
    | JArr(elems: seq<JsValue>)

  /** JavaScript truthiness (`!!v`). */
  predicate Truthy(v: JsValue) {
    match v
    case JUndefined => false
    case JNull => false
    case JBool(b) => b
    case JNum(x) => x != 0.0
    case JStr(s) => s != ""
    case JObj(_) => true
    case JArr(_) => true
  }

  /** `v == null` (loose equality): null or undefined. */
  predicate IsNullish(v: JsValue) {
    v.JNull? || v.JUndefined?
  }

  /** `typeof v === "object"`, which holds for null and for arrays as well. */
  predicate IsObjectType(v: JsValue) {
    v.JNull? || v.JObj? || v.JArr?
  }

  /** `Object.keys(v || {})` paired with the values: array and string indices become keys "0", "1", .... */
  function Entries(v: JsValue): (es: seq<(string, JsValue)>)
    ensures v.JObj? ==> es == v.fields
    ensures !Truthy(v) ==> es == []
  {
    match v
    case JObj(fields) => fields
    case JArr(elems) => seq(|elems|, i requires 0 <= i < |elems| => (JsText.NatToString(i), elems[i]))
    case JStr(s) => seq(|s|, i requires 0 <= i < |s| => (JsText.NatToString(i), JStr([s[i]])))
    case _ => []
  }

  /** The last property named `key` among `fields`, or undefined: `JSON.parse` keeps the last of repeated keys. */
  function LastField(fields: seq<(string, JsValue)>, key: string): (v: JsValue)
    ensures v != JUndefined ==> exists k :: 0 <= k < |fields| && fields[k] == (key, v)
  {
    if fields == [] then JUndefined
    else if fields[|fields| - 1].0 == key then fields[|fields| - 1].1
    else LastField(fields[..|fields| - 1], key)
  }

  /** `v.key` on a parsed JSON value. */
  function Get(v: JsValue, key: string): JsValue {
    match v
    case JObj(fields) => LastField(fields, key)
    case _ => JUndefined
  }

  /** Each property of a two-property object with distinct names reads back by name. */
  lemma {:induction false} TwoFieldsReadBack(a: string, va: JsValue, b: string, vb: JsValue)
    requires a != b
    ensures Get(JObj([(a, va), (b, vb)]), a) == va && Get(JObj([(a, va), (b, vb)]), b) == vb
  {
    var fields := [(a, va), (b, vb)];
    assert fields[..1] == [(a, va)];
    assert LastField(fields[..1], a) == va;
  }

  /** Each property of a three-property object with distinct names reads back by name. */
  lemma {:induction false} ThreeFieldsReadBack(a: string, va: JsValue, b: string, vb: JsValue, c: string, vc: JsValue)
    requires a != b && a != c && b != c
    ensures var o := JObj([(a, va), (b, vb), (c, vc)]);
      Get(o, a) == va && Get(o, b) == vb && Get(o, c) == vc
  {
    var fields := [(a, va), (b, vb), (c, vc)];
    assert fields[..2] == [(a, va), (b, vb)];
    TwoFieldsReadBack(a, va, b, vb);
    assert LastField(fields, a) == LastField(fields[..2], a);
  }

  /** `String(v)` for the values whose rendering is fixed text (not numbers, not arrays). */
  function FixedString(v: JsValue): string
    requires !v.JNum? && !v.JArr?
  {
    match v
    case JUndefined => "undefined"
    case JNull => "null"
    case JBool(b) => if b then "true" else "false"
    case JStr(s) => s
    case JObj(_) => "[object Object]"
  }
}
