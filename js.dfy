/**
 * The JavaScript values the client handles, and the browser's localStorage.
 * A stored entry holds the object that was written, so JSON.stringify followed
 * by JSON.parse is taken to give the object back.
 */
module Js {
  import opened Wrappers
  import opened Text

  /** The values found in a parsed server response (numbers are integers here). */
  datatype JsValue = Undefined | Null | Bool(b: bool) | Num(n: int) | Str(s: string)

  /** A flat object parsed from JSON: its own properties. */
  type JsObject = map<string, JsValue>

  /** Property access: a missing property reads as undefined. */
  function Get(o: JsObject, key: string): (v: JsValue)
    ensures key !in o ==> v == Undefined
    ensures key in o ==> v == o[key]
  {
    if key in o then o[key] else Undefined
  }

  /** ToBoolean: undefined, null, false, 0 and the empty string are falsy. */
  predicate Truthy(v: JsValue) {
    match v
    case Undefined => false
    case Null => false
    case Bool(b) => b
    case Num(n) => n != 0
    case Str(s) => s != ""
  }

  /** The `||` operator: the left operand when it is truthy, else the right one. */
  function Or(a: JsValue, b: JsValue): (r: JsValue)
    ensures Truthy(r) <==> Truthy(a) || Truthy(b)
    ensures Truthy(a) ==> r == a
    ensures !Truthy(a) ==> r == b
  {
    if Truthy(a) then a else b
  }

  /** How a template literal `${v}` prints a value. */
  function ToJsString(v: JsValue): string {
    match v
    case Undefined => "undefined"
    case Null => "null"
    case Bool(b) => if b then "true" else "false"
    case Num(n) => IntToString(n)
    case Str(s) => s
  }

  /** window.localStorage: string keys to stored objects. */
  class LocalStorage {
    var items: map<string, JsObject>

    constructor ()
      ensures items == map[]
    {
      items := map[];
    }

    /** getItem(key): absent entries come back as null. */
    function GetItem(key: string): (r: Option<JsObject>)
      reads this
      ensures r.Some? <==> key in items
      ensures r.Some? ==> r.value == items[key]
    {
      if key in items then Some(items[key]) else None
    }

    method SetItem(key: string, value: JsObject)
      modifies this
      ensures items == old(items)[key := value]
    {
      items := items[key := value];
    }

    method RemoveItem(key: string)
      modifies this
      ensures items == old(items) - {key}
    {
      items := items - {key};
    }
  }
}
