/**
 * The values `JSON.parse` can produce, with the JavaScript operations the chat code
 * applies to them: truthiness (`a || b`), property lookup, `String(v)`, and the
 * `TypeError` that `String(v)` and `Number(v)` throw on some parsed objects.
 * Numbers are integers here.
 */
module Json {
  import opened Text

  datatype Value =
    | Null
    | Bool(b: bool)
    | Num(n: int)
    | Str(s: string)
    | Arr(items: seq<Value>)
    | Obj(fields: map<string, Value>)

  /** JavaScript truthiness of a parsed value. */
  predicate Truthy(v: Value)
  {
    match v
    case Null => false
    case Bool(b) => b
    case Num(n) => n != 0
    case Str(s) => s != ""
    case Arr(_) => true
    case Obj(_) => true
  }

  /** `o.k`: `None` stands for `undefined`. */
  function Get(m: map<string, Value>, k: string): Option<Value>
  {
    if k in m then Some(m[k]) else None
  }

  /**
   * `a || d`: the property value when it is truthy, else the default. The result is one
   * of the two operands, and it is truthy unless it is the default.
   */
  function Or(a: Option<Value>, d: Value): (r: Value)
    ensures r == d || (a.Some? && r == a.value)
    ensures Truthy(r) || r == d
  {
    if a.Some? && Truthy(a.value) then a.value else d
  }

  /**
   * The own properties that reading `v.k` can find: an object's fields; no array,
   * number, boolean or string has a property under any name the chat code reads.
   */
  function PropertiesOf(v: Value): map<string, Value>
  {
    if v.Obj? then v.fields else map[]
  }

  /**
   * `String(v)`. An array is its elements' texts joined by commas, `null` elements
   * giving the empty text; any object gives `[object Object]`.
   */
  function ToText(v: Value): string
    decreases v, 1
  {
    match v
    case Null => "null"
    case Bool(b) => if b then "true" else "false"
    case Num(n) => IntToDecimal(n)
    case Str(s) => s
    case Obj(_) => "[object Object]"
    case Arr(items) => JoinTexts(items, v)
  }

  /** `items.join(",")` for the elements of the array `whole`. */
  function JoinTexts(items: seq<Value>, ghost whole: Value): string
    requires forall i :: 0 <= i < |items| ==> items[i] < whole
    decreases whole, 0, |items|
  {
    if items == [] then ""
    else
      var first := if items[0].Null? then "" else ToText(items[0]);
      if |items| == 1 then first else first + "," + JoinTexts(items[1..], whole)
  }

  /**
   * `String(v)` and `Number(v)` throw a `TypeError`. A parsed object with its own
   * `toString` property has no callable `toString` (JSON values are never functions) and
   * its `valueOf` gives back the object, so neither conversion finds a primitive; an
   * array converts through its elements, and so throws when one of them does. Strings,
   * numbers, booleans, `null` and objects without `toString` convert normally.
   */
  predicate ToTextThrows(v: Value)
    decreases v, 1
  {
    match v
    case Obj(m) => "toString" in m
    case Arr(items) => SomeThrows(items, v)
    case _ => false
  }

  /** One of the elements `items` of the array `whole` throws. */
  predicate SomeThrows(items: seq<Value>, ghost whole: Value)
    requires forall i :: 0 <= i < |items| ==> items[i] < whole
    decreases whole, 0, |items|
  {
    items != [] && (ToTextThrows(items[0]) || SomeThrows(items[1..], whole))
  }

  /** `String(undefined)` for an absent property, else `String(v)`. */
  function FieldText(a: Option<Value>): string
  {
    if a.None? then "undefined" else ToText(a.value)
  }
}
