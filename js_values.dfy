/** The JavaScript values that reach the route handlers and the bridge
    (parsed JSON request bodies, response payloads), with the coercions the
    code applies to them: truthiness, `||`, `??`, `String(v)`, `Number(v)`,
    `typeof` and `JSON.stringify`. */
module JsValues {
  import opened Wrappers
  import opened Strings
  import opened Numbers

  /** An object is its own properties in insertion order; reading a key
      that occurs twice sees the last occurrence, as an object literal with
      a repeated key would. */
  datatype JsValue =
    | Undefined
    | Null
    | Bool(b: bool)
    | Num(n: Double)
    | Str(s: string)
    | Arr(items: seq<JsValue>)
    | Obj(props: seq<(string, JsValue)>)

  predicate IsNullish(v: JsValue) { v.Undefined? || v.Null? }

  /** `Boolean(v)` */
  predicate Truthy(v: JsValue) {
    match v
    case Undefined => false
    case Null => false
    case Bool(b) => b
    case Num(n) => !(n.NaN? || n == Finite(0.0))
    case Str(s) => s != ""
    case Arr(_) => true
    case Obj(_) => true
  }

  /** `a || b` */
  function Or(a: JsValue, b: JsValue): JsValue {
    if Truthy(a) then a else b
  }

  /** `a ?? b` */
  function Coalesce(a: JsValue, b: JsValue): JsValue {
    if IsNullish(a) then b else a
  }

  /** `typeof v === 'object' && v !== null` */
  predicate IsObject(v: JsValue) { v.Arr? || v.Obj? }

  /** `typeof v === 'number'` */
  predicate IsNumber(v: JsValue) { v.Num? }

  function Lookup(props: seq<(string, JsValue)>, key: string): JsValue {
    if props == [] then Undefined
    else if props[|props| - 1].0 == key then props[|props| - 1].1
    else Lookup(props[..|props| - 1], key)
  }

  /** `v[key]` on a value that is not null or undefined (arrays and
      primitives have none of the keys this code reads). */
  function Get(v: JsValue, key: string): JsValue {
    if v.Obj? then Lookup(v.props, key) else Undefined
  }

  /** `key in v` */
  predicate HasKey(v: JsValue, key: string) {
    v.Obj? && exists i :: 0 <= i < |v.props| && v.props[i].0 == key
  }

  /** Reading a key the value does not have gives undefined. */
  lemma LookupAbsent(v: JsValue, key: string)
    requires !HasKey(v, key)
    ensures Get(v, key) == Undefined
  {
    if v.Obj? {
      LookupMissing(v.props, key);
    }
  }

  lemma {:induction false} LookupMissing(props: seq<(string, JsValue)>, key: string)
    requires forall i :: 0 <= i < |props| ==> props[i].0 != key
    ensures Lookup(props, key) == Undefined
  {
    if props != [] {
      LookupMissing(props[..|props| - 1], key);
    }
  }

  /** `String(v)`; for an array this is `join(',')` of its elements, where
      null and undefined elements print as nothing. */
  function ToJsString(v: JsValue): string
    decreases v
  {
    match v
    case Undefined => "undefined"
    case Null => "null"
    case Bool(b) => if b then "true" else "false"
    case Num(n) => NumberToString(n)
    case Str(s) => s
    case Arr(items) =>
      Join(seq(|items|, i requires 0 <= i < |items| =>
        if IsNullish(items[i]) then "" else ToJsString(items[i])), ',')
    case Obj(_) => "[object Object]"
  }

  /** `Number(v)` */
  function ToNumber(v: JsValue): Double {
    match v
    case Undefined => NaN
    case Null => Finite(0.0)
    case Bool(b) => Finite(if b then 1.0 else 0.0)
    case Num(n) => n
    case Str(s) => JsStringToNumber(s)
    case Arr(_) => JsStringToNumber(ToJsString(v))
    case Obj(_) => NaN
  }

  function HexDigitChar(d: nat): char
    requires d < 16
  {
    if d < 10 then DigitChar(d) else (('a' as int) + d - 10) as char
  }

  /** One character of a JSON string literal. */
  function JsonEscape(c: char): string {
    if c == '"' then "\\\""
    else if c == '\\' then "\\\\"
    else if c == '\n' then "\\n"
    else if c == '\r' then "\\r"
    else if c == '\t' then "\\t"
    else if c == '\U{8}' then "\\b"
    else if c == '\U{c}' then "\\f"
    else if (c as int) < 0x20 then "\\u00" + [HexDigitChar((c as int) / 16), HexDigitChar((c as int) % 16)]
    else [c]
  }

  function JsonQuote(s: string): (r: string)
    ensures |r| >= 2
  {
    "\"" + JsonEscapeAll(s) + "\""
  }

  function JsonEscapeAll(s: string): string {
    if s == [] then "" else JsonEscape(s[0]) + JsonEscapeAll(s[1..])
  }

  /** The positions of the properties `JSON.stringify` writes: those whose
      value is not undefined, in order. */
  function DefinedIndices(props: seq<(string, JsValue)>, from: nat): (r: seq<nat>)
    requires from <= |props|
    ensures forall i :: 0 <= i < |r| ==> from <= r[i] < |props| && !props[r[i]].1.Undefined?
    decreases |props| - from
  {
    if from == |props| then []
    else (if props[from].1.Undefined? then [] else [from]) + DefinedIndices(props, from + 1)
  }

  /** `JSON.stringify(v)` for a value inside an array or object, or for an
      array or object itself. Non-finite numbers and undefined array
      elements print as null. */
  function JsonText(v: JsValue): (r: string)
    ensures IsObject(v) ==> |r| >= 2
    decreases v
  {
    match v
    case Undefined => "null"
    case Null => "null"
    case Bool(b) => if b then "true" else "false"
    case Num(n) => if n.Finite? then NumberToString(n) else "null"
    case Str(s) => JsonQuote(s)
    case Arr(items) =>
      "[" + Join(seq(|items|, i requires 0 <= i < |items| => JsonText(items[i])), ',') + "]"
    case Obj(props) =>
      var ks := DefinedIndices(props, 0);
      "{" + Join(seq(|ks|, i requires 0 <= i < |ks| => JsonQuote(props[ks[i]].0) + ":" + JsonText(props[ks[i]].1)), ',') + "}"
  }
}
