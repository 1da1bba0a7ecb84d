/** The fragment of JavaScript value semantics the reconciliation relies on:
    looking a key up in a parsed JSON object, reading `.one` / `.other`, and the
    short-circuiting operators `&&` and `||`, which return one of their operands. */
module JsValues {
  import opened Catalogs

  /** A value as seen by the script: `undefined`, a string, or a plural record. */
  datatype Value = Undefined | JsString(s: string) | JsObject(one: string, other: string)

  /** The two properties the script reads from a catalog value. */
  datatype Field = One | Other

  /** JavaScript truthiness restricted to these values: only `undefined` and `""`
      are falsy; every object is truthy. */
  predicate Truthy(v: Value)
  {
    match v
    case Undefined => false
    case JsString(s) => s != ""
    case JsObject(_, _) => true
  }

  /** The plural test of the message loop is the truthiness of
      `message.textPlural`, which is `undefined` when there is no plural text. */
  lemma PluralIsTruthy(m: Message)
    ensures IsPlural(m) <==> Truthy(if m.textPlural.None? then Undefined else JsString(m.textPlural.value))
  {
  }

  /** `obj[key]` on a plain object parsed from JSON. */
  function Lookup(c: Catalog, key: string): (v: Value)
    ensures v.Undefined? <==> key !in c
    ensures key in c && c[key].Str? ==> v == JsString(c[key].s)
    ensures key in c && c[key].Plural? ==> v == JsObject(c[key].one, c[key].other)
  {
    if key !in c then Undefined
    else match c[key]
      case Str(s) => JsString(s)
      case Plural(one, other) => JsObject(one, other)
  }

  /** `v.one` or `v.other`. A string has neither property, so the read yields
      `undefined`; reading a property of `undefined` throws, which the caller
      rules out. */
  function Member(v: Value, f: Field): (r: Value)
    requires !v.Undefined?
    ensures v.JsString? ==> r.Undefined?
    ensures v.JsObject? ==> r == JsString(if f == One then v.one else v.other)
  {
    match v
    case JsString(_) => Undefined
    case JsObject(one, other) => JsString(if f == One then one else other)
  }

  /** `v && v.f`: yields `v` itself when it is falsy, otherwise the property. */
  function AndMember(v: Value, f: Field): (r: Value)
    ensures !r.JsObject?
    ensures v.JsObject? ==> r == JsString(if f == One then v.one else v.other)
    ensures !v.JsObject? ==> !Truthy(r)
  {
    if Truthy(v) then Member(v, f) else v
  }

  /** `a || b`: the first operand when it is truthy, else the second. */
  function Or(a: Value, b: Value): (r: Value)
    ensures Truthy(a) ==> r == a
    ensures !Truthy(a) ==> r == b
  {
    if Truthy(a) then a else b
  }

  /** The entry a defined value denotes once it is stored back into a catalog. */
  function ToEntry(v: Value): (e: Entry)
    requires !v.Undefined?
    ensures v.JsString? ==> e == Str(v.s)
    ensures v.JsObject? ==> e == Plural(v.one, v.other)
  {
    match v
    case JsString(s) => Str(s)
    case JsObject(one, other) => Plural(one, other)
  }
}
