/** Untyped values as the widget receives them from the decoded JSON payload. */
module Values {

  datatype Option<+T> = None | Some(value: T)

  /** One field of an untyped record: missing, a string, an array (of strings) or anything else
      (a number, a boolean, null, an object). */
  datatype JsVal = Absent | Str(s: string) | Arr(elems: seq<string>) | Other

  /** `safeText`: a string field is kept, anything else becomes the empty string. */
  function SafeText(v: JsVal): (r: string)
    ensures v.Str? ==> r == v.s
    ensures r != "" ==> v == Str(r)
  {
    if v.Str? then v.s else ""
  }

  /** `Array.isArray(v) ? v : []` */
  function ArrayOrEmpty(v: JsVal): (r: seq<string>)
    ensures v.Arr? ==> r == v.elems
    ensures r != [] ==> v == Arr(r)
  {
    if v.Arr? then v.elems else []
  }

  /** JavaScript's `a || b` on two strings: the empty string is the only falsy string. */
  function OrElse(a: string, b: string): (r: string)
    ensures a != "" ==> r == a
    ensures a == "" ==> r == b
  {
    if a != "" then a else b
  }
}
