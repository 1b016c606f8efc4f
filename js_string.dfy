/** The values a record field can hold, as far as `String(value)` can tell them
    apart, and `String` itself. Numbers, booleans, bigints, dates and plain objects
    are not modelled in detail: each stands as a `Scalar` carrying the text that
    `String` gives for it. */
module JsString {

  datatype Value =
    | Str(s: string)
    | Undefined
    | Null
    | Arr(items: seq<Value>)
    | Scalar(text: string)

  /** `String(v)`. An array renders as `Array.prototype.join(",")` does: each
      element by `String`, except that `undefined` and `null` become "". */
  function Render(v: Value): (r: string)
    ensures v.Str? ==> r == v.s
    ensures v.Scalar? ==> r == v.text
    ensures v == Arr([]) ==> r == ""
  {
    match v
    case Str(s) => s
    case Undefined => "undefined"
    case Null => "null"
    case Scalar(text) => text
    case Arr(items) =>
      Join(seq(|items|, i requires 0 <= i < |items| =>
        if items[i].Undefined? || items[i].Null? then "" else Render(items[i])))
  }

  /** The parts separated by single commas. */
  function Join(parts: seq<string>): string
  {
    if parts == [] then ""
    else if |parts| == 1 then parts[0]
    else parts[0] + "," + Join(parts[1..])
  }

  /** `String` of every element, in element order. */
  function RenderEach(items: seq<Value>): (r: seq<string>)
    ensures |r| == |items|
    ensures forall j :: 0 <= j < |items| ==> r[j] == Render(items[j])
  {
    if items == [] then [] else [Render(items[0])] + RenderEach(items[1..])
  }
}
