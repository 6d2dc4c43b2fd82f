/** The values the two macros carry: a string or an `i64` per item. */
module Values {
  import opened Bytes
  import opened Ints
  import opened FmtStrings

  /** A value bound to one format item: a `&str` for "%s", an `i64` for "%d". */
  datatype Value = StrVal(s: Bytes) | IntVal(n: I64)

  /** The value has the type its item declares. */
  predicate Fits(item: FormatItem, v: Value) {
    match item
    case Str => v.StrVal?
    case Int => v.IntVal?
    case Any => false
  }

  /** `format!("{}", v)`: a string as is, an integer in base 10. */
  function Field(v: Value): Bytes {
    match v
    case StrVal(s) => s
    case IntVal(n) => ShowI64(n)
  }

  function Fields(vs: seq<Value>): (fs: seq<Bytes>)
    ensures |fs| == |vs| && forall i :: 0 <= i < |vs| ==> fs[i] == Field(vs[i])
  {
    seq(|vs|, i requires 0 <= i < |vs| => Field(vs[i]))
  }
}
