/** The Java values the library moves between entities and SQL statements. */
module Values {
  import opened Text

  newtype int32 = x: int | -0x8000_0000 <= x < 0x8000_0000
  newtype int64 = x: int | -0x8000_0000_0000_0000 <= x < 0x8000_0000_0000_0000

  const Int32Min: int32 := -0x8000_0000
  const Int32Max: int32 := 0x7fff_ffff

  /** A boxed Java object as far as the library looks at it: `null`, an
      `Integer`, a `Long` or a `String`. */
  datatype Value = Null | Integer(i: int32) | Long(l: int64) | Str(s: string)

  /** `String.valueOf(Object)`, as `StringBuilder.append(Object)` renders a value. */
  function Show(v: Value): string
  {
    match v
    case Null => "null"
    case Integer(i) => IntToString(i as int)
    case Long(l) => IntToString(l as int)
    case Str(s) => s
  }

  /** `getClass().getSimpleName()` of a non-null value. */
  function SimpleClassName(v: Value): string
    requires !v.Null?
  {
    match v
    case Integer(_) => "Integer"
    case Long(_) => "Long"
    case Str(_) => "String"
  }

  /** Java `int` addition of one: two's-complement wrap-around at `Integer.MAX_VALUE`. */
  function Increment(v: int32): (r: int32)
    ensures r as int == (v as int + 1 + 0x8000_0000) % 0x1_0000_0000 - 0x8000_0000
    ensures v < Int32Max ==> r as int == v as int + 1
    ensures r != v
  {
    if v == Int32Max then Int32Min else v + 1
  }
}
