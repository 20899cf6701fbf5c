/** The primitive value kinds of the key-value facade, and the C# integer widths they live in. */
module Values {

  type byte = bv8

  /** C#'s `int` (System.Int32). */
  type int32 = x: int | -0x8000_0000 <= x < 0x8000_0000

  /** C#'s `long` (System.Int64). */
  type int64 = x: int | -0x8000_0000_0000_0000 <= x < 0x8000_0000_0000_0000

  predicate InInt32Range(x: int) { -0x8000_0000 <= x < 0x8000_0000 }

  /** The unchecked narrowing cast `(int) x` on a `long`: keeps the low 32 bits, two's complement. */
  function NarrowToInt32(x: int64): (r: int32)
    ensures InInt32Range(x) ==> r == x
    ensures (x - r) % 0x1_0000_0000 == 0
  {
    var low := x % 0x1_0000_0000;
    if low < 0x8000_0000 then low else low - 0x1_0000_0000
  }

  /** Case-insensitive comparison of the ASCII letters, the only letters the modelled code
      compares that way. */
  function Lower(c: char): char
  {
    if 'A' <= c <= 'Z' then (c as int - 'A' as int + 'a' as int) as char else c
  }

  predicate EqualsIgnoreCase(s: string, t: string)
  {
    |s| == |t| && forall i :: 0 <= i < |s| ==> Lower(s[i]) == Lower(t[i])
  }

  /** The boolean result of a `TryGet*` call together with what it wrote to its `out` parameter. */
  datatype Got<T> = Got(ok: bool, value: T)

  /** The exceptions the modelled C# code throws. */
  datatype Exception =
    | ArgumentNullException(paramName: string)
    | InvalidCastException(message: string)
    | InvalidOperationException(message: string)
}
