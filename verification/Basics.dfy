/** Types shared by the whole model. */
module Basics {

  datatype Option<+T> = None | Some(value: T)

  /** One byte on a wire, in a file or in a frame buffer. */
  type Byte = x: int | 0 <= x < 256

  /** The C `int` of the panel's platform. */
  type Int32 = x: int | -0x8000_0000 <= x < 0x8000_0000

  /** `static_cast<int>(long)`: keep the low 32 bits, read them as two's complement. */
  function WrapInt32(v: int): Int32 {
    var low := v % 0x1_0000_0000;
    if low < 0x8000_0000 then low else low - 0x1_0000_0000
  }

  function Min(a: int, b: int): int { if a < b then a else b }

  function Flatten<T>(parts: seq<seq<T>>): seq<T> {
    if parts == [] then [] else parts[0] + Flatten(parts[1..])
  }

  lemma Regroup<T>(a: seq<T>, b: seq<T>, c: seq<T>)
    ensures a + b + c == a + (b + c)
  {}

  /** Narrowing keeps the value modulo 2^32; within the range of the type that leaves one. */
  lemma NarrowedIsCongruent(v: int)
    ensures (v - WrapInt32(v)) % 0x1_0000_0000 == 0
    ensures -0x8000_0000 <= v < 0x8000_0000 ==> WrapInt32(v) == v
  {
    var low := v % 0x1_0000_0000;
    assert v == 0x1_0000_0000 * (v / 0x1_0000_0000) + low;
  }
}
