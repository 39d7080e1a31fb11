/** Byte strings (the source's `std::string`), fixed-width arithmetic and a few sequence facts. */
module Bytes {
  type byte = b: int | 0 <= b < 256
  type bytes = seq<byte>

  datatype Option<+T> = None | Some(value: T)

  const TWO_31 := 0x8000_0000
  const TWO_32 := 0x1_0000_0000
  const TWO_64 := 0x1_0000_0000_0000_0000
  const INT_MAX := 0x7fff_ffff

  type int32 = x: int | -0x8000_0000 <= x < 0x8000_0000
  type uint32 = x: int | 0 <= x < 0x1_0000_0000
  type uint64 = x: int | 0 <= x < 0x1_0000_0000_0000_0000

  /** The cast of an unsigned value to `int32_t`: keep 32 bits, read them as two's complement. */
  function ToInt32(x: nat): (r: int32)
    ensures (r - x) % 0x1_0000_0000 == 0
  {
    var low := x % TWO_32;
    if low < TWO_31 then low else low - TWO_32
  }

  function Flatten(parts: seq<bytes>): (r: bytes)
  {
    if parts == [] then [] else parts[0] + Flatten(parts[1..])
  }

  /** `haystack` holds `needle` at index `k`. */
  predicate OccursAt(haystack: bytes, needle: bytes, k: nat)
  {
    k + |needle| <= |haystack| && haystack[k..k + |needle|] == needle
  }

  lemma ConcatAssoc<T>(a: seq<T>, b: seq<T>, c: seq<T>)
    ensures (a + b) + c == a + (b + c)
  {
  }

  lemma SplitConcat<T>(a: seq<T>, b: seq<T>)
    ensures (a + b)[..|a|] == a && (a + b)[|a|..] == b
  {
  }
}
