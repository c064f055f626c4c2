/** Optional values. */
module Options {
  datatype Option<T> = None | Some(value: T)
}

/** The fixed-width integers of the source. */
module Machine {
  const TWO31: int := 0x8000_0000
  const TWO32: int := 0x1_0000_0000
  const TWO64: int := 0x1_0000_0000_0000_0000

  type byte = x: int | 0 <= x < 256
  type uint32 = x: int | 0 <= x < TWO32
  type uint64 = x: int | 0 <= x < TWO64
  type int32 = x: int | -TWO31 <= x < TWO31

  /** The low 32 bits of x read as a signed number. */
  function Narrow(x: int): (r: int32)
    ensures -TWO31 <= x < TWO31 ==> r == x
    ensures (x - r) % TWO32 == 0
  {
    var m := x % TWO32;
    assert x == x / TWO32 * TWO32 + m;
    if m < TWO31 then m else m - TWO32
  }

  function Min(x: int, y: int): int {
    if x < y then x else y
  }

  function Max(x: int, y: int): int {
    if x < y then y else x
  }
}
