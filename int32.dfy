/** C# `int` arithmetic, which wraps around silently in an unchecked context. */
module Int32 {

  const Modulus: int := 0x1_0000_0000

  type int32 = x: int | -0x8000_0000 <= x < 0x8000_0000

  /** The two's-complement value a 32-bit `int` holds after an overflowing operation. */
  function Wrap(x: int): (r: int32)
    ensures (r - x) % Modulus == 0
    ensures -0x8000_0000 <= x < 0x8000_0000 ==> r == x
  {
    var m := x % Modulus;
    if m >= 0x8000_0000 then m - Modulus else m
  }
}
