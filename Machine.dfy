/** The C++ integer types the indexes use, and the conversion a comparison
    between a container size and an `int` performs. */
module Machine {

  /** A 32-bit signed `int`. */
  newtype int32 = x: int | -0x8000_0000 <= x < 0x8000_0000

  /** 2^64: one more than the largest `size_t`. */
  const SizeTModulus: int := 0x1_0000_0000_0000_0000

  /** The value an `int` takes when compared with a `size_t`: unchanged when it
      is non-negative, and otherwise wrapped to at least 2^64 - 2^31, larger
      than any container can be. */
  function SizeT(k: int32): (n: nat)
    ensures n < SizeTModulus
    ensures 0 <= k ==> n == k as int
    ensures k < 0 ==> n >= SizeTModulus - 0x8000_0000
  {
    if k >= 0 then k as int else k as int + SizeTModulus
  }
}
