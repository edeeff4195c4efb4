/** Bit patterns read as signed numbers. */
module TwosComplement {
  import opened Bits

  // A 64-bit pattern read as a signed number.
  function ToInt64(w: int): int {
    if w < 0x8000_0000_0000_0000 then w else w - U64
  }

  // A 32-bit one.
  function ToInt32(w: int): int {
    if w < 0x8000_0000 then w else w - 0x1_0000_0000
  }

  /** The signed number is the one in the type's range that differs from the pattern by a multiple of its size. */
  lemma SignedNumbers(w: nat)
    ensures w < U64 ==> -0x8000_0000_0000_0000 <= ToInt64(w) < 0x8000_0000_0000_0000 && (ToInt64(w) - w) % U64 == 0
    ensures w < 0x1_0000_0000 ==> -0x8000_0000 <= ToInt32(w) < 0x8000_0000 && (ToInt32(w) - w) % 0x1_0000_0000 == 0
  {
  }
}
