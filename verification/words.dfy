/** Machine words as bounded integers, and the little-endian view of them. */
module Words {
  type u8 = x: int | 0 <= x < 0x100
  type u16 = x: int | 0 <= x < 0x1_0000
  type u32 = x: int | 0 <= x < 0x1_0000_0000
  type u64 = x: int | 0 <= x < 0x1_0000_0000_0000_0000

  datatype Option<+T> = None | Some(value: T)

  const TWO32: int := 0x1_0000_0000
  const TWO64: int := 0x1_0000_0000_0000_0000

  /** Two's-complement truncation to 64 and 32 bits. */
  function Wrap64(x: int): u64 { x % TWO64 }
  function Wrap32(x: int): u32 { x % TWO32 }

  /** 256 to the power `n`: the first value that does not fit in `n` bytes. */
  function ByteRange(n: nat): (p: int)
    ensures p > 0
  {
    if n == 0 then 1 else 256 * ByteRange(n - 1)
  }

  lemma ByteRanges()
    ensures ByteRange(1) == 0x100
    ensures ByteRange(2) == 0x1_0000
    ensures ByteRange(4) == 0x1_0000_0000
    ensures ByteRange(8) == 0x1_0000_0000_0000_0000
  {
    assert ByteRange(3) == 0x100_0000;
    assert ByteRange(5) == 0x100_0000_0000;
    assert ByteRange(6) == 0x1_0000_0000_0000;
    assert ByteRange(7) == 0x100_0000_0000_0000;
  }
}
