/**
 * Fixed-width unsigned values as the driver's C code sees them: `uint8_t`
 * bytes on the bus and `uint16_t` colour counts. They are modelled as
 * integers in range; the lemmas at the end of the module show that the
 * integer forms agree with the C bitwise expressions the driver writes.
 */
module Bytes {

  /** C `uint8_t`. */
  type Byte = b: int | 0 <= b < 0x100

  /** C `uint16_t`. */
  type Word = w: int | 0 <= w < 0x1_0000

  /** The 16-bit value rebuilt from two bytes read low byte first. */
  function LittleEndian(lo: Byte, hi: Byte): Word {
    lo + 0x100 * hi
  }

  /** The low-order byte of a word. */
  function LowByte(w: Word): Byte {
    w % 0x100
  }

  /** The high-order byte of a word. */
  function HighByte(w: Word): Byte {
    w / 0x100
  }

  /** Rebuilding a word from its two bytes gives the word back. */
  lemma SplitThenJoin(w: Word)
    ensures LittleEndian(LowByte(w), HighByte(w)) == w
  {
  }

  /** The two bytes can be recovered from the rebuilt word. */
  lemma JoinThenSplit(lo: Byte, hi: Byte)
    ensures LowByte(LittleEndian(lo, hi)) == lo
    ensures HighByte(LittleEndian(lo, hi)) == hi
  {
  }

  /** The rebuilt word is 0x0000 only for (0x00, 0x00) and 0xFFFF only for (0xFF, 0xFF). */
  lemma LittleEndianExtremes(lo: Byte, hi: Byte)
    ensures LittleEndian(lo, hi) == 0x0000 <==> lo == 0x00 && hi == 0x00
    ensures LittleEndian(lo, hi) == 0xFFFF <==> lo == 0xFF && hi == 0xFF
  {
  }

  /** A 16-bit value is its high byte times 256 plus its low byte; used by `LittleEndianIsOr`. */
  lemma WordDigits(w: bv16)
    ensures w as int == (w >> 8) as int * 0x100 + (w & 0xFF) as int
  {
  }

  /** The low byte of a 16-bit value survives the narrowing cast to `uint8_t`. */
  lemma LowFits(w: bv16)
    ensures (w & 0xFF) as int == ((w & 0xFF) as bv8) as int
  {
  }

  /** The high byte of a 16-bit value survives the narrowing cast to `uint8_t`. */
  lemma HighFits(w: bv16)
    ensures (w >> 8) as int == ((w >> 8) as bv8) as int
  {
  }

  /**
   * `LittleEndian` is the C expression `(uint16_t)(buf[0] | (buf[1] << 8))`.
   * The C expression is evaluated in `int`; because `buf[1] << 8` is at most
   * 0xFF00 the cast to 16 bits drops nothing, so computing in 16 bits is the
   * same.
   */
  lemma LittleEndianIsOr(lo: bv8, hi: bv8)
    ensures LittleEndian(lo as int, hi as int) == ((lo as bv16) | ((hi as bv16) << 8)) as int
  {
    var w := (lo as bv16) | ((hi as bv16) << 8);
    WordDigits(w);
    LowFits(w);
    HighFits(w);
    assert (w & 0xFF) as bv8 == lo && (w >> 8) as bv8 == hi;
  }

  /** Testing bit 0 with `& 0x01` is testing whether the byte is odd. */
  lemma LowBitIsAnd(b: bv8)
    ensures (b & 0x01 != 0) <==> b as int % 2 == 1
  {
  }
}
