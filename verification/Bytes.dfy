/** Bytes and the 32-bit little-endian words made of them. */
module Bytes {

  const WORD := 0x1_0000_0000

  type byte = b: int | 0 <= b < 256
  type Word = x: int | 0 <= x < WORD

  function WordByte(w: Word, k: nat): byte
    requires k < 4
  {
    if k == 0 then w % 256 else if k == 1 then w / 256 % 256 else if k == 2 then w / 65536 % 256 else w / 16777216
  }

  function WordOf(b0: byte, b1: byte, b2: byte, b3: byte): Word {
    b0 + 256 * b1 + 65536 * b2 + 16777216 * b3
  }

  lemma WordOfBytes(b0: byte, b1: byte, b2: byte, b3: byte)
    ensures WordByte(WordOf(b0, b1, b2, b3), 0) == b0 && WordByte(WordOf(b0, b1, b2, b3), 1) == b1
    ensures WordByte(WordOf(b0, b1, b2, b3), 2) == b2 && WordByte(WordOf(b0, b1, b2, b3), 3) == b3
  {
  }

  /** The word read as a signed 32-bit number. */
  function Signed(w: Word): int { if w < WORD / 2 then w else w - WORD }
}
