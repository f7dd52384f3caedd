/** 32-bit words and their little-endian bytes. */
module Bytes {
  type Word = bv32
  type Byte = bv8

  function ToWord(b0: Byte, b1: Byte, b2: Byte, b3: Byte): Word
  {
    (b0 as Word) | ((b1 as Word) << 8) | ((b2 as Word) << 16) | ((b3 as Word) << 24)
  }

  /** Byte k of a word, least significant first. */
  function ByteOf(x: Word, k: nat): Byte
    requires k < 4
  {
    if k == 0 then (x & 0xff) as Byte
    else if k == 1 then ((x >> 8) & 0xff) as Byte
    else if k == 2 then ((x >> 16) & 0xff) as Byte
    else ((x >> 24) & 0xff) as Byte
  }

  /** Bit n of a word is bit n % 8 of byte n / 8. */
  lemma BitOfByte(n: nat, k: nat)
    requires n < 32 && k < 4
    ensures ByteOf((1 as Word) << n, k) == if n / 8 == k then (1 as Byte) << (n % 8) else 0
  {}

  lemma WordBytes(b0: Byte, b1: Byte, b2: Byte, b3: Byte)
    ensures var x := ToWord(b0, b1, b2, b3);
            ByteOf(x, 0) == b0 && ByteOf(x, 1) == b1 && ByteOf(x, 2) == b2 && ByteOf(x, 3) == b3
  {}

  /** Four bytes of s from i on, little-endian. */
  function WordAt(s: seq<Byte>, i: nat): Word
    requires i + 4 <= |s|
  {
    ToWord(s[i], s[i + 1], s[i + 2], s[i + 3])
  }

  /** A word is determined by its bytes. */
  lemma BytesDetermine(x: Word)
    ensures ToWord(ByteOf(x, 0), ByteOf(x, 1), ByteOf(x, 2), ByteOf(x, 3)) == x
  {}

  // ---- bitwise operators work byte by byte ----

  function Xor(x: Word, y: Word): Word { x ^ y }
  function XorByte(x: Byte, y: Byte): Byte { x ^ y }

  lemma XorBytes(x: Word, y: Word, k: nat)
    requires k < 4
    ensures ByteOf(Xor(x, y), k) == XorByte(ByteOf(x, k), ByteOf(y, k))
  {
    hide ByteOf, XorByte;
    XorAtBytes(x, y);
  }

  lemma XorAtBytes(x: Word, y: Word)
    ensures ByteOf(x ^ y, 0) == XorByte(ByteOf(x, 0), ByteOf(y, 0))
    ensures ByteOf(x ^ y, 1) == XorByte(ByteOf(x, 1), ByteOf(y, 1))
    ensures ByteOf(x ^ y, 2) == XorByte(ByteOf(x, 2), ByteOf(y, 2))
    ensures ByteOf(x ^ y, 3) == XorByte(ByteOf(x, 3), ByteOf(y, 3))
  {}

  function Or(x: Word, y: Word): Word { x | y }
  function OrByte(x: Byte, y: Byte): Byte { x | y }

  lemma OrBytes(x: Word, y: Word, k: nat)
    requires k < 4
    ensures ByteOf(Or(x, y), k) == OrByte(ByteOf(x, k), ByteOf(y, k))
  {
    hide ByteOf, OrByte;
    OrAtBytes(x, y);
  }

  lemma OrAtBytes(x: Word, y: Word)
    ensures ByteOf(x | y, 0) == OrByte(ByteOf(x, 0), ByteOf(y, 0))
    ensures ByteOf(x | y, 1) == OrByte(ByteOf(x, 1), ByteOf(y, 1))
    ensures ByteOf(x | y, 2) == OrByte(ByteOf(x, 2), ByteOf(y, 2))
    ensures ByteOf(x | y, 3) == OrByte(ByteOf(x, 3), ByteOf(y, 3))
  {}

  /** m & ~mask | v & mask */
  function Select(m: Word, v: Word, mask: Word): Word { (m & !mask) | (v & mask) }
  function SelectByte(m: Byte, v: Byte, mask: Byte): Byte { (m & !mask) | (v & mask) }

  lemma SelectBytes(m: Word, v: Word, mask: Word, k: nat)
    requires k < 4
    ensures ByteOf(Select(m, v, mask), k) == SelectByte(ByteOf(m, k), ByteOf(v, k), ByteOf(mask, k))
  {
    hide ByteOf, Select, SelectByte;
    SelectEach(m, v, mask);
  }

  lemma SelectEach(m: Word, v: Word, mask: Word)
    ensures ByteOf(Select(m, v, mask), 0) == SelectByte(ByteOf(m, 0), ByteOf(v, 0), ByteOf(mask, 0))
    ensures ByteOf(Select(m, v, mask), 1) == SelectByte(ByteOf(m, 1), ByteOf(v, 1), ByteOf(mask, 1))
    ensures ByteOf(Select(m, v, mask), 2) == SelectByte(ByteOf(m, 2), ByteOf(v, 2), ByteOf(mask, 2))
    ensures ByteOf(Select(m, v, mask), 3) == SelectByte(ByteOf(m, 3), ByteOf(v, 3), ByteOf(mask, 3))
  {
    hide ByteOf;
    SelectAtBytes(m, v, mask);
  }

  lemma SelectAtBytes(m: Word, v: Word, mask: Word)
    ensures ByteOf((m & !mask) | (v & mask), 0)
         == (ByteOf(m, 0) & !ByteOf(mask, 0)) | (ByteOf(v, 0) & ByteOf(mask, 0))
    ensures ByteOf((m & !mask) | (v & mask), 1)
         == (ByteOf(m, 1) & !ByteOf(mask, 1)) | (ByteOf(v, 1) & ByteOf(mask, 1))
    ensures ByteOf((m & !mask) | (v & mask), 2)
         == (ByteOf(m, 2) & !ByteOf(mask, 2)) | (ByteOf(v, 2) & ByteOf(mask, 2))
    ensures ByteOf((m & !mask) | (v & mask), 3)
         == (ByteOf(m, 3) & !ByteOf(mask, 3)) | (ByteOf(v, 3) & ByteOf(mask, 3))
  {}

  lemma SelectByteCases(m: Byte, v: Byte)
    ensures SelectByte(m, v, 0xff) == v && SelectByte(m, v, 0) == m
  {}
}
