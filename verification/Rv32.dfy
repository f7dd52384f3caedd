/** The RV32 instructions used by the linearised benchmarks, on 32-bit registers. */
module Rv32 {
  import Bits

  type Word = x: int | 0 <= x < 0x1_0000_0000

  /** The two's complement reading of a register. */
  function Signed(x: Word): int { if x < 0x8000_0000 then x else x - 0x1_0000_0000 }

  /** The register holding an integer modulo 2^32. */
  function OfInt(n: int): Word { n % 0x1_0000_0000 }

  function Add(x: int, y: int): Word { OfInt(x + y) }
  function Sub(x: int, y: int): Word { OfInt(x - y) }
  function Neg(x: Word): Word { Sub(0, x) }
  function Mul(x: int, y: int): Word { OfInt(x * y) }
  function Not(x: Word): Word { 0xffff_ffff - x }
  function And(x: Word, y: Word): Word { Bits.Pow2Values(); Bits.And(32, x, y) }
  function Or(x: Word, y: Word): Word { Bits.Pow2Values(); Bits.Or(32, x, y) }

  function Sll(x: Word, s: nat): Word { OfInt(x * Bits.Pow2(s)) }
  function Srl(x: Word, s: nat): Word { Bits.Shr(x, s) }
  function Sra(x: Word, s: nat): Word { OfInt(Signed(x) / Bits.Pow2(s)) }
  function Mulhu(x: Word, y: Word): Word { OfInt((x as int * y) / 0x1_0000_0000) }
  function Mulh(x: Word, y: Word): Word { OfInt((Signed(x) * Signed(y)) / 0x1_0000_0000) }

  function Seqz(x: Word): Word { if x == 0 then 1 else 0 }
  function Snez(x: Word): Word { if x != 0 then 1 else 0 }
  function Sltu(x: Word, y: Word): Word { if x < y then 1 else 0 }
  function Slt(x: Word, y: Word): Word { if Signed(x) < Signed(y) then 1 else 0 }

  /** neg(andi(flag, 0xff)): a flag becomes a mask of all ones or zero. */
  function MaskOf(flag: Word): Word { Neg(And(flag, 0xff)) }

  lemma MaskOfFlag(flag: Word)
    requires flag < 2
    ensures MaskOf(flag) == if flag == 1 then 0xffff_ffff else 0
    ensures Not(MaskOf(flag)) == if flag == 1 then 0 else 0xffff_ffff
  {
    hide And, Neg;
    LowByte(flag);
    NegFlag(flag);
  }

  lemma NegFlag(flag: Word)
    requires flag < 2
    ensures Neg(flag) == if flag == 1 then 0xffff_ffff else 0
  {}

  lemma LowByte(x: Word)
    ensures And(x, 0xff) == x % 0x100
  {
    hide Bits.Bitwise, Bits.Pow2;
    Bits.Pow2Values();
    Bits.AndLow(32, x, 8);
  }

  lemma Masked(x: Word)
    ensures And(x, 0xffff_ffff) == x == And(0xffff_ffff, x)
    ensures And(x, 0) == 0 == And(0, x)
    ensures Or(x, 0) == x == Or(0, x)
  {
    hide Bits.Bitwise;
    Bits.Pow2Values();
    Bits.AndOnes(32, x);
    Bits.Zero(32, x);
  }

  /** Molnar's selection: `mask` all ones picks x, `mask` zero picks y. */
  lemma Select(mask: Word, x: Word, y: Word)
    requires mask == 0 || mask == 0xffff_ffff
    ensures Or(And(x, mask), And(y, Not(mask))) == if mask == 0 then y else x
    ensures Or(And(y, Not(mask)), And(x, mask)) == if mask == 0 then y else x
  {
    hide And, Or;
    Masked(x); Masked(y);
  }

  /** snez(x - y), widened to a mask: all ones exactly when the branch `bne x, y` is taken. */
  lemma BranchMask(x: Word, y: Word)
    ensures Neg(And(Snez(Sub(x, y)), 0xff)) == if x != y then 0xffff_ffff else 0
  {
    hide And, Or;
    assert Sub(x, y) == 0 <==> x == y;
    MaskOfFlag(Snez(Sub(x, y)));
  }

  /** The shift amounts the programs use. */
  lemma Shifts(x: Word)
    ensures Srl(x, 1) == x / 2 && Srl(x, 2) == x / 4 && Srl(x, 16) == x / 0x1_0000 && Srl(x, 31) == x / 0x8000_0000
    ensures Sll(x, 3) == OfInt(8 * x as int)
    ensures Sra(x, 1) == OfInt(Signed(x) / 2) && Sra(x, 2) == OfInt(Signed(x) / 4)
  {
    Bits.Pow2Values();
    assert Bits.Pow2(1) == 2 && Bits.Pow2(2) == 4 && Bits.Pow2(3) == 8;
  }

  /** Sums, differences and multiples may be taken before reducing modulo 2^32. */
  lemma Collapse(a: int, b: int)
    ensures Add(OfInt(a), b) == OfInt(a + b) == Add(OfInt(a), OfInt(b))
    ensures Sub(OfInt(a), OfInt(b)) == OfInt(a - b)
    ensures OfInt(8 * (OfInt(a) as int)) == OfInt(8 * a)
  {
    var i: int, j: int := a / 0x1_0000_0000, b / 0x1_0000_0000;
    Periodic(OfInt(a) as int + b, i);
    Periodic(OfInt(a) as int + OfInt(b), i + j);
    Periodic(OfInt(a) as int - OfInt(b), i - j);
    Periodic(8 * (OfInt(a) as int), 8 * i);
  }

  lemma Periodic(n: int, k: int)
    ensures OfInt(n + k * 0x1_0000_0000) == OfInt(n)
  {}

  lemma InRange(n: int)
    ensures 0 <= n < 0x1_0000_0000 ==> OfInt(n) == n
    ensures -0x8000_0000 <= n < 0x8000_0000 ==> Signed(OfInt(n)) == n
  {}

  lemma OfSigned(x: Word)
    ensures OfInt(Signed(x)) == x
  {}
}
