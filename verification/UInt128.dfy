/** 128-bit unsigned arithmetic on two 64-bit limbs, without a native 128-bit type. */
module UInt128 {
  import opened Bits

  type U64 = x: int | 0 <= x < 0x1_0000_0000_0000_0000
  type U32 = x: int | 0 <= x < 0x1_0000_0000

  datatype U128 = U128(low: U64, high: U64)

  /** The number a pair of limbs stands for. */
  function Value(a: U128): (v: nat)
    ensures v < 0x1_0000_0000_0000_0000_0000_0000_0000_0000
  {
    a.high * 0x1_0000_0000_0000_0000 + a.low
  }

  // ---- 64-bit word operations of C: all wrap around ----

  function Add64(x: U64, y: U64): U64 { Wrap(x as int + y) }
  function Sub64(x: U64, y: U64): U64 { Wrap(x as int - y) }

  /** A sum or difference of two words, brought back into range. */
  function Wrap(n: int): U64
    requires -0x1_0000_0000_0000_0000 < n < 0x2_0000_0000_0000_0000
  {
    if n < 0 then n + 0x1_0000_0000_0000_0000
    else if n < 0x1_0000_0000_0000_0000 then n
    else n - 0x1_0000_0000_0000_0000
  }

  function Mul64(x: U64, y: U64): U64 { (x * y) % 0x1_0000_0000_0000_0000 }
  function Shl64(x: U64, s: nat): U64 { (x * Pow2(s)) % 0x1_0000_0000_0000_0000 }
  function Shr64(x: U64, s: nat): U64 { Shr(x, s) }
  function Bit64(op: Op, x: U64, y: U64): U64 { Pow2Values(); Bitwise(op, 64, x, y) }
  function Not64(x: U64): U64 { 0xffff_ffff_ffff_ffff - x }

  // ---- masks, FStar_UInt_8_16_32_64.h, the same code at every width ----

  /** ~x + 1, which wraps to 0 for x == 0. */
  function Negate(w: nat, x: nat): (r: nat)
    requires x < Pow2(w)
    ensures r < Pow2(w)
  {
    if Not(w, x) == Ones(w) then 0 else Not(w, x) + 1
  }

  function EqMask(w: nat, a: nat, b: nat): (m: nat)
    requires w > 0 && a < Pow2(w) && b < Pow2(w)
  {
    var x := Xor(w, a, b);
    var xnx := Shr(Or(w, x, Negate(w, x)), w - 1);
    MinusOne(w, xnx)
  }

  function GteMask(w: nat, a: nat, b: nat): (m: nat)
    requires w > 0 && a < Pow2(w) && b < Pow2(w)
  {
    var q := Or(w, Xor(w, a, b), Xor(w, Sub(w, a, b), b));
    MinusOne(w, Shr(Xor(w, a, q), w - 1))
  }

  function MinusOne(w: nat, x: nat): nat { if x == 0 then Ones(w) else x - 1 }

  lemma {:induction false} XorIsZero(w: nat, a: nat, b: nat)
    requires a < Pow2(w) && b < Pow2(w)
    ensures Xor(w, a, b) == 0 <==> a == b
  {
    if w > 0 { XorIsZero(w - 1, a / 2, b / 2); }
  }

  lemma TopBitValue(w: nat, v: nat)
    requires w > 0 && v < Pow2(w)
    ensures Shr(v, w - 1) == if v < Pow2(w - 1) then 0 else 1
  {
    var p := Pow2(w - 1);
    DivModUnique(v, p, if v < p then 0 else 1, if v < p then v else v - p);
  }

  /** All ones exactly when the operands are equal, zero otherwise. */
  lemma EqMaskCorrect(w: nat, a: nat, b: nat)
    requires w > 0 && a < Pow2(w) && b < Pow2(w)
    ensures EqMask(w, a, b) == if a == b then Ones(w) else 0
  {
    hide Bitwise, Pow2, Shr, Negate;
    XorIsZero(w, a, b);
    OrNegated(w, Xor(w, a, b));
  }

  /** x | -x has its sign bit set exactly when x is not 0. */
  lemma OrNegated(w: nat, x: nat)
    requires w > 0 && x < Pow2(w)
    ensures Shr(Or(w, x, Negate(w, x)), w - 1) == if x == 0 then 0 else 1
  {
    hide Bitwise, Shr;
    TopBit(OrOp, w, x, Negate(w, x));
    TopBitValue(w, x); TopBitValue(w, Negate(w, x));
    if x != 0 { NegationSign(Pow2(w - 1), x); }
  }

  lemma NegationSign(p: nat, x: nat)
    requires 0 < x < 2 * p
    ensures x >= p || 2 * p - x >= p
  {}

  /** The sign of x ^ ((x ^ y) | ((x - y) ^ y)) is set exactly when x < y. */
  lemma BorrowBit(w: nat, x: nat, y: nat)
    requires w > 0 && x < Pow2(w) && y < Pow2(w)
    ensures Shr(Xor(w, x, Or(w, Xor(w, x, y), Xor(w, Sub(w, x, y), y))), w - 1) == if x < y then 1 else 0
  {
    var d := Sub(w, x, y);
    TopBit(XorOp, w, x, y);
    TopBit(XorOp, w, d, y);
    TopBit(OrOp, w, Xor(w, x, y), Xor(w, d, y));
    TopBit(XorOp, w, x, Or(w, Xor(w, x, y), Xor(w, d, y)));
    TopBitValue(w, x); TopBitValue(w, y); TopBitValue(w, d);
  }

  lemma GteMaskCorrect(w: nat, a: nat, b: nat)
    requires w > 0 && a < Pow2(w) && b < Pow2(w)
    ensures GteMask(w, a, b) == if a >= b then Ones(w) else 0
  {
    BorrowBit(w, a, b);
  }

  // ---- carry, addition, subtraction ----

  function Carry(a: U64, b: U64): U64
  {
    Shr64(Bit64(XorOp, a, Bit64(OrOp, Bit64(XorOp, a, b), Bit64(XorOp, Sub64(a, b), b))), 63)
  }

  lemma CarryIsLess(a: U64, b: U64)
    ensures Carry(a, b) == if a < b then 1 else 0
  {
    hide Bitwise;
    Pow2Values();
    BorrowBit(64, a, b);
    assert Sub64(a, b) == Sub(64, a, b);
  }

  function Add(a: U128, b: U128): U128
  {
    U128(Add64(a.low, b.low), Add64(Add64(a.high, b.high), Carry(Add64(a.low, b.low), b.low)))
  }

  function SubMod(a: U128, b: U128): U128
  {
    U128(Sub64(a.low, b.low), Sub64(Sub64(a.high, b.high), Carry(a.low, Sub64(a.low, b.low))))
  }

  lemma AddCorrect(a: U128, b: U128)
    ensures Value(Add(a, b)) == (Value(a) + Value(b)) % 0x1_0000_0000_0000_0000_0000_0000_0000_0000
  {
    CarryIsLess(Add64(a.low, b.low), b.low);
    AddLimbs(a, b, if Add64(a.low, b.low) < b.low then 1 else 0);
  }

  /** The arithmetic of addition, with the carry as a plain number. */
  lemma AddLimbs(a: U128, b: U128, c: U64)
    requires c == if Add64(a.low, b.low) < b.low then 1 else 0
    ensures Value(U128(Add64(a.low, b.low), Add64(Add64(a.high, b.high), c)))
         == (Value(a) + Value(b)) % 0x1_0000_0000_0000_0000_0000_0000_0000_0000
  {
    WrapsMod(Value(a) + Value(b), Value(U128(Add64(a.low, b.low), Add64(Add64(a.high, b.high), c))));
  }

  lemma WrapsMod(n: int, v: nat)
    requires v < 0x1_0000_0000_0000_0000_0000_0000_0000_0000
    requires n == v || n == v + 0x1_0000_0000_0000_0000_0000_0000_0000_0000
             || n == v - 0x1_0000_0000_0000_0000_0000_0000_0000_0000
    ensures n % 0x1_0000_0000_0000_0000_0000_0000_0000_0000 == v
  {}

  lemma SubCorrect(a: U128, b: U128)
    ensures Value(SubMod(a, b)) == (Value(a) - Value(b)) % 0x1_0000_0000_0000_0000_0000_0000_0000_0000
  {
    CarryIsLess(a.low, Sub64(a.low, b.low));
    SubLimbs(a, b, if a.low < Sub64(a.low, b.low) then 1 else 0);
  }

  lemma SubLimbs(a: U128, b: U128, c: U64)
    requires c == if a.low < Sub64(a.low, b.low) then 1 else 0
    ensures Value(U128(Sub64(a.low, b.low), Sub64(Sub64(a.high, b.high), c)))
         == (Value(a) - Value(b)) % 0x1_0000_0000_0000_0000_0000_0000_0000_0000
  {
    WrapsMod(Value(a) - Value(b), Value(U128(Sub64(a.low, b.low), Sub64(Sub64(a.high, b.high), c))));
  }

  /** Wrap-around subtraction undoes wrap-around addition. */
  lemma SubUndoesAdd(a: U128, b: U128)
    ensures SubMod(Add(a, b), b) == a && Add(SubMod(a, b), b) == a
  {
    hide *;
    AddCorrect(a, b); SubCorrect(Add(a, b), b);
    SubCorrect(a, b); AddCorrect(SubMod(a, b), b);
    WrapUndone(Value(a), Value(b));
    ValueInjective(SubMod(Add(a, b), b), a);
    ValueInjective(Add(SubMod(a, b), b), a);
  }

  lemma WrapUndone(x: nat, y: nat)
    requires x < 0x1_0000_0000_0000_0000_0000_0000_0000_0000
    requires y < 0x1_0000_0000_0000_0000_0000_0000_0000_0000
    ensures ((x + y) % 0x1_0000_0000_0000_0000_0000_0000_0000_0000 - y)
              % 0x1_0000_0000_0000_0000_0000_0000_0000_0000 == x
    ensures ((x - y) % 0x1_0000_0000_0000_0000_0000_0000_0000_0000 + y)
              % 0x1_0000_0000_0000_0000_0000_0000_0000_0000 == x
  {
    var sum: int := if x + y < 0x1_0000_0000_0000_0000_0000_0000_0000_0000 then x + y
                    else x + y - 0x1_0000_0000_0000_0000_0000_0000_0000_0000;
    WrapsMod(x + y, sum);
    WrapsMod(sum - y, x);
    var diff: int := if x >= y then x - y else x - y + 0x1_0000_0000_0000_0000_0000_0000_0000_0000;
    WrapsMod(x - y, diff);
    WrapsMod(diff + y, x);
  }

  lemma ValueInjective(a: U128, b: U128)
    ensures Value(a) == Value(b) <==> a == b
  {}

  // ---- shifts ----

  function ShiftLeftSmall(a: U128, s: U32): U128
    requires s < 64
  {
    if s == 0 then a
    else U128(Shl64(a.low, s), Add64(Shl64(a.high, s), Shr64(a.low, 64 - s)))
  }

  function ShiftLeftLarge(a: U128, s: U32): U128
    requires 64 <= s < 128
  {
    U128(0, Shl64(a.low, s - 64))
  }

  function ShiftLeft(a: U128, s: U32): U128
    requires s < 128
  {
    if s < 64 then ShiftLeftSmall(a, s) else ShiftLeftLarge(a, s)
  }

  function ShiftRightSmall(a: U128, s: U32): U128
    requires s < 64
  {
    if s == 0 then a
    else U128(Add64(Shr64(a.low, s), Shl64(a.high, 64 - s)), Shr64(a.high, s))
  }

  function ShiftRightLarge(a: U128, s: U32): U128
    requires 64 <= s < 128
  {
    U128(Shr64(a.high, s - 64), 0)
  }

  function ShiftRight(a: U128, s: U32): U128
    requires s < 128
  {
    if s < 64 then ShiftRightSmall(a, s) else ShiftRightLarge(a, s)
  }

  /** Shifting left multiplies modulo 2^128. */
  lemma ShiftLeftCorrect(a: U128, s: U32)
    requires s < 128
    ensures Value(ShiftLeft(a, s)) == (Value(a) * Pow2(s)) % 0x1_0000_0000_0000_0000_0000_0000_0000_0000
  {
    if s == 0 {
      assert Value(a) * Pow2(0) == Value(a);
    } else if s < 64 {
      hide Pow2, Value, ShiftLeftSmall, ShiftLeftLarge;
      SmallShiftLeft(a, s);
    } else {
      hide Pow2, Value, ShiftLeftSmall, ShiftLeftLarge;
      LargeShiftLeft(a, s);
    }
  }

  lemma SmallShiftLeft(a: U128, s: U32)
    requires 0 < s < 64
    ensures Value(ShiftLeftSmall(a, s)) == (Value(a) * Pow2(s)) % 0x1_0000_0000_0000_0000_0000_0000_0000_0000
  {
    hide Pow2;
    Pow2Halves(s);
    SplitLeft(a.high, a.low, Pow2(s), Pow2(64 - s));
  }

  lemma LargeShiftLeft(a: U128, s: U32)
    requires 64 <= s < 128
    ensures Value(ShiftLeftLarge(a, s)) == (Value(a) * Pow2(s)) % 0x1_0000_0000_0000_0000_0000_0000_0000_0000
  {
    hide Pow2;
    Pow2Halves(s);
    WholeLimbLeft(a.high, a.low, Pow2(s - 64));
  }

  /** Shifting right is floor division. */
  lemma ShiftRightCorrect(a: U128, s: U32)
    requires s < 128
    ensures Value(ShiftRight(a, s)) == Value(a) / Pow2(s)
  {
    if s == 0 {
    } else if s < 64 {
      hide Pow2, Value, ShiftRightSmall, ShiftRightLarge;
      SmallShiftRight(a, s);
    } else {
      hide Pow2, Value, ShiftRightSmall, ShiftRightLarge;
      LargeShiftRight(a, s);
    }
  }

  lemma SmallShiftRight(a: U128, s: U32)
    requires 0 < s < 64
    ensures Value(ShiftRightSmall(a, s)) == Value(a) / Pow2(s)
  {
    hide Pow2;
    Pow2Halves(s);
    SplitRight(a.high, a.low, Pow2(s), Pow2(64 - s));
  }

  lemma LargeShiftRight(a: U128, s: U32)
    requires 64 <= s < 128
    ensures Value(ShiftRightLarge(a, s)) == Value(a) / Pow2(s)
  {
    hide Pow2;
    var p, d := Pow2(s - 64), Pow2(s);
    assert d == 0x1_0000_0000_0000_0000 * p by { Pow2Halves(s); }
    WholeLimbRight(a.high, a.low, Value(a), p, d);
  }

  lemma Pow2Halves(s: nat)
    ensures s <= 64 ==> Pow2(s) * Pow2(64 - s) == 0x1_0000_0000_0000_0000
    ensures s >= 64 ==> Pow2(s) == 0x1_0000_0000_0000_0000 * Pow2(s - 64)
  {
    Pow2Values();
    if s <= 64 { Pow2Add(s, 64 - s); }
    if s >= 64 { Pow2Add(64, s - 64); }
  }

  /** For p * q == 2^64: hi * p loses its top bits and lo / q takes the space they leave. */
  lemma SplitLeft(hi: U64, lo: U64, p: nat, q: nat)
    requires p > 0 && q > 0 && p * q == 0x1_0000_0000_0000_0000
    ensures Add64((hi * p) % 0x1_0000_0000_0000_0000, lo / q) * 0x1_0000_0000_0000_0000
            + (lo * p) % 0x1_0000_0000_0000_0000
         == ((hi * 0x1_0000_0000_0000_0000 + lo) * p) % 0x1_0000_0000_0000_0000_0000_0000_0000_0000
  {
    ShiftedMod(hi, p, q); ShiftedMod(lo, p, q);
    QuotientBelow(lo, p, q);
    ProductBelow(p, hi % q, q);
    var high: int := p * (hi % q) + lo / q;
    assert (hi * 0x1_0000_0000_0000_0000 + lo) * p == (hi * p) * 0x1_0000_0000_0000_0000 + lo * p;
    DivModUnique((hi * 0x1_0000_0000_0000_0000 + lo) * p, 0x1_0000_0000_0000_0000_0000_0000_0000_0000,
                 hi / q, high * 0x1_0000_0000_0000_0000 + p * (lo % q));
  }

  lemma SplitRight(hi: U64, lo: U64, p: nat, q: nat)
    requires p > 0 && q > 0 && p * q == 0x1_0000_0000_0000_0000
    ensures (hi / p) * 0x1_0000_0000_0000_0000 + Add64(lo / p, (hi * q) % 0x1_0000_0000_0000_0000)
         == (hi * 0x1_0000_0000_0000_0000 + lo) / p
  {
    ShiftedMod(hi, q, p);
    QuotientBelow(lo, q, p);
    ProductBelow(q, hi % p, p);
    var n: int := hi * 0x1_0000_0000_0000_0000 + lo;
    assert (hi / p) * 0x1_0000_0000_0000_0000 + Add64(lo / p, (hi * q) % 0x1_0000_0000_0000_0000)
        == hi * q + lo / p;
    DivideSum(hi, lo, p, q, n);
  }

  lemma DivideSum(hi: nat, lo: nat, p: nat, q: nat, n: nat)
    requires p > 0 && n == hi * (p * q) + lo
    ensures n / p == hi * q + lo / p
  {
    assert p * (hi * q + lo / p) == hi * (p * q) + p * (lo / p);
    DivModUnique(n, p, hi * q + lo / p, lo % p);
  }

  lemma WholeLimbLeft(hi: U64, lo: U64, p: nat)
    requires p > 0
    ensures (lo * p) % 0x1_0000_0000_0000_0000 * 0x1_0000_0000_0000_0000
         == ((hi * 0x1_0000_0000_0000_0000 + lo) * (0x1_0000_0000_0000_0000 * p))
              % 0x1_0000_0000_0000_0000_0000_0000_0000_0000
  {
    var k, r := (lo * p) / 0x1_0000_0000_0000_0000, (lo * p) % 0x1_0000_0000_0000_0000;
    var n: int := (hi * 0x1_0000_0000_0000_0000 + lo) * (0x1_0000_0000_0000_0000 * p);
    assert n == ((hi * p) * 0x1_0000_0000_0000_0000 + lo * p) * 0x1_0000_0000_0000_0000;
    DivModUnique(n, 0x1_0000_0000_0000_0000_0000_0000_0000_0000, hi * p + k, r * 0x1_0000_0000_0000_0000);
  }

  lemma WholeLimbRight(hi: U64, lo: U64, n: nat, p: nat, d: nat)
    requires p > 0 && d == 0x1_0000_0000_0000_0000 * p
    requires n == hi * 0x1_0000_0000_0000_0000 + lo
    ensures hi / p == n / d
  {
    var k, r := hi / p, hi % p;
    assert n == d * k + (r * 0x1_0000_0000_0000_0000 + lo) by {
      assert hi == p * k + r;
      assert d * k == 0x1_0000_0000_0000_0000 * (p * k);
    }
    DivModUnique(n, d, k, r * 0x1_0000_0000_0000_0000 + lo);
  }

  lemma ProductBelow(p: nat, r: nat, q: nat)
    requires r < q
    ensures p * r <= p * q - p
  {
    assert p * q == p * r + p * (q - r);
    assert p * (q - r) == p + p * (q - r - 1);
  }

  lemma ShiftedMod(x: nat, p: nat, q: nat)
    requires p > 0 && q > 0
    ensures p * q > 0 && (x * p) % (p * q) == p * (x % q)
    ensures x * p == (p * q) * (x / q) + p * (x % q)
  {
    var k: int, r: int := x / q, x % q;
    assert x == q * k + r;
    calc { x * p; (q * k + r) * p; (p * q) * k + p * r; }
    assert p * q > 0 && 0 <= p * r < p * q by { ProductBelow(p, r, q); }
    DivModUnique(x * p, p * q, k, p * r);
  }

  lemma QuotientBelow(x: nat, p: nat, q: nat)
    requires q > 0 && x < p * q
    ensures x / q < p
  {
    var k: int := x / q;
    assert x == q * k + x % q;
    assert q * k == q * p + q * (k - p);
    if k >= p { assert false; }
  }

  // ---- comparisons ----

  predicate Eq(a: U128, b: U128) { a.low == b.low && a.high == b.high }
  predicate Gt(a: U128, b: U128) { a.high > b.high || (a.high == b.high && a.low > b.low) }
  predicate Lt(a: U128, b: U128) { a.high < b.high || (a.high == b.high && a.low < b.low) }
  predicate Gte(a: U128, b: U128) { a.high > b.high || (a.high == b.high && a.low >= b.low) }
  predicate Lte(a: U128, b: U128) { a.high < b.high || (a.high == b.high && a.low <= b.low) }

  /** The limb-wise comparisons order the numbers. */
  lemma ComparisonsCorrect(a: U128, b: U128)
    ensures Eq(a, b) <==> Value(a) == Value(b)
    ensures Gt(a, b) <==> Value(a) > Value(b)
    ensures Lt(a, b) <==> Value(a) < Value(b)
    ensures Gte(a, b) <==> Value(a) >= Value(b)
    ensures Lte(a, b) <==> Value(a) <= Value(b)
  {}

  function EqMask64(a: U64, b: U64): U64 { Pow2Values(); EqMaskCorrect(64, a, b); EqMask(64, a, b) }
  function GteMask64(a: U64, b: U64): U64 { Pow2Values(); GteMaskCorrect(64, a, b); GteMask(64, a, b) }

  function EqMask128(a: U128, b: U128): U128
  {
    var m := Bit64(AndOp, EqMask64(a.low, b.low), EqMask64(a.high, b.high));
    U128(m, m)
  }

  function GteMask128(a: U128, b: U128): U128
  {
    var m := Bit64(OrOp, Bit64(AndOp, GteMask64(a.high, b.high), Not64(EqMask64(a.high, b.high))),
                         Bit64(AndOp, EqMask64(a.high, b.high), GteMask64(a.low, b.low)));
    U128(m, m)
  }

  function Mask128(b: bool): U128
  {
    if b then U128(0xffff_ffff_ffff_ffff, 0xffff_ffff_ffff_ffff) else U128(0, 0)
  }

  /** The masks are all ones or zero, as the boolean comparison says. */
  lemma Masks128Correct(a: U128, b: U128)
    ensures EqMask128(a, b) == Mask128(Eq(a, b)) == Mask128(Value(a) == Value(b))
    ensures GteMask128(a, b) == Mask128(Gte(a, b)) == Mask128(Value(a) >= Value(b))
  {
    hide Bitwise;
    Masks64(a.low, b.low); Masks64(a.high, b.high);
    MasksCombine(0); MasksCombine(0xffff_ffff_ffff_ffff);
    ComparisonsCorrect(a, b);
  }

  lemma Masks64(a: U64, b: U64)
    ensures EqMask64(a, b) == if a == b then 0xffff_ffff_ffff_ffff else 0
    ensures GteMask64(a, b) == if a >= b then 0xffff_ffff_ffff_ffff else 0
  {
    Pow2Values();
    EqMaskCorrect(64, a, b);
    GteMaskCorrect(64, a, b);
  }

  lemma MasksCombine(m: U64)
    ensures Bit64(AndOp, m, 0) == 0 == Bit64(AndOp, 0, m)
    ensures Bit64(AndOp, m, 0xffff_ffff_ffff_ffff) == m == Bit64(AndOp, 0xffff_ffff_ffff_ffff, m)
    ensures Bit64(OrOp, m, 0) == m == Bit64(OrOp, 0, m)
  {
    Pow2Values();
    Zero(64, m); AndOnes(64, m);
  }

  // ---- multiplication ----

  function Mod32(a: U64): U64 { Bit64(AndOp, a, 0xffff_ffff) }

  function Combine(hi: U64, lo: U64): U64 { Add64(lo, Shl64(hi, 32)) }

  function Mul32(x: U64, y: U32): U128
  {
    var lowProduct := Mul64(Mod32(x), y);
    var mid := Add64(Mul64(Shr64(x, 32), y), Shr64(lowProduct, 32));
    U128(Combine(mid, Mod32(lowProduct)), Shr64(mid, 32))
  }

  function MulWide(x: U64, y: U64): U128
  {
    var lowProduct := Mul64(Mod32(x), Mod32(y));
    var mid := Add64(Mul64(Shr64(x, 32), Mod32(y)), Shr64(lowProduct, 32));
    var mid' := Add64(Mul64(Mod32(x), Shr64(y, 32)), Mod32(mid));
    U128(Combine(mid', Mod32(lowProduct)),
            Add64(Add64(Mul64(Shr64(x, 32), Shr64(y, 32)), Shr64(mid, 32)), Shr64(mid', 32)))
  }

  lemma Halves(x: U64)
    ensures Mod32(x) == x % 0x1_0000_0000 && Shr64(x, 32) == x / 0x1_0000_0000
  {
    Pow2Values();
    AndLow(64, x, 32);
  }

  /** The product of two 32-bit halves is exact and leaves room for two more halves in a limb. */
  lemma HalfProduct(x: nat, y: nat)
    requires x < 0x1_0000_0000 && y < 0x1_0000_0000
    ensures Mul64(x, y) == x * y && Mul64(x, y) <= 0xffff_fffe_0000_0001
  {
    ProductBound(x, y);
    var p: int := x * y;
    assert p % 0x1_0000_0000_0000_0000 == p;
  }

  lemma ProductBound(x: nat, y: nat)
    requires x < 0x1_0000_0000 && y < 0x1_0000_0000
    ensures 0 <= x * y <= 0xffff_fffe_0000_0001
  {
    MulMonotone(x, 0xffff_ffff, y);
  }

  lemma CombineHalves(hi: U64, lo: U64)
    requires lo < 0x1_0000_0000
    ensures Combine(hi, lo) == (hi % 0x1_0000_0000) * 0x1_0000_0000 + lo
  {
    hide Pow2;
    Pow2Values();
    assert Shl64(hi, 32) == (hi % 0x1_0000_0000) * 0x1_0000_0000 by { ShiftByHalf(hi); }
  }

  lemma ShiftByHalf(hi: U64)
    ensures (hi * 0x1_0000_0000) % 0x1_0000_0000_0000_0000 == (hi % 0x1_0000_0000) * 0x1_0000_0000
  {}

  /** A word is its two halves. */
  lemma Split(x: U64) returns (h: nat, l: nat)
    ensures h < 0x1_0000_0000 && l < 0x1_0000_0000 && x == h * 0x1_0000_0000 + l
    ensures Shr64(x, 32) == h && Mod32(x) == l
  {
    Halves(x);
    h, l := x / 0x1_0000_0000, x % 0x1_0000_0000;
  }

  /** The product of a 64-bit and a 32-bit number is exact. */
  lemma Mul32Correct(x: U64, y: U32)
    ensures Value(Mul32(x, y)) == x * y
  {
    hide *;
    var xh, xl := Split(x);
    HalfProduct(xl, y); HalfProduct(xh, y);
    Mul32Halves(x, y, xh, xl);
    Schoolbook(xh, xl, 0, y);
  }

  lemma Mul32Halves(x: U64, y: U32, xh: nat, xl: nat)
    requires xh < 0x1_0000_0000 && xl < 0x1_0000_0000
    requires Shr64(x, 32) == xh && Mod32(x) == xl
    requires Mul64(xl, y) <= 0xffff_fffe_0000_0001 && Mul64(xh, y) <= 0xffff_fffe_0000_0001
    ensures Value(Mul32(x, y)) == Mul64(xh, y) * 0x1_0000_0000 + Mul64(xl, y)
  {
    hide Bitwise, Pow2, Shr, Mod32, Combine, Mul64;
    var lowH, lowL := Split(Mul64(xl, y));
    var mid: int := Mul64(xh, y) + lowH;
    var midH, midL := Split(mid);
    CombineHalves(mid, lowL);
    assert Mul32(x, y) == U128(midL * 0x1_0000_0000 + lowL, midH);
  }

  /** Schoolbook multiplication of two 64-bit numbers is exact: no partial sum overflows. */
  lemma MulWideCorrect(x: U64, y: U64)
    ensures Value(MulWide(x, y)) == x * y
  {
    hide *;
    var xh, xl := Split(x);
    var yh, yl := Split(y);
    HalfProduct(xl, yl); HalfProduct(xh, yl); HalfProduct(xl, yh); HalfProduct(xh, yh);
    MulWideHalves(x, y, xh, xl, yh, yl);
    Schoolbook(xh, xl, yh, yl);
  }

  /** No sum in the program wraps around. */
  lemma MulWideSums(x: U64, y: U64)
    ensures var mid := Mul64(Shr64(x, 32), Mod32(y)) as int + Shr64(Mul64(Mod32(x), Mod32(y)), 32);
            && mid < 0x1_0000_0000_0000_0000
            && var mid' := Mul64(Mod32(x), Shr64(y, 32)) as int + Mod32(mid);
               && mid' < 0x1_0000_0000_0000_0000
               && Mul64(Shr64(x, 32), Shr64(y, 32)) as int + Shr64(mid, 32) + Shr64(mid', 32) < 0x1_0000_0000_0000_0000
  {
    hide *;
    var xh, xl := Split(x);
    var yh, yl := Split(y);
    HalfProduct(xl, yl); HalfProduct(xh, yl); HalfProduct(xl, yh); HalfProduct(xh, yh);
    var lowH, lowL := Split(Mul64(xl, yl));
    var mid: int := Mul64(xh, yl) + lowH;
    var midH, midL := Split(mid);
    var mid': int := Mul64(xl, yh) + midL;
    var mid'H, mid'L := Split(mid');
  }

  /** The four half products are added up without loss. */
  lemma MulWideHalves(x: U64, y: U64, xh: nat, xl: nat, yh: nat, yl: nat)
    requires xh < 0x1_0000_0000 && xl < 0x1_0000_0000 && yh < 0x1_0000_0000 && yl < 0x1_0000_0000
    requires Shr64(x, 32) == xh && Mod32(x) == xl && Shr64(y, 32) == yh && Mod32(y) == yl
    requires Mul64(xl, yl) <= 0xffff_fffe_0000_0001 && Mul64(xh, yl) <= 0xffff_fffe_0000_0001
    requires Mul64(xl, yh) <= 0xffff_fffe_0000_0001 && Mul64(xh, yh) <= 0xffff_fffe_0000_0001
    ensures Value(MulWide(x, y)) == Mul64(xh, yh) * 0x1_0000_0000_0000_0000
                                    + (Mul64(xh, yl) as int + Mul64(xl, yh)) * 0x1_0000_0000 + Mul64(xl, yl)
  {
    hide Bitwise, Pow2, Shr, Mod32, Combine, Mul64;
    var lowH, lowL := Split(Mul64(xl, yl));
    var mid: int := Mul64(xh, yl) + lowH;
    var midH, midL := Split(mid);
    var mid': int := Mul64(xl, yh) + midL;
    var mid'H, mid'L := Split(mid');
    CombineHalves(mid', lowL);
    assert MulWide(x, y) == U128(mid'L * 0x1_0000_0000 + lowL, Mul64(xh, yh) + midH + mid'H);
  }

  lemma Schoolbook(xh: int, xl: int, yh: int, yl: int)
    ensures (xh * 0x1_0000_0000 + xl) * (yh * 0x1_0000_0000 + yl)
         == (xh * yh) * 0x1_0000_0000_0000_0000 + (xh * yl + xl * yh) * 0x1_0000_0000 + xl * yl
  {}

  // ---- bitwise operations ----

  function Logical(op: Op, a: U128, b: U128): U128
  {
    U128(Bit64(op, a.low, b.low), Bit64(op, a.high, b.high))
  }

  function LogNot(a: U128): U128 { U128(Not64(a.low), Not64(a.high)) }

  /** Limb-wise and, or, xor and not are the 128-bit operations. */
  lemma LogicalCorrect(op: Op, a: U128, b: U128)
    ensures Value(Logical(op, a, b)) == Bitwise(op, 128, Value(a), Value(b))
    ensures Value(LogNot(a)) == 0xffff_ffff_ffff_ffff_ffff_ffff_ffff_ffff - Value(a)
  {
    hide Bitwise, Pow2;
    Pow2Values();
    BitwiseSplit(op, 64, 64, Value(a), Value(b), a.low, a.high, b.low, b.high);
  }
}
