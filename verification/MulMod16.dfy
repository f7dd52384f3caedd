/** mulmod16-linear.s: multiplication modulo the Fermat prime 65537 on 16-bit codes. */
module MulMod16 {
  import opened Rv32
  import Bits

  /** The number a 16-bit code stands for: 0 encodes 65536. */
  function Number(code: nat): nat { if code == 0 then 65536 else code }

  // ---- 65537 is prime ----

  /** 65537 has no divisor but 1 and itself: the solver tries them all. */
  lemma OnlyTrivialDivisors(d: nat)
    requires 1 <= d < 65537 && 65537 % d == 0
    ensures d == 1
  {}

  /** Euclid's lemma: a product of numbers below 65537 is not a multiple of it.  The
      remainder 65537 % a is a smaller counterexample, unless a divides 65537. */
  lemma {:induction false} NoZeroProduct(a: nat, b: nat)
    requires 1 <= a < 65537 && (a * b) % 65537 == 0
    ensures b % 65537 == 0
    decreases a
  {
    var q: int, r: int := 65537 / a, 65537 % a;
    if r == 0 {
      OnlyTrivialDivisors(a);
    } else {
      var m: int := (a * b) / 65537;
      assert r * b == 65537 * (b - q * m) by {
        assert 65537 == a * q + r;
        assert 65537 * b == (a * b) * q + r * b;
      }
      MultipleIsZero(b - q * m);
      NoZeroProduct(r, b);
    }
  }

  lemma MultipleIsZero(k: int)
    ensures (65537 * k) % 65537 == 0
  {}

  // ---- the program ----

  type Code = x: int | 0 <= x < 0x1_0000

  /** Low minus high word of a product: the case of two non-zero operands. */
  function LowMinusHigh(p: nat): Code
  {
    var l, h := p % 0x1_0000, p / 0x1_0000;
    (l - h + if l < h then 1 else 0) % 0x1_0000
  }

  /** The program before its two branches were eliminated. */
  function Branching(a: Code, b: Code): Code
  {
    if a == 0 then (0x1_0001 - b) % 0x1_0000
    else if b == 0 then (0x1_0001 - a) % 0x1_0000
    else LowMinusHigh(a * b)
  }

  lemma LowBits(x: Word)
    ensures And(x, 0xffff) == x % 0x1_0000
  {
    hide Bits.Bitwise;
    Bits.Pow2Values();
    Bits.AndLow(32, x, 16);
  }

  /** Cases 1 and 2, lines 18-27 and 31-40: if `test` is 0, the register becomes 65537 - operand.
      The mask for `test` being non-zero is kept for case 3. */
  method ZeroCase(a0_in: Word, test: Word, operand: Word) returns (a0: Word, nonZero: Word)
    ensures a0 == if test == 0 then Add(Sub(0xffff, operand), 2) else a0_in
    ensures nonZero == if test == 0 then 0 else 0xffff_ffff
  {
    hide *;
    a0 := a0_in;
    SeqzMask(test);
    var zero := Seqz(test);
    zero := And(zero, 0xff);
    zero := Neg(zero);
    nonZero := Not(zero);
    var t0 := Sub(0xffff, operand);
    Select(zero, Add(t0, 2), a0);
    var t1 := And(a0, nonZero);
    var t2 := Add(t0, 2);
    t2 := And(t2, zero);
    a0 := Or(t2, t1);
  }

  lemma SeqzMask(x: Word)
    ensures var m := Neg(And(Seqz(x), 0xff));
            m == (if x == 0 then 0xffff_ffff else 0) && Not(m) == if x == 0 then 0 else 0xffff_ffff
  {
    hide And;
    MaskOfFlag(Seqz(x));
  }

  /** Case 3, lines 43-54: both operands non-zero. */
  method ProductCase(a0_in: Word, a1: Word, nonZeroA: Word, nonZeroB: Word) returns (a0: Word)
    requires nonZeroA == 0 || nonZeroA == 0xffff_ffff
    requires nonZeroB == 0 || nonZeroB == 0xffff_ffff
    ensures a0 == if nonZeroA != 0 && nonZeroB != 0 then
                    var p := Mul(a1, a0_in);
                    Add(Sub(p % 0x1_0000, p / 0x1_0000), Sltu(p % 0x1_0000, p / 0x1_0000))
                  else a0_in
  {
    hide *;
    a0 := a0_in;
    Masked(nonZeroA); Masked(0);
    var t3 := And(nonZeroA, nonZeroB);
    var t4 := Not(t3);
    var t0 := Mul(a1, a0);
    LowBits(t0); Shifts(t0);
    var t1 := And(t0, 0xffff);
    t0 := Srl(t0, 16);
    var a3 := Sub(t1, t0);
    t0 := Sltu(t1, t0);
    Select(t3, Add(a3, t0), a0);
    t1 := And(a0, t4);
    var t2 := Add(a3, t0);
    t2 := And(t2, t3);
    a0 := Or(t2, t1);
  }

  /** The linear program agrees with the branching one except on two zero codes, where both
      masked cases apply and 0 is left instead of 1. */
  method MulMod16(a0_in: Word, a1_in: Word) returns (a0: Word)
    ensures var a, b := a0_in % 0x1_0000, a1_in % 0x1_0000;
            a0 == if a == 0 && b == 0 then 0 else Branching(a, b)
  {
    hide *;
    LowBits(a0_in); LowBits(a1_in);
    a0 := And(a0_in, 0xffff);
    var a1 := And(a1_in, 0xffff);
    ghost var a, b := a0, a1;
    var nonZeroA, nonZeroB;
    a0, nonZeroA := ZeroCase(a0, a0, a1);
    Complement(b);
    ghost var case1 := a0;
    a0, nonZeroB := ZeroCase(a0, a1, a0);
    Complement(case1);
    a0 := ProductCase(a0, a1, nonZeroA, nonZeroB);
    LowBits(a0);
    BranchCases(a, b);
    a0 := And(a0, 0xffff);
  }

  lemma Complement(x: Word)
    requires x <= 0x1_0001
    ensures Add(Sub(0xffff, x), 2) == 0x1_0001 - x
  {}

  lemma BranchCases(a: Code, b: Code)
    ensures a == 0 ==> Branching(a, b) == (0x1_0001 - b) % 0x1_0000
    ensures a != 0 && b == 0 ==> Branching(a, b) == (0x1_0001 - a) % 0x1_0000
    ensures a != 0 && b != 0 ==>
              var p := Mul(b, a);
              Branching(a, b) == Add(Sub(p % 0x1_0000, p / 0x1_0000), Sltu(p % 0x1_0000, p / 0x1_0000)) % 0x1_0000
  {
    hide Add, Sub, Mul, Sltu, LowMinusHigh;
    ProductWraps(a, b);
  }

  /** The product of two codes fits a word, so the wrapped difference is the one of the branch. */
  lemma ProductWraps(a: Code, b: Code)
    ensures var p := Mul(b, a);
            Add(Sub(p % 0x1_0000, p / 0x1_0000), Sltu(p % 0x1_0000, p / 0x1_0000)) % 0x1_0000 == LowMinusHigh(a * b)
  {
    Bits.MulMonotone(a, 0xffff, b); Bits.MulMonotone(b, 0xffff, 0xffff);
    var p: int := a * b;
    assert Mul(b, a) == p;
    DifferenceWraps(p % 0x1_0000, p / 0x1_0000);
  }

  lemma DifferenceWraps(l: int, h: int)
    requires 0 <= l < 0x1_0000 && 0 <= h < 0x1_0000
    ensures Add(Sub(l, h), Sltu(l, h)) % 0x1_0000 == (l - h + if l < h then 1 else 0) % 0x1_0000
  {}

  /** With two non-zero operands the low and high words differ, because 65537 is prime, and
      their difference is the product modulo 65537. */
  lemma ProductMod(a: Code, b: Code)
    requires a != 0 && b != 0
    ensures Number(LowMinusHigh(a * b)) == (a * b) % 65537
  {
    var p: int := a * b;
    Bits.MulMonotone(a, 0xffff, b); Bits.MulMonotone(b, 0xffff, 0xffff);
    var l: int, h: int := p % 0x1_0000, p / 0x1_0000;
    if l == h {
      assert p == 65537 * h;
      NoZeroProduct(a, b);
      assert false;
    }
    DifferenceMod(p, l, h);
  }

  lemma DifferenceMod(p: int, l: int, h: int)
    requires 0 <= l < 0x1_0000 && 0 <= h < 0x1_0000 && l != h && p == 0x1_0000 * h + l
    ensures Number((l - h + if l < h then 1 else 0) % 0x1_0000) == p % 65537
  {}

  /** The branching program multiplies modulo 65537, code 0 standing for 65536. */
  lemma BranchingCorrect(a: Code, b: Code)
    ensures Number(Branching(a, b)) == (Number(a) * Number(b)) % 65537
  {
    if a == 0 {
      MinusOneTimes(Number(b));
    } else if b == 0 {
      MinusOneTimes(a);
    } else {
      ProductMod(a, b);
    }
  }

  lemma MinusOneTimes(n: nat)
    requires 1 <= n <= 65536
    ensures (65536 * n) % 65537 == 65537 - n
  {}

  /** The linear program is right on a pair of codes exactly when they are not both 0. */
  lemma LinearCorrectWhen(a: Code, b: Code, r: Code)
    requires r == if a == 0 && b == 0 then 0 else Branching(a, b)
    ensures Number(r) == (Number(a) * Number(b)) % 65537 <==> !(a == 0 && b == 0)
  {
    BranchingCorrect(a, b);
  }
}
