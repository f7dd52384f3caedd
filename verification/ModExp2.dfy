/** modexp2-linear.s: square-and-multiply modulo 7, dividing by multiplication. */
module ModExp2 {
  import opened Rv32
  import Bits

  function Pow(y: int, k: nat): int
    decreases k
  {
    if k == 0 then 1 else y * Pow(y, k - 1)
  }

  /** C's remainder, with the sign of the dividend. */
  function TruncRem(n: int, d: int): int
    requires d > 0
  {
    if n >= 0 then n % d else -((-n) % d)
  }

  // ---- remainders by reciprocals ----

  const SIGNED_RECIPROCAL: Word := 0x9249_2493
  const UNSIGNED_RECIPROCAL: Word := 0x2492_4925

  /** Lines 34-40 and 60-66: minus seven times the truncated quotient. */
  function MinusSevenths(x: Word): Word
  {
    var t0 := Mulh(x, SIGNED_RECIPROCAL);
    var t0 := Add(t0, x);
    var t1 := Srl(t0, 31);
    var t0 := Sra(t0, 2);
    var t0 := Add(t0, t1);
    var t1 := Sll(t0, 3);
    Sub(t0, t1)
  }

  /** Lines 19-25: minus seven times the unsigned quotient. */
  function MinusSeventhsUnsigned(x: Word): Word
  {
    var t0 := Mulhu(x, UNSIGNED_RECIPROCAL);
    var t1 := Sub(x, t0);
    var t1 := Srl(t1, 1);
    var t0 := Add(t1, t0);
    var t0 := Srl(t0, 2);
    var t1 := Sll(t0, 3);
    Sub(t0, t1)
  }

  /** For n = 7 k + r the signed reciprocal, (2^34 + 5) / 7, errs by less than one. */
  lemma SignedQuotient(n: int)
    requires -0x8000_0000 <= n < 0x8000_0000
    ensures n >= 0 ==> (n * 2454267027) / 0x4_0000_0000 == n / 7
    ensures n < 0 ==> (n * 2454267027) / 0x4_0000_0000 == -((-n) / 7) - 1
  {
    var m: int := if n >= 0 then n else -n;
    var k: int, r: int := m / 7, m % 7;
    assert m * 2454267027 == k * 0x4_0000_0000 + (5 * k + r * 2454267027);
  }

  /** mulh plus the dividend: the high word of the product with (2^34 + 5) / 7. */
  lemma HighWord(s: int)
    requires -0x8000_0000 <= s < 0x8000_0000
    ensures (s * -1840700269) / 0x1_0000_0000 + s == (s * 2454267027) / 0x1_0000_0000
    ensures -0x8000_0000 <= (s * 2454267027) / 0x1_0000_0000 < 0x8000_0000
  {}

  /** The last five instructions turn the high word into minus seven quotients. */
  lemma FromHighWord(t0: Word, q: int)
    requires q == Signed(t0) / 4 + if Signed(t0) < 0 then 1 else 0
    ensures var t := Add(Sra(t0, 2), Srl(t0, 31)); Sub(t, Sll(t, 3)) == OfInt(-7 * q)
  {
    hide Sra, Srl, Sll, Add, Sub, OfInt;
    Shifts(t0);
    Collapse(Signed(t0) / 4, Srl(t0, 31));
    Shifts(OfInt(q));
    Collapse(q, 0);
    Collapse(q, 8 * q);
  }

  /** The signed sequence leaves the exact truncated remainder, for every word. */
  lemma SignedRemainder(x: Word)
    ensures Signed(Add(x, MinusSevenths(x))) == TruncRem(Signed(x), 7)
  {
    hide Sra, Srl, Sll, Add, Sub, OfInt;
    var s := Signed(x);
    HighWord(s);
    SignedQuotient(s);
    var f: int := (s * -1840700269) / 0x1_0000_0000;
    var h: int := (s * 2454267027) / 0x1_0000_0000;
    assert Mulh(x, SIGNED_RECIPROCAL) == OfInt(f);
    OfSigned(x);
    Collapse(f, s);
    InRange(h);
    var q: int := h / 4 + if h < 0 then 1 else 0;
    FromHighWord(OfInt(h), q);
    Collapse(s, -7 * q);
    assert s - 7 * q == TruncRem(s, 7) by { QuotientIs(s, h, q); }
    InRange(s - 7 * q);
  }

  lemma QuotientIs(s: int, h: int, q: int)
    requires -0x8000_0000 <= s < 0x8000_0000
    requires h == (s * 2454267027) / 0x1_0000_0000
    requires q == h / 4 + if h < 0 then 1 else 0
    ensures s - 7 * q == TruncRem(s, 7)
  {
    SignedQuotient(s);
    assert h / 4 == (s * 2454267027) / 0x4_0000_0000;
  }

  lemma UnsignedQuotient(x: Word, t0: int)
    requires t0 == (x * 613566757) / 0x1_0000_0000
    ensures 0 <= t0 <= x && ((x - t0) / 2 + t0) / 4 == x / 7
    ensures (x - t0) / 2 + t0 < 0x1_0000_0000
  {
    var k: int, r: int := x / 7, x % 7;
    assert x as int * 613566757 == k * 0x1_0000_0000 + (3 * k + r * 613566757);
    assert k <= t0 <= k + 1;
  }

  /** The unsigned sequence leaves the exact remainder. */
  lemma UnsignedRemainder(x: Word)
    ensures Add(x, MinusSeventhsUnsigned(x)) == x % 7
  {
    hide Srl, Sll, Add, Sub, OfInt;
    var t0: int := (x * 613566757) / 0x1_0000_0000;
    UnsignedQuotient(x, t0);
    InRange(t0); InRange(x); InRange(x - t0); InRange((x - t0) / 2); InRange((x - t0) / 2 + t0);
    InRange(x / 7);
    assert Mulhu(x, UNSIGNED_RECIPROCAL) == t0;
    Collapse(x, t0);
    Shifts(x - t0);
    Collapse((x - t0) / 2, t0);
    Shifts((x - t0) / 2 + t0);
    Shifts(x / 7);
    Collapse(x / 7, 8 * (x / 7));
    Collapse(x, -7 * (x / 7));
    InRange(x % 7);
  }

  // ---- powers modulo 7 ----

  lemma Reassociate(a: int, b: int, c: int)
    ensures a * (b * c) == (a * b) * c
  {}

  lemma {:induction false} PowSquare(y: int, h: nat)
    ensures Pow(y * y, h) == Pow(y, 2 * h)
  {
    if h > 0 {
      PowSquare(y, h - 1);
      Reassociate(y, y, Pow(y, 2 * (h - 1)));
      assert Pow(y, 2 * h) == y * Pow(y, 2 * h - 1) == y * (y * Pow(y, 2 * h - 2));
    }
  }

  lemma ModFactor(m: int, n: int)
    ensures (m * (n % 7)) % 7 == (m * n) % 7 == ((m % 7) * n) % 7
  {
    var i, j := m / 7, n / 7;
    assert m * n == m * (n % 7) + 7 * (m * j) by { assert n == n % 7 + 7 * j; }
    assert m * n == (m % 7) * n + 7 * (i * n) by { assert m == m % 7 + 7 * i; }
    Multiple(m * (n % 7), m * j);
    Multiple((m % 7) * n, i * n);
  }

  lemma Multiple(x: int, k: int)
    ensures (x + 7 * k) % 7 == x % 7
  {}

  lemma {:induction false} PowMod(y: int, k: nat)
    ensures Pow(y % 7, k) % 7 == Pow(y, k) % 7
  {
    if k > 0 {
      PowMod(y, k - 1);
      ModFactor(y % 7, Pow(y % 7, k - 1));
      ModFactor(y % 7, Pow(y, k - 1));
      ModFactor(y, Pow(y, k - 1));
    }
  }

  /** r * b^e, reduced as C does. */
  function Reduced(r: int, b: nat, e: nat): int
  {
    if r >= 0 then (r * Pow(b, e)) % 7 else -(((-r) * Pow(b, e)) % 7)
  }

  lemma EvenStep(m: nat, b: nat, h: nat)
    ensures (m * Pow((b * b) % 7, h)) % 7 == (m * Pow(b, 2 * h)) % 7
  {
    PowMod(b * b, h);
    PowSquare(b, h);
    ModFactor(m, Pow((b * b) % 7, h));
    ModFactor(m, Pow(b * b, h));
  }

  lemma OddStep(m: nat, b: nat, h: nat)
    ensures (((m * b) % 7) * Pow((b * b) % 7, h)) % 7 == (m * Pow(b, 2 * h + 1)) % 7
  {
    hide Pow;
    ModFactor(m * b, Pow((b * b) % 7, h));
    EvenStep(m * b, b, h);
    Reassociate(m, b, Pow(b, 2 * h));
    PowOdd(b, h);
  }

  lemma PowOdd(b: int, h: nat)
    ensures Pow(b, 2 * h + 1) == b * Pow(b, 2 * h)
  {}

  /** One squaring step: the low bit of e moves its factor into r. */
  lemma SquareStep(r: int, b: nat, e: nat)
    ensures Reduced(if e % 2 == 1 then TruncRem(r * b, 7) else r, (b * b) % 7, e / 2) == Reduced(r, b, e)
  {
    hide Pow;
    var m: nat, h := if r >= 0 then r else -r, e / 2;
    if e % 2 == 1 {
      OddStep(m, b, h);
      SignedProduct(r, b);
      if r < 0 && b == 0 { ZeroBase(h); }
    } else {
      EvenStep(m, b, h);
    }
  }

  lemma ZeroBase(h: nat)
    ensures Pow(0, 2 * h + 1) == 0
  {}

  lemma SignedProduct(r: int, b: nat)
    ensures r >= 0 ==> r * b >= 0
    ensures r < 0 ==> r * b <= 0 && (-r) * b == -(r * b) && (r * b == 0 ==> b == 0)
  {}

  // ---- the program on registers ----

  /** The low bit of a non-negative exponent, and nothing else, passes line 31. */
  lemma OddExponent(x: Word)
    ensures And(x, 0x8000_0001) == 1 <==> x < 0x8000_0000 && x % 2 == 1
  {
    hide Bits.Bitwise, Bits.Pow2;
    Bits.Pow2Values();
    Pow2At30();
    Bits.BitwiseStep(Bits.AndOp, 32, x, 0x8000_0001);
    Bits.AndBit(31, x / 2, 30);
  }

  lemma Pow2At30()
    ensures Bits.Pow2(30) == 0x4000_0000
  {
    Bits.Pow2Values();
    assert Bits.Pow2(31) == 2 * Bits.Pow2(30);
  }

  /** One trip around the loop, lines 31-55 and then 18-28. */
  method Iteration(a0_in: Word, a1_in: Word, a6_in: Word) returns (a0: Word, a1: Word, a6: Word)
    ensures a0 == OfInt(a0_in as int * a0_in) % 7
    ensures a1 == OfInt(Signed(a1_in) / 2)
    ensures a1_in < 0x8000_0000 && a1_in % 2 == 1 ==> Signed(a6) == TruncRem(Signed(Mul(a6_in, a0_in)), 7)
    ensures !(a1_in < 0x8000_0000 && a1_in % 2 == 1) ==> a6 == a6_in
  {
    hide And, Or, Add, Sub, OfInt, Sra, Srl, Sll, Mulh, Mulhu, Bits.Pow2;
    a0, a1, a6 := a0_in, a1_in, a6_in;
    var t2 := And(a1, 0x8000_0001);
    OddExponent(a1);
    var t3 := Mul(a6, a0);
    SignedRemainder(t3);
    var t0 := Mulh(t3, SIGNED_RECIPROCAL);
    t0 := Add(t0, t3);
    var t1 := Srl(t0, 31);
    t0 := Sra(t0, 2);
    t0 := Add(t0, t1);
    t1 := Sll(t0, 3);
    t0 := Sub(t0, t1);
    BranchMask(t2, 1);
    var t4 := Sub(t2, 1);
    t4 := Snez(t4);
    t4 := And(t4, 0xff);
    t4 := Neg(t4);
    var t5 := Not(t4);
    Select(t4, a6, Add(t3, t0));
    var t6 := And(a6, t4);
    a6 := Add(t3, t0);
    a6 := And(a6, t5);
    a6 := Or(a6, t6);
    a0 := Mul(a0, a0);
    UnsignedRemainder(a0);
    t0 := Mulhu(a0, UNSIGNED_RECIPROCAL);
    t1 := Sub(a0, t0);
    t1 := Srl(t1, 1);
    t0 := Add(t1, t0);
    t0 := Srl(t0, 2);
    t1 := Sll(t0, 3);
    t0 := Sub(t0, t1);
    a0 := Add(a0, t0);
    Shifts(a1);
    a1 := Sra(a1, 1);
  }

  /** What the program computes for any two words. */
  function Result(y: Word, k: Word): int
  {
    if k >= 0x8000_0000 then 1
    else Reduced(if k % 2 == 1 then TruncRem(Signed(y), 7) else 1, OfInt(y as int * y) % 7, k / 2)
  }

  /** The exponent left for the last n iterations has n - 1 bits. */
  ghost predicate Bounded(a1: Word, n: nat)
  {
    if n == 0 then a1 == 0 else a1 < Bits.Pow2(n - 1)
  }

  lemma Halved(a1: Word, n: nat)
    requires n > 0 && a1 < 0x8000_0000 && Bounded(a1, n)
    ensures OfInt(Signed(a1) / 2) == a1 / 2 && Bounded(a1 / 2, n - 1)
  {
    if n > 1 { assert Bits.Pow2(n - 1) == 2 * Bits.Pow2(n - 2); }
  }

  lemma HalvedNegative(a1: Word)
    requires a1 >= 0x8000_0000
    ensures OfInt(Signed(a1) / 2) >= 0x8000_0000
  {}

  /** After the first iteration both factors are below 7 and nothing wraps any more. */
  lemma SmallFactors(a6: Word, a0: Word)
    requires -7 < Signed(a6) < 7 && a0 < 7
    ensures Signed(Mul(a6, a0)) == Signed(a6) * a0
    ensures OfInt(a0 as int * a0) == a0 * a0
  {
    var r: int := Signed(a6);
    assert -36 <= r * a0 <= 36 && 0 <= a0 as int * a0 <= 36 by {
      assert a0 == 0 || a0 == 1 || a0 == 2 || a0 == 3 || a0 == 4 || a0 == 5 || a0 == 6;
    }
    if r < 0 { Periodic(r * a0, a0); assert a6 as int * a0 == r * a0 + a0 * 0x1_0000_0000; }
    InRange(r * a0); InRange(a0 as int * a0);
  }

  lemma RemainderRange(n: int)
    ensures -7 < TruncRem(n, 7) < 7
  {}

  method ModExp2(y: Word, k: Word) returns (a0: Word)
    ensures Signed(a0) == Result(y, k)
    ensures k >= 0x8000_0000 ==> a0 == 1
    ensures k < 0x8000_0000 && SquareOverflow(y) % 7 == 0 ==> Signed(a0) == TruncRem(Pow(Signed(y), k), 7)
  {
    hide Pow, Reduced, OfInt, Bits.Pow2, Mulh, Sra, Srl, Sll, Add, Sub, Mul, TruncRem;
    var a1, a3, a6: Word := k, 32, 1;
    a0 := y;
    Bits.Pow2Values();
    while a3 != 0
      invariant 0 <= a3 <= 32
      invariant a3 == 32 ==> a0 == y && a1 == k && a6 == 1
      invariant a3 < 32 ==> a0 < 7 && -7 < Signed(a6) < 7
      invariant k < 0x8000_0000 ==> a1 < 0x8000_0000 && Bounded(a1, a3)
      invariant k < 0x8000_0000 && a3 < 32 ==> Reduced(Signed(a6), a0, a1) == Result(y, k)
      invariant k >= 0x8000_0000 ==> a1 >= 0x8000_0000 && a6 == 1
      decreases a3
    {
      ghost var r, b, e := Signed(a6), a0, a1;
      if k < 0x8000_0000 { Halved(a1, a3); } else { HalvedNegative(a1); }
      RemainderRange(Signed(Mul(a6, a0)));
      if a3 == 32 {
        assert Mul(a6, a0) == y by { TimesOne(y); }
      } else {
        SmallFactors(a6, a0);
        SquareStep(r, b, e);
      }
      a0, a1, a6 := Iteration(a0, a1, a6);
      a3 := a3 - 1;
    }
    SignedRemainder(a6);
    NoFactorsLeft(Signed(a6), a0);
    if k < 0x8000_0000 && SquareOverflow(y) % 7 == 0 { ResultPower(y, k); }
    a0 := Mulh(a6, SIGNED_RECIPROCAL);
    a0 := Add(a0, a6);
    a1 := Srl(a0, 31);
    a0 := Sra(a0, 2);
    a0 := Add(a0, a1);
    a1 := Sll(a0, 3);
    a0 := Sub(a0, a1);
    a0 := Add(a6, a0);
  }

  lemma TimesOne(y: Word)
    ensures Mul(1, y) == y
  {}

  lemma NoFactorsLeft(r: int, b: nat)
    ensures Reduced(r, b, 0) == TruncRem(r, 7)
    ensures r == 1 ==> TruncRem(r, 7) == 1
  {}

  // ---- when this is exponentiation ----

  /** What the 32-bit square of the base loses. */
  function SquareOverflow(y: Word): int { (Signed(y) * Signed(y)) / 0x1_0000_0000 }

  lemma SquareModSeven(y: Word)
    ensures OfInt(y as int * y) % 7 == (Signed(y) * Signed(y)) % 7 <==> SquareOverflow(y) % 7 == 0
  {
    hide OfInt;
    SameSquare(y);
    var n: int := Signed(y) * Signed(y);
    SquareSplit(n);
    SevenDivides(OfInt(n), n, n / 0x1_0000_0000);
  }

  lemma SquareSplit(n: int)
    ensures n == OfInt(n) as int + 0x1_0000_0000 * (n / 0x1_0000_0000)
  {}

  lemma SameSquare(y: Word)
    ensures OfInt(y as int * y) == OfInt(Signed(y) * Signed(y))
  {
    hide OfInt;
    var s: int := Signed(y);
    if s != y {
      Periodic(s * s, 2 * s + 0x1_0000_0000);
      Binomial(s, 0x1_0000_0000);
    }
  }

  lemma Binomial(s: int, p: int)
    ensures (s + p) * (s + p) == s * s + (2 * s + p) * p
  {}

  /** 2^32 is 4 modulo 7, so a lost multiple f of it matters unless 7 divides f. */
  lemma SevenDivides(low: int, s: int, f: int)
    requires s == low + 0x1_0000_0000 * f
    ensures low % 7 == s % 7 <==> f % 7 == 0
  {
    var g: int, r: int := f / 7, f % 7;
    assert s == low + 4 * r + 7 * (613566756 * f + 4 * g);
    Multiple(low + 4 * r, 613566756 * f + 4 * g);
    assert r == 0 || r == 1 || r == 2 || r == 3 || r == 4 || r == 5 || r == 6;
  }

  lemma {:induction false} PowNonNegative(y: int, k: nat)
    requires y >= 0
    ensures Pow(y, k) >= 0
  {
    if k > 0 { PowNonNegative(y, k - 1); }
  }

  /** Squaring once modulo 7 and going on from there gives C's remainder of the power, also for
      a negative base. */
  lemma SignedPower(s: int, k: nat)
    ensures Reduced(if k % 2 == 1 then TruncRem(s, 7) else 1, (s * s) % 7, k / 2) == TruncRem(Pow(s, k), 7)
  {
    hide Pow, Reduced, TruncRem;
    var h, p := k / 2, Pow(s * s, k / 2);
    PowSquare(s, h);
    PowMod(s * s, h);
    SquareNonNegative(s);
    PowNonNegative(s * s, h);
    if k % 2 == 1 {
      PowOdd(s, h);
      OddPower(s, p, (s * s) % 7, h);
    } else {
      EvenPower(p, (s * s) % 7, h);
    }
  }

  lemma EvenPower(p: nat, c: nat, h: nat)
    requires Pow(c, h) % 7 == p % 7
    ensures Reduced(1, c, h) == TruncRem(p, 7)
  {}

  lemma OddPower(s: int, p: nat, c: nat, h: nat)
    requires Pow(c, h) % 7 == p % 7
    ensures Reduced(TruncRem(s, 7), c, h) == TruncRem(s * p, 7)
  {
    hide Pow;
    var m: nat := if s >= 0 then s else -s;
    ModFactor(m, Pow(c, h));
    ModFactor(m, p);
    SignedProduct(s, p);
  }

  lemma SquareNonNegative(s: int)
    ensures s * s >= 0
  {}

  lemma ResultPower(y: Word, k: Word)
    requires k < 0x8000_0000 && SquareOverflow(y) % 7 == 0
    ensures Result(y, k) == TruncRem(Pow(Signed(y), k), 7)
  {
    hide Pow, Reduced, TruncRem;
    SquareModSeven(y);
    SignedPower(Signed(y), k);
  }

  lemma SecondPower(y: Word)
    ensures Result(y, 2) == OfInt(y as int * y) % 7
    ensures Pow(Signed(y), 2) == Signed(y) * Signed(y) >= 0
  {
    var c: nat, s := OfInt(y as int * y) % 7, Signed(y);
    SquareNonNegative(s);
    assert Pow(c, 1) == c * Pow(c, 0) == c;
    assert Pow(s, 2) == s * Pow(s, 1) && Pow(s, 1) == s * Pow(s, 0);
  }

  /** For any base the program computes C's y^k % 7 at every exponent exactly when the overflow
      of the 32-bit square is a multiple of 7. */
  lemma PowerExactlyWhen(y: Word)
    ensures (forall k: Word :: k < 0x8000_0000 ==> Result(y, k) == TruncRem(Pow(Signed(y), k), 7))
       <==> SquareOverflow(y) % 7 == 0
  {
    hide Result, Pow;
    if SquareOverflow(y) % 7 == 0 {
      forall k: Word | k < 0x8000_0000 ensures Result(y, k) == TruncRem(Pow(Signed(y), k), 7) {
        ResultPower(y, k);
      }
    } else {
      SecondPower(y);
      SquareModSeven(y);
      assert Result(y, 2) != TruncRem(Pow(Signed(y), 2), 7);
    }
  }

  /** In particular for every 16-bit base. */
  lemma SmallBase(y: Word, k: Word)
    requires y < 0x1_0000 && k < 0x8000_0000
    ensures Result(y, k) == Pow(y, k) % 7
  {
    hide Result, Pow;
    assert SquareOverflow(y) == 0 by { Bits.MulMonotone(y, 0xffff, y); Bits.MulMonotone(y, 0xffff, 0xffff); }
    PowNonNegative(y, k);
    ResultPower(y, k);
  }

  /** Not for every base: 65536 squared is lost altogether. */
  lemma LargeBaseFails()
    ensures Result(0x1_0000, 2) == 0 && Pow(0x1_0000, 2) % 7 == 4
  {
    SecondPower(0x1_0000);
  }
}
