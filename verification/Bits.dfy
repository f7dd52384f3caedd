/** Unsigned machine words as natural numbers, for every width.

    The branch-free code of the benchmarks mixes arithmetic with bit masks.  Words are
    therefore integers here, and the bitwise operators are defined bit by bit on them,
    so that one proof serves the 8-, 16-, 32- and 64-bit variants of a routine. */
module Bits {

  function Pow2(n: nat): (p: nat)
    ensures p >= 1
  {
    if n == 0 then 1 else 2 * Pow2(n - 1)
  }

  lemma {:induction false} Pow2Add(m: nat, n: nat)
    ensures Pow2(m + n) == Pow2(m) * Pow2(n)
  {
    if m > 0 {
      Pow2Add(m - 1, n);
      assert Pow2(m + n) == 2 * Pow2(m + n - 1);
    }
  }

  lemma Pow2Values()
    ensures Pow2(8) == 0x100 && Pow2(16) == 0x1_0000
    ensures Pow2(32) == 0x1_0000_0000 && Pow2(64) == 0x1_0000_0000_0000_0000
    ensures Pow2(31) == 0x8000_0000 && Pow2(63) == 0x8000_0000_0000_0000
  {
    assert Pow2(4) == 16;
    Pow2Add(4, 4); Pow2Add(8, 8); Pow2Add(16, 16); Pow2Add(32, 32);
    assert Pow2(32) == 2 * Pow2(31) && Pow2(64) == 2 * Pow2(63);
  }

  datatype Op = AndOp | OrOp | XorOp

  /** The operator on single bits. */
  function OnBit(op: Op, x: nat, y: nat): (r: nat)
    requires x < 2 && y < 2
    ensures r < 2
  {
    match op
    case AndOp => x * y
    case OrOp => if x + y > 0 then 1 else 0
    case XorOp => (x + y) % 2
  }

  /** The operator on w-bit words, lowest bit first. */
  function Bitwise(op: Op, w: nat, a: nat, b: nat): (r: nat)
    ensures r < Pow2(w)
    decreases w, a
  {
    if w == 0 then 0
    else OnBit(op, a % 2, b % 2) + 2 * Bitwise(op, w - 1, a / 2, b / 2)
  }

  function And(w: nat, a: nat, b: nat): nat { Bitwise(AndOp, w, a, b) }
  function Or(w: nat, a: nat, b: nat): nat { Bitwise(OrOp, w, a, b) }
  function Xor(w: nat, a: nat, b: nat): nat { Bitwise(XorOp, w, a, b) }

  /** One's complement. */
  function Not(w: nat, a: nat): nat
    requires a < Pow2(w)
  {
    Pow2(w) - 1 - a
  }

  function Ones(w: nat): nat { Pow2(w) - 1 }

  /** Subtraction wraps around. */
  function Sub(w: nat, a: nat, b: nat): (r: nat)
    requires a < Pow2(w) && b < Pow2(w)
    ensures r < Pow2(w)
  {
    if a >= b then a - b else Pow2(w) + a - b
  }

  /** Logical right shift. */
  function Shr(x: nat, s: nat): (r: nat)
    ensures r <= x
  {
    DivAtMost(x, Pow2(s));
    x / Pow2(s)
  }

  lemma DivAtMost(x: nat, p: nat)
    requires p > 0
    ensures 0 <= x / p <= x
  {
    var q := x / p;
    assert x == p * q + x % p;
    MulMonotone(1, p, q);
  }

  lemma {:induction false} MulMonotone(x: nat, x': nat, y: nat)
    requires x <= x'
    ensures 0 <= x * y <= x' * y
  {
    if y > 0 {
      MulMonotone(x, x', y - 1);
      assert x * y == x * (y - 1) + x && x' * y == x' * (y - 1) + x';
    }
  }

  lemma {:induction false} AndOnes(w: nat, a: nat)
    requires a < Pow2(w)
    ensures And(w, a, Ones(w)) == a == And(w, Ones(w), a)
  {
    if w > 0 {
      AndOnes(w - 1, a / 2);
      assert Ones(w) % 2 == 1 && Ones(w) / 2 == Ones(w - 1);
    }
  }

  lemma {:induction false} Zero(w: nat, a: nat)
    requires a < Pow2(w)
    ensures And(w, a, 0) == 0 == And(w, 0, a)
    ensures Or(w, a, 0) == a == Or(w, 0, a)
    ensures Xor(w, a, 0) == a == Xor(w, 0, a)
  {
    if w > 0 {
      Zero(w - 1, a / 2);
    }
  }

  /** Molnar's selection: a mask of all ones picks x, a mask of zero picks y. */
  lemma Select(w: nat, mask: nat, x: nat, y: nat)
    requires mask == 0 || mask == Ones(w)
    requires x < Pow2(w) && y < Pow2(w)
    ensures Not(w, mask) == if mask == 0 then Ones(w) else 0
    ensures Or(w, And(w, x, mask), And(w, y, Not(w, mask))) == if mask == 0 then y else x
    ensures Or(w, And(w, y, Not(w, mask)), And(w, x, mask)) == if mask == 0 then y else x
  {
    AndOnes(w, x); AndOnes(w, y);
    Zero(w, x); Zero(w, y);
    Zero(w, 0);
  }

  /** Masking with 2^k - 1 keeps the k low bits. */
  lemma AndLow(w: nat, a: nat, k: nat)
    requires k <= w
    ensures And(w, a, Pow2(k) - 1) == a % Pow2(k)
  {
    hide And, Pow2;
    AndLowPart(w, a, k);
  }

  function LowPart(a: nat, p: nat): nat
    requires p > 0
  {
    a % p
  }

  lemma {:induction false} AndLowPart(w: nat, a: nat, k: nat)
    requires k <= w
    ensures And(w, a, Pow2(k) - 1) == LowPart(a, Pow2(k))
  {
    hide And, Bitwise, Pow2, LowPart;
    if k == 0 {
      NoLowBits(w, a);
    } else {
      Pow2Step(k);
      AndStep(w, a, Pow2(k - 1));
      AndLowPart(w - 1, a / 2, k - 1);
      LowDouble(a, Pow2(k - 1));
    }
  }

  lemma NoLowBits(w: nat, a: nat)
    ensures And(w, a, Pow2(0) - 1) == LowPart(a, Pow2(0))
  {
    hide Bitwise;
    AndZeroRight(w, a);
  }

  lemma LowDouble(a: nat, p: nat)
    requires p > 0
    ensures LowPart(a, 2 * p) == a % 2 + 2 * LowPart(a / 2, p)
  {
    ModDouble(a, p);
  }

  lemma Pow2Step(k: nat)
    requires k > 0
    ensures Pow2(k) == 2 * Pow2(k - 1)
  {}

  lemma AndStep(w: nat, a: nat, p: nat)
    requires w > 0 && p > 0
    ensures And(w, a, 2 * p - 1) == a % 2 + 2 * And(w - 1, a / 2, p - 1)
    ensures And(w, a, 2 * p) == 2 * And(w - 1, a / 2, p)
  {
    hide Bitwise;
    LowMask(p);
    BitwiseStep(AndOp, w, a, 2 * p - 1);
    BitwiseStep(AndOp, w, a, 2 * p);
  }

  /** One unfolding of the definition. */
  lemma BitwiseStep(op: Op, w: nat, a: nat, b: nat)
    requires w > 0
    ensures Bitwise(op, w, a, b) == OnBit(op, a % 2, b % 2) + 2 * Bitwise(op, w - 1, a / 2, b / 2)
  {}

  lemma BitwiseHalf(op: Op, w: nat, a: nat, b: nat)
    requires w > 0
    ensures Bitwise(op, w, a, b) / 2 == Bitwise(op, w - 1, a / 2, b / 2)
  {
    hide Bitwise, OnBit;
    BitwiseStep(op, w, a, b);
  }

  lemma LowMask(p: nat)
    requires p > 0
    ensures (2 * p - 1) % 2 == 1 && (2 * p - 1) / 2 == p - 1
    ensures (2 * p) % 2 == 0 && (2 * p) / 2 == p
  {}

  lemma {:induction false} AndZeroRight(w: nat, a: nat)
    ensures And(w, a, 0) == 0
  {
    if w > 0 { AndZeroRight(w - 1, a / 2); }
  }

  lemma ModDouble(a: nat, p: nat)
    requires p > 0
    ensures a % (2 * p) == a % 2 + 2 * ((a / 2) % p)
  {
    var h := a / 2;
    var q, r := h / p, h % p;
    assert a == a % 2 + 2 * (p * q + r);
    DivModUnique(a, 2 * p, q, a % 2 + 2 * r) by {
      assert a == 2 * p * q + (a % 2 + 2 * r);
    }
  }

  lemma DivModUnique(a: int, d: int, q: int, r: int)
    requires 0 <= r < d && a == d * q + r
    ensures a / d == q && a % d == r
  {
    var q' := a / d;
    assert d * (q - q') == a % d - r by {
      assert a == d * q' + a % d;
    }
    if q != q' { MulAtLeast(d, q - q'); }
  }

  lemma {:induction false} MulAtLeast(d: nat, k: int)
    requires k != 0
    ensures d * k >= d || d * k + d <= 0
    decreases if k > 0 then k else -k
  {
    if k > 1 {
      MulAtLeast(d, k - 1);
      assert d * k == d * (k - 1) + d;
    } else if k < -1 {
      MulAtLeast(d, k + 1);
      assert d * k + d == d * (k + 1);
    }
  }

  /** Masking with a single bit extracts it in place. */
  lemma {:induction false} AndBit(w: nat, a: nat, i: nat)
    requires i < w
    ensures And(w, a, Pow2(i)) == Pow2(i) * (Shr(a, i) % 2)
  {
    if i == 0 {
      AndZeroRight(w - 1, a / 2);
      assert Shr(a, 0) == a;
    } else {
      hide Bitwise, Pow2, Shr;
      Pow2Step(i);
      AndStep(w, a, Pow2(i - 1));
      AndBit(w - 1, a / 2, i - 1);
      ShrStep(a, i);
      DoubleProduct(Pow2(i - 1), Shr(a, i) % 2);
    }
  }

  lemma ShrStep(a: nat, i: nat)
    requires i > 0
    ensures Shr(a, i) == Shr(a / 2, i - 1)
  {
    hide Pow2;
    Pow2Step(i);
    DivTwice(a, Pow2(i - 1));
  }

  lemma DivTwice(a: nat, p: nat)
    requires p > 0
    ensures a / (2 * p) == (a / 2) / p
  {
    ModDouble(a, p);
    var q, r := (a / 2) / p, (a / 2) % p;
    assert a == 2 * p * q + (a % 2 + 2 * r) by { assert a / 2 == p * q + r; }
    DivModUnique(a, 2 * p, q, a % 2 + 2 * r);
  }

  /** The sign bit of a bitwise operation is the operation on the sign bits. */
  lemma {:induction false} TopBit(op: Op, w: nat, a: nat, b: nat)
    requires w > 0 && a < Pow2(w) && b < Pow2(w)
    ensures Shr(a, w - 1) < 2 && Shr(b, w - 1) < 2
    ensures Shr(Bitwise(op, w, a, b), w - 1) == OnBit(op, Shr(a, w - 1), Shr(b, w - 1))
  {
    hide Bitwise, Pow2, Shr, OnBit;
    Pow2Step(w);
    if w == 1 {
      OneBit(op, a, b);
    } else {
      BitwiseHalf(op, w, a, b);
      TopBit(op, w - 1, a / 2, b / 2);
      ShrStep(a, w - 1); ShrStep(b, w - 1);
      ShrStep(Bitwise(op, w, a, b), w - 1);
    }
  }

  lemma OneBit(op: Op, a: nat, b: nat)
    requires a < Pow2(1) && b < Pow2(1)
    ensures a < 2 && b < 2 && Bitwise(op, 1, a, b) == OnBit(op, a, b)
    ensures Shr(a, 0) == a && Shr(b, 0) == b && Shr(OnBit(op, a, b), 0) == OnBit(op, a, b)
  {
    hide OnBit;
    assert Pow2(1) == 2 * Pow2(0);
    assert a % 2 == a && b % 2 == b;
    assert Bitwise(op, 0, a / 2, b / 2) == 0;
  }

  /** A bitwise operation works on the low m bits and on the rest separately. */
  lemma {:induction false} BitwiseSplit(op: Op, m: nat, n: nat, a: nat, b: nat, a0: nat, a1: nat, b0: nat, b1: nat)
    requires a0 < Pow2(m) && b0 < Pow2(m)
    requires a == a0 + Pow2(m) * a1 && b == b0 + Pow2(m) * b1
    ensures Bitwise(op, m + n, a, b) == Bitwise(op, m, a0, b0) + Pow2(m) * Bitwise(op, n, a1, b1)
  {
    hide Bitwise, Pow2, OnBit;
    if m == 0 {
      SplitNothing(op, n, a, b, a0, a1, b0, b1);
    } else {
      var p := Pow2(m - 1);
      Pow2Step(m);
      EvenOffset(a, a0, p, a1); EvenOffset(b, b0, p, b1);
      BitwiseStep(op, m + n, a, b);
      BitwiseStep(op, m, a0, b0);
      BitwiseSplit(op, m - 1, n, a / 2, b / 2, a0 / 2, a1, b0 / 2, b1);
      DoubleProduct(p, Bitwise(op, n, a1, b1));
    }
  }

  lemma SplitNothing(op: Op, n: nat, a: nat, b: nat, a0: nat, a1: nat, b0: nat, b1: nat)
    requires a0 < Pow2(0) && b0 < Pow2(0)
    requires a == a0 + Pow2(0) * a1 && b == b0 + Pow2(0) * b1
    ensures Bitwise(op, 0 + n, a, b) == Bitwise(op, 0, a0, b0) + Pow2(0) * Bitwise(op, n, a1, b1)
  {
    assert a == a1 && b == b1;
  }

  lemma DoubleProduct(p: nat, x: nat)
    ensures (2 * p) * x == 2 * (p * x)
  {}

  lemma EvenOffset(a: nat, a0: nat, p: nat, a1: nat)
    requires a == a0 + (2 * p) * a1
    ensures a % 2 == a0 % 2 && a / 2 == a0 / 2 + p * a1
  {
    DoubleProduct(p, a1);
  }

  lemma {:induction false} OrSelf(w: nat, a: nat)
    requires a < Pow2(w)
    ensures Or(w, a, a) == a
  {
    if w > 0 { OrSelf(w - 1, a / 2); }
  }
}
