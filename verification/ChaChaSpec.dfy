/** The ChaCha20 stream cipher on values (RFC 8439, sections 2.1 to 2.4). */
module ChaChaSpec {
  import opened Bytes

  type State = st: seq<Word> | |st| == 16 witness seq(16, _ => 0)

  type Index = i: int | 0 <= i < 16

  // ---- section 2.1: the quarter round ----

  // the word operations: addition modulo 2^32, exclusive or, left rotation

  function Sum(x: Word, y: Word): Word { x + y }
  function Rotl16(x: Word): Word { (x << 16) | (x >> 16) }
  function Rotl12(x: Word): Word { (x << 12) | (x >> 20) }
  function Rotl8(x: Word): Word { (x << 8) | (x >> 24) }
  function Rotl7(x: Word): Word { (x << 7) | (x >> 25) }

  // and those that undo them

  function Difference(x: Word, y: Word): Word { x - y }
  function Rotr12(x: Word): Word { (x >> 12) | (x << 20) }
  function Rotr8(x: Word): Word { (x >> 8) | (x << 24) }
  function Rotr7(x: Word): Word { (x >> 7) | (x << 25) }

  lemma RotationsUndone(x: Word)
    ensures Rotl16(Rotl16(x)) == x
    ensures Rotr12(Rotl12(x)) == x == Rotl12(Rotr12(x))
    ensures Rotr8(Rotl8(x)) == x == Rotl8(Rotr8(x))
    ensures Rotr7(Rotl7(x)) == x == Rotl7(Rotr7(x))
  {}

  lemma XorUndone(x: Word, y: Word)
    ensures Xor(Xor(x, y), y) == x
  {}

  /** What one line of the quarter round does is undone in the opposite order. */
  lemma StepUndone(x: Word, y: Word)
    ensures Difference(Sum(x, y), y) == x == Sum(Difference(x, y), y)
    ensures Xor(Rotl16(Rotl16(Xor(x, y))), y) == x == Rotl16(Xor(Xor(Rotl16(x), y), y))
    ensures Xor(Rotr12(Rotl12(Xor(x, y))), y) == x == Rotl12(Xor(Xor(Rotr12(x), y), y))
    ensures Xor(Rotr8(Rotl8(Xor(x, y))), y) == x == Rotl8(Xor(Xor(Rotr8(x), y), y))
    ensures Xor(Rotr7(Rotl7(Xor(x, y))), y) == x == Rotl7(Xor(Xor(Rotr7(x), y), y))
  {
    hide *;
    SumUndone(x, y); DifferenceUndone(x, y);
    RotationsUndone(Xor(x, y)); XorUndone(x, y);
    RotationsUndone(x);
    XorUndone(Rotl16(x), y); XorUndone(Rotr12(x), y); XorUndone(Rotr8(x), y); XorUndone(Rotr7(x), y);
  }

  lemma SumUndone(x: Word, y: Word)
    ensures Difference(Sum(x, y), y) == x
  {
    hide Difference;
    assert Difference(x + y, y) == x by { DifferenceOfSum(x, y); }
  }

  lemma DifferenceOfSum(x: Word, y: Word)
    ensures Difference(x + y, y) == x
  {}

  lemma DifferenceUndone(x: Word, y: Word)
    ensures Sum(Difference(x, y), y) == x
  {
    hide Sum;
    assert Sum(x - y, y) == x by { SumOfDifference(x, y); }
  }

  lemma SumOfDifference(x: Word, y: Word)
    ensures Sum(x - y, y) == x
  {}

  lemma SumAssociative(x: Word, y: Word, z: Word)
    ensures Sum(Sum(x, y), z) == Sum(x, Sum(y, z))
  {
    hide Sum;
    assert Sum(x, y) == x + y && Sum(y, z) == y + z by { SumIs(x, y); SumIs(y, z); }
    assert Sum(x + y, z) == Sum(x, y + z) by { SumFlattened(x, y, z); }
  }

  lemma SumIs(x: Word, y: Word)
    ensures Sum(x, y) == x + y
  {}

  lemma SumFlattened(x: Word, y: Word, z: Word)
    ensures Sum(x + y, z) == Sum(x, y + z)
  {}

  function Quarter(a0: Word, b0: Word, c0: Word, d0: Word): (Word, Word, Word, Word)
  {
    var a1 := Sum(a0, b0); var d1 := Rotl16(Xor(d0, a1));
    var c1 := Sum(c0, d1); var b1 := Rotl12(Xor(b0, c1));
    var a2 := Sum(a1, b1); var d2 := Rotl8(Xor(d1, a2));
    var c2 := Sum(c1, d2); var b2 := Rotl7(Xor(b1, c2));
    (a2, b2, c2, d2)
  }

  /** The same steps backwards. */
  function Unquarter(a2: Word, b2: Word, c2: Word, d2: Word): (Word, Word, Word, Word)
  {
    var b1 := Xor(Rotr7(b2), c2);  var c1 := Difference(c2, d2);
    var d1 := Xor(Rotr8(d2), a2);  var a1 := Difference(a2, b1);
    var b0 := Xor(Rotr12(b1), c1); var c0 := Difference(c1, d1);
    var d0 := Xor(Rotl16(d1), a1); var a0 := Difference(a1, b0);
    (a0, b0, c0, d0)
  }

  lemma UnquarterQuarter(a0: Word, b0: Word, c0: Word, d0: Word)
    ensures var q := Quarter(a0, b0, c0, d0); Unquarter(q.0, q.1, q.2, q.3) == (a0, b0, c0, d0)
  {
    hide Sum, Xor, Difference, Rotl16, Rotl12, Rotl8, Rotl7, Rotr12, Rotr8, Rotr7;
    var a1 := Sum(a0, b0); var d1 := Rotl16(Xor(d0, a1));
    var c1 := Sum(c0, d1); var b1 := Rotl12(Xor(b0, c1));
    var a2 := Sum(a1, b1); var d2 := Rotl8(Xor(d1, a2));
    var c2 := Sum(c1, d2);
    StepUndone(b1, c2); StepUndone(c1, d2); StepUndone(d1, a2); StepUndone(a1, b1);
    StepUndone(b0, c1); StepUndone(c0, d1); StepUndone(d0, a1); StepUndone(a0, b0);
  }

  lemma QuarterUnquarter(a2: Word, b2: Word, c2: Word, d2: Word)
    ensures var q := Unquarter(a2, b2, c2, d2); Quarter(q.0, q.1, q.2, q.3) == (a2, b2, c2, d2)
  {
    hide Sum, Xor, Difference, Rotl16, Rotl12, Rotl8, Rotl7, Rotr12, Rotr8, Rotr7;
    var b1 := Xor(Rotr7(b2), c2);  var c1 := Difference(c2, d2);
    var d1 := Xor(Rotr8(d2), a2);  var a1 := Difference(a2, b1);
    var b0 := Xor(Rotr12(b1), c1);
    StepUndone(b2, c2); StepUndone(c2, d2); StepUndone(d2, a2); StepUndone(a2, b1);
    StepUndone(b1, c1); StepUndone(c1, d1); StepUndone(d1, a1); StepUndone(a1, b0);
  }

  /** The test vector of section 2.1.1. */
  lemma QuarterVector()
    ensures Quarter(0x11111111, 0x01020304, 0x9b8d6f43, 0x01234567)
         == (0xea2a92f4, 0xcb1cf8ce, 0x4581472e, 0x5881c4bb)
  {}

  // ---- section 2.2: a quarter round on four words of the state ----

  predicate Distinct(x: Index, y: Index, z: Index, w: Index)
  {
    x != y && x != z && x != w && y != z && y != w && z != w
  }

  function QuarterRound(st: State, x: Index, y: Index, z: Index, w: Index): State
  {
    Put(st, x, y, z, w, Quarter(st[x], st[y], st[z], st[w]))
  }

  function UnquarterRound(st: State, x: Index, y: Index, z: Index, w: Index): State
  {
    Put(st, x, y, z, w, Unquarter(st[x], st[y], st[z], st[w]))
  }

  /** A quarter round is undone, from either side, and leaves the other twelve words alone. */
  lemma QuarterRoundInverse(st: State, x: Index, y: Index, z: Index, w: Index)
    requires Distinct(x, y, z, w)
    ensures UnquarterRound(QuarterRound(st, x, y, z, w), x, y, z, w) == st
    ensures QuarterRound(UnquarterRound(st, x, y, z, w), x, y, z, w) == st
    ensures forall i: Index :: i != x && i != y && i != z && i != w ==> QuarterRound(st, x, y, z, w)[i] == st[i]
  {
    hide Quarter, Unquarter, Put;
    var q, u := Quarter(st[x], st[y], st[z], st[w]), Unquarter(st[x], st[y], st[z], st[w]);
    UnquarterQuarter(st[x], st[y], st[z], st[w]);
    QuarterUnquarter(st[x], st[y], st[z], st[w]);
    PutTwice(st, x, y, z, w, q);
    PutTwice(st, x, y, z, w, u);
  }

  function Put(st: State, x: Index, y: Index, z: Index, w: Index, q: (Word, Word, Word, Word)): State
  {
    st[x := q.0][y := q.1][z := q.2][w := q.3]
  }

  /** What is put into four words can be read there, and replaced by what was there before. */
  lemma PutTwice(st: State, x: Index, y: Index, z: Index, w: Index, q: (Word, Word, Word, Word))
    requires Distinct(x, y, z, w)
    ensures var st' := Put(st, x, y, z, w, q);
            && st'[x] == q.0 && st'[y] == q.1 && st'[z] == q.2 && st'[w] == q.3
            && Put(st', x, y, z, w, (st[x], st[y], st[z], st[w])) == st
            && forall i: Index :: i != x && i != y && i != z && i != w ==> st'[i] == st[i]
  {}

  // ---- section 2.3: the block function ----

  /** Four column rounds and four diagonal rounds. */
  function DoubleRound(st: State): State
  {
    var st := QuarterRound(st, 0, 4, 8, 12);
    var st := QuarterRound(st, 1, 5, 9, 13);
    var st := QuarterRound(st, 2, 6, 10, 14);
    var st := QuarterRound(st, 3, 7, 11, 15);
    var st := QuarterRound(st, 0, 5, 10, 15);
    var st := QuarterRound(st, 1, 6, 11, 12);
    var st := QuarterRound(st, 2, 7, 8, 13);
    QuarterRound(st, 3, 4, 9, 14)
  }

  function UndoubleRound(st: State): State
  {
    var st := UnquarterRound(st, 3, 4, 9, 14);
    var st := UnquarterRound(st, 2, 7, 8, 13);
    var st := UnquarterRound(st, 1, 6, 11, 12);
    var st := UnquarterRound(st, 0, 5, 10, 15);
    var st := UnquarterRound(st, 3, 7, 11, 15);
    var st := UnquarterRound(st, 2, 6, 10, 14);
    var st := UnquarterRound(st, 1, 5, 9, 13);
    UnquarterRound(st, 0, 4, 8, 12)
  }

  lemma DoubleRoundInverse(st: State)
    ensures UndoubleRound(DoubleRound(st)) == st == DoubleRound(UndoubleRound(st))
  {
    hide QuarterRound, UnquarterRound;
    var s1 := QuarterRound(st, 0, 4, 8, 12);
    var s2 := QuarterRound(s1, 1, 5, 9, 13);
    var s3 := QuarterRound(s2, 2, 6, 10, 14);
    var s4 := QuarterRound(s3, 3, 7, 11, 15);
    var s5 := QuarterRound(s4, 0, 5, 10, 15);
    var s6 := QuarterRound(s5, 1, 6, 11, 12);
    var s7 := QuarterRound(s6, 2, 7, 8, 13);
    QuarterRoundInverse(st, 0, 4, 8, 12); QuarterRoundInverse(s1, 1, 5, 9, 13);
    QuarterRoundInverse(s2, 2, 6, 10, 14); QuarterRoundInverse(s3, 3, 7, 11, 15);
    QuarterRoundInverse(s4, 0, 5, 10, 15); QuarterRoundInverse(s5, 1, 6, 11, 12);
    QuarterRoundInverse(s6, 2, 7, 8, 13); QuarterRoundInverse(s7, 3, 4, 9, 14);
    var t1 := UnquarterRound(st, 3, 4, 9, 14);
    var t2 := UnquarterRound(t1, 2, 7, 8, 13);
    var t3 := UnquarterRound(t2, 1, 6, 11, 12);
    var t4 := UnquarterRound(t3, 0, 5, 10, 15);
    var t5 := UnquarterRound(t4, 3, 7, 11, 15);
    var t6 := UnquarterRound(t5, 2, 6, 10, 14);
    var t7 := UnquarterRound(t6, 1, 5, 9, 13);
    QuarterRoundInverse(st, 3, 4, 9, 14); QuarterRoundInverse(t1, 2, 7, 8, 13);
    QuarterRoundInverse(t2, 1, 6, 11, 12); QuarterRoundInverse(t3, 0, 5, 10, 15);
    QuarterRoundInverse(t4, 3, 7, 11, 15); QuarterRoundInverse(t5, 2, 6, 10, 14);
    QuarterRoundInverse(t6, 1, 5, 9, 13); QuarterRoundInverse(t7, 0, 4, 8, 12);
  }

  function Rounds(st: State, n: nat): State
  {
    if n == 0 then st else DoubleRound(Rounds(st, n - 1))
  }

  function Unrounds(st: State, n: nat): State
    decreases n
  {
    if n == 0 then st else Unrounds(UndoubleRound(st), n - 1)
  }

  /** Any number of double rounds is a bijection on states. */
  lemma {:induction false} RoundsInverse(st: State, n: nat)
    ensures Unrounds(Rounds(st, n), n) == st == Rounds(Unrounds(st, n), n)
    decreases n
  {
    hide DoubleRound, UndoubleRound;
    if n > 0 {
      DoubleRoundInverse(Rounds(st, n - 1));
      RoundsInverse(st, n - 1);
      DoubleRoundInverse(st);
      RoundsInverse(UndoubleRound(st), n - 1);
    }
  }

  /** Twenty rounds, then the initial state added word by word. */
  function Block(initial: State): State
  {
    var mixed := Rounds(initial, 10);
    seq(16, i requires 0 <= i < 16 => Sum(mixed[i], initial[i]))
  }

  /** Taking the initial state away again and undoing the rounds gives it back. */
  lemma BlockUndone(initial: State)
    ensures Unrounds(seq(16, i requires 0 <= i < 16 => Difference(Block(initial)[i], initial[i])), 10) == initial
  {
    hide Rounds, Unrounds, Sum, Difference;
    var mixed := Rounds(initial, 10);
    RoundsInverse(initial, 10);
    forall i | 0 <= i < 16 ensures Difference(Block(initial)[i], initial[i]) == mixed[i] {
      SumUndone(mixed[i], initial[i]);
    }
    assert seq(16, i requires 0 <= i < 16 => Difference(Block(initial)[i], initial[i])) == mixed;
  }

  /** Constants, key, counter and nonce. */
  function Initial(key: seq<Byte>, counter: Word, nonce: seq<Byte>): State
    requires |key| == 32 && |nonce| == 12
  {
    [0x61707865, 0x3320646e, 0x79622d32, 0x6b206574]
    + seq(8, i requires 0 <= i < 8 => WordAt(key, 4 * i))
    + [counter]
    + seq(3, i requires 0 <= i < 3 => WordAt(nonce, 4 * i))
  }

  /** Where the constants, the key, the counter and the nonce are. */
  lemma InitialAt(key: seq<Byte>, counter: Word, nonce: seq<Byte>)
    requires |key| == 32 && |nonce| == 12
    ensures var s := Initial(key, counter, nonce);
            && s[..4] == [0x61707865, 0x3320646e, 0x79622d32, 0x6b206574] && s[12] == counter
            && (forall j :: 4 <= j < 12 ==> s[j] == WordAt(key, 4 * (j - 4)))
            && (forall j :: 13 <= j < 16 ==> s[j] == WordAt(nonce, 4 * (j - 13)))
  {
    hide ToWord;
  }

  // ---- section 2.4: the cipher ----

  function BlockByte(initial: State, j: nat): Byte
    requires j < 64
  {
    ByteOf(Block(initial)[j / 4], j % 4)
  }

  /** A number modulo 2^32: counting up from 0. */
  function OfNat(n: nat): Word
  {
    if n == 0 then 0 else Sum(OfNat(n - 1), 1)
  }

  /** Counters add up as numbers do, from 0 and 1 on. */
  lemma {:induction false} Counting(m: nat, n: nat)
    ensures OfNat(0) == 0 && OfNat(1) == 1 && Sum(OfNat(m), OfNat(n)) == OfNat(m + n)
    decreases n
  {
    hide Sum;
    SumZero(OfNat(m));
    SumZero(1);
    if n > 0 {
      Counting(m, n - 1);
      SumAssociative(OfNat(m), OfNat(n - 1), 1);
    }
  }

  lemma SumZero(x: Word)
    ensures Sum(x, 0) == x == Sum(0, x)
  {}

  /** The state whose block counter is offset more, modulo 2^32. */
  function AtCounter(ctx: State, offset: Word): State
  {
    ctx[12 := Sum(ctx[12], offset)]
  }

  /** Seeking: the state at another counter is the initial state for that counter. */
  lemma Seek(key: seq<Byte>, counter: Word, nonce: seq<Byte>, offset: Word)
    requires |key| == 32 && |nonce| == 12
    ensures AtCounter(Initial(key, counter, nonce), offset) == Initial(key, Sum(counter, offset), nonce)
  {
    hide ToWord, Sum;
  }

  /** Byte j of the key stream comes from the block whose counter is the initial one plus j / 64. */
  function KeyStreamByte(ctx: State, j: nat): Byte
    requires j / 64 < 0x1_0000_0000
  {
    BlockByte(AtCounter(ctx, OfNat(j / 64)), j % 64)
  }

  function XorStream(ctx: State, text: seq<Byte>): (r: seq<Byte>)
    requires |text| < 0x1_0000_0000
    ensures |r| == |text|
  {
    seq(|text|, j requires 0 <= j < |text| => XorByte(text[j], KeyStreamByte(ctx, j)))
  }

  /** At most one block of text xor the start of a block. */
  function XorBlock(initial: State, text: seq<Byte>): (r: seq<Byte>)
    requires |text| <= 64
    ensures |r| == |text|
  {
    seq(|text|, j requires 0 <= j < |text| => XorByte(text[j], BlockByte(initial, j)))
  }

  lemma StreamOfNothing(ctx: State)
    ensures XorStream(ctx, []) == []
  {}

  lemma XorBlockPrefix(initial: State, text: seq<Byte>, n: nat)
    requires n <= |text| <= 64
    ensures XorBlock(initial, text)[..n] == XorBlock(initial, text[..n])
  {
    hide XorByte, BlockByte;
  }

  /** The stream is made block by block: after i whole blocks comes the block with counter offset i. */
  lemma StreamAppend(ctx: State, done: seq<Byte>, next: seq<Byte>, i: nat)
    requires |done| == 64 * i && |next| <= 64 && |done + next| < 0x1_0000_0000
    ensures XorStream(ctx, done + next) == XorStream(ctx, done) + XorBlock(AtCounter(ctx, OfNat(i)), next)
  {
    hide XorByte, BlockByte, AtCounter, OfNat;
    forall j | |done| <= j < |done + next|
      ensures XorStream(ctx, done + next)[j] == XorBlock(AtCounter(ctx, OfNat(i)), next)[j - |done|]
    {
      assert j / 64 == i && j % 64 == j - 64 * i;
    }
  }

  /** Byte j of the text is xored with byte j % 64 of the block whose counter is j / 64 more. */
  lemma StreamAt(key: seq<Byte>, counter: Word, nonce: seq<Byte>, text: seq<Byte>, j: nat)
    requires |key| == 32 && |nonce| == 12 && j < |text| < 0x1_0000_0000
    ensures XorStream(Initial(key, counter, nonce), text)[j]
         == text[j] ^ ByteOf(Block(Initial(key, Sum(counter, OfNat(j / 64)), nonce))[j % 64 / 4], j % 4)
  {
    hide Initial, Sum, OfNat, Block, ByteOf, AtCounter, XorByte;
    Seek(key, counter, nonce, OfNat(j / 64));
    XorByteIs(text[j], KeyStreamByte(Initial(key, counter, nonce), j));
    assert j % 64 % 4 == j % 4;
  }

  lemma XorByteIs(x: Byte, y: Byte)
    ensures XorByte(x, y) == x ^ y
  {}

  /** Applying the key stream twice gives the text back. */
  lemma StreamInvolution(ctx: State, text: seq<Byte>)
    requires |text| < 0x1_0000_0000
    ensures XorStream(ctx, XorStream(ctx, text)) == text
  {
    hide XorByte, KeyStreamByte;
    forall j | 0 <= j < |text| ensures XorStream(ctx, XorStream(ctx, text))[j] == text[j] {
      XorTwice(text[j], KeyStreamByte(ctx, j));
    }
  }

  lemma XorTwice(x: Byte, y: Byte)
    ensures XorByte(XorByte(x, y), y) == x
  {}
}
