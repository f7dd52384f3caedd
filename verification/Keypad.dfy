/** keypad-linear.s: a PIN buffer filled on rising key edges, with the branches eliminated. */
module Keypad {
  import opened Rv32
  import Bits

  type Byte = x: int | 0 <= x < 0x100
  type Keys = x: int | 0 <= x < 0x1_0000

  // ---- the .sbss section: byte offsets of the variables ----

  const PIN := 0
  const PIN_IDX := 4
  const KEY_STATE := 8
  const COUNT := 12

  type Memory = m: seq<Byte> | |m| == 16 witness seq(16, _ => 0)

  function LoadWord(m: Memory, at: nat): Word
    requires at + 4 <= 16
  {
    m[at] + 0x100 * m[at + 1] as int + 0x1_0000 * m[at + 2] as int + 0x100_0000 * m[at + 3] as int
  }

  function LoadHalf(m: Memory, at: nat): Keys
    requires at + 2 <= 16
  {
    m[at] + 0x100 * m[at + 1] as int
  }

  function StoreWord(m: Memory, at: nat, x: Word): Memory
    requires at + 4 <= 16
  {
    m[at := x % 0x100][at + 1 := x / 0x100 % 0x100][at + 2 := x / 0x1_0000 % 0x100][at + 3 := x / 0x100_0000]
  }

  function StoreHalf(m: Memory, at: nat, x: Keys): Memory
    requires at + 2 <= 16
  {
    m[at := x % 0x100][at + 1 := x / 0x100]
  }

  lemma WordRoundTrip(m: Memory, at: nat, x: Word)
    requires at + 4 <= 16
    ensures LoadWord(StoreWord(m, at, x), at) == x
  {
    WordDigits(x);
  }

  lemma WordDigits(x: Word)
    ensures x == x % 0x100 + 0x100 * (x as int / 0x100 % 0x100) + 0x1_0000 * (x as int / 0x1_0000 % 0x100)
                 + 0x100_0000 * (x as int / 0x100_0000)
  {
    var y: int := x / 0x100;
    assert y / 0x100 == x / 0x1_0000 && y / 0x1_0000 == x / 0x100_0000;
  }

  lemma WordIdentity(m: Memory, at: nat)
    requires at + 4 <= 16
    ensures StoreWord(m, at, LoadWord(m, at)) == m
  {
    ByteDigits(m[at], m[at + 1], m[at + 2], m[at + 3]);
  }

  lemma ByteDigits(b0: Byte, b1: Byte, b2: Byte, b3: Byte)
    ensures var x: int := b0 + 0x100 * b1 as int + 0x1_0000 * b2 as int + 0x100_0000 * b3 as int;
            x % 0x100 == b0 && x / 0x100 % 0x100 == b1 && x / 0x1_0000 % 0x100 == b2 && x / 0x100_0000 == b3
  {
    var x: int := b0 + 0x100 * b1 as int + 0x1_0000 * b2 as int + 0x100_0000 * b3 as int;
    assert x / 0x100 == b1 + 0x100 * b2 as int + 0x1_0000 * b3 as int;
    assert x / 0x1_0000 == b2 + 0x100 * b3 as int;
  }

  /** The low byte of each word of the key map: the characters 1470258F369EABCD. */
  const KEYMAP: seq<Byte> := [49, 52, 55, 48, 50, 53, 56, 70, 51, 54, 57, 69, 65, 66, 67, 68]

  /** The keys held down at each of the polls 1 to 10, as a bit set. */
  const SAMPLES: seq<Keys> := [1, 1, 0, 2, 0, 4, 0, 8, 0, 16]

  // ---- what a poll does ----

  predicate Down(keys: Keys, i: nat) { Bits.Shr(keys, i) % 2 == 1 }

  /** The characters of the keys newly pressed among the first n, in bit order. */
  function Pressed(before: Keys, now: Keys, n: nat): seq<Byte>
    requires n <= 16
  {
    if n == 0 then []
    else if Down(now, n - 1) && !Down(before, n - 1) then Pressed(before, now, n - 1) + [KEYMAP[n - 1]]
    else Pressed(before, now, n - 1)
  }

  /** All key presses of a run of polls from a state with no key down. */
  function Presses(polls: seq<Keys>): seq<Byte>
  {
    if polls == [] then []
    else Presses(polls[..|polls| - 1]) + Pressed(Last(polls[..|polls| - 1]), polls[|polls| - 1], 16)
  }

  function Last(polls: seq<Keys>): Keys { if polls == [] then 0 else polls[|polls| - 1] }

  /** The keys newly pressed, lowest bit first. */
  ghost predicate NewKeys(before: Keys, now: Keys, n: nat, keys: seq<nat>)
  {
    && (forall i: nat :: i in keys <==> i < n && Down(now, i) && !Down(before, i))
    && (forall j, k :: 0 <= j < k < |keys| ==> keys[j] < keys[k])
  }

  /** What is pressed are the characters of the new keys, in that order. */
  lemma {:induction false} PressedAre(before: Keys, now: Keys, n: nat) returns (keys: seq<nat>)
    requires n <= 16
    ensures NewKeys(before, now, n, keys)
    ensures |Pressed(before, now, n)| == |keys|
    ensures forall j :: 0 <= j < |keys| ==> keys[j] < 16 && Pressed(before, now, n)[j] == KEYMAP[keys[j]]
  {
    hide Down, NewKeys;
    if n == 0 {
      keys := [];
      NoKeys(before, now);
    } else {
      keys := PressedAre(before, now, n - 1);
      NewKeysGrow(before, now, n, keys);
      if Down(now, n - 1) && !Down(before, n - 1) { keys := keys + [n - 1]; }
    }
  }

  lemma NoKeys(before: Keys, now: Keys)
    ensures NewKeys(before, now, 0, [])
  {}

  lemma NewKeysGrow(before: Keys, now: Keys, n: nat, keys: seq<nat>)
    requires n > 0 && NewKeys(before, now, n - 1, keys)
    ensures NewKeys(before, now, n, if Down(now, n - 1) && !Down(before, n - 1) then keys + [n - 1] else keys)
  {
    hide Down;
    forall j | 0 <= j < |keys| ensures keys[j] < n - 1 {
      assert keys[j] in keys;
    }
  }

  /** A key is down when its bit is part of the number. */
  lemma DownBit(keys: Keys, i: nat, high: nat, low: nat, bit: nat)
    requires low < Bits.Pow2(i) && bit < 2 && keys == (2 * high + bit) * Bits.Pow2(i) + low
    ensures Down(keys, i) <==> bit == 1
  {
    Bits.DivModUnique(keys, Bits.Pow2(i), 2 * high + bit, low);
  }

  /** Key b alone. */
  lemma DownPower(b: nat, i: nat)
    requires b < 16 && i < 16
    ensures Bits.Pow2(b) < 0x1_0000 && (Down(Bits.Pow2(b), i) <==> i == b) && !Down(0, i)
  {
    hide Bits.Pow2, Down;
    Bits.Pow2Values();
    PowBelow(b, 16);
    DownBit(0, i, 0, 0, 0);
    if i < b {
      var h := b - i - 1;
      Bits.Pow2Add(h + 1, i);
      Bits.Pow2Step(h + 1);
      DownBit(Bits.Pow2(b), i, Bits.Pow2(h), 0, 0);
    } else if i == b {
      DownBit(Bits.Pow2(b), i, 0, 0, 1);
    } else {
      PowBelow(b, i);
      DownBit(Bits.Pow2(b), i, 0, Bits.Pow2(b), 0);
    }
  }

  lemma KeyMapIs(i: nat)
    requires i < 16
    ensures KEYMAP[i] as char == "1470258F369EABCD"[i]
  {}

  /** The first four of the presses are in the PIN buffer and pin_idx counts them. */
  ghost predicate Holds(m: Memory, presses: seq<Byte>)
  {
    var idx := LoadWord(m, PIN_IDX);
    idx == (if |presses| < 4 then |presses| else 4) && m[PIN..PIN + idx] == presses[..idx]
  }

  // ---- the program ----

  method Sw(mem: array<Byte>, at: nat, x: Word)
    requires mem.Length == 16 && at + 4 <= 16
    modifies mem
    ensures mem[..] == StoreWord(old(mem[..]), at, x)
  {
    mem[at], mem[at + 1] := x % 0x100, x / 0x100 % 0x100;
    mem[at + 2], mem[at + 3] := x / 0x1_0000 % 0x100, x / 0x100_0000;
  }

  method Sh(mem: array<Byte>, at: nat, x: Keys)
    requires mem.Length == 16 && at + 2 <= 16
    modifies mem
    ensures mem[..] == StoreHalf(old(mem[..]), at, x)
  {
    mem[at], mem[at + 1] := x % 0x100, x / 0x100;
  }

  /** lb */
  function SignExtend(b: Byte): Word { if b < 0x80 then b else b + 0xffff_ff00 }

  /** keypad_init */
  method Init(mem: array<Byte>)
    requires mem.Length == 16
    modifies mem
    ensures LoadWord(mem[..], COUNT) == 0 && LoadHalf(mem[..], KEY_STATE) == 0 && LoadWord(mem[..], PIN_IDX) == 0
    ensures mem[..4] == old(mem[..4])
  {
    Sw(mem, COUNT, 0);
    Sh(mem, KEY_STATE, 0);
    Sw(mem, PIN_IDX, 0);
  }

  /** The key goes into the buffer: its bit is set, was not before, and there is room. */
  predicate Accepts(m: Memory, keys: Keys, i: nat)
  {
    Down(keys, i) && !Down(LoadHalf(m, KEY_STATE), i) && LoadWord(m, PIN_IDX) <= 3
  }

  function Accept(m: Memory, c: Byte): Memory
    requires LoadWord(m, PIN_IDX) <= 3
  {
    var idx := LoadWord(m, PIN_IDX);
    StoreWord(m, PIN_IDX, idx + 1)[PIN + idx := c]
  }

  lemma BitTest(keys: Keys, i: nat)
    requires i < 16
    ensures Bits.Pow2(i) < 0x1_0000
    ensures And(keys, Bits.Pow2(i)) != 0 <==> Down(keys, i)
  {
    hide Bits.Bitwise, Bits.Pow2, Bits.Shr;
    Bits.Pow2Values();
    PowBelow(i, 16);
    Bits.AndBit(32, keys, i);
    TimesBit(Bits.Pow2(i), Bits.Shr(keys, i) % 2);
  }

  lemma TimesBit(p: nat, b: nat)
    requires p > 0 && b < 2
    ensures p * b != 0 <==> b == 1
  {
    assert b == 0 || b == 1;
  }

  lemma {:induction false} PowBelow(i: nat, n: nat)
    requires i < n
    ensures Bits.Pow2(i) < Bits.Pow2(n)
    decreases n
  {
    if i + 1 < n { PowBelow(i, n - 1); }
  }

  /** The three eliminated branches as one mask: all ones when any of them is taken. */
  lemma SkipMask(p: Word, q: Word, idx: Word)
    requires idx <= 4
    ensures var skip := Or(Or(Seqz(p), Snez(q)), Slt(3, idx));
            Neg(And(skip, 0xff)) == if p == 0 || q != 0 || idx > 3 then 0xffff_ffff else 0
  {
    hide And, Or;
    OrFlags(Seqz(p), Snez(q));
    OrFlags(Or(Seqz(p), Snez(q)), Slt(3, idx));
    MaskOfFlag(Or(Or(Seqz(p), Snez(q)), Slt(3, idx)));
  }

  lemma OrFlags(x: Word, y: Word)
    requires x < 2 && y < 2
    ensures Or(x, y) == if x == 1 || y == 1 then 1 else 0
  {
    hide And, Or;
    Masked(x);
    Masked(y);
    if x == 1 && y == 1 { OrOnes(); }
    OrZeroLeft(y);
  }

  lemma OrZeroLeft(y: Word)
    ensures Or(0, y) == y
  {
    hide Bits.Bitwise;
    Bits.Pow2Values();
    Bits.Zero(32, y);
  }

  lemma OrOnes()
    ensures Or(1, 1) == 1
  {
    hide Bits.Bitwise, Bits.Pow2;
    Bits.Pow2Values();
    Bits.OrSelf(32, 1);
  }

  /** One iteration of the loop, lines 42-80, for bit i.  When the key is not accepted, both
      stores put back what was there, also with pin_idx == 4, where the byte after the buffer
      is the low byte of pin_idx itself. */
  method KeyBit(mem: array<Byte>, a0: Keys, ghost i: nat, a5: Word, mapped: Byte)
    requires mem.Length == 16 && i < 16 && a5 == Bits.Pow2(i) && LoadWord(mem[..], PIN_IDX) <= 4
    modifies mem
    ensures mem[..] == if Accepts(old(mem[..]), a0, i) then Accept(old(mem[..]), mapped) else old(mem[..])
  {
    hide And, Or, Neg, Slt, Seqz, Snez, LoadWord, StoreWord, LoadHalf, Bits.Shr, Bits.Pow2;
    ghost var m := mem[..];
    var a3: Word := LoadHalf(mem[..], KEY_STATE);
    BitTest(a0, i); BitTest(a3, i);
    var a4 := And(a0, a5);
    a3 := And(a3, a5);
    var t0 := LoadWord(mem[..], PIN_IDX);
    SkipMask(a4, a3, t0);
    a4 := Seqz(a4);
    a3 := Snez(a3);
    var t2 := Slt(3, t0);
    a4 := Or(a4, a3);
    a4 := Or(a4, t2);
    a4 := And(a4, 0xff);
    a4 := Neg(a4);
    a3 := Not(a4);
    var at := PIN + t0;
    var t3 := LoadWord(mem[..], PIN_IDX);
    var t6 := SignExtend(mem[at]);
    Select(a4, t3, t0 + 1);
    var t4 := And(t3, a4);
    t3 := Add(t0, 1);
    t3 := And(t3, a3);
    t3 := Or(t3, t4);
    Select(a4, t6, mapped);
    t4 := And(t6, a4);
    t6 := mapped;
    t6 := And(t6, a3);
    t6 := Or(t6, t4);
    Sw(mem, PIN_IDX, t3);
    mem[at] := t6 % 0x100;
    WordIdentity(m, PIN_IDX);
  }

  lemma ShiftBit(i: nat)
    requires i < 16
    ensures Bits.Pow2(i) < 0x1_0000 && Sll(Bits.Pow2(i), 1) == Bits.Pow2(i + 1)
  {
    Bits.Pow2Values();
    PowBelow(i, 16);
    assert Bits.Pow2(1) == 2;
  }

  /** What one iteration means for the buffer. */
  lemma KeyBitHolds(m: Memory, presses: seq<Byte>, keys: Keys, i: nat)
    requires i < 16 && Holds(m, presses)
    ensures LoadWord(m, PIN_IDX) <= 4
    ensures var m' := if Accepts(m, keys, i) then Accept(m, KEYMAP[i]) else m;
            && Holds(m', if Down(keys, i) && !Down(LoadHalf(m, KEY_STATE), i) then presses + [KEYMAP[i]] else presses)
            && LoadHalf(m', KEY_STATE) == LoadHalf(m, KEY_STATE) && LoadWord(m', COUNT) == LoadWord(m, COUNT)
  {
    if Accepts(m, keys, i) { AcceptHolds(m, presses, KEYMAP[i]); }
  }

  lemma AcceptHolds(m: Memory, presses: seq<Byte>, c: Byte)
    requires Holds(m, presses) && LoadWord(m, PIN_IDX) <= 3
    ensures Holds(Accept(m, c), presses + [c])
    ensures LoadHalf(Accept(m, c), KEY_STATE) == LoadHalf(m, KEY_STATE)
    ensures LoadWord(Accept(m, c), COUNT) == LoadWord(m, COUNT)
  {
    var idx := LoadWord(m, PIN_IDX);
    WordRoundTrip(m, PIN_IDX, idx + 1);
    var m' := StoreWord(m, PIN_IDX, idx + 1);
    SameWord(m', Accept(m, c), PIN_IDX);
    SameWord(m, Accept(m, c), COUNT);
    assert Accept(m, c)[PIN..PIN + idx] == m[PIN..PIN + idx];
  }

  /** A word depends on its four bytes only. */
  lemma SameWord(m: Memory, m': Memory, at: nat)
    requires at + 4 <= 16 && forall j :: at <= j < at + 4 ==> m[j] == m'[j]
    ensures LoadWord(m, at) == LoadWord(m', at)
  {}

  lemma StateStored(m: Memory, presses: seq<Byte>, keys: Keys)
    requires Holds(m, presses)
    ensures var m' := StoreHalf(m, KEY_STATE, keys);
            Holds(m', presses) && LoadHalf(m', KEY_STATE) == keys && LoadWord(m', COUNT) == LoadWord(m, COUNT)
            && LoadWord(m', PIN_IDX) == LoadWord(m, PIN_IDX)
  {
    var m' := StoreHalf(m, KEY_STATE, keys);
    SameWord(m, m', PIN_IDX); SameWord(m, m', COUNT);
    assert m'[..4] == m[..4];
  }

  lemma CountStored(m: Memory, presses: seq<Byte>, count: Word)
    requires Holds(m, presses)
    ensures var m' := StoreWord(m, COUNT, count);
            Holds(m', presses) && LoadHalf(m', KEY_STATE) == LoadHalf(m, KEY_STATE) && LoadWord(m', COUNT) == count
  {
    var m' := StoreWord(m, COUNT, count);
    SameWord(m, m', PIN_IDX);
    WordRoundTrip(m, COUNT, count);
    assert m'[..4] == m[..4];
  }

  /** The loop over the sixteen keys and the epilogue: one poll with the given keys down. */
  method PollKeys(mem: array<Byte>, keys: Keys, ghost polls: seq<Keys>) returns (a0: Word)
    requires mem.Length == 16 && Holds(mem[..], Presses(polls)) && LoadHalf(mem[..], KEY_STATE) == Last(polls)
    modifies mem
    ensures Holds(mem[..], Presses(polls + [keys])) && LoadHalf(mem[..], KEY_STATE) == Last(polls + [keys])
    ensures LoadWord(mem[..], COUNT) == old(LoadWord(mem[..], COUNT))
    ensures a0 as int + LoadWord(mem[..], PIN_IDX) == 4
  {
    hide LoadWord, StoreWord, LoadHalf, StoreHalf, Bits.Pow2, Holds, Presses, Down, Accept;
    ghost var before, count, presses := Last(polls), LoadWord(mem[..], COUNT), Presses(polls);
    assert presses + [] == presses;
    Bits.Pow2Values();
    var a5: Word, i := 1, 0;
    PowZero();
    while i < 16
      invariant 0 <= i <= 16 && a5 == Bits.Pow2(i)
      invariant LoadHalf(mem[..], KEY_STATE) == before && LoadWord(mem[..], COUNT) == count
      invariant Holds(mem[..], presses + Pressed(before, keys, i))
    {
      ghost var sofar := presses + Pressed(before, keys, i);
      KeyBitHolds(mem[..], sofar, keys, i);
      assert presses + (Pressed(before, keys, i) + [KEYMAP[i]]) == sofar + [KEYMAP[i]];
      KeyBit(mem, keys, i, a5, KEYMAP[i]);
      ShiftBit(i);
      a5 := Sll(a5, 1);
      i := i + 1;
    }
    PressesStep(polls, keys);
    StateStored(mem[..], Presses(polls + [keys]), keys);
    IndexRange(mem[..], Presses(polls + [keys]));
    a5 := LoadWord(mem[..], PIN_IDX);
    Sh(mem, KEY_STATE, keys);
    a0 := Sub(4, a5);
  }

  lemma PowZero()
    ensures Bits.Pow2(0) == 1
  {}

  lemma IndexRange(m: Memory, presses: seq<Byte>)
    requires Holds(m, presses)
    ensures LoadWord(m, PIN_IDX) <= 4
  {}

  lemma PressesStep(polls: seq<Keys>, keys: Keys)
    ensures Presses(polls + [keys]) == Presses(polls) + Pressed(Last(polls), keys, 16)
    ensures Last(polls + [keys]) == keys
  {
    assert (polls + [keys])[..|polls|] == polls;
  }

  /** The keys of the poll that finds `count` in memory. */
  function Sample(count: Word): Keys
  {
    if 1 <= count <= 10 then SAMPLES[count - 1] else 0
  }

  /** The program compares count - 1, unsigned, with 9. */
  lemma SampleIs(count: Word)
    ensures var a5 := Add(count, -1); Sample(count) == if a5 <= 9 then SAMPLES[a5] else 0
  {}

  /** keypad_poll */
  method Poll(mem: array<Byte>, ghost polls: seq<Keys>) returns (a0: Word)
    requires mem.Length == 16 && Holds(mem[..], Presses(polls)) && LoadHalf(mem[..], KEY_STATE) == Last(polls)
    modifies mem
    ensures var count := old(LoadWord(mem[..], COUNT)); var polls' := polls + [Sample(count)];
            && Holds(mem[..], Presses(polls')) && LoadHalf(mem[..], KEY_STATE) == Last(polls')
            && LoadWord(mem[..], COUNT) == Add(count, 1)
    ensures a0 as int + LoadWord(mem[..], PIN_IDX) == 4
  {
    hide LoadWord, StoreWord, LoadHalf, StoreHalf, Holds, Presses, Add, Sample;
    var a5 := LoadWord(mem[..], COUNT);
    SampleIs(a5);
    CountStored(mem[..], Presses(polls), Add(a5, 1));
    Sw(mem, COUNT, Add(a5, 1));
    a5 := Add(a5, -1);
    var t5: Keys := 0;
    if a5 <= 9 {
      t5 := SAMPLES[a5];
    }
    a0 := PollKeys(mem, t5, polls);
  }

  /** After initialisation, any sequence of polls leaves the first four key presses in the
      buffer and returns how many are missing. */
  method Run(mem: array<Byte>, polls: seq<Keys>) returns (missing: Word)
    requires mem.Length == 16
    modifies mem
    ensures Holds(mem[..], Presses(polls))
    ensures missing as int + LoadWord(mem[..], PIN_IDX) == 4
  {
    Init(mem);
    assert Holds(mem[..], Presses([]));
    hide LoadWord, LoadHalf, Holds, Presses;
    missing := 4;
    var i := 0;
    assert polls[..0] == [];
    while i < |polls|
      invariant 0 <= i <= |polls|
      invariant Holds(mem[..], Presses(polls[..i])) && LoadHalf(mem[..], KEY_STATE) == Last(polls[..i])
      invariant missing as int + LoadWord(mem[..], PIN_IDX) == 4
    {
      missing := PollKeys(mem, polls[i], polls[..i]);
      assert polls[..i + 1] == polls[..i] + [polls[i]];
      i := i + 1;
    }
    assert polls[..i] == polls;
  }

  /** The keys of the first n polls of the program itself. */
  function OwnSamples(n: nat): (polls: seq<Keys>)
    ensures |polls| == n
  {
    seq(n, i requires 0 <= i < n => if i < 0x1_0000_0000 then Sample(i) else 0)
  }

  /** The program run on its own samples: after nine polls the PIN is 1470. */
  method OwnRun(mem: array<Byte>, n: nat)
    requires mem.Length == 16 && n < 0x1_0000_0000
    modifies mem
    ensures Holds(mem[..], Presses(OwnSamples(n))) && LoadWord(mem[..], COUNT) == n
    ensures n >= 9 ==> mem[..4] == [49, 52, 55, 48] && LoadWord(mem[..], PIN_IDX) == 4
  {
    Init(mem);
    assert Holds(mem[..], Presses([]));
    hide LoadWord, LoadHalf, Holds, Presses, Sample, OwnSamples, Add;
    var i := 0;
    OwnNone();
    while i < n
      invariant 0 <= i <= n && LoadWord(mem[..], COUNT) == i
      invariant Holds(mem[..], Presses(OwnSamples(i))) && LoadHalf(mem[..], KEY_STATE) == Last(OwnSamples(i))
    {
      var missing := Poll(mem, OwnSamples(i));
      OwnNext(i);
      i := i + 1;
    }
    if n >= 9 { OwnPin(mem[..], n); }
  }

  lemma OwnNone()
    ensures OwnSamples(0) == []
  {}

  lemma OwnNext(i: nat)
    requires i + 1 < 0x1_0000_0000
    ensures OwnSamples(i + 1) == OwnSamples(i) + [Sample(i)] && Add(i, 1) == i + 1
  {
    hide Sample;
  }

  lemma OwnPin(m: Memory, n: nat)
    requires n >= 9 && Holds(m, Presses(OwnSamples(n)))
    ensures m[..4] == [49, 52, 55, 48] && LoadWord(m, PIN_IDX) == 4
  {
    hide LoadWord, Presses, OwnSamples;
    OwnPresses(n);
    var p := Presses(OwnSamples(n));
    assert p[..4] == [49, 52, 55, 48];
  }

  lemma {:induction false} OwnPresses(n: nat)
    requires n >= 9
    ensures [49, 52, 55, 48] <= Presses(OwnSamples(n))
  {
    if n == 9 {
      FirstPresses();
    } else {
      OwnPresses(n - 1);
      assert OwnSamples(n)[..n - 1] == OwnSamples(n - 1);
    }
  }

  lemma FirstTwo()
    ensures Presses([0, 1, 1, 0, 2]) == [49, 52]
  {
    hide Presses, Pressed, Down;
    SmallPowers();
    PressesOfNone();
    Pause([]);
    assert [] + [0] == [0];
    Press([0], 0);
    assert [0] + [1] == [0, 1];
    Hold([0, 1], 0);
    assert [0, 1] + [1] == [0, 1, 1];
    Pause([0, 1, 1]);
    assert [0, 1, 1] + [0] == [0, 1, 1, 0];
    Press([0, 1, 1, 0], 1);
    assert [0, 1, 1, 0] + [2] == [0, 1, 1, 0, 2];
  }

  lemma FirstPresses()
    ensures Presses(OwnSamples(9)) == [49, 52, 55, 48]
  {
    hide Presses, Pressed, Down;
    assert OwnSamples(9) == [0, 1, 1, 0, 2, 0, 4, 0, 8];
    SmallPowers();
    FirstTwo();
    Pause([0, 1, 1, 0, 2]);
    assert [0, 1, 1, 0, 2] + [0] == [0, 1, 1, 0, 2, 0];
    Press([0, 1, 1, 0, 2, 0], 2);
    assert [0, 1, 1, 0, 2, 0] + [4] == [0, 1, 1, 0, 2, 0, 4];
    Pause([0, 1, 1, 0, 2, 0, 4]);
    assert [0, 1, 1, 0, 2, 0, 4] + [0] == [0, 1, 1, 0, 2, 0, 4, 0];
    Press([0, 1, 1, 0, 2, 0, 4, 0], 3);
    assert [0, 1, 1, 0, 2, 0, 4, 0] + [8] == [0, 1, 1, 0, 2, 0, 4, 0, 8];
  }

  lemma SmallPowers()
    ensures Bits.Pow2(0) == 1 && Bits.Pow2(1) == 2 && Bits.Pow2(2) == 4 && Bits.Pow2(3) == 8
  {
    Bits.Pow2Step(1); Bits.Pow2Step(2); Bits.Pow2Step(3);
  }

  lemma PressesOfNone()
    ensures Presses([]) == []
  {}

  /** A poll that finds key b alone down, after one that found no key. */
  lemma Press(polls: seq<Keys>, b: nat)
    requires b < 16 && Last(polls) == 0
    ensures Bits.Pow2(b) < 0x1_0000 && Presses(polls + [Bits.Pow2(b)]) == Presses(polls) + [KEYMAP[b]]
  {
    hide Presses, Down;
    DownPower(b, 0);
    forall i: nat | i < 16 ensures (Down(Bits.Pow2(b), i) <==> i == b) && !Down(0, i) { DownPower(b, i); }
    OneNew(0, Bits.Pow2(b), b, 16);
    PressesStep(polls, Bits.Pow2(b));
  }

  /** After one that found the same key. */
  lemma Hold(polls: seq<Keys>, b: nat)
    requires b < 16 && Last(polls) == Bits.Pow2(b)
    ensures Presses(polls + [Bits.Pow2(b)]) == Presses(polls)
  {
    hide Presses;
    NoneNew(Bits.Pow2(b), Bits.Pow2(b), 16);
    PressesStep(polls, Bits.Pow2(b));
  }

  /** A poll that finds no key. */
  lemma Pause(polls: seq<Keys>)
    ensures Presses(polls + [0]) == Presses(polls)
  {
    hide Presses, Down;
    forall i: nat | i < 16 ensures !Down(0, i) { DownPower(0, i); }
    NoneNew(Last(polls), 0, 16);
    PressesStep(polls, 0);
  }

  lemma {:induction false} NoneNew(before: Keys, now: Keys, n: nat)
    requires n <= 16 && forall i: nat :: i < n ==> !(Down(now, i) && !Down(before, i))
    ensures Pressed(before, now, n) == []
  {
    if n > 0 { NoneNew(before, now, n - 1); }
  }

  lemma {:induction false} OneNew(before: Keys, now: Keys, b: nat, n: nat)
    requires b < n <= 16 && forall i: nat :: i < n ==> (Down(now, i) && !Down(before, i) <==> i == b)
    ensures Pressed(before, now, n) == [KEYMAP[b]]
  {
    hide Down;
    if b == n - 1 { NoneNew(before, now, n - 1); } else { OneNew(before, now, b, n - 1); }
  }
}
