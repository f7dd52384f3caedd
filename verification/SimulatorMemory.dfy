/** simulation/main.cpp, class Memory: a lazily grown word vector behind a one-cycle read port. */
module SimulatorMemory {
  import opened Bytes

  type Address = a: int | 0 <= a < 0x1_0000_0000

  /** What the core drives in one cycle: nothing, a read or a masked write of a 4-word line. */
  datatype Request =
    | Idle
    | Read(address: Address, id: Byte)
    | Write(address: Address, strobe: Word, data: seq<Word>)

  datatype Response = Response(rValid: bool, id: Byte, data: seq<Word>, bValid: bool)

  predicate WellFormed(req: Request)
  {
    req.Write? ==> |req.data| == 4
  }

  /** The first word of the 16-byte line an address lies in. */
  function LineBase(address: Address): (base: nat)
    ensures base % 4 == 0 && 4 * base <= address < 4 * base + 16
  {
    (address / 16) * 4
  }

  // ---- byte lanes ----

  predicate Strobe(strobe: Word, lane: nat)
    requires lane < 16
  {
    And(strobe, LaneBit(lane)) != 0
  }

  function And(x: Word, y: Word): Word { x & y }

  function LaneBit(lane: nat): Word
    requires lane < 16
  {
    (1 as Word) << lane
  }

  /** Bit n of the strobes is lane n, and lanes are strobed independently. */
  lemma StrobeBit(n: nat, lane: nat)
    requires n < 16 && lane < 16
    ensures Strobe((1 as Word) << n, lane) <==> lane == n
    ensures !Strobe(0, lane)
  {}

  lemma StrobeEither(x: Word, y: Word, lane: nat)
    requires lane < 16
    ensures Strobe(Or(x, y), lane) <==> Strobe(x, lane) || Strobe(y, lane)
  {
    hide Or, And, LaneBit;
    Distributes(x, y, LaneBit(lane));
    OrIsZero(And(x, LaneBit(lane)), And(y, LaneBit(lane)));
  }

  lemma Distributes(x: Word, y: Word, m: Word)
    ensures And(Or(x, y), m) == Or(And(x, m), And(y, m))
  {
    assert (x | y) & m == (x & m) | (y & m);
  }

  lemma OrIsZero(x: Word, y: Word)
    ensures Or(x, y) == 0 <==> x == 0 && y == 0
  {}

  /** The strobes of a whole word and of a whole line. */
  lemma StrobeWord(i: nat, lane: nat)
    requires i < 4 && lane < 16
    ensures Strobe((0xf as Word) << (4 * i), lane) <==> lane / 4 == i
    ensures Strobe(0xffff, lane)
  {}

  /** The lane's bits: 0xff << (8 * byte). */
  function Lane(byte: nat): Word
    requires byte < 4
  {
    (0xff as Word) << (8 * byte)
  }

  function AddLane(mask: Word, byte: nat): Word
    requires byte < 4
  {
    Or(mask, Lane(byte))
  }

  lemma AddLaneByte(mask: Word, byte: nat, k: nat)
    requires byte < 4 && k < 4
    ensures ByteOf(AddLane(mask, byte), k) == if k == byte then 0xff else ByteOf(mask, k)
  {
    hide ByteOf, Lane, Or, OrByte;
    OrBytes(mask, Lane(byte), k);
    LaneBytes(byte, k);
    OrConstants(ByteOf(mask, k));
  }

  lemma OrConstants(b: Byte)
    ensures OrByte(b, 0xff) == 0xff && OrByte(b, 0) == b
  {}

  lemma LaneBytes(byte: nat, k: nat)
    requires byte < 4 && k < 4
    ensures ByteOf(Lane(byte), k) == if k == byte then 0xff else 0
  {
    assert Lane(0) == 0xff && Lane(1) == 0xff00 && Lane(2) == 0xff_0000 && Lane(3) == 0xff00_0000;
  }

  lemma ZeroBytes()
    ensures forall k :: 0 <= k < 4 ==> ByteOf(0, k) == 0
  {}

  /** Byte k of word i of a line, after a write with these strobes. */
  function MergedByte(m: Word, v: Word, strobe: Word, i: nat, k: nat): Byte
    requires i < 4 && k < 4
  {
    if Strobe(strobe, 4 * i + k) then ByteOf(v, k) else ByteOf(m, k)
  }

  function Merged(m: Word, v: Word, strobe: Word, i: nat): Word
    requires i < 4
  {
    ToWord(MergedByte(m, v, strobe, i, 0), MergedByte(m, v, strobe, i, 1),
           MergedByte(m, v, strobe, i, 2), MergedByte(m, v, strobe, i, 3))
  }

  lemma MergedBytes(m: Word, v: Word, strobe: Word, i: nat, k: nat)
    requires i < 4 && k < 4
    ensures ByteOf(Merged(m, v, strobe, i), k) == MergedByte(m, v, strobe, i, k)
  {
    hide ByteOf, ToWord, MergedByte;
    WordBytes(MergedByte(m, v, strobe, i, 0), MergedByte(m, v, strobe, i, 1),
              MergedByte(m, v, strobe, i, 2), MergedByte(m, v, strobe, i, 3));
  }

  /** The bit mask built from the strobes selects bytes. */
  lemma MaskMerges(m: Word, v: Word, bitMask: Word, strobe: Word, i: nat)
    requires i < 4
    requires forall k :: 0 <= k < 4 ==> ByteOf(bitMask, k) == if Strobe(strobe, 4 * i + k) then 0xff else 0
    ensures Select(m, v, bitMask) == Merged(m, v, strobe, i)
    ensures bitMask == 0 ==> Merged(m, v, strobe, i) == m
  {
    hide ByteOf, ToWord, Select, SelectByte, Strobe;
    var r := Select(m, v, bitMask);
    forall k | 0 <= k < 4 ensures ByteOf(r, k) == MergedByte(m, v, strobe, i, k) {
      SelectBytes(m, v, bitMask, k);
      SelectByteCases(ByteOf(m, k), ByteOf(v, k));
    }
    BytesDetermine(r);
    SelectNothing(m, v);
  }

  lemma SelectNothing(m: Word, v: Word)
    ensures Select(m, v, 0) == m
  {}

  // ---- the total memory ----

  const DEFAULT: Word := 0xcafebabe

  /** Word i of a memory of which only a first part is stored. */
  function Total(stored: seq<Word>, i: nat): Word
  {
    if i < |stored| then stored[i] else DEFAULT
  }

  /** Word i after one request. */
  function After(req: Request, word: Word, i: nat): Word
    requires WellFormed(req)
  {
    if req.Write? && LineBase(req.address) <= i < LineBase(req.address) + 4
    then Merged(word, req.data[i - LineBase(req.address)], req.strobe, i - LineBase(req.address))
    else word
  }

  ghost predicate AllWellFormed(reqs: seq<Request>)
  {
    forall req :: req in reqs ==> WellFormed(req)
  }

  /** Word i after all writes among the requests, applied in order to the image. */
  function Contents(image: seq<Word>, reqs: seq<Request>, i: nat): Word
    requires AllWellFormed(reqs)
  {
    if reqs == [] then Total(image, i)
    else After(reqs[|reqs| - 1], Contents(image, reqs[..|reqs| - 1], i), i)
  }

  function LineAfter(image: seq<Word>, reqs: seq<Request>, address: Address): seq<Word>
    requires AllWellFormed(reqs)
  {
    seq(4, k requires 0 <= k < 4 => Contents(image, reqs, LineBase(address) + k))
  }

  /** The number of words stored after one request: the first word of the next line is, too. */
  function Grown(n: nat, req: Request): nat
  {
    if req.Idle? || LineBase(req.address) + 5 <= n then n else LineBase(req.address) + 5
  }

  function Extent(n: nat, reqs: seq<Request>): nat
  {
    if reqs == [] then n else Grown(Extent(n, reqs[..|reqs| - 1]), reqs[|reqs| - 1])
  }

  /** The image, or the furthest line any request addressed: the maximum of these. */
  lemma {:induction false} ExtentIsMaximum(n: nat, reqs: seq<Request>)
    ensures n <= Extent(n, reqs)
    ensures forall req :: req in reqs && !req.Idle? ==> LineBase(req.address) + 5 <= Extent(n, reqs)
    ensures Extent(n, reqs) == n ||
            exists req :: req in reqs && !req.Idle? && Extent(n, reqs) == LineBase(req.address) + 5
  {
    if reqs != [] { ExtentIsMaximum(n, reqs[..|reqs| - 1]); }
  }

  /** The stored words after all requests, which is what a dump writes. */
  function Stored(image: seq<Word>, reqs: seq<Request>): seq<Word>
    requires AllWellFormed(reqs)
  {
    seq(Extent(|image|, reqs), i requires i >= 0 => Contents(image, reqs, i))
  }

  /** The request writes byte k of word i. */
  ghost predicate WritesByte(req: Request, i: nat, k: nat)
    requires k < 4
  {
    && req.Write? && LineBase(req.address) <= i < LineBase(req.address) + 4
    && Strobe(req.strobe, 4 * (i - LineBase(req.address)) + k)
  }

  /** A byte no write strobed is still the one of the image. */
  lemma {:induction false} NeverWritten(image: seq<Word>, reqs: seq<Request>, i: nat, k: nat)
    requires AllWellFormed(reqs) && k < 4
    requires forall req :: req in reqs ==> !WritesByte(req, i, k)
    ensures ByteOf(Contents(image, reqs, i), k) == ByteOf(if i < |image| then image[i] else 0xcafebabe, k)
    decreases |reqs|
  {
    hide ByteOf, Merged, Strobe;
    if reqs != [] {
      NeverWritten(image, reqs[..|reqs| - 1], i, k);
      AfterByte(reqs[|reqs| - 1], Contents(image, reqs[..|reqs| - 1], i), i, k);
    }
  }

  /** Any other byte is the one of the last write that strobed it. */
  lemma {:induction false} LastWriteWins(image: seq<Word>, reqs: seq<Request>, i: nat, k: nat, w: nat)
    requires AllWellFormed(reqs) && k < 4 && w < |reqs|
    requires WritesByte(reqs[w], i, k)
    requires forall later :: w < later < |reqs| ==> !WritesByte(reqs[later], i, k)
    ensures ByteOf(Contents(image, reqs, i), k) == WrittenByte(reqs[w], i, k)
    decreases |reqs|
  {
    hide ByteOf, Merged, Strobe, WrittenByte;
    var before, req := reqs[..|reqs| - 1], reqs[|reqs| - 1];
    AfterByte(req, Contents(image, before, i), i, k);
    if w < |before| {
      assert !WritesByte(reqs[|reqs| - 1], i, k);
      LastWriteWins(image, before, i, k, w);
    }
  }

  function WrittenByte(req: Request, i: nat, k: nat): Byte
    requires WellFormed(req) && k < 4
    requires req.Write? && LineBase(req.address) <= i < LineBase(req.address) + 4
  {
    ByteOf(req.data[i - LineBase(req.address)], k)
  }

  lemma AfterByte(req: Request, word: Word, i: nat, k: nat)
    requires WellFormed(req) && k < 4
    ensures ByteOf(After(req, word, i), k) == if WritesByte(req, i, k) then WrittenByte(req, i, k) else ByteOf(word, k)
  {
    hide ByteOf, Merged, Strobe;
    if req.Write? && LineBase(req.address) <= i < LineBase(req.address) + 4 {
      var d := i - LineBase(req.address);
      MergedBytes(word, req.data[d], req.strobe, d, k);
    }
  }

  /** A store of word i of a line replaces that word and no other. */
  lemma WordStored(address: Address, data: seq<Word>, i: nat, j: nat, word: Word)
    requires |data| == 4 && i < 4
    ensures After(Write(address, (0xf as Word) << (4 * i), data), word, j)
         == if j == LineBase(address) + i then data[i] else word
  {
    hide Strobe, ByteOf, ToWord;
    var base := LineBase(address);
    if base <= j < base + 4 {
      AllOrNothing(word, data[j - base], (0xf as Word) << (4 * i), j - base, j - base == i, i);
    }
  }

  lemma AllOrNothing(m: Word, v: Word, strobe: Word, k: nat, all: bool, i: nat)
    requires i < 4 && k < 4 && strobe == (0xf as Word) << (4 * i) && (all <==> k == i)
    ensures Merged(m, v, strobe, k) == if all then v else m
  {
    hide Strobe, ByteOf, ToWord;
    StrobeWord(i, 4 * k); StrobeWord(i, 4 * k + 1); StrobeWord(i, 4 * k + 2); StrobeWord(i, 4 * k + 3);
    BytesDetermine(m);
    BytesDetermine(v);
  }

  /** A store of a whole line replaces its four words and no other. */
  lemma LineStored(address: Address, data: seq<Word>, j: nat, word: Word)
    requires |data| == 4
    ensures var base := LineBase(address);
            After(Write(address, 0xffff, data), word, j) == if base <= j < base + 4 then data[j - base] else word
  {
    hide Strobe, ByteOf, ToWord;
    var base := LineBase(address);
    if base <= j < base + 4 {
      var k := j - base;
      StrobeWord(0, 4 * k); StrobeWord(0, 4 * k + 1); StrobeWord(0, 4 * k + 2); StrobeWord(0, 4 * k + 3);
      BytesDetermine(data[k]);
    }
  }

  // ---- the class ----

  class Memory {
    var memory: seq<Word>
    const nextReadData: array<Word>
    var nextReadCycle: nat
    var nextReadId: Byte

    ghost predicate Valid()
      reads this
    {
      nextReadData.Length == 4
    }

    /** The image file: a positive number of little-endian words. */
    constructor (file: seq<Byte>)
      requires |file| > 0 && |file| % 4 == 0
      ensures Valid() && fresh(nextReadData)
      ensures memory == WordsOf(file) && nextReadCycle == 0
    {
      nextReadData := new Word[4];
      nextReadCycle := 0;
      nextReadId := 0;
      var words: seq<Word> := [];
      var i := 0;
      while i < |file|
        invariant 0 <= i <= |file| && i % 4 == 0
        invariant words == WordsOf(file[..i])
      {
        hide ToWord;
        var word := ToWord(file[i], file[i + 1], file[i + 2], file[i + 3]);
        WordsOfStep(file, i);
        words := words + [word];
        i := i + 4;
      }
      assert file[..|file|] == file;
      memory := words;
    }

    /** Grow the vector until the line after the addressed one starts inside it. */
    method EnsureEnoughMemory(address: Address)
      modifies this`memory
      ensures |memory| == if LineBase(address) + 5 <= |old(memory)| then |old(memory)| else LineBase(address) + 5
      ensures old(memory) <= memory
      ensures forall i: nat :: Total(memory, i) == Total(old(memory), i)
    {
      var baseAddress := (address / 16 + 1) * 4;
      while baseAddress >= |memory|
        invariant old(memory) <= memory && (|memory| <= baseAddress + 1 || memory == old(memory))
        invariant forall i :: |old(memory)| <= i < |memory| ==> memory[i] == DEFAULT
        decreases baseAddress - |memory|
      {
        memory := memory + [DEFAULT];
      }
    }

    method ReadLine(address: Address)
      requires Valid()
      modifies this`memory, nextReadData
      ensures |memory| == Grown(|old(memory)|, Read(address, 0))
      ensures forall i: nat :: Total(memory, i) == Total(old(memory), i)
      ensures forall k :: 0 <= k < 4 ==> nextReadData[k] == Total(old(memory), LineBase(address) + k)
    {
      EnsureEnoughMemory(address);
      var baseAddress := (address / 16) * 4;
      var i := 0;
      while i < 4
        invariant 0 <= i <= 4
        invariant forall k :: 0 <= k < i ==> nextReadData[k] == memory[baseAddress + k]
        modifies nextReadData
      {
        nextReadData[i] := memory[baseAddress + i];
        i := i + 1;
      }
    }

    /** The inner loop of write: the bit mask for word i of the line. */
    static method BitMask(mask: Word, i: nat) returns (bitMask: Word)
      requires i < 4
      ensures forall k :: 0 <= k < 4 ==> ByteOf(bitMask, k) == if Strobe(mask, 4 * i + k) then 0xff else 0
    {
      hide ByteOf, Strobe, AddLane;
      bitMask := 0;
      ZeroBytes();
      var byte := 0;
      while byte < 4
        invariant 0 <= byte <= 4
        invariant forall k :: 0 <= k < byte ==> ByteOf(bitMask, k) == if Strobe(mask, 4 * i + k) then 0xff else 0
        invariant forall k :: byte <= k < 4 ==> ByteOf(bitMask, k) == 0
      {
        if Strobe(mask, 4 * i + byte) {
          forall k | 0 <= k < 4
            ensures ByteOf(AddLane(bitMask, byte), k) == if k == byte then 0xff else ByteOf(bitMask, k)
          {
            AddLaneByte(bitMask, byte, k);
          }
          bitMask := AddLane(bitMask, byte);
        }
        byte := byte + 1;
      }
    }

    method WriteLine(address: Address, mask: Word, value: seq<Word>)
      requires |value| == 4
      modifies this`memory
      ensures |memory| == Grown(|old(memory)|, Write(address, mask, value))
      ensures forall i: nat :: Total(memory, i) == After(Write(address, mask, value), Total(old(memory), i), i)
    {
      hide Merged, Select, ByteOf, Strobe;
      EnsureEnoughMemory(address);
      ghost var before := memory;
      var baseAddress := (address / 16) * 4;
      var i := 0;
      while i < 4
        invariant 0 <= i <= 4 && |memory| == |before|
        invariant forall j :: 0 <= j < |memory| ==>
                    memory[j] == if baseAddress <= j < baseAddress + i
                                 then Merged(before[j], value[j - baseAddress], mask, j - baseAddress) else before[j]
      {
        var bitMask := BitMask(mask, i);
        MaskMerges(memory[baseAddress + i], value[i], bitMask, mask, i);
        if bitMask != 0 {
          memory := memory[baseAddress + i := Select(memory[baseAddress + i], value[i], bitMask)];
        }
        i := i + 1;
      }
    }

    /** One clock cycle: answer the read of the cycle before, then accept a request. */
    method Eval(cycle: nat, req: Request) returns (resp: Response)
      requires Valid() && cycle > 0 && WellFormed(req)
      modifies this, nextReadData
      ensures resp.rValid == (old(nextReadCycle) == cycle)
      ensures resp.rValid ==> resp.id == old(nextReadId) && resp.data == old(nextReadData[..])
      ensures resp.bValid == req.Write?
      ensures |memory| == Grown(|old(memory)|, req)
      ensures forall i: nat :: Total(memory, i) == After(req, Total(old(memory), i), i)
      ensures if req.Read? then
                nextReadCycle == cycle + 1 && nextReadId == req.id &&
                forall k :: 0 <= k < 4 ==> nextReadData[k] == Total(old(memory), LineBase(req.address) + k)
              else
                nextReadCycle == if old(nextReadCycle) == cycle then 0 else old(nextReadCycle)
    {
      hide Merged;
      resp := Response(false, 0, [], false);
      if nextReadCycle == cycle {
        resp := resp.(data := nextReadData[..], id := nextReadId, rValid := true);
        nextReadCycle := 0;
      }
      match req
      case Idle =>
      case Write(address, strobe, data) =>
        WriteLine(address, strobe, data);
        resp := resp.(bValid := true);
      case Read(address, id) =>
        ReadLine(address);
        nextReadCycle := cycle + 1;
        nextReadId := id;
    }

    /** The words of the memory, byte by byte. */
    method Dump() returns (file: seq<Byte>)
      ensures file == BytesOf(memory)
    {
      hide ByteOf;
      file := [];
      var i := 0;
      assert memory[..0] == [];
      while i < |memory|
        invariant 0 <= i <= |memory|
        invariant file == BytesOf(memory[..i])
      {
        var word := memory[i];
        assert memory[..i + 1][..i] == memory[..i];
        file := file + [ByteOf(word, 0), ByteOf(word, 1), ByteOf(word, 2), ByteOf(word, 3)];
        i := i + 1;
      }
      assert memory[..i] == memory;
    }
  }

  // ---- whole runs ----

  /** The response of cycle c + 1 to a run of requests, the first of which comes in cycle 1. */
  ghost predicate Expected(image: seq<Word>, reqs: seq<Request>, c: nat, resp: Response)
    requires c < |reqs| && AllWellFormed(reqs)
  {
    && resp.bValid == reqs[c].Write?
    && resp.rValid == (c > 0 && reqs[c - 1].Read?)
    && (resp.rValid ==> resp.id == reqs[c - 1].id && resp.data == LineAfter(image, reqs[..c - 1], reqs[c - 1].address))
  }

  /** The cycle loop: every read is answered in the next cycle, with its id and the line as
      all writes accepted before it left it; nothing else is ever answered. */
  method Simulate(mem: Memory, reqs: seq<Request>) returns (resps: seq<Response>)
    requires mem.Valid() && mem.nextReadCycle == 0 && AllWellFormed(reqs)
    modifies mem, mem.nextReadData
    ensures |resps| == |reqs|
    ensures forall c :: 0 <= c < |reqs| ==> Expected(old(mem.memory), reqs, c, resps[c])
    ensures forall i: nat :: Total(mem.memory, i) == Contents(old(mem.memory), reqs, i)
    ensures mem.memory == Stored(old(mem.memory), reqs)
  {
    hide After, Total, Grown;
    ghost var image := mem.memory;
    resps := [];
    var cycle := 0;
    assert reqs[..0] == [];
    while cycle < |reqs|
      invariant 0 <= cycle <= |reqs| && |resps| == cycle && mem.Valid()
      invariant forall c :: 0 <= c < cycle ==> Expected(image, reqs, c, resps[c])
      invariant forall i: nat :: Total(mem.memory, i) == Contents(image, reqs[..cycle], i)
      invariant |mem.memory| == Extent(|image|, reqs[..cycle])
      invariant mem.nextReadCycle == if cycle > 0 && reqs[cycle - 1].Read? then cycle + 1 else 0
      invariant cycle > 0 && reqs[cycle - 1].Read? ==>
                  mem.nextReadId == reqs[cycle - 1].id &&
                  mem.nextReadData[..] == LineAfter(image, reqs[..cycle - 1], reqs[cycle - 1].address)
    {
      assert reqs[..cycle + 1][..cycle] == reqs[..cycle];
      var resp := mem.Eval(cycle + 1, reqs[cycle]);
      resps := resps + [resp];
      cycle := cycle + 1;
    }
    assert reqs[..cycle] == reqs;
    StoredIs(mem.memory, image, reqs);
  }

  lemma StoredIs(memory: seq<Word>, image: seq<Word>, reqs: seq<Request>)
    requires AllWellFormed(reqs) && |memory| == Extent(|image|, reqs)
    requires forall i: nat :: Total(memory, i) == Contents(image, reqs, i)
    ensures memory == Stored(image, reqs)
  {
    hide Contents, Extent;
    forall i: nat | i < |memory| ensures memory[i] == Stored(image, reqs)[i] {
      assert Total(memory, i) == memory[i];
    }
  }

  // ---- image files ----

  function WordsOf(file: seq<Byte>): (words: seq<Word>)
    requires |file| % 4 == 0
    ensures |words| == |file| / 4
  {
    if file == [] then [] else WordsOf(file[..|file| - 4]) + [WordAt(file, |file| - 4)]
  }

  function BytesOf(words: seq<Word>): (file: seq<Byte>)
    ensures |file| == 4 * |words|
  {
    if words == [] then []
    else
      var word := words[|words| - 1];
      BytesOf(words[..|words| - 1]) + [ByteOf(word, 0), ByteOf(word, 1), ByteOf(word, 2), ByteOf(word, 3)]
  }

  lemma WordsOfStep(file: seq<Byte>, i: nat)
    requires i + 4 <= |file| && i % 4 == 0
    ensures WordsOf(file[..i + 4]) == WordsOf(file[..i]) + [WordAt(file, i)]
  {
    hide ToWord;
    assert file[..i + 4][..i] == file[..i];
  }

  /** Byte 4 i + k of a dump is byte k of word i. */
  lemma {:induction false} DumpedByte(words: seq<Word>, i: nat, k: nat)
    requires i < |words| && k < 4
    ensures BytesOf(words)[4 * i + k] == ByteOf(words[i], k)
    decreases |words|
  {
    hide ByteOf;
    if i < |words| - 1 { DumpedByte(words[..|words| - 1], i, k); }
  }

  /** Loading a dump gives the memory back. */
  lemma {:induction false} LoadDump(words: seq<Word>)
    ensures WordsOf(BytesOf(words)) == words
  {
    hide WordsOf, BytesOf;
    if words == [] {
      Nothing();
    } else {
      var init, word := words[..|words| - 1], words[|words| - 1];
      LoadDump(init);
      BytesOfStep(init, word);
      OneMoreWord(BytesOf(init), word);
      assert words == init + [word];
    }
  }

  lemma Nothing()
    ensures BytesOf([]) == [] && WordsOf([]) == []
  {}

  /** Loading one appended word. */
  lemma OneMoreWord(file: seq<Byte>, word: Word)
    requires |file| % 4 == 0
    ensures WordsOf(file + [ByteOf(word, 0), ByteOf(word, 1), ByteOf(word, 2), ByteOf(word, 3)])
         == WordsOf(file) + [word]
  {
    hide ByteOf, ToWord;
    var longer := file + [ByteOf(word, 0), ByteOf(word, 1), ByteOf(word, 2), ByteOf(word, 3)];
    assert longer[..|longer| - 4] == file;
    BytesDetermine(word);
  }

  lemma BytesOfStep(words: seq<Word>, word: Word)
    ensures BytesOf(words + [word])
         == BytesOf(words) + [ByteOf(word, 0), ByteOf(word, 1), ByteOf(word, 2), ByteOf(word, 3)]
  {
    hide ByteOf;
    assert (words + [word])[..|words|] == words;
  }

  /** Dumping a loaded image gives the file back. */
  lemma {:induction false} DumpLoad(file: seq<Byte>)
    requires |file| % 4 == 0
    ensures BytesOf(WordsOf(file)) == file
    decreases |file|
  {
    hide ByteOf, ToWord;
    if file != [] {
      var n := |file| - 4;
      DumpLoad(file[..n]);
      BytesOfStep(WordsOf(file[..n]), WordAt(file, n));
      LastWord(file, n);
    }
  }

  lemma LastWord(file: seq<Byte>, n: nat)
    requires |file| == n + 4
    ensures var x := WordAt(file, n); file == file[..n] + [ByteOf(x, 0), ByteOf(x, 1), ByteOf(x, 2), ByteOf(x, 3)]
  {
    hide ByteOf, ToWord;
    WordBytes(file[n], file[n + 1], file[n + 2], file[n + 3]);
  }
}
