/** Hacl_Chacha20.c: ChaCha20 over mutable buffers with static scratch storage. */
module ChaCha20 {
  import opened Bytes
  import opened ChaChaSpec

  // ---- rounds, in place ----

  method QuarterRoundInPlace(st: array<Word>, a: Index, b: Index, c: Index, d: Index)
    requires st.Length == 16 && Distinct(a, b, c, d)
    modifies st
    ensures st[..] == QuarterRound(old(st[..]), a, b, c, d)
  {
    hide Sum, Xor, Rotl16, Rotl12, Rotl8, Rotl7;
    var sta := st[a];
    var stb0 := st[b];
    var std0 := st[d];
    var sta10 := Sum(sta, stb0);
    var std10 := Xor(std0, sta10);
    var std2 := Rotl16(std10);
    st[a] := sta10;
    st[d] := std2;
    var sta0 := st[c];
    var stb1 := st[d];
    var std3 := st[b];
    var sta11 := Sum(sta0, stb1);
    var std11 := Xor(std3, sta11);
    var std20 := Rotl12(std11);
    st[c] := sta11;
    st[b] := std20;
    var sta2 := st[a];
    var stb2 := st[b];
    var std4 := st[d];
    var sta12 := Sum(sta2, stb2);
    var std12 := Xor(std4, sta12);
    var std21 := Rotl8(std12);
    st[a] := sta12;
    st[d] := std21;
    var sta3 := st[c];
    var stb := st[d];
    var std := st[b];
    var sta1 := Sum(sta3, stb);
    var std1 := Xor(std, sta1);
    var std22 := Rotl7(std1);
    st[c] := sta1;
    st[b] := std22;
  }

  method DoubleRoundInPlace(st: array<Word>)
    requires st.Length == 16
    modifies st
    ensures st[..] == DoubleRound(old(st[..]))
  {
    hide QuarterRound;
    QuarterRoundInPlace(st, 0, 4, 8, 12);
    QuarterRoundInPlace(st, 1, 5, 9, 13);
    QuarterRoundInPlace(st, 2, 6, 10, 14);
    QuarterRoundInPlace(st, 3, 7, 11, 15);
    QuarterRoundInPlace(st, 0, 5, 10, 15);
    QuarterRoundInPlace(st, 1, 6, 11, 12);
    QuarterRoundInPlace(st, 2, 7, 8, 13);
    QuarterRoundInPlace(st, 3, 4, 9, 14);
  }

  method RoundsInPlace(st: array<Word>)
    requires st.Length == 16
    modifies st
    ensures st[..] == Rounds(old(st[..]), 10)
  {
    hide DoubleRound;
    ghost var s := st[..];
    DoubleRoundInPlace(st);
    assert st[..] == Rounds(s, 1);
    DoubleRoundInPlace(st);
    assert st[..] == Rounds(s, 2);
    DoubleRoundInPlace(st);
    assert st[..] == Rounds(s, 3);
    DoubleRoundInPlace(st);
    assert st[..] == Rounds(s, 4);
    DoubleRoundInPlace(st);
    assert st[..] == Rounds(s, 5);
    DoubleRoundInPlace(st);
    assert st[..] == Rounds(s, 6);
    DoubleRoundInPlace(st);
    assert st[..] == Rounds(s, 7);
    DoubleRoundInPlace(st);
    assert st[..] == Rounds(s, 8);
    DoubleRoundInPlace(st);
    assert st[..] == Rounds(s, 9);
    DoubleRoundInPlace(st);
  }

  /** The counter offset is added once before the rounds and once, with the input, after them. */
  method Core(k: array<Word>, ctx: array<Word>, ctr: Word)
    requires k.Length == 16 && ctx.Length == 16 && k != ctx
    modifies k
    ensures k[..] == Block(AtCounter(ctx[..], ctr))
  {
    hide Rounds, Sum;
    forall i | 0 <= i < 16 { k[i] := ctx[i]; }
    k[12] := Sum(k[12], ctr);
    assert k[..] == AtCounter(ctx[..], ctr);
    ghost var initial := k[..];
    RoundsInPlace(k);
    ghost var mixed := k[..];
    var i := 0;
    while i < 16
      invariant 0 <= i <= 16
      invariant forall j :: 0 <= j < i ==> k[j] == Sum(mixed[j], ctx[j])
      invariant forall j :: i <= j < 16 ==> k[j] == mixed[j]
    {
      var x := Sum(k[i], ctx[i]);
      k[i] := x;
      i := i + 1;
    }
    k[12] := Sum(k[12], ctr);
    SumAssociative(mixed[12], ctx[12], ctr);
  }

  // ---- little-endian loads and stores ----

  function Load32Le(b: array<Byte>, at: nat): Word
    requires at + 4 <= b.Length
    reads b
  {
    ToWord(b[at], b[at + 1], b[at + 2], b[at + 3])
  }

  method Store32Le(b: array<Byte>, at: nat, i: Word)
    requires at + 4 <= b.Length
    modifies b
    ensures forall j :: 0 <= j < 4 ==> b[at + j] == ByteOf(i, j)
    ensures forall j :: 0 <= j < b.Length && (j < at || at + 4 <= j) ==> b[j] == old(b[j])
  {
    hide ByteOf;
    b[at] := ByteOf(i, 0);
    b[at + 1] := ByteOf(i, 1);
    b[at + 2] := ByteOf(i, 2);
    b[at + 3] := ByteOf(i, 3);
  }

  method Init(ctx: array<Word>, k: array<Byte>, n: array<Byte>, ctr: Word)
    requires ctx.Length == 16 && k.Length >= 32 && n.Length >= 12
    modifies ctx
    ensures ctx[..] == Initial(k[..32], ctr, n[..12])
  {
    hide ToWord;
    var constants := [0x61707865, 0x3320646e, 0x79622d32, 0x6b206574];
    var i := 0;
    while i < 4
      invariant 0 <= i <= 4
      invariant forall j :: 0 <= j < i ==> ctx[j] == constants[j]
    {
      ctx[i] := constants[i];
      i := i + 1;
    }
    i := 0;
    while i < 8
      invariant 0 <= i <= 8
      invariant ctx[..4] == constants
      invariant forall j :: 4 <= j < 4 + i ==> ctx[j] == WordAt(k[..32], 4 * (j - 4))
    {
      ctx[4 + i] := Load32Le(k, i * 4);
      i := i + 1;
    }
    ctx[12] := ctr;
    i := 0;
    while i < 3
      invariant 0 <= i <= 3
      invariant ctx[..4] == constants && ctx[12] == ctr
      invariant forall j :: 4 <= j < 12 ==> ctx[j] == WordAt(k[..32], 4 * (j - 4))
      invariant forall j :: 13 <= j < 13 + i ==> ctx[j] == WordAt(n[..12], 4 * (j - 13))
    {
      ctx[13 + i] := Load32Le(n, i * 4);
      i := i + 1;
    }
    InitialAt(k[..32], ctr, n[..12]);
    assert forall j :: 0 <= j < 4 ==> ctx[j] == ctx[..4][j] == Initial(k[..32], ctr, n[..12])[..4][j];
  }

  /** s with a piece of it overwritten from position at on. */
  function Splice<T>(s: seq<T>, at: nat, piece: seq<T>): (r: seq<T>)
    requires at + |piece| <= |s|
    ensures |r| == |s| && r[at..at + |piece|] == piece
  {
    s[..at] + piece + s[at + |piece|..]
  }

  lemma SpliceTwice<T>(s: seq<T>, at: nat, p: seq<T>, q: seq<T>)
    requires at + |p| + |q| <= |s|
    ensures Splice(Splice(s, at, p), at + |p|, q) == Splice(s, at, p + q)
  {}

  lemma SpliceNothing<T>(s: seq<T>, at: nat)
    requires at <= |s|
    ensures Splice(s, at, []) == s
  {}

  lemma SpliceKeeps<T>(s: seq<T>, at: nat, piece: seq<T>, lo: nat, hi: nat)
    requires at + |piece| <= |s|
    ensures (hi <= at || at + |piece| <= lo) && lo <= hi <= |s| ==> Splice(s, at, piece)[lo..hi] == s[lo..hi]
  {}

  /** The static buffers of the C file.  They keep what earlier calls left in them. */
  class Hacl {
    const k: array<Word>
    const bl: array<Word>
    const plain: array<Byte>
    const encryptCtx: array<Word>
    const decryptCtx: array<Word>

    ghost predicate Valid()
    {
      && k.Length == bl.Length == encryptCtx.Length == decryptCtx.Length == 16 && plain.Length == 64
      && k != bl && k != encryptCtx && k != decryptCtx && bl != encryptCtx && bl != decryptCtx
      && encryptCtx != decryptCtx
    }

    constructor ()
      ensures Valid()
    {
      k := new Word[16](_ => 0);
      bl := new Word[16](_ => 0);
      plain := new Byte[64](_ => 0);
      encryptCtx := new Word[16](_ => 0);
      decryptCtx := new Word[16](_ => 0);
    }

    /** One block.  All of the text is read before any of the output is written, so the two
        may overlap in any way. */
    method EncryptBlock(ctx: array<Word>, out: array<Byte>, o: nat, incr: Word, text: array<Byte>, t: nat)
      requires Valid() && ctx.Length == 16 && ctx != k && ctx != bl
      requires o + 64 <= out.Length && t + 64 <= text.Length
      modifies k, bl, out
      ensures out[..] == Splice(old(out[..]), o, XorBlock(AtCounter(ctx[..], incr), old(text[t..t + 64])))
    {
      hide ToWord, ByteOf, Block, Xor, XorByte;
      ghost var was, before := out[..], text[..];
      ghost var initial := AtCounter(ctx[..], incr);
      XorWords(ctx, incr, text, t);
      StoreWords(out, o);
      ghost var xored := XorBlock(initial, before[t..t + 64]);
      forall j | 0 <= j < 64 ensures out[o..o + 64][j] == xored[j] {
        XoredByte(before, t, Block(initial), j);
      }
      assert out[..] == Splice(was, o, out[o..o + 64]);
    }

    /** bl becomes the text's words xor the block, k the block. */
    method XorWords(ctx: array<Word>, incr: Word, text: array<Byte>, t: nat)
      requires Valid() && ctx.Length == 16 && ctx != k && ctx != bl && t + 64 <= text.Length
      modifies k, bl
      ensures var block := Block(AtCounter(ctx[..], incr));
              forall j :: 0 <= j < 16 ==> bl[j] == Xor(WordAt(text[..], t + 4 * j), block[j])
    {
      hide ToWord, Block, Xor;
      Core(k, ctx, incr);
      var i := 0;
      while i < 16
        invariant 0 <= i <= 16
        invariant forall j :: 0 <= j < i ==> bl[j] == WordAt(text[..], t + 4 * j)
        modifies bl
      {
        bl[i] := Load32Le(text, t + i * 4);
        i := i + 1;
      }
      i := 0;
      while i < 16
        invariant 0 <= i <= 16
        invariant forall j :: 0 <= j < i ==> bl[j] == Xor(WordAt(text[..], t + 4 * j), k[j])
        invariant forall j :: i <= j < 16 ==> bl[j] == WordAt(text[..], t + 4 * j)
        modifies bl
      {
        bl[i] := Xor(bl[i], k[i]);
        i := i + 1;
      }
    }

    lemma XoredByte(s: seq<Byte>, t: nat, block: State, j: nat)
      requires t + 64 <= |s| && j < 64
      ensures ByteOf(Xor(WordAt(s, t + 4 * (j / 4)), block[j / 4]), j % 4)
           == XorByte(s[t + j], ByteOf(block[j / 4], j % 4))
    {
      hide ToWord, ByteOf, Xor, XorByte;
      var q, r := j / 4, j % 4;
      XorBytes(WordAt(s, t + 4 * q), block[q], r);
      BytesAt(s, t + 4 * q, r);
    }

    method StoreWords(out: array<Byte>, o: nat)
      requires Valid() && o + 64 <= out.Length
      modifies out
      ensures forall j :: 0 <= j < 64 ==> out[o + j] == ByteOf(bl[j / 4], j % 4)
      ensures forall j :: 0 <= j < out.Length && (j < o || o + 64 <= j) ==> out[j] == old(out[j])
    {
      hide ByteOf;
      var i := 0;
      while i < 16
        invariant 0 <= i <= 16
        invariant forall j :: 0 <= j < 4 * i ==> out[o + j] == ByteOf(bl[j / 4], j % 4)
        invariant forall j :: 0 <= j < out.Length && (j < o || o + 64 <= j) ==> out[j] == old(out[j])
      {
        Store32Le(out, o + i * 4, bl[i]);
        forall j | 4 * i <= j < 4 * i + 4 ensures out[o + j] == ByteOf(bl[j / 4], j % 4) {
          assert out[(o + i * 4) + (j - 4 * i)] == ByteOf(bl[i], j - 4 * i);
        }
        i := i + 1;
      }
    }

    lemma BytesAt(s: seq<Byte>, at: nat, r: nat)
      requires at + 4 <= |s| && r < 4
      ensures ByteOf(WordAt(s, at), r) == s[at + r]
    {
      WordBytes(s[at], s[at + 1], s[at + 2], s[at + 3]);
    }

    /** memcpy between disjoint buffers. */
    static method Copy(dst: array<Byte>, d: nat, src: array<Byte>, s: nat, n: nat)
      requires dst != src && d + n <= dst.Length && s + n <= src.Length
      modifies dst
      ensures dst[..] == Splice(old(dst[..]), d, src[s..s + n])
    {
      forall j | 0 <= j < n { dst[d + j] := src[s + j]; }
    }

    /** The last, partial block goes through `plain`, in place; whatever an earlier call left
        behind in it beyond `len` does not reach the output. */
    method EncryptLast(ctx: array<Word>, len: nat, out: array<Byte>, o: nat, incr: Word, text: array<Byte>, t: nat)
      requires Valid() && ctx.Length == 16 && ctx != k && ctx != bl
      requires len < 64 && o + len <= out.Length && t + len <= text.Length
      requires out != plain && text != plain
      modifies k, bl, plain, out
      ensures out[..] == Splice(old(out[..]), o, XorBlock(AtCounter(ctx[..], incr), old(text[t..t + len])))
    {
      hide XorBlock, AtCounter;
      Copy(plain, 0, text, t, len);
      ghost var padded := plain[..];
      assert plain[0..0 + 64] == padded;
      EncryptBlock(ctx, plain, 0, incr, plain, 0);
      assert plain[0..0 + len] == XorBlock(AtCounter(ctx[..], incr), padded)[..len];
      XorBlockPrefix(AtCounter(ctx[..], incr), padded, len);
      assert padded[..len] == padded[0..0 + len];
      Copy(out, o, plain, 0, len);
    }

    /** The text is at `t` in `text`, the output at `o` in `out`.  If these are the same buffer
        and there is more than one block, the output must not start inside the text. */
    ghost predicate MayOverwrite(out: array<Byte>, o: nat, text: array<Byte>, t: nat, len: nat)
    {
      out != text || o <= t || t + len <= o || len <= 64
    }

    /** The output holds the first m bytes of the text xor the key stream. */
    ghost predicate Written(c: State, m: nat, out: seq<Byte>, o: nat, was: seq<Byte>, before: seq<Byte>)
      requires m <= |before| < 0x1_0000_0000 && o + |before| <= |was|
    {
      out == Splice(was, o, XorStream(c, before[..m]))
    }

    /** The rest of the text is still there to be read. */
    ghost predicate Unread(m: nat, text: seq<Byte>, t: nat, before: seq<Byte>)
      requires m <= |before| && t + |before| <= |text|
    {
      text[t + m..t + |before|] == before[m..]
    }

    lemma NextSlice(m: nat, n: nat, text: seq<Byte>, t: nat, before: seq<Byte>)
      requires m + n <= |before| && t + |before| <= |text| && Unread(m, text, t, before)
      ensures text[t + m..t + m + n] == before[m..m + n] && Unread(m + n, text, t, before)
    {
      assert text[t + m..t + m + n] == text[t + m..t + |before|][..n];
      assert text[t + m + n..t + |before|] == text[t + m..t + |before|][n..];
    }

    lemma PieceWritten(c: State, i: nat, m: nat, n: nat, out: seq<Byte>, o: nat, was: seq<Byte>, before: seq<Byte>)
      requires m == 64 * i && n <= 64 && m + n <= |before| < 0x1_0000_0000 && o + |before| <= |was|
      requires Written(c, m, out, o, was, before)
      ensures o + m + n <= |out|
      ensures Written(c, m + n, Splice(out, o + m, XorBlock(AtCounter(c, OfNat(i)), before[m..m + n])), o, was, before)
    {
      hide XorBlock, XorStream, AtCounter, OfNat, Splice;
      StreamAppend(c, before[..m], before[m..m + n], i);
      assert before[..m] + before[m..m + n] == before[..m + n];
      SpliceTwice(was, o, XorStream(c, before[..m]), XorBlock(AtCounter(c, OfNat(i)), before[m..m + n]));
    }

    /** When text and output are one buffer, writing the next n bytes keeps the rest of the text,
        by the restriction on overlap. */
    lemma RestUnread(piece: seq<Byte>, m: nat, n: nat, buf: seq<Byte>, o: nat, buf': seq<Byte>, t: nat,
                     before: seq<Byte>)
      requires |piece| == n && m + n <= |before| && o + |before| <= |buf| && t + |before| <= |buf|
      requires buf' == Splice(buf, o + m, piece) && (o <= t || t + |before| <= o || m + n == |before|)
      requires Unread(m, buf, t, before)
      ensures Unread(m + n, buf', t, before)
    {
      hide Splice;
      NextSlice(m, n, buf, t, before);
      SpliceKeeps(buf, o + m, piece, t + m + n, t + |before|);
    }

    method Update(ctx: array<Word>, len: nat, out: array<Byte>, o: nat, text: array<Byte>, t: nat)
      requires Valid() && ctx.Length == 16 && ctx != k && ctx != bl
      requires len < 0x1_0000_0000 && o + len <= out.Length && t + len <= text.Length
      requires out != plain && text != plain && MayOverwrite(out, o, text, t, len)
      modifies k, bl, plain, out
      ensures out[..] == Splice(old(out[..]), o, XorStream(ctx[..], old(text[t..t + len])))
    {
      hide XorBlock, XorStream, AtCounter, OfNat, Splice, Written, Unread;
      ghost var was, before, c := out[..], text[t..t + len], ctx[..];
      var rem := len % 64;
      var nb := len / 64;
      NothingDone(c, out[..], o, text[..], t, before);
      var i := 0;
      while i < nb
        invariant 0 <= i <= nb && c == ctx[..]
        invariant Written(c, 64 * i, out[..], o, was, before)
        invariant Unread(64 * i, text[..], t, before)
      {
        UpdateBlock(ctx, out, o, i, text, t, was, before);
        i := i + 1;
      }
      if rem > 0 {
        ghost var out0 := out[..];
        NextSlice(64 * nb, rem, text[..], t, before);
        EncryptLast(ctx, rem, out, o + nb * 64, OfNat(nb), text, t + nb * 64);
        PieceWritten(c, nb, 64 * nb, rem, out0, o, was, before);
      }
      AllWritten(c, out[..], o, was, before);
    }

    /** The loop body: block i of the text. */
    method UpdateBlock(ctx: array<Word>, out: array<Byte>, o: nat, i: nat, text: array<Byte>, t: nat,
                       ghost was: seq<Byte>, ghost before: seq<Byte>)
      requires Valid() && ctx.Length == 16 && ctx != k && ctx != bl
      requires 64 * i + 64 <= |before| < 0x1_0000_0000
      requires o + |before| <= out.Length == |was| && t + |before| <= text.Length
      requires MayOverwrite(out, o, text, t, |before|)
      requires Written(ctx[..], 64 * i, out[..], o, was, before) && Unread(64 * i, text[..], t, before)
      modifies k, bl, out
      ensures Written(ctx[..], 64 * i + 64, out[..], o, was, before) && Unread(64 * i + 64, text[..], t, before)
    {
      hide XorBlock, XorStream, AtCounter, OfNat, Splice, Written, Unread;
      ghost var out0, text0 := out[..], text[..];
      ghost var piece := XorBlock(AtCounter(ctx[..], OfNat(i)), before[64 * i..64 * i + 64]);
      NextSlice(64 * i, 64, text0, t, before);
      assert text[t + i * 64..t + i * 64 + 64] == before[64 * i..64 * i + 64];
      EncryptBlock(ctx, out, o + i * 64, OfNat(i), text, t + i * 64);
      assert out[..] == Splice(out0, o + 64 * i, piece);
      PieceWritten(ctx[..], i, 64 * i, 64, out0, o, was, before);
      if out == text { RestUnread(piece, 64 * i, 64, out0, o, out[..], t, before); }
    }

    lemma NothingDone(c: State, out: seq<Byte>, o: nat, text: seq<Byte>, t: nat, before: seq<Byte>)
      requires |before| < 0x1_0000_0000 && o + |before| <= |out| && t + |before| <= |text|
      requires before == text[t..t + |before|]
      ensures Written(c, 0, out, o, out, before) && Unread(0, text, t, before)
    {
      StreamOfNothing(c);
      SpliceNothing(out, o);
    }

    lemma AllWritten(c: State, out: seq<Byte>, o: nat, was: seq<Byte>, before: seq<Byte>)
      requires |before| < 0x1_0000_0000 && o + |before| <= |was| && Written(c, |before|, out, o, was, before)
      ensures out == Splice(was, o, XorStream(c, before))
    {
      assert before[..|before|] == before;
    }

    /** The splice of the stream, byte by byte. */
    lemma StreamBytes(key: seq<Byte>, ctr: Word, n: seq<Byte>, text: seq<Byte>, was: seq<Byte>, o: nat, out: seq<Byte>)
      requires |key| == 32 && |n| == 12 && |text| < 0x1_0000_0000 && o + |text| <= |was|
      requires out == Splice(was, o, XorStream(Initial(key, ctr, n), text))
      ensures forall j :: 0 <= j < |text| ==>
                out[o + j] == text[j] ^ ByteOf(Block(Initial(key, Sum(ctr, OfNat(j / 64)), n))[j % 64 / 4], j % 4)
      ensures forall j :: 0 <= j < |out| && (j < o || o + |text| <= j) ==> out[j] == was[j]
    {
      hide XorStream, Initial, Splice, Block, ByteOf, OfNat, Sum;
      var stream := XorStream(Initial(key, ctr, n), text);
      forall j | 0 <= j < |text|
        ensures out[o + j] == text[j] ^ ByteOf(Block(Initial(key, Sum(ctr, OfNat(j / 64)), n))[j % 64 / 4], j % 4)
      {
        StreamAt(key, ctr, n, text, j);
        assert out[o + j] == out[o..o + |text|][j];
      }
      SpliceFrame(was, o, stream);
    }

    lemma SpliceFrame<T>(s: seq<T>, at: nat, piece: seq<T>)
      requires at + |piece| <= |s|
      ensures forall j :: 0 <= j < |s| && (j < at || at + |piece| <= j) ==> Splice(s, at, piece)[j] == s[j]
    {}

    /** The output is the text xor the key stream of RFC 8439: nothing outside it is written,
        and nothing of the buffers' earlier contents shows. */
    method Encrypt(len: nat, out: array<Byte>, o: nat, text: array<Byte>, t: nat,
                   key: array<Byte>, n: array<Byte>, ctr: Word)
      requires Valid() && key.Length >= 32 && n.Length >= 12
      requires len < 0x1_0000_0000 && o + len <= out.Length && t + len <= text.Length
      requires out != plain && text != plain && MayOverwrite(out, o, text, t, len)
      modifies k, bl, plain, encryptCtx, out
      ensures out[..] == Splice(old(out[..]), o,
                                XorStream(Initial(old(key[..32]), ctr, old(n[..12])), old(text[t..t + len])))
      ensures forall j :: 0 <= j < len ==>
                out[o + j] == old(text[t + j])
                  ^ ByteOf(Block(Initial(old(key[..32]), Sum(ctr, OfNat(j / 64)), old(n[..12])))[j % 64 / 4], j % 4)
      ensures forall j :: 0 <= j < out.Length && (j < o || o + len <= j) ==> out[j] == old(out[j])
    {
      hide XorStream, Initial, Splice, Block, ByteOf, OfNat, Sum;
      ghost var was, before, k0, n0 := out[..], text[t..t + len], key[..32], n[..12];
      Init(encryptCtx, key, n, ctr);
      Update(encryptCtx, len, out, o, text, t);
      StreamBytes(k0, ctr, n0, before, was, o, out[..]);
    }

    method Decrypt(len: nat, out: array<Byte>, o: nat, cipher: array<Byte>, t: nat,
                   key: array<Byte>, n: array<Byte>, ctr: Word)
      requires Valid() && key.Length >= 32 && n.Length >= 12
      requires len < 0x1_0000_0000 && o + len <= out.Length && t + len <= cipher.Length
      requires out != plain && cipher != plain && MayOverwrite(out, o, cipher, t, len)
      modifies k, bl, plain, decryptCtx, out
      ensures out[..] == Splice(old(out[..]), o,
                                XorStream(Initial(old(key[..32]), ctr, old(n[..12])), old(cipher[t..t + len])))
      ensures forall j :: 0 <= j < len ==>
                out[o + j] == old(cipher[t + j])
                  ^ ByteOf(Block(Initial(old(key[..32]), Sum(ctr, OfNat(j / 64)), old(n[..12])))[j % 64 / 4], j % 4)
      ensures forall j :: 0 <= j < out.Length && (j < o || o + len <= j) ==> out[j] == old(out[j])
    {
      hide XorStream, Initial, Splice, Block, ByteOf, OfNat, Sum;
      ghost var was, before, k0, n0 := out[..], cipher[t..t + len], key[..32], n[..12];
      Init(decryptCtx, key, n, ctr);
      Update(decryptCtx, len, out, o, cipher, t);
      StreamBytes(k0, ctr, n0, before, was, o, out[..]);
    }

    /** Encrypting `text` to `out` and decrypting that to `back` gives the text, whatever the three
        share as far as the single calls admit it, and writes nothing else. */
    method RoundTrip(len: nat, text: array<Byte>, t: nat, out: array<Byte>, o: nat, back: array<Byte>, b: nat,
                     key: array<Byte>, n: array<Byte>, ctr: Word)
      requires Valid() && key.Length >= 32 && n.Length >= 12
      requires len < 0x1_0000_0000 && t + len <= text.Length && o + len <= out.Length && b + len <= back.Length
      requires text != plain && out != plain && back != plain && key != plain && n != plain && key != out && n != out
      requires MayOverwrite(out, o, text, t, len) && MayOverwrite(back, b, out, o, len)
      modifies k, bl, plain, encryptCtx, decryptCtx, out, back
      ensures var written := Splice(old(out[..]), o,
                                    XorStream(Initial(old(key[..32]), ctr, old(n[..12])), old(text[t..t + len])));
              && (out != back ==> out[..] == written)
              && back[..] == Splice(if back == out then written else old(back[..]), b, old(text[t..t + len]))
    {
      hide XorStream, Initial, Splice;
      ghost var ctx, before := Initial(key[..32], ctr, n[..12]), text[t..t + len];
      Encrypt(len, out, o, text, t, key, n, ctr);
      assert out[o..o + len] == XorStream(ctx, before);
      StreamInvolution(ctx, before);
      Decrypt(len, back, b, out, o, key, n, ctr);
    }

    /** Encrypting a buffer in place and decrypting it in place leaves it as it was. */
    method InPlaceRoundTrip(len: nat, buf: array<Byte>, at: nat, key: array<Byte>, n: array<Byte>, ctr: Word)
      requires Valid() && key.Length >= 32 && n.Length >= 12
      requires len < 0x1_0000_0000 && at + len <= buf.Length
      requires buf != plain && key != plain && n != plain && key != buf && n != buf
      modifies k, bl, plain, encryptCtx, decryptCtx, buf
      ensures buf[..] == old(buf[..])
    {
      hide XorStream, Initial, Splice;
      ghost var cipher := XorStream(Initial(key[..32], ctr, n[..12]), buf[at..at + len]);
      SpliceBack(buf[..], at, cipher);
      RoundTrip(len, buf, at, buf, at, buf, at, key, n, ctr);
    }

    lemma SpliceBack<T>(s: seq<T>, at: nat, piece: seq<T>)
      requires at + |piece| <= |s|
      ensures Splice(Splice(s, at, piece), at, s[at..at + |piece|]) == s
    {}
  }
}
