/** newlib-bsp/syscalls.c: the ring filled by the external interrupt and drained by read. */
module StdinRing {
  type Byte = x: int | 0 <= x < 256

  const STDIN_FILENO := 0
  const EBADF := 9
  const EAGAIN := 11

  // ---- the queue the ring stands for ----

  /** What happens to the ring, in order: interrupts for these bytes, or read taking a byte out. */
  datatype Event = Burst(bytes: seq<Byte>) | Take

  /** The bytes read took out so far and those still waiting. */
  datatype Queue = Queue(got: seq<Byte>, held: seq<Byte>)

  /** The bytes of a burst that find room. */
  function Admitted(held: nat, bytes: seq<Byte>): seq<Byte>
    requires held <= 255
  {
    if held + |bytes| <= 255 then bytes else bytes[..255 - held]
  }

  /** A first-in first-out queue of 255 places that turns away what it has no room for. */
  function After(run: seq<Event>): (q: Queue)
    ensures |q.held| <= 255
  {
    if run == [] then Queue([], [])
    else
      var q := After(run[..|run| - 1]);
      match run[|run| - 1]
      case Burst(bytes) => q.(held := q.held + Admitted(|q.held|, bytes))
      case Take => if q.held == [] then q else Queue(q.got + [q.held[0]], q.held[1..])
  }

  /** All bytes that found room. */
  function Accepted(run: seq<Event>): seq<Byte>
  {
    if run == [] then []
    else
      var init := run[..|run| - 1];
      match run[|run| - 1]
      case Burst(bytes) => Accepted(init) + Admitted(|After(init).held|, bytes)
      case Take => Accepted(init)
  }

  /** All interrupts, whether their bytes found room or not. */
  function Bursts(run: seq<Event>): seq<seq<Byte>>
  {
    if run == [] then []
    else
      match run[|run| - 1]
      case Burst(bytes) => Bursts(run[..|run| - 1]) + [bytes]
      case Take => Bursts(run[..|run| - 1])
  }

  /** No accepted byte is lost, duplicated or reordered. */
  lemma {:induction false} Conservation(run: seq<Event>)
    ensures After(run).got + After(run).held == Accepted(run)
  {
    hide Admitted;
    if run != [] {
      var q := After(run[..|run| - 1]);
      Conservation(run[..|run| - 1]);
      match run[|run| - 1]
      case Burst(bytes) =>
      case Take => if q.held != [] { assert q.held == [q.held[0]] + q.held[1..]; }
    }
  }

  lemma Extend(run: seq<Event>, e: Event)
    ensures (run + [e])[..|run|] == run && (run + [e])[|run|] == e
    ensures e.Take? ==> Bursts(run + [e]) == Bursts(run)
    ensures e.Take? && After(run).held != [] ==>
              After(run + [e]) == Queue(After(run).got + [After(run).held[0]], After(run).held[1..])
    ensures e.Burst? ==>
              && Bursts(run + [e]) == Bursts(run) + [e.bytes]
              && After(run + [e]) == After(run).(held := After(run).held + Admitted(|After(run).held|, e.bytes))
  {
    assert (run + [e])[..|run|] == run;
  }

  lemma {:induction false} BurstsGrow(before: seq<Event>, run: seq<Event>)
    requires before <= run
    ensures |Bursts(before)| <= |Bursts(run)|
    decreases |run|
  {
    if before != run { BurstsGrow(before, run[..|run| - 1]); }
  }

  lemma AdmittedNone(held: nat, bytes: seq<Byte>)
    requires held <= 255
    ensures Admitted(held, bytes[..0]) == []
  {}

  lemma AdmittedStep(held: nat, bytes: seq<Byte>, i: nat)
    requires held <= 255 && i < |bytes|
    ensures var before := Admitted(held, bytes[..i]);
            Admitted(held, bytes[..i + 1]) == before + if held + |before| < 255 then [bytes[i]] else []
  {}

  // ---- the ring ----

  function NextPos(pos: nat): nat { (pos + 1) % 256 }

  /** The bytes from rpos up to wpos, around the end of the buffer. */
  function Unread(buf: seq<Byte>, rpos: nat, wpos: nat): seq<Byte>
    requires |buf| == 256 && rpos < 256 && wpos < 256
  {
    if rpos <= wpos then buf[rpos..wpos] else buf[rpos..] + buf[..wpos]
  }

  lemma Stored(buf: seq<Byte>, rpos: nat, wpos: nat, b: Byte)
    requires |buf| == 256 && rpos < 256 && wpos < 256 && NextPos(wpos) != rpos
    ensures Unread(buf[wpos := b], rpos, NextPos(wpos)) == Unread(buf, rpos, wpos) + [b]
  {
    var buf' := buf[wpos := b];
    if wpos == 255 {
      assert NextPos(wpos) == 0 && buf'[rpos..] == buf[rpos..255] + [b];
    } else {
      assert NextPos(wpos) == wpos + 1;
      if rpos <= wpos { assert buf'[rpos..wpos + 1] == buf[rpos..wpos] + [b]; }
      else { assert buf'[rpos..] == buf[rpos..] && buf'[..wpos + 1] == buf[..wpos] + [b]; }
    }
  }

  lemma Taken(buf: seq<Byte>, rpos: nat, wpos: nat)
    requires |buf| == 256 && rpos < 256 && wpos < 256
    ensures rpos == wpos <==> Unread(buf, rpos, wpos) == []
    ensures rpos != wpos ==> Unread(buf, rpos, wpos) == [buf[rpos]] + Unread(buf, NextPos(rpos), wpos)
  {
    if rpos < wpos {
      assert NextPos(rpos) == rpos + 1;
      assert buf[rpos..wpos] == [buf[rpos]] + buf[rpos + 1..wpos];
    } else if rpos > wpos {
      TakenAround(buf, rpos, wpos);
    }
  }

  lemma TakenAround(buf: seq<Byte>, rpos: nat, wpos: nat)
    requires |buf| == 256 && wpos < rpos < 256
    ensures buf[rpos..] + buf[..wpos] == [buf[rpos]] + Unread(buf, NextPos(rpos), wpos)
  {
    if rpos == 255 {
      assert NextPos(rpos) == 0 && buf[255..] == [buf[255]];
    } else {
      assert NextPos(rpos) == rpos + 1;
    }
  }

  class Stdin {
    const buf: array<Byte>
    var rpos: nat
    var wpos: nat

    // The bytes the device will present at each coming point of the program, one to every
    // invocation of the interrupt routine.
    var arrivals: seq<seq<Byte>>

    // What happened so far, and all that the device had to offer at the start.
    ghost var run: seq<Event>
    ghost const device: seq<seq<Byte>>

    ghost predicate Shape()
      reads this, buf
    {
      buf.Length == 256 && rpos < 256 && wpos < 256
    }

    ghost function Held(): (held: seq<Byte>)
      requires Shape()
      reads this, buf
      ensures |held| <= 255
    {
      Unread(buf[..], rpos, wpos)
    }

    /** The ring is the queue of its history, and the history is made of the device's bytes. */
    ghost predicate Valid()
      reads this, buf
    {
      Shape() && After(run).held == Held() && Bursts(run) + arrivals == device
    }

    constructor (arrivals: seq<seq<Byte>>)
      ensures Valid() && run == [] && this.arrivals == device == arrivals && fresh(buf)
    {
      buf := new Byte[256](_ => 0);
      rpos, wpos := 0, 0;
      this.arrivals, device := arrivals, arrivals;
      run := [];
    }

    /** external_interrupt_isr: when the ring is full the byte stays in the device. */
    method Isr(byte: Byte)
      requires Shape()
      modifies this`wpos, buf
      ensures Shape()
      ensures Held() == if |old(Held())| < 255 then old(Held()) + [byte] else old(Held())
    {
      if NextPos(wpos) != rpos {
        Stored(buf[..], rpos, wpos, byte);
        buf[wpos] := byte;
        wpos := NextPos(wpos);
      }
    }

    /** A point between two steps of the program: any number of interrupts may come here. */
    method Point()
      requires Valid()
      modifies this`wpos, this`run, this`arrivals, buf
      ensures Valid()
      ensures old(arrivals) == [] ==> run == old(run)
      ensures old(arrivals) != [] ==> run == old(run) + [Burst(old(arrivals)[0])]
      ensures After(run).got == old(After(run).got) && old(Held()) <= Held()
    {
      hide Admitted, Unread, After, Bursts;
      if arrivals != [] {
        var bytes := arrivals[0];
        Serve(bytes);
        Extend(run, Burst(bytes));
        assert Bursts(run) + arrivals == (Bursts(run) + [bytes]) + arrivals[1..];
        arrivals := arrivals[1..];
        run := run + [Burst(bytes)];
      }
    }

    /** The interrupt routine, once for each of the bytes. */
    method Serve(bytes: seq<Byte>)
      requires Shape()
      modifies this`wpos, buf
      ensures Shape() && Held() == old(Held()) + Admitted(|old(Held())|, bytes)
    {
      hide Admitted, Unread;
      ghost var held := Held();
      var i := 0;
      AdmittedNone(|held|, bytes);
      while i < |bytes|
        invariant 0 <= i <= |bytes| && Shape()
        invariant Held() == held + Admitted(|held|, bytes[..i])
      {
        AdmittedStep(|held|, bytes, i);
        Isr(bytes[i]);
        i := i + 1;
      }
      assert bytes[..i] == bytes;
    }

    /** `empty` is the truth at position k of the history. */
    method IsEmpty() returns (empty: bool, ghost k: nat)
      requires Valid()
      modifies this`wpos, this`run, this`arrivals, buf
      ensures Valid() && old(run) <= run && After(run).got == old(After(run).got)
      ensures empty ==> |old(run)| <= k <= |run| && After(run[..k]) == Queue(After(run).got, [])
      ensures empty ==> old(Held()) == []
      ensures !empty ==> Held() != []
      ensures old(Held()) <= Held()
    {
      hide Unread, After, Bursts;
      var r := rpos;
      Point();
      var w := wpos;
      empty := r == w;
      Taken(buf[..], rpos, wpos);
      k := |run|;
      ghost var seen := run;
      Point();
      assert run[..k] == seen;
    }

    /** Loads the read position and then the byte there. */
    method Peek() returns (b: Byte)
      requires Valid() && Held() != []
      modifies this`wpos, this`run, this`arrivals, buf
      ensures Valid() && old(run) <= run && After(run).got == old(After(run).got)
      ensures b == old(Held())[0] && old(Held()) <= Held()
    {
      hide Unread, After, Bursts;
      var slot := rpos;
      Point();
      Taken(buf[..], rpos, wpos);
      b := buf[slot];
      Point();
    }

    /** The body of the read loop: the byte stays in the ring until rpos moves, so an interrupt
        in between cannot overwrite it. */
    method TakeByte(dest: array<Byte>, at: nat)
      requires Valid() && Held() != [] && at < dest.Length && dest != buf
      modifies this`rpos, this`wpos, this`run, this`arrivals, buf, dest
      ensures Valid() && old(run) <= run
      ensures After(run).got == old(After(run).got) + [dest[at]] && dest[at] == old(Held())[0]
      ensures old(Held())[1..] <= Held()
      ensures forall j :: 0 <= j < dest.Length && j != at ==> dest[j] == old(dest[j])
    {
      hide Unread, After, Bursts;
      var b := Peek();
      dest[at] := b;
      Point();
      var r := rpos;
      Point();
      Advance(r);
      Point();
    }

    /** rpos moves on: the oldest byte is out of the ring. */
    method Advance(r: nat)
      requires Valid() && r == rpos && Held() != []
      modifies this`rpos, this`run
      ensures Valid() && run == old(run) + [Take]
      ensures Held() == old(Held())[1..] && After(run).got == old(After(run).got) + [old(Held())[0]]
    {
      hide Unread, After, Bursts;
      Taken(buf[..], rpos, wpos);
      Extend(run, Take);
      rpos := NextPos(r);
      run := run + [Take];
    }

    /** sys_read, interruptible between any two loads and stores.  Unless it fills the buffer,
        there was a moment when all that was accepted had been read. */
    method Read(fd: int, dest: array<Byte>, count: nat) returns (ret: int)
      requires Valid() && count <= dest.Length && dest != buf
      modifies this`rpos, this`wpos, this`run, this`arrivals, buf, dest
      ensures Valid() && old(run) <= run
      ensures old(arrivals) != [] ==> |Bursts(run)| > |Bursts(old(run))|
      ensures ret == -EBADF <==> fd != STDIN_FILENO
      ensures ret == -EBADF || ret == -EAGAIN || 0 <= ret <= count
      ensures ret == 0 ==> count == 0
      ensures var n := if ret < 0 then 0 else ret;
              After(run).got == old(After(run).got) + dest[..n] && dest[n..] == old(dest[n..])
      ensures ret == -EAGAIN || 0 <= ret < count ==> Drained(run, |old(run)|)
      ensures ret == -EAGAIN ==> old(Held()) == []
      ensures 0 <= ret < count ==> |old(Held())| <= ret
    {
      hide Unread, After, Bursts;
      Point();
      ghost var started := run;
      if old(arrivals) != [] { Extend(old(run), Burst(old(arrivals)[0])); }
      if fd != STDIN_FILENO {
        return -EBADF;
      }
      var empty;
      ghost var k;
      empty, k := IsEmpty();
      if empty {
        BurstsGrow(started, run);
        return -EAGAIN;
      }
      var numRead := Fill(dest, count);
      BurstsGrow(started, run);
      return numRead;
    }

    /** The read loop, on a ring that is not empty. */
    method Fill(dest: array<Byte>, count: nat) returns (numRead: nat)
      requires Valid() && Held() != [] && count <= dest.Length && dest != buf
      modifies this`rpos, this`wpos, this`run, this`arrivals, buf, dest
      ensures Valid() && old(run) <= run && numRead <= count && (numRead == 0 ==> count == 0)
      ensures After(run).got == old(After(run).got) + dest[..numRead] && dest[numRead..] == old(dest[numRead..])
      ensures numRead < count ==> Drained(run, |old(run)|) && |old(Held())| <= numRead
    {
      hide Unread, After, Bursts;
      numRead := 0;
      while true
        invariant Valid() && old(run) <= run
        invariant 0 <= numRead <= count && (numRead == 0 ==> Held() != [])
        invariant After(run).got == old(After(run).got) + dest[..][..numRead]
        invariant dest[..][numRead..] == old(dest[..])[numRead..]
        invariant |old(Held())| - numRead <= |Held()|
        decreases count - numRead
      {
        var empty;
        ghost var k;
        empty, k := IsEmpty();
        if empty || numRead >= count {
          break;
        }
        ghost var before := dest[..];
        TakeByte(dest, numRead);
        OneMoreByte(before, dest[..], numRead);
        numRead := numRead + 1;
      }
    }
  }

  lemma OneMoreByte(before: seq<Byte>, after: seq<Byte>, at: nat)
    requires at < |before| == |after| && forall j :: 0 <= j < |before| && j != at ==> after[j] == before[j]
    ensures after[..at + 1] == before[..at] + [after[at]] && after[at + 1..] == before[at..][1..]
  {}

  /** At some position of the history from `from` on, all bytes accepted so far had been taken,
      and no more were taken later. */
  ghost predicate Drained(run: seq<Event>, from: nat)
  {
    exists k :: from <= k <= |run| && After(run[..k]) == Queue(After(run).got, [])
  }

  // ---- whole sessions ----

  /** One call of read, and what the program gets from it. */
  datatype Call = Call(fd: int, count: nat)
  datatype Reply = Reply(ret: int, data: seq<Byte>)

  function AllData(replies: seq<Reply>): seq<Byte>
  {
    if replies == [] then [] else AllData(replies[..|replies| - 1]) + replies[|replies| - 1].data
  }

  /** The error codes, and how much data comes with which return value. */
  predicate Fits(call: Call, reply: Reply)
  {
    && (reply.ret == -EBADF <==> call.fd != STDIN_FILENO)
    && (reply.ret == -EBADF || reply.ret == -EAGAIN || 0 <= reply.ret <= call.count)
    && (reply.ret == 0 ==> call.count == 0)
    && |reply.data| == (if reply.ret < 0 then 0 else reply.ret)
  }

  /** The reply is explained by the part of the history from position m to position n. */
  ghost predicate Answers(call: Call, reply: Reply, run: seq<Event>, m: nat, n: nat)
  {
    && m <= n <= |run|
    && After(run[..n]).got == After(run[..m]).got + reply.data
    && Fits(call, reply)
    && (reply.ret == -EAGAIN || 0 <= reply.ret < call.count ==> Drained(run[..n], m))
  }

  /** A history, cut into one part for each call, explains all replies. */
  ghost predicate Explains(calls: seq<Call>, replies: seq<Reply>, run: seq<Event>, marks: seq<nat>)
  {
    && |replies| == |calls| && |marks| == |calls| + 1 && marks[0] == 0 && marks[|calls|] == |run|
    && forall i :: 0 <= i < |calls| ==> Answers(calls[i], replies[i], run, marks[i], marks[i + 1])
  }

  /** Any sequence of calls on a fresh ring, against any device: some history of the queue, made
      of the device's bursts in their order, explains all replies.  The bytes the program got,
      followed by those still in the ring, are those of the bursts that found room. */
  method Session(arrivals: seq<seq<Byte>>, calls: seq<Call>)
    returns (ring: Stdin, replies: seq<Reply>, ghost marks: seq<nat>)
    ensures ring.Valid() && Bursts(ring.run) + ring.arrivals == arrivals
    ensures ring.arrivals == [] || |Bursts(ring.run)| >= |calls|
    ensures Explains(calls, replies, ring.run, marks)
    ensures AllData(replies) + ring.Held() == Accepted(ring.run) && |ring.Held()| <= 255
  {
    ring := new Stdin(arrivals);
    replies, marks := [], [0];
    hide Unread, After, Bursts, Explains, Answers, AllData;
    var i := 0;
    assert calls[..0] == [];
    StartsEmpty();
    while i < |calls|
      invariant 0 <= i <= |calls| && ring.Valid() && fresh(ring) && fresh(ring.buf) && ring.device == arrivals
      invariant Explains(calls[..i], replies, ring.run, marks)
      invariant After(ring.run).got == AllData(replies)
      invariant ring.arrivals == [] || |Bursts(ring.run)| >= i
    {
      ghost var before := ring.run;
      var reply := OneCall(ring, calls[i]);
      NextExplained(calls, replies, before, marks, i, reply, ring.run);
      replies, marks := replies + [reply], marks + [|ring.run|];
      i := i + 1;
    }
    assert calls[..i] == calls;
    Conservation(ring.run);
  }

  /** One call into a buffer of its own. */
  method OneCall(ring: Stdin, call: Call) returns (reply: Reply)
    requires ring.Valid()
    modifies ring, ring.buf
    ensures ring.Valid() && old(ring.run) <= ring.run
    ensures ring.arrivals == [] || |Bursts(ring.run)| > |Bursts(old(ring.run))|
    ensures Answers(call, reply, ring.run, |old(ring.run)|, |ring.run|)
    ensures After(ring.run).got == old(After(ring.run).got) + reply.data
  {
    hide Unread, After, Bursts, Answers;
    var dest := new Byte[call.count];
    ghost var before := ring.run;
    var ret := ring.Read(call.fd, dest, call.count);
    reply := Reply(ret, if ret < 0 then [] else dest[..ret]);
    Answered(call, reply, before, ring.run);
    BurstsGrow(before, ring.run);
    assert |ring.device| == |Bursts(ring.run)| + |ring.arrivals|;
  }

  lemma StartsEmpty()
    ensures After([]) == Queue([], []) && Explains([], [], [], [0]) && AllData([]) == []
  {}

  lemma Answered(call: Call, reply: Reply, before: seq<Event>, run: seq<Event>)
    requires before <= run && After(run).got == After(before).got + reply.data
    requires Fits(call, reply)
    requires reply.ret == -EAGAIN || 0 <= reply.ret < call.count ==> Drained(run, |before|)
    ensures Answers(call, reply, run, |before|, |run|)
  {
    hide After, Drained, Fits, Accepted, Bursts, Admitted, Unread, AllData;
    Slices(before, run);
  }

  lemma Slices(before: seq<Event>, run: seq<Event>)
    requires before <= run
    ensures run[..|before|] == before && run[..|run|] == run
  {}

  /** What a history explained it still explains when it goes on. */
  lemma NextExplained(calls: seq<Call>, replies: seq<Reply>, before: seq<Event>, marks: seq<nat>, i: nat,
                      reply: Reply, run: seq<Event>)
    requires i < |calls| && Explains(calls[..i], replies, before, marks)
    requires before <= run && Answers(calls[i], reply, run, |before|, |run|)
    ensures Explains(calls[..i + 1], replies + [reply], run, marks + [|run|])
    ensures AllData(replies + [reply]) == AllData(replies) + reply.data
  {
    hide Answers;
    assert (replies + [reply])[..i] == replies;
    var marks' := marks + [|run|];
    forall j | 0 <= j < i + 1
      ensures Answers(calls[..i + 1][j], (replies + [reply])[j], run, marks'[j], marks'[j + 1])
    {
      if j < i { StillAnswers(calls[j], replies[j], before, run, marks[j], marks[j + 1]); }
    }
  }

  lemma StillAnswers(call: Call, reply: Reply, before: seq<Event>, run: seq<Event>, m: nat, n: nat)
    requires before <= run && Answers(call, reply, before, m, n)
    ensures Answers(call, reply, run, m, n)
  {
    hide After, Drained;
    assert run[..m] == before[..m] && run[..n] == before[..n];
  }
}
