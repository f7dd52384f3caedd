/** newlib-bsp/performance.c: reading a running 64-bit counter through two 32-bit registers. */
module CycleCounter {
  import Bits

  type U32 = x: int | 0 <= x < 0x1_0000_0000
  type U64 = x: int | 0 <= x < 0x1_0000_0000_0000_0000

  function High(n: U64): U32 { n / 0x1_0000_0000 }
  function Low(n: U64): U32 { n % 0x1_0000_0000 }

  /** c(n) is the counter at the n-th register read, whenever that happens: it never goes back. */
  ghost predicate Monotone(c: nat -> U64)
  {
    forall m: nat, n: nat :: m <= n ==> c(m) <= c(n)
  }

  /** (uint64_t) high << 32 | low */
  function Join(high: U32, low: U32): nat { Bits.Or(64, high * 0x1_0000_0000, low) }

  lemma JoinIs(high: U32, low: U32)
    ensures Join(high, low) == high as int * 0x1_0000_0000 + low
  {
    hide Bits.Bitwise, Bits.Pow2;
    Bits.Pow2Values();
    Bits.BitwiseSplit(Bits.OrOp, 32, 32, high as int * 0x1_0000_0000, low, 0, high, low, 0);
    Bits.Zero(32, high); Bits.Zero(32, low);
  }

  /** The three reads from position p on see the same high half before and after the low one. */
  ghost predicate Stable(c: nat -> U64, p: nat)
  {
    High(c(p)) == High(c(p + 2))
  }

  /** Between two reads with the same high half the counter did not carry into it. */
  lemma StableRead(c: nat -> U64, p: nat)
    requires Monotone(c) && Stable(c, p)
    ensures Join(High(c(p)), Low(c(p + 1))) == c(p + 1)
  {
    hide Join;
    assert c(p) <= c(p + 1) <= c(p + 2);
    SameHigh(c(p), c(p + 1), c(p + 2));
    JoinIs(High(c(p)), Low(c(p + 1)));
  }

  lemma SameHigh(a: U64, b: U64, d: U64)
    requires a <= b <= d && High(a) == High(d)
    ensures b == High(a) as int * 0x1_0000_0000 + Low(b)
  {}

  /** Attempt k of a call that starts at read number `start`. */
  ghost predicate Accepted(c: nat -> U64, start: nat, k: nat)
  {
    Stable(c, start + 3 * k)
  }

  /** A call of rdcycle that starts at read number `start` returns what attempt k
      reads, the first one accepted. */
  ghost predicate Returns(c: nat -> U64, start: nat, k: nat)
  {
    Accepted(c, start, k) && forall j :: 0 <= j < k ==> !Accepted(c, start, j)
  }

  lemma RetryRaises(c: nat -> U64, p: nat)
    requires Monotone(c) && !Stable(c, p)
    ensures High(c(p)) < High(c(p + 3))
  {
    assert c(p) <= c(p + 2) <= c(p + 3);
  }

  /** The retry loop, from read number `start` on.  The result is the counter's value at the
      low read of the first accepted attempt; the loop ends because every retry means that the
      high half went up. */
  method Rdcycle(c: nat -> U64, start: nat) returns (cycles: U64, next: nat)
    requires Monotone(c)
    ensures exists k: nat ::
              && Returns(c, start, k) && next == start + 3 * k + 3 && cycles == c(start + 3 * k + 1)
              && k <= High(c(start + 3 * k)) - High(c(start))
  {
    hide High, Low, Join, Monotone;
    var p := start;
    ghost var retries := 0;
    var rdcycleh, rdcycle, check := High(c(p)), Low(c(p + 1)), High(c(p + 2));
    while rdcycleh != check
      invariant p == start + 3 * retries
      invariant rdcycleh == High(c(p)) && rdcycle == Low(c(p + 1)) && check == High(c(p + 2))
      invariant forall k :: 0 <= k < retries ==> !Accepted(c, start, k)
      invariant retries <= rdcycleh - High(c(start))
      decreases 0x1_0000_0000 - rdcycleh
    {
      RetryRaises(c, p);
      assert !Accepted(c, start, retries);
      p := p + 3;
      retries := retries + 1;
      rdcycleh, rdcycle, check := High(c(p)), Low(c(p + 1)), High(c(p + 2));
    }
    StableRead(c, p);
    cycles := Join(rdcycleh, rdcycle);
    next := p + 3;
    assert Returns(c, start, retries);
  }

  /** Without the check a carry between the two reads yields a value the counter never had. */
  lemma TornRead()
    ensures exists c: nat -> U64 :: Monotone(c) && forall n: nat :: Join(High(c(0)), Low(c(1))) != c(n)
  {
    hide Join;
    var c: nat -> U64 := n => if n == 0 then 0xffff_ffff else 0x1_0000_0000;
    assert High(c(0)) == 0 && Low(c(1)) == 0;
    JoinIs(0, 0);
    assert Monotone(c);
    assert forall n: nat :: Join(High(c(0)), Low(c(1))) != c(n);
  }

  ghost predicate Reaches(c: nat -> U64, v: U64)
  {
    exists n: nat :: c(n) >= v
  }

  function EndTime(began: U64, sleepTime: U64): U64
  {
    (began as int + sleepTime) % 0x1_0000_0000_0000_0000
  }

  /** A call of rdcycle that starts at read number `from` returns v; the next starts at `next`. */
  ghost predicate Reads(c: nat -> U64, from: nat, v: U64, next: nat)
  {
    exists k: nat :: Returns(c, from, k) && v == c(from + 3 * k + 1) && next == from + 3 * k + 3
  }

  /** Calls of rdcycle one after the other, at the read numbers `at`, return `values`: the first
      gives the end time, and no other but the last has reached it. */
  ghost predicate Polls(c: nat -> U64, sleepTime: U64, at: seq<nat>, values: seq<U64>)
  {
    && |at| == |values| + 1 >= 3
    && (forall i :: 0 <= i < |values| ==> Reads(c, at[i], values[i], at[i + 1]))
    && (forall i :: 1 <= i < |values| - 1 ==> values[i] < EndTime(values[0], sleepTime))
  }

  /** What sleep does: it polls from read number `start` until the end time is reached. */
  ghost predicate Slept(c: nat -> U64, start: nat, sleepTime: U64, began: U64, ended: U64, next: nat)
  {
    exists at, values ::
      && Polls(c, sleepTime, at, values) && at[0] == start && at[|values|] == next
      && values[0] == began && values[|values| - 1] == ended >= EndTime(began, sleepTime)
  }

  /** While sleep goes on, less than the requested cycles have passed; and if the end time wraps
      it does not go on at all. */
  lemma InnerPolls(c: nat -> U64, sleepTime: U64, at: seq<nat>, values: seq<U64>)
    requires Monotone(c) && Polls(c, sleepTime, at, values)
    ensures values[0] as int + sleepTime < 0x1_0000_0000_0000_0000 ==>
              forall i :: 1 <= i < |values| - 1 ==> values[i] - values[0] < sleepTime
    ensures values[0] as int + sleepTime >= 0x1_0000_0000_0000_0000 ==> |values| == 2
  {
    if |values| > 2 {
      assert Reads(c, at[0], values[0], at[1]) && Reads(c, at[1], values[1], at[2]);
      assert values[0] <= values[1] by { hide High, Low, Returns; }
    }
  }

  lemma PollsAgain(c: nat -> U64, sleepTime: U64, at: seq<nat>, values: seq<U64>, v: U64, next: nat)
    requires Polls(c, sleepTime, at, values) && values[|values| - 1] < EndTime(values[0], sleepTime)
    requires Reads(c, at[|values|], v, next)
    ensures Polls(c, sleepTime, at + [next], values + [v])
  {
    hide Reads;
  }

  /** sleep: `began` and `ended` are what its first and its last call of rdcycle return.  It comes
      back if the counter reaches the end time. */
  method Sleep(c: nat -> U64, start: nat, sleepTime: U64) returns (next: nat, began: U64, ended: U64)
    requires Monotone(c)
    requires forall k: nat :: Returns(c, start, k) ==> Reaches(c, EndTime(c(start + 3 * k + 1), sleepTime))
    ensures Slept(c, start, sleepTime, began, ended, next)
    ensures next > 0 && c(start) <= began <= ended <= c(next - 1)
    ensures ended - began >= sleepTime <==> began as int + sleepTime < 0x1_0000_0000_0000_0000
  {
    hide High, Low, Accepted, Polls, Reads;
    began, next := Poll(c, start);
    var endTime := EndTime(began, sleepTime);
    WillReach(c, start, sleepTime, began, next);
    ghost var horizon: nat :| c(horizon) >= endTime;
    ghost var at, values := [start, next], [began];
    ended, next := Poll(c, next);
    at, values := at + [next], values + [ended];
    TwoPolls(c, sleepTime, at, values);
    while ended < endTime
      invariant next > start + 3 && began <= ended == c(next - 2) && |at| == |values| + 1
      invariant Polls(c, sleepTime, at, values) && at[0] == start && at[|values|] == next
      invariant values[0] == began && values[|values| - 1] == ended
      decreases horizon + 2 - next
    {
      assert next < horizon + 2;
      ended, next := Poll(c, next);
      PollsAgain(c, sleepTime, at, values, ended, next);
      at, values := at + [next], values + [ended];
    }
    assert c(start) <= c(next - 1);
  }

  lemma WillReach(c: nat -> U64, start: nat, sleepTime: U64, began: U64, next: nat)
    requires forall k: nat :: Returns(c, start, k) ==> Reaches(c, EndTime(c(start + 3 * k + 1), sleepTime))
    requires Reads(c, start, began, next)
    ensures Reaches(c, EndTime(began, sleepTime))
  {
    hide Returns, Reaches;
  }

  lemma TwoPolls(c: nat -> U64, sleepTime: U64, at: seq<nat>, values: seq<U64>)
    requires |at| == 3 && |values| == 2 && Reads(c, at[0], values[0], at[1]) && Reads(c, at[1], values[1], at[2])
    ensures Polls(c, sleepTime, at, values)
  {
    hide Reads;
  }

  /** rdcycle, as sleep needs it. */
  method Poll(c: nat -> U64, start: nat) returns (cycles: U64, next: nat)
    requires Monotone(c)
    ensures Reads(c, start, cycles, next) && next >= start + 3 && cycles == c(next - 2) >= c(start)
  {
    hide High, Low, Accepted;
    cycles, next := Rdcycle(c, start);
    assert c(start) <= c(next - 2);
  }

  /** A counter that starts nine short of its last value. */
  function Late(n: nat): U64 { if n < 10 then 0xffff_ffff_ffff_fff6 + n else 0xffff_ffff_ffff_ffff }

  /** Asked to sleep for 100 cycles there, the end time wraps to 91 and the loop is not entered. */
  lemma EndTimeWraps()
    ensures Monotone(Late) && Returns(Late, 0, 0) && Late(1) == 0xffff_ffff_ffff_fff7
    ensures EndTime(Late(1), 100) == 91 && Returns(Late, 3, 0) && Late(4) == 0xffff_ffff_ffff_fffa >= 91
  {
    assert High(Late(0)) == 0xffff_ffff == High(Late(2)) && High(Late(3)) == 0xffff_ffff == High(Late(5));
  }

  lemma ReturnsOnce(c: nat -> U64, start: nat, j: nat, k: nat)
    requires Returns(c, start, j) && Returns(c, start, k)
    ensures j == k
  {}

  lemma ReadsOnce(c: nat -> U64, start: nat, v: U64, next: nat)
    requires Reads(c, start, v, next) && Returns(c, start, 0)
    ensures v == c(start + 1) && next == start + 3
  {
    var k: nat :| Returns(c, start, k) && v == c(start + 3 * k + 1) && next == start + 3 * k + 3;
    ReturnsOnce(c, start, 0, k);
  }

  /** All that a sleep of 100 cycles there can do is to end after 3. */
  lemma SleptShort(began: U64, ended: U64, next: nat)
    requires Slept(Late, 0, 100, began, ended, next)
    ensures began == Late(1) && ended == Late(4) && ended - began == 3 && next == 6
  {
    hide Reads, Returns, Late;
    var at, values :| Polls(Late, 100, at, values) && at[0] == 0 && at[|values|] == next
      && values[0] == began && values[|values| - 1] == ended >= EndTime(began, 100);
    EndTimeWraps();
    ReadsOnce(Late, 0, values[0], at[1]);
    ReadsOnce(Late, 3, values[1], at[2]);
  }

  method ShortSleep() returns (next: nat, began: U64, ended: U64)
    ensures Slept(Late, 0, 100, began, ended, next) && ended - began == 3
  {
    EndTimeWraps();
    forall k: nat | Returns(Late, 0, k) ensures Reaches(Late, EndTime(Late(0 + 3 * k + 1), 100)) {
      assert Late(0) >= EndTime(Late(0 + 3 * k + 1), 100);
    }
    next, began, ended := Sleep(Late, 0, 100);
    SleptShort(began, ended, next);
  }
}
