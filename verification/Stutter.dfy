/** Sequences up to repetition of neighbouring elements. */
module Stutter {

  /** s followed by x, unless s already ends in x. */
  function Push<T(==)>(s: seq<T>, x: T): seq<T>
  {
    if s == [] || x != s[|s| - 1] then s + [x] else s
  }

  /** Every block of equal neighbours becomes one element. */
  function Collapse<T(==)>(s: seq<T>): seq<T>
  {
    if s == [] then [] else Push(Collapse(s[..|s| - 1]), s[|s| - 1])
  }

  function Repeat<T>(x: T, n: nat): (r: seq<T>)
    ensures |r| == n
  {
    seq(n, _ => x)
  }

  ghost predicate AllPositive(counts: seq<nat>)
  {
    forall i :: 0 <= i < |counts| ==> counts[i] > 0
  }

  /** Element i of s, counts[i] times. */
  function Stretch<T>(s: seq<T>, counts: seq<nat>): seq<T>
    requires |s| == |counts|
  {
    if s == [] then []
    else Stretch(s[..|s| - 1], counts[..|s| - 1]) + Repeat(s[|s| - 1], counts[|s| - 1])
  }

  ghost predicate StretchesTo<T(!new)>(c: seq<T>, counts: seq<nat>, s: seq<T>)
  {
    |c| == |counts| && AllPositive(counts) && Stretch(c, counts) == s
  }

  /** Both sequences are one and the same sequence with elements repeated. */
  ghost predicate StutterEquivalent<T(!new)>(a: seq<T>, b: seq<T>)
  {
    exists c, m, n :: StretchesTo(c, m, a) && StretchesTo(c, n, b)
  }

  lemma CollapseAppend<T>(s: seq<T>, x: T)
    ensures Collapse(s + [x]) == Push(Collapse(s), x)
  {
    assert (s + [x])[..|s|] == s;
  }

  lemma PushTwice<T>(s: seq<T>, x: T)
    ensures Push(Push(s, x), x) == Push(s, x)
  {}

  lemma {:induction false} CollapseRepeat<T>(s: seq<T>, x: T, n: nat)
    requires n > 0
    ensures Collapse(s + Repeat(x, n)) == Push(Collapse(s), x)
  {
    CollapseAppend(s + Repeat(x, n - 1), x);
    assert s + Repeat(x, n) == (s + Repeat(x, n - 1)) + [x];
    if n == 1 {
      assert s + Repeat(x, 0) == s;
    } else {
      CollapseRepeat(s, x, n - 1);
      PushTwice(Collapse(s), x);
    }
  }

  lemma {:induction false} CollapseStretch<T>(c: seq<T>, counts: seq<nat>)
    requires |c| == |counts| && AllPositive(counts)
    ensures Collapse(Stretch(c, counts)) == Collapse(c)
  {
    if c != [] {
      var n := |c| - 1;
      CollapseStretch(c[..n], counts[..n]);
      CollapseRepeat(Stretch(c[..n], counts[..n]), c[n], counts[n]);
    }
  }

  predicate EndsIn<T(==)>(s: seq<T>, x: T) { s != [] && x == s[|s| - 1] }

  function OneMore(counts: seq<nat>): (longer: seq<nat>)
    requires counts != []
    ensures |longer| == |counts|
  {
    counts[|counts| - 1 := counts[|counts| - 1] + 1]
  }

  /** The lengths of the blocks of equal neighbours: another element starts a block of its own
      or lengthens the last one. */
  function Runs<T(==)>(s: seq<T>): (counts: seq<nat>)
    ensures |counts| == |Collapse(s)|
  {
    if s == [] then []
    else
      var init := s[..|s| - 1];
      if EndsIn(Collapse(init), s[|s| - 1]) then OneMore(Runs(init)) else Runs(init) + [1]
  }

  lemma {:induction false} StretchRuns<T(!new)>(s: seq<T>)
    ensures StretchesTo(Collapse(s), Runs(s), s)
  {
    hide Collapse, Runs, StretchesTo, OneMore, EndsIn;
    if s == [] {
      NothingStretched<T>();
    } else {
      var init, x := s[..|s| - 1], s[|s| - 1];
      StretchRuns(init);
      CollapseStep(s);
      RunsStep(s);
      StretchStep(Collapse(init), Runs(init), init, x);
      assert s == init + [x];
    }
  }

  lemma NothingStretched<T(!new)>()
    ensures StretchesTo<T>(Collapse([]), Runs<T>([]), [])
  {}

  lemma CollapseStep<T>(s: seq<T>)
    requires s != []
    ensures var c, x := Collapse(s[..|s| - 1]), s[|s| - 1]; Collapse(s) == if EndsIn(c, x) then c else c + [x]
  {}

  lemma RunsStep<T>(s: seq<T>)
    requires s != []
    ensures var init, x := s[..|s| - 1], s[|s| - 1];
            Runs(s) == if EndsIn(Collapse(init), x) then OneMore(Runs(init)) else Runs(init) + [1]
  {
    hide Collapse, OneMore, EndsIn;
  }

  lemma StretchStep<T(!new)>(c: seq<T>, counts: seq<nat>, s: seq<T>, x: T)
    requires StretchesTo(c, counts, s)
    ensures if EndsIn(c, x) then StretchesTo(c, OneMore(counts), s + [x])
            else StretchesTo(c + [x], counts + [1], s + [x])
  {
    hide Stretch;
    if EndsIn(c, x) { StretchMore(c, counts); } else { StretchNew(c, counts, x); }
  }

  lemma StretchNew<T>(c: seq<T>, counts: seq<nat>, x: T)
    requires |c| == |counts|
    ensures Stretch(c + [x], counts + [1]) == Stretch(c, counts) + [x]
  {
    assert (c + [x])[..|c|] == c && (counts + [1])[..|c|] == counts;
    assert Repeat(x, 1) == [x];
  }

  lemma StretchMore<T>(c: seq<T>, counts: seq<nat>)
    requires |c| == |counts| > 0
    ensures var k := |c| - 1; Stretch(c, OneMore(counts)) == Stretch(c, counts) + [c[k]]
  {
    var k := |c| - 1;
    assert counts[k := counts[k] + 1][..k] == counts[..k];
    assert Repeat(c[k], counts[k] + 1) == Repeat(c[k], counts[k]) + [c[k]];
  }

  /** Collapsing decides stutter equivalence. */
  lemma CollapseDecides<T(!new)>(a: seq<T>, b: seq<T>)
    ensures Collapse(a) == Collapse(b) <==> StutterEquivalent(a, b)
  {
    if Collapse(a) == Collapse(b) {
      StretchRuns(a); StretchRuns(b);
    }
    if StutterEquivalent(a, b) {
      var c, m, n :| StretchesTo(c, m, a) && StretchesTo(c, n, b);
      CollapseStretch(c, m); CollapseStretch(c, n);
    }
  }

  // ---- the same without a common form ----

  /** f numbers n positions by blocks 0 to k - 1 of neighbours. */
  ghost predicate Blocks(f: seq<nat>, n: nat, k: nat)
  {
    && |f| == n && (n == 0 <==> k == 0)
    && (n > 0 ==> f[0] == 0 && f[n - 1] == k - 1)
    && forall i :: 0 <= i < n - 1 ==> f[i + 1] == f[i] || f[i + 1] == f[i] + 1
  }

  /** The block of each position of s in Collapse(s). */
  function Positions<T(==)>(s: seq<T>): (f: seq<nat>)
    ensures |f| == |s|
  {
    if s == [] then [] else Positions(s[..|s| - 1]) + [|Collapse(s)| - 1]
  }

  lemma {:induction false} PositionsAre<T>(s: seq<T>)
    ensures Blocks(Positions(s), |s|, |Collapse(s)|)
    ensures InBlocks(s, Positions(s), Collapse(s))
  {
    hide Collapse, Blocks, InBlocks, Positions;
    if s == [] {
      NoPositions<T>();
    } else {
      var init, x := s[..|s| - 1], s[|s| - 1];
      PositionsAre(init);
      CollapseStep(s);
      NextPosition(init, x, Positions(init), Collapse(init));
      assert s == init + [x];
      assert Positions(s) == Positions(init) + [|Collapse(s)| - 1] by { PositionsStep(s); }
    }
  }

  /** Every element of s is that of its block in c. */
  ghost predicate InBlocks<T>(s: seq<T>, f: seq<nat>, c: seq<T>)
  {
    |f| == |s| && forall i :: 0 <= i < |s| ==> f[i] < |c| && s[i] == c[f[i]]
  }

  lemma NoPositions<T>()
    ensures Collapse<T>([]) == [] && Blocks(Positions<T>([]), 0, 0)
    ensures InBlocks<T>([], Positions<T>([]), Collapse<T>([]))
  {}

  lemma PositionsStep<T>(s: seq<T>)
    requires s != []
    ensures Positions(s) == Positions(s[..|s| - 1]) + [|Collapse(s)| - 1]
  {
    hide Collapse;
  }

  lemma NextPosition<T>(s: seq<T>, x: T, f: seq<nat>, c: seq<T>)
    requires Blocks(f, |s|, |c|) && InBlocks(s, f, c)
    ensures var c' := if EndsIn(c, x) then c else c + [x];
            Blocks(f + [|c'| - 1], |s| + 1, |c'|) && InBlocks(s + [x], f + [|c'| - 1], c')
  {}

  /** The first position of block x. */
  function FirstIn(f: seq<nat>, x: nat): (i: nat)
    requires x in f
    ensures i < |f| && f[i] == x
  {
    if f[0] == x then 0 else 1 + FirstIn(f[1..], x)
  }

  lemma {:induction false} Onto(f: seq<nat>, n: nat, k: nat, x: nat)
    requires Blocks(f, n, k) && x < k
    ensures x in f
  {
    if f[n - 1] != x {
      LastBlock(f, n);
      Onto(f[..n - 1], n - 1, f[n - 2] + 1, x);
    }
  }

  /** Then both collapse to the same. */
  lemma {:induction false} BlocksCollapse<T>(s: seq<T>, f: seq<nat>, c: seq<T>)
    requires Blocks(f, |s|, |c|)
    requires InBlocks(s, f, c)
    ensures Collapse(s) == Collapse(c)
  {
    var n := |s| - 1;
    if n > 0 {
      var init, k := s[..n], f[n - 1] + 1;
      LastBlock(f, n + 1);
      BlocksCollapse(init, f[..n], c[..k]);
      assert s == init + [s[n]];
      CollapseAppend(init, s[n]);
      if k < |c| {
        assert c == c[..k] + [c[k]];
        CollapseAppend(c[..k], c[k]);
      } else {
        assert c[..k] == c;
        EndsInLast(c);
      }
    }
  }

  /** Numbers do not decrease, so none exceeds the last but one by more than a step. */
  lemma {:induction false} LastBlock(f: seq<nat>, n: nat)
    requires |f| == n > 0 && Blocks(f, n, f[n - 1] + 1)
    ensures forall i :: 0 <= i < n ==> f[i] <= f[n - 1]
    ensures forall i :: 0 <= i < n - 1 ==> f[i] <= f[n - 2]
  {
    if n > 1 { LastBlock(f[..n - 1], n - 1); }
  }

  lemma EndsInLast<T>(c: seq<T>)
    requires c != []
    ensures Collapse(c) != [] && Collapse(c)[|Collapse(c)| - 1] == c[|c| - 1]
  {}

  /** Stutter equivalence without a common form: both sequences can be cut into equally many
      blocks, so that any two elements of corresponding blocks are equal. */
  lemma BlocksDecide<T(!new)>(a: seq<T>, b: seq<T>)
    ensures StutterEquivalent(a, b) <==>
            exists k, f, g :: Blocks(f, |a|, k) && Blocks(g, |b|, k) &&
              forall i, j :: 0 <= i < |a| && 0 <= j < |b| && f[i] == g[j] ==> a[i] == b[j]
  {
    CollapseDecides(a, b);
    if Collapse(a) == Collapse(b) {
      PositionsAre(a);
      PositionsAre(b);
    }
    forall k, f, g | Blocks(f, |a|, k) && Blocks(g, |b|, k) &&
        forall i, j :: 0 <= i < |a| && 0 <= j < |b| && f[i] == g[j] ==> a[i] == b[j]
      ensures Collapse(a) == Collapse(b)
    {
      CommonBlocks(a, b, k, f, g);
    }
  }

  lemma CommonBlocks<T>(a: seq<T>, b: seq<T>, k: nat, f: seq<nat>, g: seq<nat>)
    requires Blocks(f, |a|, k) && Blocks(g, |b|, k)
    requires forall i, j :: 0 <= i < |a| && 0 <= j < |b| && f[i] == g[j] ==> a[i] == b[j]
    ensures Collapse(a) == Collapse(b)
  {
    forall x | 0 <= x < k ensures x in g { Onto(g, |b|, k, x); }
    forall x | 0 <= x < k ensures x in f { Onto(f, |a|, k, x); }
    var c := seq(k, x requires 0 <= x < k => b[FirstIn(g, x)]);
    if k > 0 { LastBlock(f, |a|); LastBlock(g, |b|); }
    forall j | 0 <= j < |b| ensures b[j] == c[g[j]] {
      var i := FirstIn(f, g[j]);
      assert a[i] == b[j] && a[i] == b[FirstIn(g, g[j])];
    }
    BlocksCollapse(a, f, c);
    BlocksCollapse(b, g, c);
  }
}
