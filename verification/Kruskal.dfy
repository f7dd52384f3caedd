/** kruskal-linear.s: a spanning forest by union-find, with the union's branch eliminated. */
module Kruskal {
  import opened Graph
  import opened Forest
  import opened Rv32

  // ---- the branching program ----

  /** `par` is the parent array, `chosen` the edges accepted so far, `links` the pairs of
      roots they joined, and `cells` what is stored in mst[i], mst[i+1] for each edge. */
  datatype State = State(par: seq<nat>, count: nat, chosen: seq<Edge>, links: seq<Edge>, cells: seq<(Word, Word)>)

  ghost predicate Valid(n: nat, st: State)
  {
    |st.par| == n < 0x8000_0000 && IsForest(st.par)
  }

  ghost function Step(st: State, e: Edge): State
    requires IsForest(st.par) && e.0 < |st.par| && e.1 < |st.par| && |st.par| < 0x8000_0000
  {
    var ru, rv := Root(st.par, e.0), Root(st.par, e.1);
    if ru != rv then
      State(st.par[ru := rv], st.count + 1, st.chosen + [e], st.links + [(ru, rv)], st.cells + [(ru, rv)])
    else
      // both registers hold the common root minus one
      st.(cells := st.cells + [(Add(ru, -1), Add(ru, -1))])
  }

  ghost function Run(n: nat, es: seq<Edge>): (st: State)
    requires n < 0x8000_0000 && EdgesBelow(n, es)
    ensures Valid(n, st) && |st.cells| == |es| && st.count <= |es|
    decreases |es|
  {
    if es == [] then State(Singletons(n), 0, [], [], [])
    else
      var st := Run(n, es[..|es| - 1]);
      var e := es[|es| - 1];
      StepValid(n, st, e);
      Step(st, e)
  }

  lemma StepValid(n: nat, st: State, e: Edge)
    requires Valid(n, st) && e.0 < n && e.1 < n
    ensures Valid(n, Step(st, e))
  {
    var ru, rv := Root(st.par, e.0), Root(st.par, e.1);
    if ru != rv { LinkRoots(st.par, ru, rv); }
  }

  // ---- what a run computes ----

  /** Two vertices have the same root exactly when the edges connect them. */
  ghost predicate RootsAreComponents(n: nat, par: seq<nat>, es: seq<Edge>)
    requires IsForest(par) && |par| == n
  {
    forall u: nat, v: nat :: u < n && v < n ==> (Root(par, u) == Root(par, v) <==> Connected(es, u, v))
  }

  lemma {:induction false} RunConnects(n: nat, es: seq<Edge>)
    requires n < 0x8000_0000 && EdgesBelow(n, es)
    ensures RootsAreComponents(n, Run(n, es).par, es)
    decreases |es|
  {
    if es == [] {
      forall u: nat, v: nat | u < n && v < n ensures u == v <==> Connected([], u, v) {
        Reflexive([], u);
        if Connected([], u, v) { NoEdges(u, v); }
      }
    } else {
      var fs, e := es[..|es| - 1], es[|es| - 1];
      assert es == fs + [(e.0, e.1)];
      RunConnects(n, fs);
      StepConnects(n, Run(n, fs), fs, e);
    }
  }

  lemma StepConnects(n: nat, st: State, fs: seq<Edge>, e: Edge)
    requires Valid(n, st) && e.0 < n && e.1 < n
    requires RootsAreComponents(n, st.par, fs)
    ensures Valid(n, Step(st, e)) && RootsAreComponents(n, Step(st, e).par, fs + [(e.0, e.1)])
  {
    var (a, b) := e;
    var ru, rv := Root(st.par, a), Root(st.par, b);
    StepValid(n, st, e);
    if ru == rv {
      RedundantEdge(fs, a, b);
    } else {
      LinkRoots(st.par, ru, rv);
      forall u: nat, v: nat | u < n && v < n
        ensures Root(st.par[ru := rv], u) == Root(st.par[ru := rv], v) <==> Connected(fs + [(a, b)], u, v)
      {
        AddEdge(fs, a, b, u, v);
        Swap(fs, b, v); Swap(fs, a, v);
      }
    }
  }

  /** The accepted edges, and the root pairs recorded for them, connect what the input connects. */
  lemma {:induction false} RunSpans(n: nat, es: seq<Edge>)
    requires n < 0x8000_0000 && EdgesBelow(n, es)
    ensures var st := Run(n, es);
            && SameConnectivity(es, st.chosen) && SameConnectivity(es, st.links)
            && |st.chosen| == |st.links| == st.count
            && EdgesBelow(n, st.chosen) && EdgesBelow(n, st.links)
    decreases |es|
  {
    if es != [] {
      var fs, e := es[..|es| - 1], es[|es| - 1];
      var st := Run(n, fs);
      var (a, b) := e;
      var ru, rv := Root(st.par, a), Root(st.par, b);
      assert es == fs + [(a, b)];
      RunSpans(n, fs);
      RunConnects(n, fs);
      if ru == rv {
        RedundantEdge(fs, a, b);
      } else {
        RootIs(st.par, ru, 0); RootIs(st.par, rv, 0);
        Reflexive(fs, a); Reflexive(fs, b);
        ReplacedEdge(fs, st.chosen, a, b, a, b);
        ReplacedEdge(fs, st.links, a, b, ru, rv);
      }
    }
  }

  /** The count is the number of vertices minus the number of components. */
  lemma {:induction false} RunCounts(n: nat, es: seq<Edge>)
    requires n < 0x8000_0000 && EdgesBelow(n, es)
    ensures Run(n, es).count + |Components(n, es)| == n
    decreases |es|
  {
    if es == [] {
      Isolated(n, n);
    } else {
      var fs, e := es[..|es| - 1], es[|es| - 1];
      var st := Run(n, fs);
      assert es == fs + [(e.0, e.1)];
      RunCounts(n, fs);
      RunConnects(n, fs);
      if Root(st.par, e.0) == Root(st.par, e.1) {
        RedundantEdge(fs, e.0, e.1);
        SameComponents(n, fs, es);
      } else {
        MergedComponents(n, fs, e.0, e.1);
      }
    }
  }

  /** The edges before edge i do not connect its ends. */
  ghost predicate Needed(es: seq<Edge>, i: nat)
    requires i < |es|
  {
    !Connected(es[..i], es[i].0, es[i].1)
  }

  /** Edges of the input in their order: those whose ends the edges before them do not connect. */
  ghost predicate Picked(es: seq<Edge>, chosen: seq<Edge>, picks: seq<nat>)
  {
    Selects(es, chosen, picks) && forall i: nat :: i < |es| ==> (i in picks <==> Needed(es, i))
  }

  ghost predicate Selects(es: seq<Edge>, chosen: seq<Edge>, picks: seq<nat>)
  {
    && |picks| == |chosen|
    && (forall k :: 0 <= k < |picks| ==> picks[k] < |es| && chosen[k] == es[picks[k]])
    && (forall j, k :: 0 <= j < k < |picks| ==> picks[j] < picks[k])
  }

  lemma {:induction false} RunPicks(n: nat, es: seq<Edge>) returns (picks: seq<nat>)
    requires n < 0x8000_0000 && EdgesBelow(n, es)
    ensures Picked(es, Run(n, es).chosen, picks)
    decreases |es|
  {
    if es == [] {
      picks := [];
    } else {
      var m := |es| - 1;
      var fs, e := es[..m], es[m];
      var before := RunPicks(n, fs);
      RunConnects(n, fs);
      picks := if Needed(es, m) then before + [m] else before;
      PicksGrow(es, Run(n, fs).chosen, before, picks);
    }
  }

  lemma PicksGrow(es: seq<Edge>, chosen: seq<Edge>, before: seq<nat>, picks: seq<nat>)
    requires es != [] && Picked(es[..|es| - 1], chosen, before)
    requires picks == if Needed(es, |es| - 1) then before + [|es| - 1] else before
    ensures Picked(es, if Needed(es, |es| - 1) then chosen + [es[|es| - 1]] else chosen, picks)
  {
    hide Needed, Selects;
    var m := |es| - 1;
    SelectsMore(es, chosen, before);
    forall i: nat | i < m ensures i in before <==> Needed(es, i) { NeededBefore(es, i); }
    OneMorePick(before, m);
  }

  lemma SelectsMore(es: seq<Edge>, chosen: seq<Edge>, picks: seq<nat>)
    requires es != [] && Selects(es[..|es| - 1], chosen, picks)
    ensures Selects(es, chosen, picks) && Selects(es, chosen + [es[|es| - 1]], picks + [|es| - 1])
    ensures forall k :: 0 <= k < |picks| ==> picks[k] < |es| - 1
  {}

  lemma OneMorePick(before: seq<nat>, m: nat)
    requires forall k :: 0 <= k < |before| ==> before[k] < m
    ensures forall i :: i in before ==> i < m
    ensures forall i :: i in before + [m] <==> i in before || i == m
  {}

  lemma NeededBefore(es: seq<Edge>, i: nat)
    requires i < |es| - 1
    ensures Needed(es[..|es| - 1], i) == Needed(es, i)
  {
    hide Connected;
    assert es[..|es| - 1][..i] == es[..i];
  }

  /** The accepted edges are a spanning forest of the input; so are the recorded root pairs. */
  lemma SpanningForest(n: nat, es: seq<Edge>)
    requires n < 0x8000_0000 && EdgesBelow(n, es)
    ensures var st := Run(n, es);
            && SameConnectivity(es, st.chosen) && Acyclic(st.chosen) && |st.chosen| == st.count
            && SameConnectivity(es, st.links) && Acyclic(st.links) && |st.links| == st.count
            && exists picks :: Picked(es, st.chosen, picks)
  {
    var picks := RunPicks(n, es);
    var st := Run(n, es);
    RunSpans(n, es);
    RunCounts(n, es);
    SameComponents(n, es, st.chosen);
    SameComponents(n, es, st.links);
    TightIsAcyclic(n, st.chosen);
    TightIsAcyclic(n, st.links);
  }

  /** The recorded pairs whose entries differ. */
  ghost function DistinctCells(cells: seq<(Word, Word)>): seq<Edge>
  {
    if cells == [] then []
    else
      var rest, c := DistinctCells(cells[..|cells| - 1]), cells[|cells| - 1];
      if c.0 != c.1 then rest + [(c.0, c.1)] else rest
  }

  /** A reader of mst recovers the forest: an edge was accepted exactly when its entries differ. */
  lemma {:induction false} ForestFromCells(n: nat, es: seq<Edge>)
    requires n < 0x8000_0000 && EdgesBelow(n, es)
    ensures DistinctCells(Run(n, es).cells) == Run(n, es).links
    decreases |es|
  {
    if es != [] {
      var fs := es[..|es| - 1];
      var st, st' := Run(n, fs), Run(n, es);
      ForestFromCells(n, fs);
      assert st'.cells[..|st'.cells| - 1] == st.cells;
    }
  }

  /** What any run stores for its i-th edge.  The comment in the source says that a rejected edge
      leaves -1.  It leaves the common root minus one, which is -1 exactly when that root is
      vertex 0. */
  lemma {:induction false} RejectedCell(n: nat, es: seq<Edge>, i: nat)
    requires n < 0x8000_0000 && EdgesBelow(n, es) && i < |es|
    ensures var before, cell, (a, b) := Run(n, es[..i]), Run(n, es).cells[i], es[i];
            if Connected(es[..i], a, b) then
              && cell.0 == cell.1 && Signed(cell.0) == Root(before.par, a) - 1
              && (Signed(cell.0) == -1 <==> Root(before.par, a) == 0)
            else cell == (Root(before.par, a), Root(before.par, b)) && cell.0 != cell.1
    decreases |es|
  {
    hide Run, IsForest, Connected;
    var fs, m := es[..|es| - 1], |es| - 1;
    assert es[..|es|] == es && fs[..m] == fs;
    RunExtends(n, es, m);
    if i < m {
      assert fs[..i] == es[..i];
      RejectedCell(n, fs, i);
    } else {
      RunConnects(n, fs);
    }
  }

  /** The edge list g[1], g[2] = 1, 1 with len = 3 leaves 0. */
  lemma RejectedCellExample(first: Word)
    ensures Edges([first, 1, 1], 3) == [(1, 1)] && Run(3, [(1, 1)]).cells == [(0, 0)]
  {
    var es: seq<Edge> := [(1, 1)];
    assert es[..0] == [];
    assert Run(3, []).par == Singletons(3);
  }

  // ---- the program on registers ----

  /** The edges of g: vertices g[1], g[2], then g[3], g[4], and so on. */
  ghost function Edges(g: seq<Word>, len: nat): (es: seq<Edge>)
    requires len <= |g|
    ensures len % 2 == 1 ==> |es| == if len > 0 then len / 2 else 0
    ensures len % 2 == 1 && (forall i :: 1 <= i < len ==> g[i] < len) && len > 0 ==> EdgesBelow(len, es)
  {
    if len < 3 then [] else seq((len - 1) / 2, i requires 0 <= i < (len - 1) / 2 => (g[2 * i + 1], g[2 * i + 2]))
  }

  // ---- what the result says of the edge list itself ----

  ghost predicate BothBelow(g: seq<Word>, n: nat)
  {
    n <= |g| && forall i :: 1 <= i < n ==> g[i] < n
  }

  /** The two ends of every edge have the same root. */
  ghost predicate JoinsEdges(g: seq<Word>, par: seq<nat>)
    requires IsForest(par) && BothBelow(g, |par|)
  {
    forall i :: 1 <= i && i + 1 < |par| && i % 2 == 1 ==> Root(par, g[i]) == Root(par, g[i + 1])
  }

  /** The marks of the two ends of every edge agree. */
  ghost predicate Agrees(mark: nat -> nat, g: seq<Word>, n: nat)
    requires BothBelow(g, n)
  {
    forall i :: 1 <= i && i + 1 < n && i % 2 == 1 ==> mark(g[i]) == mark(g[i + 1])
  }

  /** Two vertices with the same root have the same mark under any labels that agree on the
      edges: nothing is joined without need. */
  ghost predicate JoinsNothingElse(g: seq<Word>, par: seq<nat>)
    requires IsForest(par) && BothBelow(g, |par|)
  {
    forall mark: nat -> nat :: Agrees(mark, g, |par|) ==>
      forall u: nat, v: nat :: u < |par| && v < |par| && Root(par, u) == Root(par, v) ==> mark(u) == mark(v)
  }

  /** The vertices that are their own parents. */
  ghost function RootSet(par: seq<nat>): set<nat>
  {
    set v: nat | v < |par| && par[v] == v
  }

  lemma JoinsExactly(g: seq<Word>, n: nat)
    requires 0 < n < 0x8000_0000 && n % 2 == 1 && BothBelow(g, n)
    ensures var st := Run(n, Edges(g, n)); JoinsEdges(g, st.par) && JoinsNothingElse(g, st.par)
  {
    hide Run, IsForest, Connected;
    var es := Edges(g, n);
    var par := Run(n, es).par;
    RunConnects(n, es);
    forall i | 1 <= i && i + 1 < n && i % 2 == 1 ensures Root(par, g[i]) == Root(par, g[i + 1]) {
      assert es[i / 2] == (g[i], g[i + 1]);
      EdgeConnects(es, g[i], g[i + 1]);
    }
    forall mark: nat -> nat, u: nat, v: nat | Agrees(mark, g, n) && u < n && v < n && Root(par, u) == Root(par, v)
      ensures mark(u) == mark(v)
    {
      SameMarks(mark, es, u, v);
    }
  }

  lemma SameMarks(mark: nat -> nat, es: seq<Edge>, u: nat, v: nat)
    requires Connected(es, u, v) && forall e :: e in es ==> mark(e.0) == mark(e.1)
    ensures mark(u) == mark(v)
  {
    var p :| PathBetween(es, p, u, v);
    MarksAlong(mark, es, p);
  }

  lemma {:induction false} MarksAlong(mark: nat -> nat, es: seq<Edge>, p: seq<nat>)
    requires Path(es, p) && forall e :: e in es ==> mark(e.0) == mark(e.1)
    ensures mark(p[0]) == mark(p[|p| - 1])
  {
    if |p| > 1 {
      assert Adjacent(es, p[0], p[1]);
      MarksAlong(mark, es, p[1..]);
    }
  }

  /** The count is also the number of vertices that are not roots. */
  lemma {:induction false} RootsLeft(n: nat, es: seq<Edge>)
    requires n < 0x8000_0000 && EdgesBelow(n, es)
    ensures var st := Run(n, es); st.count + |RootSet(st.par)| == n
    decreases |es|
  {
    if es == [] {
      forall v: nat | v < n ensures Singletons(n)[v] == v { RootIs(Singletons(n), v, 0); }
      AllRoots(Singletons(n));
    } else {
      var st, e := Run(n, es[..|es| - 1]), es[|es| - 1];
      var ru, rv := Root(st.par, e.0), Root(st.par, e.1);
      RootsLeft(n, es[..|es| - 1]);
      if ru != rv { assert RootSet(st.par[ru := rv]) == RootSet(st.par) - {ru}; }
    }
  }

  lemma {:induction false} AllRoots(par: seq<nat>)
    requires forall v: nat :: v < |par| ==> par[v] == v
    ensures |RootSet(par)| == |par|
  {
    if par != [] {
      var m := |par| - 1;
      AllRoots(par[..m]);
      assert RootSet(par) == RootSet(par[..m]) + {m};
    }
  }

  /** Where the entries of edge k are. */
  lemma {:induction false} FlattenAt(cells: seq<(Word, Word)>, k: nat)
    requires k < |cells|
    ensures Flatten(cells)[2 * k] == cells[k].0 && Flatten(cells)[2 * k + 1] == cells[k].1
    decreases |cells|
  {
    if k < |cells| - 1 { FlattenAt(cells[..|cells| - 1], k); }
  }

  ghost function Flatten(cells: seq<(Word, Word)>): (s: seq<Word>)
    ensures |s| == 2 * |cells|
  {
    if cells == [] then []
    else Flatten(cells[..|cells| - 1]) + [cells[|cells| - 1].0, cells[|cells| - 1].1]
  }

  /** The find loop: follow parents until one is its own parent.  `slot` is the last one read. */
  method Find(par: array<Word>, v: Word, ghost n: nat) returns (root: Word, slot: nat)
    requires n <= par.Length && IsForest(par[..n]) && v < n
    ensures root == Root(par[..n], v) && slot == root
  {
    assert Grounded(par[..n], v);
    ghost var k: nat :| ReachesRoot(par[..n], v, k);
    RootIs(par[..n], v, k);
    var next := v;
    root := next;
    slot := next;
    next := par[slot];
    while next != root
      invariant root == slot && slot < n && next == par[slot]
      invariant ReachesRoot(par[..n], root, k) && Climb(par[..n], root, k) == Root(par[..n], v)
      decreases k
    {
      root := next;
      slot := next;
      next := par[slot];
      k := k - 1;
    }
    StaysAtRoot(par[..n], root, k);
  }

  /** The branch-free union of lines 53-85: t2 is the slot of the first root. */
  method Union(par: array<Word>, a7_in: Word, t1_in: Word, a4_in: Word, t2: nat)
    returns (a7: Word, t1: Word, a4: Word)
    requires t2 == a7_in < par.Length && par[t2] == a7_in
    modifies par
    ensures a7_in != t1_in ==>
              par[..] == old(par[..])[a7_in := t1_in] && a4 == Add(a4_in, 1) && a7 == a7_in && t1 == t1_in
    ensures a7_in == t1_in ==>
              par[..] == old(par[..]) && a4 == a4_in && a7 == Add(a7_in, -1) && t1 == Add(a7_in, -1)
  {
    hide *;
    BranchMask(a7_in, t1_in);
    a7, t1, a4 := a7_in, t1_in, a4_in;
    var t4 := Sub(a7, t1);
    t4 := Snez(t4);
    t4 := And(t4, 0xff);
    t4 := Neg(t4);
    var t5 := Not(t4);
    Select(t4, t1, par[t2]);
    var t6 := And(t1, t4);
    t1 := par[t2];
    t1 := And(t1, t5);
    t1 := Or(t1, t6);
    par[t2] := t1;
    Select(t4, Add(a4, 1), a4);
    t6 := And(a4, t5);
    a4 := Add(a4, 1);
    a4 := And(a4, t4);
    a4 := Or(a4, t6);
    Select(t4, a7, Add(a7, -1));
    t6 := And(a7, t4);
    a7 := Add(a7, -1);
    a7 := And(a7, t5);
    a7 := Or(a7, t6);
    Select(t4, t1, Add(t1, -1));
    t6 := And(t1, t4);
    t1 := Add(t1, -1);
    t1 := And(t1, t5);
    t1 := Or(t1, t6);
  }

  /** The whole program.  `len` is the signed register a3; indices stand for the byte
      addresses a0 + 4 * index and so on. */
  method Kruskal(g: array<Word>, mst: array<Word>, par: array<Word>, len: int) returns (a0: Word)
    requires -0x8000_0000 <= len < 0x8000_0000
    requires 1 <= mst.Length && len <= mst.Length && len <= par.Length && len <= g.Length
    requires len < 2 || len % 2 == 1
    requires forall i :: 1 <= i < len ==> g[i] < len
    requires g != mst && g != par && mst != par
    modifies mst, par
    ensures len >= 1 ==>
              var es := Edges(g[..], len); var st := Run(len, es);
              && par[..len] == st.par && a0 == st.count
              && mst[..len] == [a0] + Flatten(st.cells)
              && a0 + |Components(len, es)| == len
              && RootsAreComponents(len, par[..len], es)
              && JoinsEdges(g[..], par[..len]) && JoinsNothingElse(g[..], par[..len])
              && a0 + |RootSet(par[..len])| == len
              && (forall k :: 0 <= k < len / 2 ==> (mst[2 * k + 1], mst[2 * k + 2]) == st.cells[k])
              && par[len..] == old(par[len..]) && mst[len..] == old(mst[len..])
    ensures len < 1 ==> a0 == 0 && mst[0] == 0 && par[..] == old(par[..]) && mst[1..] == old(mst[1..])
  {
    hide Run, RootsAreComponents, Components, Flatten, Edges, IsForest, JoinsEdges, JoinsNothingElse, RootSet;
    var a4 := 0;
    if len > 0 {
      Initialise(mst, par, len);
      if len >= 2 {
        a4 := Edgewise(g, mst, par, len);
      } else {
        RunEmpty(len);
      }
    }
    mst[0] := a4;
    a0 := a4;
    if len > 0 {
      RunCounts(len, Edges(g[..], len));
      RunConnects(len, Edges(g[..], len));
      JoinsExactly(g[..], len);
      RootsLeft(len, Edges(g[..], len));
      forall k | 0 <= k < len / 2 ensures (mst[2 * k + 1], mst[2 * k + 2]) == Run(len, Edges(g[..], len)).cells[k] {
        FlattenAt(Run(len, Edges(g[..], len)).cells, k);
        assert mst[1..len][2 * k] == mst[2 * k + 1] && mst[1..len][2 * k + 1] == mst[2 * k + 2];
      }
    }
    assert len >= 1 ==> mst[..len] == [a0] + mst[1..len];
  }

  /** The first loop, lines 11-18. */
  method Initialise(mst: array<Word>, par: array<Word>, len: int)
    requires 1 <= len < 0x8000_0000 && len <= mst.Length && len <= par.Length && mst != par
    modifies mst, par
    ensures par[..len] == Singletons(len) && par[len..] == old(par[len..])
    ensures (forall i :: 0 <= i < len ==> mst[i] == 0xffff_ffff) && mst[len..] == old(mst[len..])
  {
    var a4 := 0;
    while a4 != len
      invariant 0 <= a4 <= len
      invariant forall i :: 0 <= i < a4 ==> mst[i] == 0xffff_ffff && par[i] == i
      invariant par[len..] == old(par[len..]) && mst[len..] == old(mst[len..])
    {
      mst[a4] := 0xffff_ffff;
      par[a4] := a4;
      a4 := a4 + 1;
    }
  }

  /** The loop over the edges, lines 24-87. */
  method Edgewise(g: array<Word>, mst: array<Word>, par: array<Word>, len: int) returns (a4: Word)
    requires 2 <= len < 0x8000_0000 && len % 2 == 1
    requires len <= mst.Length && len <= par.Length && len <= g.Length
    requires forall i :: 1 <= i < len ==> g[i] < len
    requires g != mst && g != par && mst != par
    requires par[..len] == Singletons(len)
    modifies mst, par
    ensures var st := Run(len, Edges(g[..], len));
            && par[..len] == st.par && a4 == st.count && mst[1..len] == Flatten(st.cells)
    ensures par[len..] == old(par[len..]) && mst[len..] == old(mst[len..])
  {
    hide Run, IsForest, Step, Connected, Flatten;
    ghost var es := Edges(g[..], len);
    ghost var m, k := len / 2, 0;
    assert len == 2 * m + 1;
    assert es[..0] == [];
    RunEmpty(len);
    a4 := 0;
    var a5 := 1;
    while a5 < len
      invariant a5 == 2 * k + 1 <= len && es == Edges(g[..], len)
      invariant var st := Run(len, es[..k]);
                par[..len] == st.par && a4 == st.count && mst[1..a5] == Flatten(st.cells)
      invariant par[len..] == old(par[len..]) && mst[len..] == old(mst[len..])
    {
      ghost var st := Run(len, es[..k]);
      ghost var before := mst[..];
      assert k < m;
      assert es[k] == (g[a5], g[a5 + 1]);
      RunExtends(len, es, k);
      a4 := EdgeStep(g, mst, par, len, a5, a4, st);
      FlattenStep(st, es[k]);
      SliceGrows(before, mst[..], a5, len);
      k := k + 1;
      a5 := a5 + 2;
    }
    assert es[..k] == es;
  }

  lemma SliceGrows(before: seq<Word>, after: seq<Word>, i: nat, len: nat)
    requires |before| == |after| && 1 <= i && i + 1 < len <= |after|
    requires forall j :: 0 <= j < |after| && j != i && j != i + 1 ==> after[j] == before[j]
    ensures after[1..i + 2] == before[1..i] + [after[i], after[i + 1]]
    ensures after[len..] == before[len..]
  {}

  lemma FlattenStep(st: State, e: Edge)
    requires IsForest(st.par) && e.0 < |st.par| && e.1 < |st.par| && |st.par| < 0x8000_0000
    ensures var st' := Step(st, e);
            && |st'.cells| == |st.cells| + 1
            && Flatten(st'.cells) == Flatten(st.cells) + [st'.cells[|st.cells|].0, st'.cells[|st.cells|].1]
  {
    assert Step(st, e).cells[..|st.cells|] == st.cells;
  }

  lemma RunEmpty(n: nat)
    requires n < 0x8000_0000
    ensures Run(n, []) == State(Singletons(n), 0, [], [], []) && Flatten([]) == []
  {}

  lemma RunExtends(n: nat, es: seq<Edge>, k: nat)
    requires n < 0x8000_0000 && EdgesBelow(n, es) && k < |es|
    ensures Run(n, es[..k + 1]) == Step(Run(n, es[..k]), es[k])
  {
    assert es[..k + 1][..k] == es[..k];
  }

  /** One iteration: two finds, the union, two stores. */
  method EdgeStep(g: array<Word>, mst: array<Word>, par: array<Word>, ghost len: nat, a5: nat, a4_in: Word,
                  ghost st: State)
    returns (a4: Word)
    requires len < 0x8000_0000 && a5 + 1 < len && len <= mst.Length && len <= par.Length && len <= g.Length
    requires g[a5] < len && g[a5 + 1] < len
    requires g != mst && g != par && mst != par
    requires Valid(len, st) && par[..len] == st.par && a4_in == st.count && st.count < len
    modifies mst, par
    ensures var st' := Step(st, (g[a5], g[a5 + 1]));
            && par[..len] == st'.par && a4 == st'.count
            && (mst[a5], mst[a5 + 1]) == st'.cells[|st.cells|]
    ensures par[len..] == old(par[len..])
    ensures forall i :: 0 <= i < mst.Length && i != a5 && i != a5 + 1 ==> mst[i] == old(mst[i])
  {
    var a7, t2 := Find(par, g[a5], len);
    var t1, _ := Find(par, g[a5 + 1], len);
    a7, t1, a4 := Union(par, a7, t1, a4_in, t2);
    mst[a5] := a7;
    mst[a5 + 1] := t1;
  }
}
