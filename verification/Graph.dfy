/** Undirected graphs given as edge lists: connectivity, components and spanning forests. */
module Graph {

  type Edge = (nat, nat)

  ghost predicate Adjacent(es: seq<Edge>, u: nat, v: nat)
  {
    (u, v) in es || (v, u) in es
  }

  ghost predicate Path(es: seq<Edge>, p: seq<nat>)
  {
    |p| > 0 && forall i :: 0 <= i < |p| - 1 ==> Adjacent(es, p[i], p[i + 1])
  }

  ghost predicate PathBetween(es: seq<Edge>, p: seq<nat>, u: nat, v: nat)
  {
    Path(es, p) && p[0] == u && p[|p| - 1] == v
  }

  /** Some walk along the edges, in either direction, leads from u to v. */
  ghost predicate Connected(es: seq<Edge>, u: nat, v: nat)
  {
    exists p :: PathBetween(es, p, u, v)
  }

  // ---- connectivity is an equivalence ----

  lemma Reflexive(es: seq<Edge>, u: nat)
    ensures Connected(es, u, u)
  {
    assert PathBetween(es, [u], u, u);
  }

  lemma {:induction false} Symmetric(es: seq<Edge>, u: nat, v: nat)
    requires Connected(es, u, v)
    ensures Connected(es, v, u)
  {
    var p :| PathBetween(es, p, u, v);
    var q := seq(|p|, i requires 0 <= i < |p| => p[|p| - 1 - i]);
    forall i | 0 <= i < |q| - 1 ensures Adjacent(es, q[i], q[i + 1]) {
      assert Adjacent(es, p[|p| - 2 - i], p[|p| - 2 - i + 1]);
    }
    assert PathBetween(es, q, v, u);
  }

  lemma Transitive(es: seq<Edge>, u: nat, v: nat, w: nat)
    requires Connected(es, u, v) && Connected(es, v, w)
    ensures Connected(es, u, w)
  {
    var p :| PathBetween(es, p, u, v);
    var q :| PathBetween(es, q, v, w);
    var r := p + q[1..];
    forall i | 0 <= i < |r| - 1 ensures Adjacent(es, r[i], r[i + 1]) {
      if i < |p| - 1 {
        assert Adjacent(es, p[i], p[i + 1]);
      } else {
        assert Adjacent(es, q[i - |p| + 1], q[i - |p| + 2]);
      }
    }
    assert PathBetween(es, r, u, w);
  }

  lemma EdgeConnects(es: seq<Edge>, u: nat, v: nat)
    requires Adjacent(es, u, v)
    ensures Connected(es, u, v)
  {
    assert PathBetween(es, [u, v], u, v);
  }

  lemma Monotone(es: seq<Edge>, fs: seq<Edge>, u: nat, v: nat)
    requires Connected(es, u, v)
    requires forall e :: e in es ==> e in fs
    ensures Connected(fs, u, v)
  {
    var p :| PathBetween(es, p, u, v);
    forall i | 0 <= i < |p| - 1 ensures Adjacent(fs, p[i], p[i + 1]) {
      assert Adjacent(es, p[i], p[i + 1]);
    }
    assert PathBetween(fs, p, u, v);
  }

  // ---- adding one edge ----

  /** Connected once the edge (a, b) may be used as well. */
  ghost predicate ConnectedVia(es: seq<Edge>, a: nat, b: nat, u: nat, v: nat)
  {
    || Connected(es, u, v)
    || (Connected(es, u, a) && Connected(es, b, v))
    || (Connected(es, u, b) && Connected(es, a, v))
  }

  lemma AddEdge(es: seq<Edge>, a: nat, b: nat, u: nat, v: nat)
    ensures Connected(es + [(a, b)], u, v) <==> ConnectedVia(es, a, b, u, v)
  {
    var fs := es + [(a, b)];
    if Connected(fs, u, v) {
      var p :| PathBetween(fs, p, u, v);
      WalkVia(es, a, b, p);
    }
    if ConnectedVia(es, a, b, u, v) {
      ViaConnects(es, a, b, u, v);
    }
  }

  lemma ViaConnects(es: seq<Edge>, a: nat, b: nat, u: nat, v: nat)
    requires ConnectedVia(es, a, b, u, v)
    ensures Connected(es + [(a, b)], u, v)
  {
    var fs := es + [(a, b)];
    assert (a, b) in fs;
    EdgeConnects(fs, a, b); EdgeConnects(fs, b, a);
    if Connected(es, u, v) {
      Monotone(es, fs, u, v);
    } else if Connected(es, u, a) && Connected(es, b, v) {
      Monotone(es, fs, u, a); Monotone(es, fs, b, v);
      Transitive(fs, u, a, b); Transitive(fs, u, b, v);
    } else {
      Monotone(es, fs, u, b); Monotone(es, fs, a, v);
      Transitive(fs, u, b, a); Transitive(fs, u, a, v);
    }
  }

  lemma {:induction false} WalkVia(es: seq<Edge>, a: nat, b: nat, p: seq<nat>)
    requires Path(es + [(a, b)], p)
    ensures ConnectedVia(es, a, b, p[0], p[|p| - 1])
    decreases |p|
  {
    var u, v := p[0], p[|p| - 1];
    if |p| == 1 {
      Reflexive(es, u);
    } else {
      var w, rest := p[1], p[1..];
      forall i | 0 <= i < |rest| - 1 ensures Adjacent(es + [(a, b)], rest[i], rest[i + 1]) {
        assert Adjacent(es + [(a, b)], p[i + 1], p[i + 1 + 1]);
      }
      WalkVia(es, a, b, rest);
      assert Adjacent(es + [(a, b)], p[0], p[0 + 1]);
      Reflexive(es, a); Reflexive(es, b);
      if Adjacent(es, u, w) {
        EdgeConnects(es, u, w);
        if Connected(es, w, v) { Transitive(es, u, w, v); }
        if Connected(es, w, a) { Transitive(es, u, w, a); }
        if Connected(es, w, b) { Transitive(es, u, w, b); }
      }
    }
  }

  /** Same connectivity. */
  ghost predicate SameConnectivity(es: seq<Edge>, fs: seq<Edge>)
  {
    forall u: nat, v: nat :: Connected(es, u, v) <==> Connected(fs, u, v)
  }

  /** An edge inside a component changes nothing. */
  lemma RedundantEdge(es: seq<Edge>, a: nat, b: nat)
    requires Connected(es, a, b)
    ensures SameConnectivity(es, es + [(a, b)])
  {
    forall u: nat, v: nat ensures Connected(es, u, v) <==> Connected(es + [(a, b)], u, v) {
      AddEdge(es, a, b, u, v);
      Symmetric(es, a, b);
      if Connected(es, u, a) && Connected(es, b, v) {
        Transitive(es, u, a, b); Transitive(es, u, b, v);
      }
      if Connected(es, u, b) && Connected(es, a, v) {
        Transitive(es, u, b, a); Transitive(es, u, a, v);
      }
    }
  }

  /** Edges between the same two components may stand in for each other. */
  lemma ReplacedEdge(es: seq<Edge>, fs: seq<Edge>, a: nat, b: nat, x: nat, y: nat)
    requires SameConnectivity(es, fs)
    requires Connected(es, a, x) && Connected(es, b, y)
    ensures SameConnectivity(es + [(a, b)], fs + [(x, y)])
  {
    forall u: nat, v: nat ensures Connected(es + [(a, b)], u, v) <==> Connected(fs + [(x, y)], u, v) {
      AddEdge(es, a, b, u, v);
      AddEdge(fs, x, y, u, v);
      Symmetric(es, a, x); Symmetric(es, b, y);
      Moves(es, u, a, x); Moves(es, u, b, y);
      MovesFrom(es, a, x, v); MovesFrom(es, b, y, v);
    }
  }

  lemma Moves(es: seq<Edge>, u: nat, a: nat, x: nat)
    requires Connected(es, a, x) && Connected(es, x, a)
    ensures Connected(es, u, a) <==> Connected(es, u, x)
  {
    if Connected(es, u, a) { Transitive(es, u, a, x); }
    if Connected(es, u, x) { Transitive(es, u, x, a); }
  }

  lemma MovesFrom(es: seq<Edge>, a: nat, x: nat, v: nat)
    requires Connected(es, a, x) && Connected(es, x, a)
    ensures Connected(es, a, v) <==> Connected(es, x, v)
  {
    if Connected(es, a, v) { Transitive(es, x, a, v); }
    if Connected(es, x, v) { Transitive(es, a, x, v); }
  }

  // ---- components ----

  ghost function Component(n: nat, es: seq<Edge>, v: nat): set<nat>
  {
    set w: nat | w < n && Connected(es, v, w)
  }

  /** The connected components of the graph on the vertices 0 .. n-1. */
  ghost function Components(n: nat, es: seq<Edge>): set<set<nat>>
  {
    set v: nat | v < n :: Component(n, es, v)
  }

  ghost predicate EdgesBelow(n: nat, es: seq<Edge>)
  {
    forall e :: e in es ==> e.0 < n && e.1 < n
  }

  lemma SameComponents(n: nat, es: seq<Edge>, fs: seq<Edge>)
    requires SameConnectivity(es, fs)
    ensures Components(n, es) == Components(n, fs)
  {
    forall v: nat ensures Component(n, es, v) == Component(n, fs, v) {}
  }

  lemma ComponentsEqual(n: nat, es: seq<Edge>, u: nat, v: nat)
    requires u < n && v < n
    ensures Component(n, es, u) == Component(n, es, v) <==> Connected(es, u, v)
  {
    Reflexive(es, u); Reflexive(es, v);
    if Connected(es, u, v) {
      Symmetric(es, u, v);
      forall w: nat ensures Connected(es, u, w) <==> Connected(es, v, w) {
        MovesFrom(es, u, v, w);
      }
    } else {
      assert v in Component(n, es, v) && v !in Component(n, es, u);
    }
  }

  lemma NoEdges(u: nat, v: nat)
    requires Connected([], u, v)
    ensures u == v
  {
    var p :| PathBetween([], p, u, v);
    assert |p| > 1 ==> Adjacent([], p[0], p[0 + 1]);
  }

  /** Without edges every vertex is a component. */
  lemma {:induction false} Isolated(n: nat, m: nat)
    requires m <= n
    ensures |set v: nat | v < m :: Component(n, [], v)| == m
  {
    if m > 0 {
      Isolated(n, m - 1);
      var before := set v: nat | v < m - 1 :: Component(n, [], v);
      var c := Component(n, [], m - 1);
      if c in before {
        var v: nat :| v < m - 1 && Component(n, [], v) == c;
        ComponentsEqual(n, [], v, m - 1);
        NoEdges(v, m - 1);
        assert false;
      }
      assert (set v: nat | v < m :: Component(n, [], v)) == before + {c};
    }
  }

  /** An edge between two components merges them. */
  lemma MergedComponents(n: nat, es: seq<Edge>, a: nat, b: nat)
    requires a < n && b < n && !Connected(es, a, b)
    ensures |Components(n, es + [(a, b)])| == |Components(n, es)| - 1
  {
    var fs := es + [(a, b)];
    var ca, cb := Component(n, es, a), Component(n, es, b);
    var merged := ca + cb;
    forall v: nat | v < n
      ensures Component(n, fs, v) == if v in merged then merged else Component(n, es, v)
    {
      MergedComponent(n, es, a, b, v);
    }
    Reflexive(es, a); Reflexive(es, b);
    ComponentsEqual(n, es, a, b);
    var others := Components(n, es) - {ca, cb};
    forall c | c in others ensures c in Components(n, fs) {
      var v: nat :| v < n && c == Component(n, es, v);
      ComponentsEqual(n, es, v, a); ComponentsEqual(n, es, v, b);
      if v in ca { Symmetric(es, a, v); }
      if v in cb { Symmetric(es, b, v); }
      assert Component(n, fs, v) == c;
    }
    assert Component(n, fs, a) == merged;
    assert merged in Components(n, fs);
    forall c | c in Components(n, fs) ensures c in others + {merged} {
      var v: nat :| v < n && c == Component(n, fs, v);
      if v !in merged {
        assert c == Component(n, es, v);
        Reflexive(es, v);
        assert v in c && v !in ca && v !in cb;
      }
    }
    assert Components(n, fs) == others + {merged};
    forall c | c in others ensures c != merged {
      var v: nat :| v < n && c == Component(n, es, v);
      if c == merged {
        assert a in c;
        ComponentsEqual(n, es, v, a);
      }
    }
    assert Components(n, es) == others + {ca, cb};
    assert ca in Components(n, es) && cb in Components(n, es);
  }

  lemma MergedComponent(n: nat, es: seq<Edge>, a: nat, b: nat, v: nat)
    requires a < n && b < n && v < n
    ensures Component(n, es + [(a, b)], v)
         == var merged := Component(n, es, a) + Component(n, es, b);
            if v in merged then merged else Component(n, es, v)
  {
    var fs := es + [(a, b)];
    forall w: nat | w < n
      ensures Connected(fs, v, w) <==>
              if Connected(es, a, v) || Connected(es, b, v) then Connected(es, a, w) || Connected(es, b, w)
              else Connected(es, v, w)
    {
      AddEdge(es, a, b, v, w);
      Swap(es, v, a); Swap(es, v, b);
      if Connected(es, a, v) {
        MovesFrom(es, a, v, w);
      }
      if Connected(es, b, v) {
        MovesFrom(es, b, v, w);
      }
    }
  }

  lemma Swap(es: seq<Edge>, u: nat, v: nat)
    ensures Connected(es, u, v) <==> Connected(es, v, u)
  {
    if Connected(es, u, v) { Symmetric(es, u, v); }
    if Connected(es, v, u) { Symmetric(es, v, u); }
  }

  // ---- forests ----

  ghost function Without(es: seq<Edge>, i: nat): seq<Edge>
    requires i < |es|
  {
    es[..i] + es[i + 1..]
  }

  /** No edge lies on a cycle: without it, its end points fall apart. */
  ghost predicate Acyclic(es: seq<Edge>)
  {
    forall i :: 0 <= i < |es| ==> !Connected(Without(es, i), es[i].0, es[i].1)
  }

  /** Each edge can join at most two components. */
  lemma {:induction false} ComponentsAtLeast(n: nat, es: seq<Edge>)
    requires EdgesBelow(n, es)
    ensures |es| + |Components(n, es)| >= n
    decreases |es|
  {
    if |es| == 0 {
      Isolated(n, n);
    } else {
      var fs, e := es[..|es| - 1], es[|es| - 1];
      assert es == fs + [(e.0, e.1)];
      ComponentsAtLeast(n, fs);
      if Connected(fs, e.0, e.1) {
        RedundantEdge(fs, e.0, e.1);
        SameComponents(n, fs, es);
      } else {
        MergedComponents(n, fs, e.0, e.1);
      }
    }
  }

  /** If every edge joins two components, no edge lies on a cycle. */
  lemma TightIsAcyclic(n: nat, es: seq<Edge>)
    requires EdgesBelow(n, es)
    requires |es| + |Components(n, es)| == n
    ensures Acyclic(es)
  {
    forall i | 0 <= i < |es| ensures !Connected(Without(es, i), es[i].0, es[i].1) {
      var fs, e := Without(es, i), es[i];
      if Connected(fs, e.0, e.1) {
        RedundantEdge(fs, e.0, e.1);
        var gs := fs + [(e.0, e.1)];
        forall u: nat, v: nat ensures Connected(gs, u, v) <==> Connected(es, u, v) {
          assert forall f :: f in gs <==> f in es;
          if Connected(gs, u, v) { Monotone(gs, es, u, v); }
          if Connected(es, u, v) { Monotone(es, gs, u, v); }
        }
        SameComponents(n, fs, es);
        ComponentsAtLeast(n, fs);
        assert false;
      }
    }
  }
}
