/** Parent arrays: every vertex points towards the root of its tree, roots at themselves. */
module Forest {

  ghost predicate InRange(par: seq<nat>)
  {
    forall v :: 0 <= v < |par| ==> par[v] < |par|
  }

  /** k parent steps up from v. */
  ghost function Climb(par: seq<nat>, v: nat, k: nat): (r: nat)
    requires InRange(par) && v < |par|
    ensures r < |par|
    decreases k
  {
    if k == 0 then v else Climb(par, par[v], k - 1)
  }

  ghost predicate ReachesRoot(par: seq<nat>, v: nat, k: nat)
    requires InRange(par) && v < |par|
  {
    var r := Climb(par, v, k);
    par[r] == r
  }

  ghost predicate Grounded(par: seq<nat>, v: nat)
    requires InRange(par) && v < |par|
  {
    exists k: nat :: ReachesRoot(par, v, k)
  }

  /** Every parent chain ends at a root: there is no cycle but the self-loops of the roots. */
  ghost predicate IsForest(par: seq<nat>)
  {
    && InRange(par)
    && forall v: nat :: v < |par| ==> Grounded(par, v)
  }

  ghost function Root(par: seq<nat>, v: nat): (r: nat)
    requires IsForest(par) && v < |par|
    ensures r < |par| && par[r] == r
  {
    assert Grounded(par, v);
    var k: nat :| ReachesRoot(par, v, k);
    Climb(par, v, k)
  }

  lemma {:induction false} StaysAtRoot(par: seq<nat>, r: nat, k: nat)
    requires InRange(par) && r < |par| && par[r] == r
    ensures Climb(par, r, k) == r
  {
    if k > 0 { StaysAtRoot(par, r, k - 1); }
  }

  lemma {:induction false} OneRoot(par: seq<nat>, v: nat, j: nat, k: nat)
    requires InRange(par) && v < |par|
    requires ReachesRoot(par, v, j) && ReachesRoot(par, v, k)
    ensures Climb(par, v, j) == Climb(par, v, k)
    decreases j
  {
    if par[v] == v {
      StaysAtRoot(par, v, j); StaysAtRoot(par, v, k);
    } else {
      OneRoot(par, par[v], j - 1, k - 1);
    }
  }

  /** Any climb that reaches a root reaches the root. */
  lemma RootIs(par: seq<nat>, v: nat, k: nat)
    requires IsForest(par) && v < |par| && ReachesRoot(par, v, k)
    ensures Root(par, v) == Climb(par, v, k)
  {
    var j: nat :| ReachesRoot(par, v, j) && Root(par, v) == Climb(par, v, j);
    OneRoot(par, v, j, k);
  }

  /** Hanging root a below root b moves a's tree to b and keeps all other roots. */
  lemma LinkRoots(par: seq<nat>, a: nat, b: nat)
    requires IsForest(par) && a < |par| && b < |par|
    requires par[a] == a && par[b] == b && a != b
    ensures var linked := par[a := b];
            IsForest(linked) &&
            forall v: nat :: v < |par| ==> Root(linked, v) == if Root(par, v) == a then b else Root(par, v)
  {
    var linked := par[a := b];
    assert InRange(linked);
    forall v: nat | v < |par| ensures Grounded(linked, v) {
      assert Grounded(par, v);
      var j: nat :| ReachesRoot(par, v, j);
      var k := ClimbLinked(par, a, b, v, j);
    }
    forall v: nat | v < |par|
      ensures Root(linked, v) == if Root(par, v) == a then b else Root(par, v)
    {
      assert Grounded(par, v);
      var j: nat :| ReachesRoot(par, v, j);
      var k := ClimbLinked(par, a, b, v, j);
      RootIs(par, v, j);
      RootIs(linked, v, k);
    }
  }

  lemma {:induction false} ClimbLinked(par: seq<nat>, a: nat, b: nat, v: nat, j: nat) returns (k: nat)
    requires InRange(par) && a < |par| && b < |par| && v < |par|
    requires par[a] == a && par[b] == b && a != b
    requires ReachesRoot(par, v, j)
    ensures InRange(par[a := b]) && ReachesRoot(par[a := b], v, k)
    ensures Climb(par[a := b], v, k) == if Climb(par, v, j) == a then b else Climb(par, v, j)
    decreases j
  {
    var linked := par[a := b];
    if par[v] == v {
      StaysAtRoot(par, v, j);
      k := if v == a then 1 else 0;
    } else {
      k := ClimbLinked(par, a, b, par[v], j - 1);
      k := k + 1;
    }
  }

  ghost function Singletons(n: nat): (par: seq<nat>)
    ensures |par| == n && IsForest(par)
    ensures forall v: nat :: v < n ==> Root(par, v) == v
  {
    var par := seq(n, i => i);
    SelfParents(par);
    par
  }

  lemma SelfParents(par: seq<nat>)
    requires forall v: nat :: v < |par| ==> par[v] == v
    ensures IsForest(par) && forall v: nat :: v < |par| ==> Root(par, v) == v
  {
    forall v: nat | v < |par| ensures Grounded(par, v) {
      assert ReachesRoot(par, v, 0);
    }
    forall v: nat | v < |par| ensures Root(par, v) == v {
      RootIs(par, v, 0);
    }
  }
}
