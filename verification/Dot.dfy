/** The causal edges of the DOT export: an edge is drawn when one entry happens before another
    and no third entry lies between them. */
module Dot {
  import opened VectorClock
  import opened LogEntry

  /** An edge between two entries of the store; edges across nodes are drawn as messages. */
  datatype Edge = Edge(from: nat, to: nat, rpc: bool)

  ghost predicate Before(es: seq<Entry>, i: nat, j: nat) {
    i < |es| && j < |es| && Relate(es[i].vc, es[j].vc) == HappensBefore
  }

  ghost predicate Direct(es: seq<Entry>, i: nat, j: nat) {
    Before(es, i, j) && forall k: nat :: !(Before(es, i, k) && Before(es, k, j))
  }

  ghost predicate IsEdge(es: seq<Entry>, e: Edge) {
    Direct(es, e.from, e.to) && e.rpc == (StrCmp(es[e.from].nodeId, es[e.to].nodeId) != 0)
  }

  /** An edge is drawn as a message exactly when its ends are on different nodes. */
  lemma StyleIs(es: seq<Entry>, e: Edge)
    requires IsEdge(es, e)
    ensures e.rpc <==> es[e.from].nodeId != es[e.to].nodeId
  {
    hide Relate;
    StrCmpOrder(es[e.from].nodeId, es[e.to].nodeId);
  }

  /** The loops of store_export_dot. Nothing is exported from an empty store. */
  method ExportEdges(es: seq<Entry>) returns (ok: bool, edges: seq<Edge>)
    ensures ok <==> es != []
    ensures ok ==> forall e :: e in edges <==> IsEdge(es, e)
    ensures forall a, b :: 0 <= a < b < |edges| ==> edges[a] != edges[b]
  {
    hide Relate, StrCmp;
    edges := [];
    if |es| == 0 {
      return false, edges;
    }
    for i := 0 to |es|
      invariant forall e :: e in edges <==> e.from < i && IsEdge(es, e)
      invariant forall a, b :: 0 <= a < b < |edges| ==> edges[a] != edges[b]
    {
      for j := 0 to |es|
        invariant forall e :: e in edges <==> (e.from < i || (e.from == i && e.to < j)) && IsEdge(es, e)
        invariant forall a, b :: 0 <= a < b < |edges| ==> edges[a] != edges[b]
      {
        var direct := IsDirect(es, i, j);
        if direct {
          edges := edges + [Edge(i, j, StrCmp(es[i].nodeId, es[j].nodeId) != 0)];
        }
      }
    }
    return true, edges;
  }

  /** The test for one pair: the scan over all possible entries in between. */
  method IsDirect(es: seq<Entry>, i: nat, j: nat) returns (direct: bool)
    requires i < |es| && j < |es|
    ensures direct <==> Direct(es, i, j)
  {
    hide Relate;
    BeforeStrict(es, i, j);
    if i == j {
      return false;
    }
    var rel := Compare(es[i].vc, es[j].vc);
    if rel != HappensBefore {
      return false;
    }
    direct := true;
    var k := 0;
    while k < |es|
      invariant 0 <= k <= |es| && direct
      invariant forall m: nat :: m < k ==> !(Before(es, i, m) && Before(es, m, j))
    {
      BeforeStrict(es, i, k);
      BeforeStrict(es, k, j);
      if k == i || k == j {
        k := k + 1;
        continue;
      }
      var a := Compare(es[i].vc, es[k].vc);
      var b := Compare(es[k].vc, es[j].vc);
      if a == HappensBefore && b == HappensBefore {
        assert Before(es, i, k) && Before(es, k, j);
        return false;
      }
      k := k + 1;
    }
    assert forall m: nat :: m >= |es| ==> !Before(es, i, m);
  }

  lemma BeforeStrict(es: seq<Entry>, i: nat, j: nat)
    ensures Before(es, i, j) ==> i != j && !Before(es, j, i)
  {
  }

  lemma BeforeTransitive(es: seq<Entry>, i: nat, k: nat, j: nat)
    requires Before(es, i, k) && Before(es, k, j)
    ensures Before(es, i, j)
  {
    var a, b, c := es[i].vc, es[k].vc, es[j].vc;
    LeTransitive(a, b, c);
    if Le(c, a) {
      LeTransitive(b, c, a);
    }
  }

  // ---------------------------------------------------------------- paths

  type Arrow = (nat, nat)

  /** A path along arrows, with at least one step. */
  ghost predicate Path(arrows: iset<Arrow>, p: seq<nat>, i: nat, j: nat)
    decreases |p|
  {
    |p| >= 2 && p[0] == i && (i, p[1]) in arrows
    && if |p| == 2 then p[1] == j else Path(arrows, p[1..], p[1], j)
  }

  ghost predicate Reaches(arrows: iset<Arrow>, i: nat, j: nat) {
    exists p :: Path(arrows, p, i, j)
  }

  ghost function Drawn(es: seq<Entry>): iset<Arrow> {
    iset i, j | Direct(es, i, j) :: (i, j)
  }

  /** Every path along a relation inside happens-before stays inside it. */
  lemma {:induction false} PathIsBefore(es: seq<Entry>, arrows: iset<Arrow>, p: seq<nat>, i: nat, j: nat)
    requires forall a, b :: (a, b) in arrows ==> Before(es, a, b)
    requires Path(arrows, p, i, j)
    ensures Before(es, i, j)
    decreases |p|
  {
    if |p| > 2 {
      PathIsBefore(es, arrows, p[1..], p[1], j);
      BeforeTransitive(es, i, p[1], j);
    }
  }

  lemma {:induction false} PathJoin(arrows: iset<Arrow>, p: seq<nat>, q: seq<nat>, i: nat, k: nat, j: nat)
    requires Path(arrows, p, i, k) && Path(arrows, q, k, j)
    ensures Path(arrows, p + q[1..], i, j)
    decreases |p|
  {
    var r := p + q[1..];
    if |p| == 2 {
      assert r[1..] == q;
    } else {
      PathJoin(arrows, p[1..], q, p[1], k, j);
      assert r[1..] == p[1..] + q[1..];
    }
  }

  /** Entries strictly between two others. */
  ghost function Between(es: seq<Entry>, i: nat, j: nat): set<nat> {
    set k: nat | k < |es| && Before(es, i, k) && Before(es, k, j)
  }

  lemma {:induction false} BeforeHasPath(es: seq<Entry>, i: nat, j: nat)
    requires Before(es, i, j)
    ensures Reaches(Drawn(es), i, j)
    decreases |Between(es, i, j)|
  {
    hide Before;
    if k: nat :| Before(es, i, k) && Before(es, k, j) {
      BetweenSmaller(es, i, k, j);
      BeforeHasPath(es, i, k);
      BeforeHasPath(es, k, j);
      var p :| Path(Drawn(es), p, i, k);
      var q :| Path(Drawn(es), q, k, j);
      PathJoin(Drawn(es), p, q, i, k, j);
    } else {
      assert Path(Drawn(es), [i, j], i, j);
    }
  }

  lemma BetweenSmaller(es: seq<Entry>, i: nat, k: nat, j: nat)
    requires Before(es, i, k) && Before(es, k, j)
    ensures |Between(es, i, k)| < |Between(es, i, j)| && |Between(es, k, j)| < |Between(es, i, j)|
  {
    var all := Between(es, i, j);
    assert k in all;
    forall m | m in Between(es, i, k)
      ensures m in all && m != k
    {
      BeforeTransitive(es, m, k, j);
      BeforeStrict(es, m, k);
    }
    forall m | m in Between(es, k, j)
      ensures m in all && m != k
    {
      BeforeTransitive(es, i, k, m);
      BeforeStrict(es, k, m);
    }
    Smaller(Between(es, i, k), all, k);
    Smaller(Between(es, k, j), all, k);
  }

  lemma Smaller(a: set<nat>, b: set<nat>, k: nat)
    requires a <= b && k in b && k !in a
    ensures |a| < |b|
  {
    assert |b - a| > 0;
    assert b == a + (b - a);
  }

  /** Reachability along the drawn edges is happens-before. */
  lemma DrawnReachesBefore(es: seq<Entry>, i: nat, j: nat)
    ensures Reaches(Drawn(es), i, j) <==> Before(es, i, j)
  {
    hide Before;
    if Before(es, i, j) {
      BeforeHasPath(es, i, j);
    }
    if p :| Path(Drawn(es), p, i, j) {
      PathIsBefore(es, Drawn(es), p, i, j);
    }
  }

  /** No edge is superfluous: every relation with the same reachability contains all of them.
      In particular, removing an edge loses a reachable pair. */
  lemma DrawnIsLeast(es: seq<Entry>, arrows: iset<Arrow>)
    requires forall i, j :: Reaches(arrows, i, j) <==> Before(es, i, j)
    ensures Drawn(es) <= arrows
  {
    hide Before, Path;
    forall i, j | (i, j) in arrows
      ensures Before(es, i, j)
    {
      assert Path(arrows, [i, j], i, j) by { OneArrow(arrows, i, j); }
    }
    forall i: nat, j: nat | Direct(es, i, j)
      ensures (i, j) in arrows
    {
      var p :| Path(arrows, p, i, j);
      FirstArrow(es, arrows, p, i, j);
    }
  }

  lemma OneArrow(arrows: iset<Arrow>, i: nat, j: nat)
    requires (i, j) in arrows
    ensures Path(arrows, [i, j], i, j)
  {
  }

  lemma FirstArrow(es: seq<Entry>, arrows: iset<Arrow>, p: seq<nat>, i: nat, j: nat)
    requires forall a, b :: (a, b) in arrows ==> Before(es, a, b)
    requires Direct(es, i, j) && Path(arrows, p, i, j)
    ensures (i, j) in arrows
  {
    hide Before;
    if |p| > 2 {
      PathIsBefore(es, arrows, p[1..], p[1], j);
    }
  }

  lemma RemovingAnEdgeLosesAPair(es: seq<Entry>, i: nat, j: nat)
    requires Direct(es, i, j)
    ensures Reaches(Drawn(es), i, j) && !Reaches(Drawn(es) - iset{(i, j)}, i, j)
  {
    hide Before;
    DrawnReachesBefore(es, i, j);
    var fewer := Drawn(es) - iset{(i, j)};
    if p :| Path(fewer, p, i, j) {
      FirstArrow(es, fewer, p, i, j);
    }
  }
}
