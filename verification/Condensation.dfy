/** Classes of mutually reachable vertices, the quotient by them, and how
    reachability carries over. */
module Condensation {
  import opened Graphs
  import opened Sorting

  /** The component map and the member lists partition the vertices into sorted,
      non-empty lists. */
  ghost predicate Partition(n: nat, componentOf: seq<int>, components: seq<seq<nat>>) {
    && |componentOf| == n
    && (forall v: nat :: v < n ==> 0 <= componentOf[v] < |components|)
    && (forall c: nat :: c < |components| ==> components[c] != [] && StrictlySorted(components[c]))
    && (forall c: nat, v: nat {:trigger v in components[c]} {:trigger componentOf[v], components[c]} ::
          c < |components| ==> (v in components[c] <==> v < n && componentOf[v] == c))
  }

  /** Two vertices share a component exactly when each reaches the other. */
  ghost predicate StronglyConnected(g: Graph, componentOf: seq<int>) {
    && |componentOf| == |g|
    && forall u: nat, v: nat :: u < |g| && v < |g| ==>
         (componentOf[u] == componentOf[v] <==> Reach(g, u, v) && Reach(g, v, u))
  }

  /** Edges never lead to a component with a higher number. */
  ghost predicate ReverseTopological(g: Graph, componentOf: seq<int>) {
    && |componentOf| == |g|
    && WellFormed(g)
    && forall u: nat, v: nat :: HasEdge(g, u, v) ==> v < |g| && componentOf[v] <= componentOf[u]
  }

  // ----- the graph of components

  /** The edges of one vertex that leave component c, redirected to components. */
  function Leaving(es: seq<Edge>, componentOf: seq<int>, c: nat): seq<Edge>
    requires forall k :: 0 <= k < |es| ==> es[k].dest < |componentOf| && 0 <= componentOf[es[k].dest]
  {
    if es == [] then []
    else
      var last := es[|es| - 1];
      Leaving(es[..|es| - 1], componentOf, c) +
      (if componentOf[last.dest] != c then [last.(dest := componentOf[last.dest])] else [])
  }

  ghost predicate Mapped(g: Graph, componentOf: seq<int>, count: nat) {
    && WellFormed(g) && |componentOf| == |g|
    && forall v: nat :: v < |g| ==> 0 <= componentOf[v] < count
  }

  /** All edges that leave component c from one of the first i vertices, in order. */
  ghost function OutEdges(g: Graph, componentOf: seq<int>, count: nat, c: nat, i: nat): seq<Edge>
    requires Mapped(g, componentOf, count) && i <= |g|
  {
    if i == 0 then []
    else
      OutEdges(g, componentOf, count, c, i - 1) +
      (if componentOf[i - 1] == c then Leaving(g[i - 1], componentOf, c) else [])
  }

  /** The component graph of g for a given component map. */
  ghost function Quotient(g: Graph, componentOf: seq<int>, count: nat): Graph
    requires Mapped(g, componentOf, count)
  {
    seq(count, c requires 0 <= c < count => OutEdges(g, componentOf, count, c, |g|))
  }

  /** The positions of the edges of g that become a given edge e out of component c. */
  ghost function Sources(g: Graph, componentOf: seq<int>, count: nat, c: nat, i: nat, e: Edge): set<(nat, nat)>
    requires Mapped(g, componentOf, count) && i <= |g|
  {
    set u: nat, k: nat | u < i && k < |g[u]| && Becomes(g, componentOf, count, c, u, k, e) :: (u, k)
  }

  /** Edge k of vertex u leaves component c and becomes e. */
  ghost predicate Becomes(g: Graph, componentOf: seq<int>, count: nat, c: nat, u: nat, k: nat, e: Edge)
    requires Mapped(g, componentOf, count) && u < |g| && k < |g[u]|
  {
    && componentOf[u] == c
    && componentOf[g[u][k].dest] != c
    && e == g[u][k].(dest := componentOf[g[u][k].dest])
  }

  ghost function SourcesAt(g: Graph, componentOf: seq<int>, count: nat, c: nat, u: nat, k: nat, e: Edge): set<(nat,
      nat)>
    requires Mapped(g, componentOf, count) && u < |g| && k <= |g[u]|
  {
    set j: nat | j < k && Becomes(g, componentOf, count, c, u, j, e) :: (u, j)
  }

  lemma {:induction false} LeavingCount(g: Graph, componentOf: seq<int>, count: nat, c: nat, u: nat, k: nat, e: Edge)
    requires Mapped(g, componentOf, count) && u < |g| && k <= |g[u]| && componentOf[u] == c
    ensures multiset(Leaving(g[u][..k], componentOf, c))[e] == |SourcesAt(g, componentOf, count, c, u, k, e)|
  {
    if k == 0 {
      assert SourcesAt(g, componentOf, count, c, u, k, e) == {};
    } else {
      LeavingCount(g, componentOf, count, c, u, k - 1, e);
      assert g[u][..k][..k - 1] == g[u][..k - 1];
      SourcesAtMore(g, componentOf, count, c, u, k - 1, e);
    }
  }

  lemma SourcesAtMore(g: Graph, componentOf: seq<int>, count: nat, c: nat, u: nat, k: nat, e: Edge)
    requires Mapped(g, componentOf, count) && u < |g| && k < |g[u]|
    ensures |SourcesAt(g, componentOf, count, c, u, k + 1, e)| ==
      |SourcesAt(g, componentOf, count, c, u, k, e)| + if Becomes(g, componentOf, count, c, u, k, e) then 1 else 0
  {
    hide Becomes;
    var before := SourcesAt(g, componentOf, count, c, u, k, e);
    assert SourcesAt(g, componentOf, count, c, u, k + 1, e) ==
      before + (if Becomes(g, componentOf, count, c, u, k, e) then {(u, k)} else {});
    assert (u, k) !in before;
  }

  lemma NoSources(g: Graph, componentOf: seq<int>, count: nat, c: nat, e: Edge)
    requires Mapped(g, componentOf, count)
    ensures Sources(g, componentOf, count, c, 0, e) == {}
    ensures forall u: nat :: u < |g| && componentOf[u] != c ==> SourcesAt(g, componentOf, count, c, u, |g[u]|, e) == {}
  {
  }

  lemma SourcesMore(g: Graph, componentOf: seq<int>, count: nat, c: nat, u: nat, e: Edge)
    requires Mapped(g, componentOf, count) && u < |g|
    ensures |Sources(g, componentOf, count, c, u + 1, e)| ==
      |Sources(g, componentOf, count, c, u, e)| + |SourcesAt(g, componentOf, count, c, u, |g[u]|, e)|
  {
    hide Becomes;
    var before := Sources(g, componentOf, count, c, u, e);
    var at := SourcesAt(g, componentOf, count, c, u, |g[u]|, e);
    assert Sources(g, componentOf, count, c, u + 1, e) == before + at;
    assert before !! at;
  }

  /** Every edge of the component graph appears exactly as often as edges of g
      become it: duplicates are kept, not combined. */
  lemma {:induction false} EdgeMultiplicity(g: Graph, componentOf: seq<int>, count: nat, c: nat, i: nat, e: Edge)
    requires Mapped(g, componentOf, count) && i <= |g|
    ensures multiset(OutEdges(g, componentOf, count, c, i))[e] == |Sources(g, componentOf, count, c, i, e)|
  {
    hide Sources, SourcesAt, Leaving;
    NoSources(g, componentOf, count, c, e);
    if i > 0 {
      EdgeMultiplicity(g, componentOf, count, c, i - 1, e);
      var u := i - 1;
      SourcesMore(g, componentOf, count, c, u, e);
      if componentOf[u] == c {
        LeavingCount(g, componentOf, count, c, u, |g[u]|, e);
        assert g[u][..|g[u]|] == g[u];
      }
    }
  }

  lemma {:induction false} OutEdgesInRange(g: Graph, componentOf: seq<int>, count: nat, c: nat, i: nat, k: nat)
    requires Mapped(g, componentOf, count) && i <= |g| && k < |OutEdges(g, componentOf, count, c, i)|
    ensures exists u: nat, v: nat ::
      HasEdge(g, u, v) && v < |g|
        && componentOf[u] == c != componentOf[v] == OutEdges(g, componentOf, count, c, i)[k].dest
  {
    var e := OutEdges(g, componentOf, count, c, i)[k];
    EdgeMultiplicity(g, componentOf, count, c, i, e);
    assert e in multiset(OutEdges(g, componentOf, count, c, i));
    assert Sources(g, componentOf, count, c, i, e) != {};
    var p :| p in Sources(g, componentOf, count, c, i, e);
    assert HasEdge(g, p.0, g[p.0][p.1].dest);
  }

  lemma {:induction false} EdgeCarriesOver(g: Graph, componentOf: seq<int>, count: nat, u: nat, v: nat)
    requires Mapped(g, componentOf, count) && HasEdge(g, u, v) && componentOf[u] != componentOf[v]
    ensures HasEdge(Quotient(g, componentOf, count), componentOf[u], componentOf[v])
  {
    var k: nat :| k < |g[u]| && g[u][k].dest == v;
    var c := componentOf[u];
    var e := g[u][k].(dest := componentOf[v]);
    EdgeMultiplicity(g, componentOf, count, c, |g|, e);
    assert (u, k) in Sources(g, componentOf, count, c, |g|, e);
    var out := OutEdges(g, componentOf, count, c, |g|);
    assert e in multiset(out);
    var x :| 0 <= x < |out| && out[x] == e;
    assert Quotient(g, componentOf, count)[c] == out;
  }

  // ----- the order of the edges

  lemma {:induction false} LeavingPrefix(es: seq<Edge>, componentOf: seq<int>, c: nat, k: nat)
    requires forall i :: 0 <= i < |es| ==> es[i].dest < |componentOf| && 0 <= componentOf[es[i].dest]
    requires k < |es| && componentOf[es[k].dest] != c
    ensures var before := Leaving(es[..k], componentOf, c);
      before + [es[k].(dest := componentOf[es[k].dest])] <= Leaving(es, componentOf, c)
  {
    var front := es[..|es| - 1];
    if k < |es| - 1 {
      assert front[..k] == es[..k];
      LeavingPrefix(front, componentOf, c, k);
    }
  }

  lemma {:induction false} OutEdgesPrefix(g: Graph, componentOf: seq<int>, count: nat, c: nat, u: nat, i: nat)
    requires Mapped(g, componentOf, count) && u < i <= |g| && componentOf[u] == c
    ensures OutEdges(g, componentOf, count, c, u) + Leaving(g[u], componentOf, c) <=
      OutEdges(g, componentOf, count, c, i)
  {
    if u < i - 1 { OutEdgesPrefix(g, componentOf, count, c, u, i - 1); }
  }

  /** Edge k of u leaves the component of u. */
  ghost predicate Crosses(g: Graph, componentOf: seq<int>, count: nat, u: nat, k: nat)
    requires Mapped(g, componentOf, count)
  {
    u < |g| && k < |g[u]| && componentOf[g[u][k].dest] != componentOf[u]
  }

  /** The edges of a component that what comes before edge k of u has given. */
  ghost function EdgesBefore(g: Graph, componentOf: seq<int>, count: nat, u: nat, k: nat): seq<Edge>
    requires Mapped(g, componentOf, count) && u < |g| && k <= |g[u]|
  {
    OutEdges(g, componentOf, count, componentOf[u], u) + Leaving(g[u][..k], componentOf, componentOf[u])
  }

  lemma EdgeInPlace(g: Graph, componentOf: seq<int>, count: nat, u: nat, k: nat)
    requires Mapped(g, componentOf, count) && Crosses(g, componentOf, count, u, k)
    ensures EdgesBefore(g, componentOf, count, u, k) + [g[u][k].(dest := componentOf[g[u][k].dest])] <=
      Quotient(g, componentOf, count)[componentOf[u]]
  {
    var c := componentOf[u];
    LeavingPrefix(g[u], componentOf, c, k);
    OutEdgesPrefix(g, componentOf, count, c, u, |g|);
  }

  /** Edges keep their order: those of a lower member come first, and those of one member
      as they are. */
  lemma EdgesInOrder(g: Graph, componentOf: seq<int>, count: nat, u: nat, j: nat, v: nat, k: nat)
    returns (p: nat, q: nat)
    requires Mapped(g, componentOf, count) && Crosses(g, componentOf, count, u, j)
    requires Crosses(g, componentOf, count, v, k) && componentOf[u] == componentOf[v]
    requires u < v || (u == v && j < k)
    ensures var out := Quotient(g, componentOf, count)[componentOf[u]];
      && p < q < |out|
      && out[p] == g[u][j].(dest := componentOf[g[u][j].dest])
      && out[q] == g[v][k].(dest := componentOf[g[v][k].dest])
  {
    var c := componentOf[u];
    EdgeInPlace(g, componentOf, count, u, j);
    EdgeInPlace(g, componentOf, count, v, k);
    p := |EdgesBefore(g, componentOf, count, u, j)|;
    q := |EdgesBefore(g, componentOf, count, v, k)|;
    if u < v {
      LeavingPrefix(g[u], componentOf, c, j);
      OutEdgesPrefix(g, componentOf, count, c, u, v);
    } else {
      assert g[u][..k][..j] == g[u][..j];
      LeavingPrefix(g[u][..k], componentOf, c, j);
    }
  }

  /** The whole result: components, their numbering and the graph between them. */
  ghost predicate IsCondensation(g: Graph, componentOf: seq<int>, components: seq<seq<nat>>, cg: Graph) {
    && Partition(|g|, componentOf, components)
    && StronglyConnected(g, componentOf)
    && ReverseTopological(g, componentOf)
    && Mapped(g, componentOf, |components|)
    && cg == Quotient(g, componentOf, |components|)
  }

  /** An edge joins two components exactly when some edge of g joins their members,
      and it leads from a higher number to a lower one. */
  lemma ComponentEdge(g: Graph, componentOf: seq<int>, components: seq<seq<nat>>, cg: Graph, c: nat, d: nat)
    requires IsCondensation(g, componentOf, components, cg)
    ensures HasEdge(cg, c, d) <==>
      exists u: nat, v: nat :: HasEdge(g, u, v) && v < |g| && componentOf[u] == c != componentOf[v] == d
    ensures HasEdge(cg, c, d) ==> d < c < |cg| == |components|
  {
    hide Reach;
    if HasEdge(cg, c, d) {
      var k: nat :| k < |cg[c]| && cg[c][k].dest == d;
      OutEdgesInRange(g, componentOf, |components|, c, |g|, k);
    }
    if u: nat, v: nat :| HasEdge(g, u, v) && v < |g| && componentOf[u] == c != componentOf[v] == d {
      EdgeCarriesOver(g, componentOf, |components|, u, v);
    }
  }

  lemma ComponentGraphIsAcyclic(g: Graph, componentOf: seq<int>, components: seq<seq<nat>>, cg: Graph)
    requires IsCondensation(g, componentOf, components, cg)
    ensures WellFormed(cg) && |cg| == |components| && Acyclic(cg)
  {
    hide IsCondensation;
    assert |cg| == |components| by { ComponentGraphSize(g, componentOf, components, cg); }
    forall c: nat, k: nat | c < |cg| && k < |cg[c]|
      ensures cg[c][k].dest < |cg|
    {
      assert HasEdge(cg, c, cg[c][k].dest);
      ComponentEdge(g, componentOf, components, cg, c, cg[c][k].dest);
    }
    forall c: nat, d: nat | HasEdge(cg, c, d)
      ensures d < c < |cg|
    {
      ComponentEdge(g, componentOf, components, cg, c, d);
    }
    RankedIsAcyclic(cg, seq(|cg|, c => c));
  }

  lemma ComponentGraphSize(g: Graph, componentOf: seq<int>, components: seq<seq<nat>>, cg: Graph)
    requires IsCondensation(g, componentOf, components, cg)
    ensures |cg| == |components|
  {
  }

  lemma {:induction false} WalkInComponents(g: Graph, componentOf: seq<int>, components: seq<seq<nat>>, cg: Graph,
      u: nat, v: nat, n: nat)
    requires IsCondensation(g, componentOf, components, cg) && ReachIn(g, u, v, n)
    ensures u < |g| && v < |g| && Reach(cg, componentOf[u], componentOf[v])
    decreases n
  {
    if n == 0 {
      ReachRefl(cg, componentOf[u]);
    } else {
      var w: nat :| HasEdge(g, u, w) && ReachIn(g, w, v, n - 1);
      WalkInComponents(g, componentOf, components, cg, w, v, n - 1);
      if componentOf[u] != componentOf[w] {
        ComponentEdge(g, componentOf, components, cg, componentOf[u], componentOf[w]);
        ReachStep(cg, componentOf[u], componentOf[w], componentOf[v]);
      }
    }
  }

  lemma {:induction false} WalkBetweenMembers(g: Graph, componentOf: seq<int>, components: seq<seq<nat>>, cg: Graph,
      c: nat, d: nat, n: nat, u: nat, v: nat)
    requires IsCondensation(g, componentOf, components, cg) && ReachIn(cg, c, d, n)
    requires u < |g| && v < |g| && componentOf[u] == c && componentOf[v] == d
    ensures Reach(g, u, v)
    decreases n
  {
    if n > 0 {
      var e: nat :| HasEdge(cg, c, e) && ReachIn(cg, e, d, n - 1);
      ComponentEdge(g, componentOf, components, cg, c, e);
      var a: nat, b: nat :| HasEdge(g, a, b) && b < |g| && componentOf[a] == c != componentOf[b] == e;
      WalkBetweenMembers(g, componentOf, components, cg, e, d, n - 1, b, v);
      ReachStep(g, a, b, v);
      ReachTrans(g, u, a, v);
    }
  }

  /** Walks between members and walks in the quotient correspond. */
  lemma ReachThroughComponents(g: Graph, componentOf: seq<int>, components: seq<seq<nat>>, cg: Graph, u: nat, v: nat)
    requires IsCondensation(g, componentOf, components, cg) && u < |g| && v < |g|
    ensures Reach(g, u, v) <==> Reach(cg, componentOf[u], componentOf[v])
  {
    if Reach(g, u, v) {
      var n: nat :| ReachIn(g, u, v, n);
      WalkInComponents(g, componentOf, components, cg, u, v, n);
    }
    if Reach(cg, componentOf[u], componentOf[v]) {
      var n: nat :| ReachIn(cg, componentOf[u], componentOf[v], n);
      WalkBetweenMembers(g, componentOf, components, cg, componentOf[u], componentOf[v], n, u, v);
    }
  }
}
