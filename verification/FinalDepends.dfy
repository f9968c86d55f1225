/** The acyclic target graph built from a graph of components: what its shape is and
    what that shape guarantees (ComputeFinalDepends in cmComputeTargetDepends). */
module FinalDepends {
  import opened Graphs
  import opened Sorting
  import opened Condensation
  import opened IntraComponent

  /** The targets of each component in chain order, head first. */
  type Chains = seq<seq<nat>>

  /** The chains are the components, each in some order. */
  ghost predicate ChainsMatch(n: nat, cmap: seq<int>, chains: Chains) {
    && |cmap| == n
    && (forall v: nat :: v < n ==> 0 <= cmap[v] < |chains| && v in chains[cmap[v]])
    && (forall c: nat :: c < |chains| ==> chains[c] != [] && Distinct(chains[c]))
    && (forall c: nat, p: nat :: c < |chains| && p < |chains[c]| ==> chains[c][p] < n && cmap[chains[c][p]] == c)
  }

  /** The edges from the tail of a component to the heads of those it depends on. */
  ghost function TailEdges(es: seq<Edge>, chains: Chains): seq<Edge>
    requires forall k :: 0 <= k < |es| ==> es[k].dest < |chains| && chains[es[k].dest] != []
  {
    seq(|es|, k requires 0 <= k < |es| => es[k].(dest := chains[es[k].dest][0]))
  }

  ghost predicate Connects(cg: Graph, chains: Chains) {
    && |cg| == |chains|
    && (forall c: nat :: c < |chains| ==> chains[c] != [])
    && WellFormed(cg)
  }

  /** The final edges of position p of chain c: its strong edges inside the
      component, then the next of the chain or the heads of other components. */
  ghost predicate FinalEdgesAt(initial: Graph, cmap: seq<int>, cg: Graph, chains: Chains, fin: Graph, c: nat, p: nat)
    requires Connects(cg, chains) && c < |chains| && p < |chains[c]|
  {
    var v := chains[c][p];
    v < |initial| && v < |fin| &&
    fin[v] == Kept(Setting(initial, cmap, c), initial[v]) +
      (if p + 1 < |chains[c]| then [Edge(chains[c][p + 1], false, false, NoTrace)] else TailEdges(cg[c], chains))
  }

  /** Strong edges inside a component lead down its chain. */
  ghost predicate StrongDown(initial: Graph, cmap: seq<int>, chains: Chains, c: nat, p: nat)
    requires c < |chains| && p < |chains[c]|
  {
    var v := chains[c][p];
    v < |initial| && forall k :: 0 <= k < |initial[v]| && Setting(initial, cmap, c).Inside(initial[v][k]) ==>
      initial[v][k].dest in chains[c][p + 1..]
  }

  ghost predicate FinalShape(initial: Graph, cmap: seq<int>, cg: Graph, chains: Chains, fin: Graph) {
    && WellFormed(initial) && |fin| == |initial|
    && ChainsMatch(|initial|, cmap, chains)
    && Connects(cg, chains)
    && (forall c: nat, p: nat :: c < |chains| && p < |chains[c]| ==> FinalEdgesAt(initial, cmap, cg, chains, fin, c, p))
    && (forall c: nat, p: nat :: c < |chains| && p < |chains[c]| ==> StrongDown(initial, cmap, chains, c, p))
  }

  /** One step in the final graph. */
  ghost predicate Step(initial: Graph, cmap: seq<int>, cg: Graph, chains: Chains, c: nat, p: nat, v: nat) {
    c < |chains| && p < |chains[c]| &&
    (|| (v in chains[c][p + 1..])
     || (p + 1 == |chains[c]| && exists d: nat ::
         d < |chains| && chains[d] != [] && HasEdge(cg, c, d) && chains[d][0] == v))
  }

  lemma PlaceInChain(n: nat, cmap: seq<int>, chains: Chains, v: nat) returns (p: nat)
    requires ChainsMatch(n, cmap, chains) && v < n
    ensures 0 <= cmap[v] < |chains| && p < |chains[cmap[v]]| && chains[cmap[v]][p] == v
  {
    p :| p < |chains[cmap[v]]| && chains[cmap[v]][p] == v;
  }

  /** Every final edge leads down the chain or from a tail to a head. */
  lemma EdgeIsStep(initial: Graph, cmap: seq<int>, cg: Graph, chains: Chains, fin: Graph, c: nat, p: nat, v: nat)
    requires FinalShape(initial, cmap, cg, chains, fin) && c < |chains| && p < |chains[c]|
    requires HasEdge(fin, chains[c][p], v)
    ensures Step(initial, cmap, cg, chains, c, p, v)
  {
    var u := chains[c][p];
    var x := Setting(initial, cmap, c);
    assert FinalEdgesAt(initial, cmap, cg, chains, fin, c, p) && StrongDown(initial, cmap, chains, c, p);
    var k: nat :| k < |fin[u]| && fin[u][k].dest == v;
    var kept := Kept(x, initial[u]);
    if k < |kept| {
      assert kept[k].dest == v;
      var m := KeptFrom(x, initial[u], k);
      assert v in chains[c][p + 1..];
    } else if p + 1 < |chains[c]| {
      assert v == chains[c][p + 1];
      assert chains[c][p + 1..][0] == v;
    } else {
      var j := k - |kept|;
      var d := cg[c][j].dest;
      assert fin[u][k] == TailEdges(cg[c], chains)[j];
      assert d < |chains| && HasEdge(cg, c, d) && chains[d][0] == v;
    }
  }

  lemma {:induction false} KeptFrom(x: Setting, es: seq<Edge>, k: nat) returns (m: nat)
    requires k < |Kept(x, es)|
    ensures m < |es| && x.Inside(es[m]) && es[m] == Kept(x, es)[k]
  {
    var front := es[..|es| - 1];
    if k < |Kept(x, front)| {
      m := KeptFrom(x, front, k);
    } else {
      m := |es| - 1;
    }
  }

  lemma ChainEdge(initial: Graph, cmap: seq<int>, cg: Graph, chains: Chains, fin: Graph, c: nat, p: nat)
    requires FinalShape(initial, cmap, cg, chains, fin) && c < |chains| && p + 1 < |chains[c]|
    ensures HasEdge(fin, chains[c][p], chains[c][p + 1])
  {
    assert FinalEdgesAt(initial, cmap, cg, chains, fin, c, p);
    var u := chains[c][p];
    assert fin[u][|fin[u]| - 1].dest == chains[c][p + 1];
  }

  lemma TailToHead(initial: Graph, cmap: seq<int>, cg: Graph, chains: Chains, fin: Graph, c: nat, d: nat)
    requires FinalShape(initial, cmap, cg, chains, fin) && c < |chains| && HasEdge(cg, c, d)
    ensures d < |chains| && HasEdge(fin, chains[c][|chains[c]| - 1], chains[d][0])
  {
    hide StrongDown, ChainsMatch, Kept;
    var p := |chains[c]| - 1;
    assert FinalEdgesAt(initial, cmap, cg, chains, fin, c, p);
    var u := chains[c][p];
    var k: nat :| k < |cg[c]| && cg[c][k].dest == d;
    var kept := Kept(Setting(initial, cmap, c), initial[u]);
    assert fin[u][|kept| + k] == TailEdges(cg[c], chains)[k];
  }

  /** Every strong edge inside a component is kept. */
  lemma StrongEdgeKept(initial: Graph, cmap: seq<int>, cg: Graph, chains: Chains, fin: Graph, u: nat, k: nat)
    requires FinalShape(initial, cmap, cg, chains, fin) && u < |initial| && k < |initial[u]|
    requires initial[u][k].strong && initial[u][k].dest < |cmap| && cmap[initial[u][k].dest] == cmap[u]
    ensures initial[u][k] in fin[u] && HasEdge(fin, u, initial[u][k].dest)
  {
    var p := PlaceInChain(|initial|, cmap, chains, u);
    var x := Setting(initial, cmap, cmap[u]);
    assert FinalEdgesAt(initial, cmap, cg, chains, fin, cmap[u], p);
    KeptHas(x, initial[u], k);
    var j :| 0 <= j < |Kept(x, initial[u])| && Kept(x, initial[u])[j] == initial[u][k];
    assert fin[u][j] == initial[u][k];
  }

  lemma {:induction false} KeptHas(x: Setting, es: seq<Edge>, k: nat)
    requires k < |es| && x.Inside(es[k])
    ensures es[k] in Kept(x, es)
  {
    if k < |es| - 1 {
      KeptHas(x, es[..|es| - 1], k);
    }
  }

  // ----- order of the final graph

  /** Where a target comes in the whole order: components from high to low, each
      from head to tail. */
  ghost function Rank(n: nat, cmap: seq<int>, chains: Chains, v: nat): int
    requires ChainsMatch(n, cmap, chains) && v < n
  {
    var p: nat :| p < |chains[cmap[v]]| && chains[cmap[v]][p] == v;
    cmap[v] * (n + 1) + (n - p)
  }

  lemma RankAt(n: nat, cmap: seq<int>, chains: Chains, c: nat, p: nat)
    requires ChainsMatch(n, cmap, chains) && c < |chains| && p < |chains[c]|
    ensures chains[c][p] < n && Rank(n, cmap, chains, chains[c][p]) == c * (n + 1) + (n - p) && p < n
  {
    var v := chains[c][p];
    assert cmap[v] == c;
    assert forall q: nat :: q < |chains[c]| && chains[c][q] == v ==> q == p;
    forall a | 0 <= a < |chains[c]|
      ensures chains[c][a] < n
    {
      assert cmap[chains[c][a]] == c;
    }
    DistinctFits(n, chains[c]);
  }

  lemma StepRanks(n: nat, c: nat, d: nat, p: nat, q: nat)
    requires (c == d && p < q <= n) || (d < c && p <= n && q <= n)
    ensures d * (n + 1) + (n - q) < c * (n + 1) + (n - p)
  {
    if d < c {
      assert c * (n + 1) == (d + 1) * (n + 1) + (c - d - 1) * (n + 1);
    }
  }

  lemma StepDescends(initial: Graph, cmap: seq<int>, cg: Graph, chains: Chains, fin: Graph, u: nat, v: nat)
    requires FinalShape(initial, cmap, cg, chains, fin) && HasEdge(fin, u, v)
    requires forall c: nat, d: nat :: HasEdge(cg, c, d) ==> d < c
    ensures v < |initial| && u < |initial|
    ensures Rank(|initial|, cmap, chains, v) < Rank(|initial|, cmap, chains, u)
  {
    hide Rank;
    var n := |initial|;
    var p := PlaceInChain(n, cmap, chains, u);
    var c := cmap[u];
    EdgeIsStep(initial, cmap, cg, chains, fin, c, p, v);
    RankAt(n, cmap, chains, c, p);
    if v in chains[c][p + 1..] {
      var j :| 0 <= j < |chains[c][p + 1..]| && chains[c][p + 1..][j] == v;
      assert v == chains[c][p + 1 + j];
      RankAt(n, cmap, chains, c, p + 1 + j);
      StepRanks(n, c, c, p, p + 1 + j);
    } else {
      var d: nat :| d < |chains| && HasEdge(cg, c, d) && chains[d][0] == v;
      RankAt(n, cmap, chains, d, 0);
      StepRanks(n, c, d, p, 0);
    }
  }

  /** The final graph has no cycle. */
  lemma FinalIsAcyclic(initial: Graph, cmap: seq<int>, cg: Graph, chains: Chains, fin: Graph)
    requires FinalShape(initial, cmap, cg, chains, fin)
    requires forall c: nat, d: nat :: HasEdge(cg, c, d) ==> d < c
    ensures WellFormed(fin) && Acyclic(fin)
  {
    hide FinalShape, Rank;
    var n := |initial|;
    assert ChainsMatch(n, cmap, chains) && |fin| == n by { ShapeParts(initial, cmap, cg, chains, fin); }
    var rank := seq(n, v requires 0 <= v < n => Rank(n, cmap, chains, v));
    forall u: nat, k: nat | u < |fin| && k < |fin[u]|
      ensures fin[u][k].dest < |fin|
    {
      assert HasEdge(fin, u, fin[u][k].dest);
      StepDescends(initial, cmap, cg, chains, fin, u, fin[u][k].dest);
    }
    forall u: nat, v: nat | HasEdge(fin, u, v)
      ensures v < |fin| && rank[v] < rank[u]
    {
      StepDescends(initial, cmap, cg, chains, fin, u, v);
    }
    RankedIsAcyclic(fin, rank);
  }

  lemma ShapeParts(initial: Graph, cmap: seq<int>, cg: Graph, chains: Chains, fin: Graph)
    requires FinalShape(initial, cmap, cg, chains, fin)
    ensures ChainsMatch(|initial|, cmap, chains) && Connects(cg, chains) && |fin| == |initial| && WellFormed(initial)
  {
  }

  // ----- reachability of the final graph

  lemma {:induction false} DownTheChain(initial: Graph, cmap: seq<int>, cg: Graph, chains: Chains, fin: Graph, c: nat,
      p: nat, q: nat)
    requires FinalShape(initial, cmap, cg, chains, fin) && c < |chains| && p <= q < |chains[c]|
    ensures Reach(fin, chains[c][p], chains[c][q])
    decreases q - p
  {
    hide Reach, HasEdge, FinalEdgesAt, StrongDown;
    if p == q {
      ReachRefl(fin, chains[c][p]);
    } else {
      ChainEdge(initial, cmap, cg, chains, fin, c, p);
      DownTheChain(initial, cmap, cg, chains, fin, c, p + 1, q);
      ReachStep(fin, chains[c][p], chains[c][p + 1], chains[c][q]);
    }
  }

  lemma {:induction false} DownTheComponents(initial: Graph, cmap: seq<int>, cg: Graph, chains: Chains, fin: Graph,
      c: nat, p: nat, d: nat, q: nat, n: nat)
    requires FinalShape(initial, cmap, cg, chains, fin)
    requires c < |chains| && p < |chains[c]| && d < |chains| && q < |chains[d]|
    requires 0 < n && ReachIn(cg, c, d, n)
    ensures Reach(fin, chains[c][p], chains[d][q])
    decreases n
  {
    hide Reach, FinalEdgesAt, StrongDown, FinalShape;
    ShapeParts(initial, cmap, cg, chains, fin);
    var e: nat :| HasEdge(cg, c, e) && ReachIn(cg, e, d, n - 1);
    var tail := chains[c][|chains[c]| - 1];
    DownTheChain(initial, cmap, cg, chains, fin, c, p, |chains[c]| - 1);
    TailToHead(initial, cmap, cg, chains, fin, c, e);
    if n == 1 {
      DownTheChain(initial, cmap, cg, chains, fin, d, 0, q);
    } else {
      DownTheComponents(initial, cmap, cg, chains, fin, e, 0, d, q, n - 1);
    }
    ReachStep(fin, tail, chains[e][0], chains[d][q]);
    ReachTrans(fin, chains[c][p], tail, chains[d][q]);
  }

  /** Each final edge stands for a dependency of the graph the components are of. */
  lemma EdgeWasThere(g: Graph, initial: Graph, cmap: seq<int>, components: seq<seq<nat>>, cg: Graph, chains: Chains,
      fin: Graph, u: nat, v: nat)
    requires IsCondensation(g, cmap, components, cg) && |g| == |initial|
    requires FinalShape(initial, cmap, cg, chains, fin) && HasEdge(fin, u, v)
    ensures u < |g| && v < |g| && Reach(g, u, v)
  {
    hide Reach, IsCondensation, FinalEdgesAt, StrongDown;
    var p := PlaceInChain(|initial|, cmap, chains, u);
    var c := cmap[u];
    EdgeIsStep(initial, cmap, cg, chains, fin, c, p, v);
    if v in chains[c][p + 1..] {
      var j :| 0 <= j < |chains[c][p + 1..]| && chains[c][p + 1..][j] == v;
      assert v == chains[c][p + 1 + j];
      SameComponentReach(g, cmap, components, cg, u, v);
    } else {
      var d: nat :| d < |chains| && HasEdge(cg, c, d) && chains[d][0] == v;
      assert cmap[v] == d;
      ReachRefl(cg, d) by { assert d < |cg|; }
      ReachStep(cg, c, d, d);
      ReachThroughComponents(g, cmap, components, cg, u, v);
    }
  }

  lemma SameComponentReach(g: Graph, cmap: seq<int>, components: seq<seq<nat>>, cg: Graph, u: nat, v: nat)
    requires IsCondensation(g, cmap, components, cg) && u < |g| && v < |g| && |cmap| == |g| && cmap[u] == cmap[v]
    ensures Reach(g, u, v)
  {
  }

  lemma {:induction false} WalkWasThere(g: Graph, initial: Graph, cmap: seq<int>, components: seq<seq<nat>>,
      cg: Graph, chains: Chains, fin: Graph, u: nat, v: nat, n: nat)
    requires IsCondensation(g, cmap, components, cg) && |g| == |initial|
    requires FinalShape(initial, cmap, cg, chains, fin) && ReachIn(fin, u, v, n)
    ensures u < |g| && v < |g| && Reach(g, u, v)
    decreases n
  {
    hide Reach, IsCondensation, FinalEdgesAt, StrongDown, ChainsMatch;
    if n == 0 {
      ReachRefl(g, u);
    } else {
      var w: nat :| HasEdge(fin, u, w) && ReachIn(fin, w, v, n - 1);
      EdgeWasThere(g, initial, cmap, components, cg, chains, fin, u, w);
      WalkWasThere(g, initial, cmap, components, cg, chains, fin, w, v, n - 1);
      ReachTrans(g, u, w, v);
    }
  }

  /** Between components the final graph reaches exactly what g reaches; inside a
      component it invents nothing. */
  lemma FinalPreservesReach(g: Graph, initial: Graph, cmap: seq<int>, components: seq<seq<nat>>, cg: Graph,
      chains: Chains, fin: Graph, u: nat, v: nat)
    requires IsCondensation(g, cmap, components, cg) && |g| == |initial|
    requires FinalShape(initial, cmap, cg, chains, fin) && u < |g| && v < |g|
    ensures Reach(fin, u, v) ==> Reach(g, u, v)
    ensures cmap[u] != cmap[v] ==> (Reach(fin, u, v) <==> Reach(g, u, v))
  {
    hide IsCondensation, FinalEdgesAt, StrongDown;
    if Reach(fin, u, v) {
      var n: nat :| ReachIn(fin, u, v, n);
      WalkWasThere(g, initial, cmap, components, cg, chains, fin, u, v, n);
    }
    if cmap[u] != cmap[v] && Reach(g, u, v) {
      var p := PlaceInChain(|initial|, cmap, chains, u);
      var q := PlaceInChain(|initial|, cmap, chains, v);
      ReachThroughComponents(g, cmap, components, cg, u, v);
      var n: nat :| ReachIn(cg, cmap[u], cmap[v], n);
      DownTheComponents(initial, cmap, cg, chains, fin, cmap[u], p, cmap[v], q, n);
    }
  }

  // ----- linearising every component

  /** Processed from the last member to the first, no walk calls a vertex twice. */
  ghost predicate Linearizable(x: Setting, members: seq<nat>) {
    forall i: nat :: i < |members| ==> TreeLike(x, members[i], StrongClosure(x, members[i + 1..]))
  }

  /** Two ways of saying which vertices make up the component. */
  ghost predicate SameMembers(x: Setting, y: Setting) {
    && x.graph == y.graph && |x.cmap| == |y.cmap|
    && forall v: nat :: v < |x.cmap| ==> (x.cmap[v] == x.c <==> y.cmap[v] == y.c)
  }

  lemma {:induction false} SameKept(x: Setting, y: Setting, es: seq<Edge>)
    requires SameMembers(x, y)
    ensures Kept(x, es) == Kept(y, es)
  {
    if es != [] { SameKept(x, y, es[..|es| - 1]); }
  }

  /** Only the members of the component matter, not how it is numbered. */
  lemma SameLinearizable(x: Setting, y: Setting, members: seq<nat>)
    requires SameMembers(x, y) && Linearizable(x, members)
    ensures Linearizable(y, members)
  {
    hide Reach, StrongClosure;
    assert StrongPart(x) == StrongPart(y) by {
      forall v: nat | v < |x.graph|
        ensures StrongPart(x)[v] == StrongPart(y)[v]
      {
        SameKept(x, y, x.graph[v]);
      }
    }
    forall i: nat | i < |members|
      ensures TreeLike(y, members[i], StrongClosure(y, members[i + 1..]))
    {
      SameClosure(x, y, members[i + 1..]);
      var base := StrongClosure(x, members[i + 1..]);
      assert TreeLike(x, members[i], base);
      forall a, b
        ensures !Conflict(y, members[i], base, a, b)
      {
        assert !Conflict(x, members[i], base, a, b);
      }
    }
  }

  lemma SameClosure(x: Setting, y: Setting, members: seq<nat>)
    requires x.graph == y.graph && StrongPart(x) == StrongPart(y)
    ensures StrongClosure(x, members) == StrongClosure(y, members)
  {
    hide StrongPart;
    forall v: nat
      ensures ReachedFromSome(x, members, v) <==> ReachedFromSome(y, members, v)
    {
    }
  }

  lemma ClosureOfNone(x: Setting)
    ensures StrongClosure(x, []) == {}
  {
  }

  /** A walk that ended adds exactly what its start reaches. */
  lemma WalkExtendsClosure(x: Setting, members: seq<nat>, i: nat, base: set<nat>, w: Walk)
    requires i < |members| && base == StrongClosure(x, members[i + 1..])
    requires Walking(x, members[i], base, w) && w.active == {} && members[i] in w.emitted
    requires forall u: nat, y: nat :: u in base && HasEdge(StrongPart(x), u, y) ==> y in base
    ensures w.emitted == StrongClosure(x, members[i..])
  {
    hide Reach, Linked, Chained, SetsAgree, CallsAgree, AllCalled;
    var r, rest := members[i], members[i + 1..];
    assert members[i..] == [r] + rest;
    forall v: nat | v in w.emitted
      ensures v in StrongClosure(x, members[i..])
    {
      EmittedInRange(x, r, base, w, v);
      if v in base {
        var m :| m in rest && Reach(StrongPart(x), m, v);
        assert m in members[i..];
      } else {
        assert Reach(StrongPart(x), r, v) && r in members[i..];
      }
    }
    forall v: nat | v in StrongClosure(x, members[i..])
      ensures v in w.emitted
    {
      var m :| m in members[i..] && Reach(StrongPart(x), m, v);
      if m == r {
        WalkEmits(x, r, base, w, v);
      } else {
        assert m in rest && ReachedFromSome(x, rest, v);
        BaseEmitted(x, r, base, w, v);
      }
    }
  }

  lemma EmittedInRange(x: Setting, r: nat, base: set<nat>, w: Walk, v: nat)
    requires Walking(x, r, base, w) && v in w.emitted
    ensures v < |x.graph|
  {
  }

  lemma BaseEmitted(x: Setting, r: nat, base: set<nat>, w: Walk, v: nat)
    requires Walking(x, r, base, w) && v in base
    ensures v in w.emitted
  {
  }

  /** One finished chain: all of the component, linked from head to tail. */
  ghost predicate Linear(x: Setting, fin: Graph, chain: seq<nat>) {
    && Distinct(chain)
    && (forall p :: 0 <= p < |chain| ==> x.In(chain[p]))
    && (forall v: nat :: x.In(v) ==> v in chain)
    && Linked(x, fin, chain)
  }

  /** Nothing has been written for the members of a component. */
  ghost predicate Blank(x: Setting, fin: Graph) {
    forall v: nat :: x.In(v) ==> v < |fin| && fin[v] == []
  }

  lemma LinearFrame(x: Setting, fin: Graph, next: Graph, chain: seq<nat>)
    requires Linear(x, fin, chain) && |next| == |fin| && forall v: nat :: x.In(v) && v < |fin| ==> next[v] == fin[v]
    ensures Linear(x, next, chain)
  {
    forall p | 0 <= p < |chain|
      ensures LinkedAt(x, next, chain, p)
    {
      assert LinkedAt(x, fin, chain, p);
      assert x.In(chain[p]);
    }
  }

  /** The graph while tails are being connected: done components have all their tail
      edges, component c has its first k, the others none. */
  ghost predicate Connecting(initial: Graph, cmap: seq<int>, cg: Graph, chains: Chains, fin: Graph, c: nat, k: nat) {
    && WellFormed(initial) && |fin| == |initial| && ChainsMatch(|initial|, cmap, chains) && Connects(cg, chains)
    && c <= |chains| && (c < |chains| ==> k <= |cg[c]|)
    && (forall d: nat, p: nat :: d < |chains| && p < |chains[d]| ==>
        ConnectingAt(initial, cmap, cg, chains, fin, c, k, d, p))
    && (forall d: nat, p: nat :: d < |chains| && p < |chains[d]| ==> StrongDown(initial, cmap, chains, d, p))
  }

  ghost predicate ConnectingAt(initial: Graph, cmap: seq<int>, cg: Graph, chains: Chains, fin: Graph, c: nat, k: nat,
      d: nat, p: nat)
    requires Connects(cg, chains) && d < |chains| && p < |chains[d]| && (c < |chains| ==> k <= |cg[c]|)
  {
    var v := chains[d][p];
    v < |initial| && v < |fin| &&
    fin[v] == Kept(Setting(initial, cmap, d), initial[v]) +
      (if p + 1 < |chains[d]| then [Edge(chains[d][p + 1], false, false, NoTrace)]
       else if d < c then TailEdges(cg[d], chains)
       else if d == c then TailEdges(cg[d][..k], chains) else [])
  }

  lemma LinearConnects(initial: Graph, cmap: seq<int>, cg: Graph, chains: Chains, fin: Graph)
    requires WellFormed(initial) && |fin| == |initial| == |cmap| && WellFormed(cg) && |cg| == |chains|
    requires forall v: nat :: v < |initial| ==> 0 <= cmap[v] < |chains|
    requires forall c: nat :: c < |chains| ==> chains[c] != [] && Linear(Setting(initial, cmap, c), fin, chains[c])
    ensures Connecting(initial, cmap, cg, chains, fin, 0, 0)
  {
    forall v: nat | v < |initial|
      ensures v in chains[cmap[v]]
    {
      assert Setting(initial, cmap, cmap[v]).In(v);
    }
    forall c: nat, p: nat | c < |chains| && p < |chains[c]|
      ensures chains[c][p] < |initial| && cmap[chains[c][p]] == c
      ensures Connects(cg, chains) && ConnectingAt(initial, cmap, cg, chains, fin, 0, 0, c, p)
      ensures StrongDown(initial, cmap, chains, c, p)
    {
      var x := Setting(initial, cmap, c);
      assert Linear(x, fin, chains[c]) && x.In(chains[c][p]) && LinkedAt(x, fin, chains[c], p);
    }
  }

  /** Edge k of component c is converted. */
  lemma ConnectStep(initial: Graph, cmap: seq<int>, cg: Graph, chains: Chains, fin: Graph, c: nat, k: nat)
    requires Connecting(initial, cmap, cg, chains, fin, c, k) && c < |chains| && k < |cg[c]|
    ensures cg[c][k].dest < |chains| && chains[cg[c][k].dest] != []
    ensures var tail := chains[c][|chains[c]| - 1];
      && tail < |fin|
      && Connecting(initial, cmap, cg, chains,
           fin[tail := fin[tail] + [cg[c][k].(dest := chains[cg[c][k].dest][0])]], c, k + 1)
  {
    var tail := chains[c][|chains[c]| - 1];
    assert ConnectingAt(initial, cmap, cg, chains, fin, c, k, c, |chains[c]| - 1);
    var edge := cg[c][k].(dest := chains[cg[c][k].dest][0]);
    var next := fin[tail := fin[tail] + [edge]];
    assert TailEdges(cg[c][..k + 1], chains) == TailEdges(cg[c][..k], chains) + [edge];
    var k1 := k + 1;
    forall d: nat, p: nat | d < |chains| && p < |chains[d]|
      ensures ConnectingAt(initial, cmap, cg, chains, next, c, k1, d, p)
    {
      assert ConnectingAt(initial, cmap, cg, chains, fin, c, k, d, p);
      if chains[d][p] == tail {
        assert cmap[tail] == c == d;
      }
    }
  }

  lemma ConnectNext(initial: Graph, cmap: seq<int>, cg: Graph, chains: Chains, fin: Graph, c: nat)
    requires c < |chains| && c < |cg| && Connecting(initial, cmap, cg, chains, fin, c, |cg[c]|)
    ensures Connecting(initial, cmap, cg, chains, fin, c + 1, 0)
  {
    assert cg[c][..|cg[c]|] == cg[c];
    assert c + 1 < |chains| ==> TailEdges(cg[c + 1][..0], chains) == [];
    var c1 := c + 1;
    forall d: nat, p: nat | d < |chains| && p < |chains[d]|
      ensures ConnectingAt(initial, cmap, cg, chains, fin, c1, 0, d, p)
    {
      assert ConnectingAt(initial, cmap, cg, chains, fin, c, |cg[c]|, d, p);
    }
  }

  lemma ConnectedIsFinal(initial: Graph, cmap: seq<int>, cg: Graph, chains: Chains, fin: Graph)
    requires Connecting(initial, cmap, cg, chains, fin, |chains|, 0)
    ensures FinalShape(initial, cmap, cg, chains, fin)
  {
    forall c: nat, p: nat | c < |chains| && p < |chains[c]|
      ensures FinalEdgesAt(initial, cmap, cg, chains, fin, c, p)
    {
      assert ConnectingAt(initial, cmap, cg, chains, fin, |chains|, 0, c, p);
    }
  }

  // ----- the edges one by one

  /** A strong edge inside the component is copied to the place that those before it
      leave. */
  lemma {:induction false} KeptInPlace(x: Setting, es: seq<Edge>, k: nat)
    requires k < |es| && x.Inside(es[k])
    ensures |Kept(x, es[..k])| < |Kept(x, es)| && Kept(x, es)[|Kept(x, es[..k])|] == es[k]
  {
    var front := es[..|es| - 1];
    if k < |front| {
      assert front[..k] == es[..k];
      KeptInPlace(x, front, k);
    }
  }

  /** An edge between components has become one to the head of the chain it leads to. */
  ghost predicate ConnectedBy(chains: Chains, e: Edge, f: Edge) {
    && e.dest < |chains| && chains[e.dest] != []
    && f == Edge(chains[e.dest][0], e.strong, e.cross, e.trace)
  }

  /** Behind its strong edges a target has one weak edge, to the next of its chain; the
      tail has instead the edges of its component, in their order and with their flags, to
      the heads of those it depends on. */
  lemma FinalEdgesAre(initial: Graph, cmap: seq<int>, cg: Graph, chains: Chains, fin: Graph, c: nat, p: nat)
    requires FinalShape(initial, cmap, cg, chains, fin) && c < |chains| && p < |chains[c]|
    ensures chains[c][p] < |fin| == |initial| && |cg| == |chains|
    ensures var v := chains[c][p];
      var n := |Kept(Setting(initial, cmap, c), initial[v])|;
      && n <= |fin[v]| && fin[v][..n] == Kept(Setting(initial, cmap, c), initial[v])
      && (p + 1 < |chains[c]| ==> |fin[v]| == n + 1 && fin[v][n] == Edge(chains[c][p + 1], false, false, NoTrace))
      && (p + 1 == |chains[c]| ==> |fin[v]| == n + |cg[c]|)
      && (p + 1 == |chains[c]| ==>
          forall k: nat :: k < |cg[c]| ==> ConnectedBy(chains, cg[c][k], fin[v][n + k]))
  {
    hide Kept, StrongDown, TailEdges;
    assert FinalEdgesAt(initial, cmap, cg, chains, fin, c, p);
    if p + 1 == |chains[c]| {
      var v, kept := chains[c][p], Kept(Setting(initial, cmap, c), initial[chains[c][p]]);
      TailEdgesAre(cg[c], chains);
      forall k: nat | k < |cg[c]|
        ensures ConnectedBy(chains, cg[c][k], fin[v][|kept| + k])
      {
        assert fin[v][|kept| + k] == TailEdges(cg[c], chains)[k];
      }
    }
  }

  lemma TailEdgesAre(es: seq<Edge>, chains: Chains)
    requires forall k :: 0 <= k < |es| ==> es[k].dest < |chains| && chains[es[k].dest] != []
    ensures |TailEdges(es, chains)| == |es|
    ensures forall k: nat :: k < |es| ==> ConnectedBy(chains, es[k], TailEdges(es, chains)[k])
  {
  }
}
