/** When build-order dependencies exist, and what they keep: the cycles that are allowed,
    the intermediate graph, chains, and the final order (cmComputeTargetDepends). */
module BuildOrder {
  import opened Wrappers
  import opened TargetTypes
  import opened Graphs
  import opened Sorting
  import opened Condensation
  import opened IntraComponent
  import opened FinalDepends
  import opened ChainOrder
  import opened SideEffects
  import opened SideEffectCollection
  import opened SideEffectOrder

  /** What a condensation says about sizes and members. */
  lemma ComponentFacts(g: Graph, cmap: seq<int>, components: seq<seq<nat>>, cg: Graph)
    requires IsCondensation(g, cmap, components, cg)
    ensures |cmap| == |g| && |cg| == |components| && WellFormed(cg)
    ensures forall v: nat :: v < |g| ==> 0 <= cmap[v] < |components|
    ensures forall c: nat :: c < |components| ==> components[c] != [] && StrictlySorted(components[c])
    ensures forall c: nat, v: nat {:trigger v in components[c]} :: c < |components| ==>
      (v in components[c] <==> v < |g| && cmap[v] == c)
    ensures forall c, k :: 0 <= c < |components| && 0 <= k < |components[c]| ==> components[c][k] < |g|
  {
    ComponentGraphIsAcyclic(g, cmap, components, cg);
    forall c, k | 0 <= c < |components| && 0 <= k < |components[c]|
      ensures components[c][k] < |g|
    {
      assert components[c][k] in components[c];
    }
  }

  /** Distinct targets on a cycle are static libraries, and cycles are not forbidden. */
  ghost predicate CyclesAllowed(targets: seq<GeneratorTarget>, noCycles: bool, g: Graph) {
    && |targets| == |g|
    && forall u: nat, v: nat :: u < |g| && v < |g| && u != v && Reach(g, u, v) && Reach(g, v, u) ==>
         !noCycles && targets[u].kind == StaticLibrary
  }

  lemma CheckedCycles(targets: seq<GeneratorTarget>, noCycles: bool, g: Graph, cmap: seq<int>,
      components: seq<seq<nat>>, cg: Graph)
    requires IsCondensation(g, cmap, components, cg) && |targets| == |g|
    requires forall c, k :: 0 <= c < |components| && 0 <= k < |components[c]| ==> components[c][k] < |targets|
    requires forall c :: 0 <= c < |components| && 2 <= |components[c]| ==>
      !noCycles && forall k :: 0 <= k < |components[c]| ==> targets[components[c][k]].kind == StaticLibrary
    ensures CyclesAllowed(targets, noCycles, g)
  {
    hide Reach;
    forall u: nat, v: nat | u < |g| && v < |g| && u != v && Reach(g, u, v) && Reach(g, v, u)
      ensures !noCycles && targets[u].kind == StaticLibrary
    {
      var c := cmap[u];
      assert u in components[c] && v in components[c];
      var k :| 0 <= k < |components[c]| && components[c][k] == u;
      var j :| 0 <= j < |components[c]| && components[c][j] == v;
      assert 2 <= |components[c]|;
    }
  }

  ghost predicate BadComponent(targets: seq<GeneratorTarget>, noCycles: bool, nl: seq<nat>)
    requires forall k :: 0 <= k < |nl| ==> nl[k] < |targets|
  {
    noCycles || exists k :: 0 <= k < |nl| && targets[nl[k]].kind != StaticLibrary
  }

  lemma CheckFailed(targets: seq<GeneratorTarget>, noCycles: bool, g: Graph, cmap: seq<int>,
      components: seq<seq<nat>>, cg: Graph)
    requires IsCondensation(g, cmap, components, cg) && |targets| == |g|
    requires forall c, k :: 0 <= c < |components| && 0 <= k < |components[c]| ==> components[c][k] < |targets|
    requires exists c :: 0 <= c < |components| && 2 <= |components[c]| && BadComponent(targets, noCycles, components[c])
    ensures !CyclesAllowed(targets, noCycles, g)
  {
    hide Reach;
    var c :| 0 <= c < |components| && 2 <= |components[c]| && BadComponent(targets, noCycles, components[c]);
    var k := 0;
    if !noCycles { k :| 0 <= k < |components[c]| && targets[components[c][k]].kind != StaticLibrary; }
    var u, v := components[c][k], components[c][if k == 0 then 1 else 0];
    assert u in components[c] && v in components[c];
    SameComponentIff(g, cmap, components, cg, u, v);
  }

  /** The intermediate graph made from the side effects collected, which are sound, and
      complete exactly for targets to which every effect they reach is handed on. */
  ghost predicate Reduced(initial: Graph, targets: seq<GeneratorTarget>, record: seq<TargetSideEffects>,
      intermediate: Graph) {
    && WellFormed(initial) && |record| == |intermediate| == |initial| == |targets|
    && record == CollectFirst(initial, targets, |initial|).record
    && (forall v: nat :: v < |initial| ==> Sound(initial, targets, record[v], v))
    && (forall v: nat :: v < |initial| ==>
        (Complete(initial, targets, record[v], v) <==> EffectsHanded(initial, targets, v)))
    && (forall i: nat :: i < |initial| ==> IntermediateEdges(targets[i], record, initial[i], intermediate[i]))
  }

  /** The graph can be put in order: its cycles are allowed, and so are those of any
      intermediate graph for it, which can also be put into chains. */
  ghost predicate Accepted(targets: seq<GeneratorTarget>, noCycles: bool, initial: Graph) {
    && WellFormed(initial) && |targets| == |initial|
    && CyclesAllowed(targets, noCycles, initial)
    && var record := CollectFirst(initial, targets, |initial|).record;
       forall h: Graph {:trigger Reduced(initial, targets, record, h)} :: Reduced(initial, targets, record, h) ==>
         CyclesAllowed(targets, noCycles, h) && ChainsPossible(initial, h)
  }

  lemma AcceptedParts(targets: seq<GeneratorTarget>, noCycles: bool, initial: Graph)
    ensures Accepted(targets, noCycles, initial) ==> CyclesAllowed(targets, noCycles, initial)
  {
  }

  /** Any two intermediate graphs differ at most in the order and the flags of their
      weak edges. */
  lemma SameEdges(initial: Graph, targets: seq<GeneratorTarget>, record: seq<TargetSideEffects>, g: Graph, h: Graph,
      u: nat, v: nat)
    requires Reduced(initial, targets, record, g) && Reduced(initial, targets, record, h) && HasEdge(g, u, v)
    ensures HasEdge(h, u, v)
  {
    hide Sound, Complete, EffectsHanded, CollectFirst;
    var k: nat :| k < |g[u]| && g[u][k].dest == v;
    var e := g[u][k];
    assert IntermediateEdges(targets[u], record, initial[u], g[u])
      && IntermediateEdges(targets[u], record, initial[u], h[u]);
    if g[u] != h[u] {
      if e.strong {
        StrongOnlyHas(g[u], e);
        StrongOnlyHas(h[u], e);
        var j :| 0 <= j < |h[u]| && h[u][j] == e;
      } else {
        assert WeakTo(g[u], v);
        assert WeakTo(h[u], v);
        var j :| 0 <= j < |h[u]| && !h[u][j].strong && h[u][j].dest == v;
      }
    }
  }

  lemma {:induction false} SameWalks(initial: Graph, targets: seq<GeneratorTarget>, record: seq<TargetSideEffects>,
      g: Graph, h: Graph, u: nat, v: nat, n: nat)
    requires Reduced(initial, targets, record, g) && Reduced(initial, targets, record, h) && ReachIn(g, u, v, n)
    ensures ReachIn(h, u, v, n)
    decreases n
  {
    hide Sound, Complete, EffectsHanded, IntermediateEdges, CollectFirst;
    if n > 0 {
      var w: nat :| HasEdge(g, u, w) && ReachIn(g, w, v, n - 1);
      SameEdges(initial, targets, record, g, h, u, w);
      SameWalks(initial, targets, record, g, h, w, v, n - 1);
    }
  }

  lemma SameReach(initial: Graph, targets: seq<GeneratorTarget>, record: seq<TargetSideEffects>, g: Graph, h: Graph,
      u: nat, v: nat)
    requires Reduced(initial, targets, record, g) && Reduced(initial, targets, record, h)
    ensures Reach(g, u, v) <==> Reach(h, u, v)
  {
    hide Reduced;
    if Reach(g, u, v) {
      var n: nat :| ReachIn(g, u, v, n);
      SameWalks(initial, targets, record, g, h, u, v, n);
    }
    if Reach(h, u, v) {
      var n: nat :| ReachIn(h, u, v, n);
      SameWalks(initial, targets, record, h, g, u, v, n);
    }
  }

  /** So one of them tells whether the graph can be put in order. */
  lemma SameVerdict(targets: seq<GeneratorTarget>, noCycles: bool, initial: Graph, record: seq<TargetSideEffects>,
      g: Graph)
    requires Reduced(initial, targets, record, g) && CyclesAllowed(targets, noCycles, initial)
    ensures Accepted(targets, noCycles, initial) <==> CyclesAllowed(targets, noCycles, g) && ChainsPossible(initial, g)
  {
    hide CyclesAllowed, ChainsPossible, Sound, Complete, EffectsHanded, IntermediateEdges, CollectFirst;
    if CyclesAllowed(targets, noCycles, g) && ChainsPossible(initial, g) {
      forall h: Graph | Reduced(initial, targets, record, h)
        ensures CyclesAllowed(targets, noCycles, h) && ChainsPossible(initial, h)
      {
        SameCycles(targets, noCycles, initial, record, g, h);
      }
    }
  }

  lemma SameCycles(targets: seq<GeneratorTarget>, noCycles: bool, initial: Graph, record: seq<TargetSideEffects>,
      g: Graph, h: Graph)
    requires Reduced(initial, targets, record, g) && Reduced(initial, targets, record, h)
    requires CyclesAllowed(targets, noCycles, g) && ChainsPossible(initial, g)
    ensures CyclesAllowed(targets, noCycles, h) && ChainsPossible(initial, h)
  {
    hide Reach, Sound, Complete, EffectsHanded, IntermediateEdges, CollectFirst, Linearizable, Ascending;
    forall u: nat, v: nat
      ensures Reach(g, u, v) <==> Reach(h, u, v)
    {
      SameReach(initial, targets, record, g, h, u, v);
    }
    forall u: nat | u < |h|
      ensures CycleOf(g, u) == CycleOf(h, u) && CycleSetting(initial, g, u) == CycleSetting(initial, h, u)
    {
      assert CycleOf(g, u) == CycleOf(h, u);
      assert CycleSetting(initial, g, u).cmap == CycleSetting(initial, h, u).cmap;
    }
  }

  lemma StrongStay(initial: Graph, targets: seq<GeneratorTarget>, record: seq<TargetSideEffects>, intermediate: Graph)
    requires Reduced(initial, targets, record, intermediate)
    ensures forall u: nat, k: nat :: u < |initial| && k < |initial[u]| && initial[u][k].strong ==>
      initial[u][k] in intermediate[u]
  {
    hide IntermediateEdges, Sound, Complete;
    forall u: nat, k: nat | u < |initial| && k < |initial[u]| && initial[u][k].strong
      ensures initial[u][k] in intermediate[u]
    {
      IntermediateKeepsStrong(targets[u], record, initial[u], intermediate[u], initial[u][k]);
    }
  }

  /** A side effect of a target is to be waited for at that target itself. */
  ghost predicate EffectsAtHome(targets: seq<GeneratorTarget>) {
    forall w: nat, kind, t: nat :: w < |targets| && Has(targets[w].own, kind, t) ==> t == w
  }

  lemma AcyclicIsAllowed(targets: seq<GeneratorTarget>, noCycles: bool, g: Graph)
    requires Acyclic(g) && |targets| == |g|
    ensures CyclesAllowed(targets, noCycles, g)
  {
    forall u: nat, v: nat | u != v && Reach(g, u, v) && Reach(g, v, u)
      ensures false
    {
      NoWayBack(g, u, v);
    }
  }

  lemma NoWayBack(g: Graph, u: nat, v: nat)
    requires Acyclic(g) && Reach(g, u, v) && Reach(g, v, u)
    ensures u == v
  {
    var m: nat :| ReachIn(g, u, v, m);
    var n: nat :| ReachIn(g, v, u, n);
    ReachInTrans(g, u, v, u, m, n);
  }

  /** An edge of the intermediate graph is a walk of the initial one. */
  lemma IntermediateEdgeWalks(targets: seq<GeneratorTarget>, g: Graph, record: seq<TargetSideEffects>, h: Graph,
      u: nat, v: nat)
    requires WellFormed(g) && |record| == |h| == |g| == |targets| && EffectsAtHome(targets) && HasEdge(h, u, v)
    requires forall j: nat :: j < |g| ==> Sound(g, targets, record[j], j)
    requires forall i: nat :: i < |g| ==> IntermediateEdges(targets[i], record, g[i], h[i])
    ensures exists n: nat :: 0 < n && ReachIn(g, u, v, n)
  {
    hide Sound, Optimized;
    var k: nat :| k < |h[u]| && h[u][k].dest == v;
    var e := h[u][k];
    var j := v;
    if h[u] == g[u] || e.strong {
      if h[u] != g[u] { IntermediateKeepsStrong(targets[u], record, g[u], h[u], e); }
      var i :| 0 <= i < |g[u]| && g[u][i] == e;
      assert ReachIn(g, v, v, 0);
    } else {
      assert WeakTo(h[u], v);
      var i, kind := IntermediateAddsNoOther(g, targets, record, u, h[u], v);
      j := g[u][i].dest;
    }
    assert HasEdge(g, u, j);
    assert Reach(g, j, v);
    var n: nat :| ReachIn(g, j, v, n);
    assert ReachIn(g, u, v, n + 1);
  }

  lemma {:induction false} IntermediateWalk(targets: seq<GeneratorTarget>, g: Graph, record: seq<TargetSideEffects>,
      h: Graph, u: nat, v: nat, n: nat)
    returns (m: nat)
    requires WellFormed(g) && |record| == |h| == |g| == |targets| && EffectsAtHome(targets) && ReachIn(h, u, v, n)
    requires forall j: nat :: j < |g| ==> Sound(g, targets, record[j], j)
    requires forall i: nat :: i < |g| ==> IntermediateEdges(targets[i], record, g[i], h[i])
    ensures n <= m && ReachIn(g, u, v, m)
    decreases n
  {
    hide Sound, IntermediateEdges, EffectsAtHome;
    if n == 0 {
      m := 0;
    } else {
      var w: nat :| HasEdge(h, u, w) && ReachIn(h, w, v, n - 1);
      IntermediateEdgeWalks(targets, g, record, h, u, w);
      var a: nat :| 0 < a && ReachIn(g, u, w, a);
      var b := IntermediateWalk(targets, g, record, h, w, v, n - 1);
      ReachInTrans(g, u, w, v, a, b);
      m := a + b;
    }
  }

  // ----- when the verdict is simpler

  /** No target drops any of its dependencies. */
  predicate NoneOptimized(targets: seq<GeneratorTarget>) {
    forall i :: 0 <= i < |targets| ==>
      targets[i].optimizeDependencies == Some(true) ==>
        targets[i].kind != StaticLibrary && targets[i].kind != ObjectLibrary
  }

  lemma UnoptimizedIsReduced(g: Graph, targets: seq<GeneratorTarget>)
    requires WellFormed(g) && |targets| == |g| && NoneOptimized(targets)
    ensures Reduced(g, targets, CollectFirst(g, targets, |g|).record, g)
  {
    hide CollectFirst, Sound, Complete, EffectsHanded;
    CollectedIsRight(g, targets);
    CollectedCompletely(g, targets);
    assert |CollectFirst(g, targets, |g|).record| == |g|;
  }

  /** Then the initial graph alone decides. */
  lemma UnoptimizedVerdict(targets: seq<GeneratorTarget>, noCycles: bool, g: Graph)
    requires WellFormed(g) && |targets| == |g| && NoneOptimized(targets)
    ensures Accepted(targets, noCycles, g) <==> CyclesAllowed(targets, noCycles, g) && ChainsPossible(g, g)
  {
    hide CollectFirst, Reduced, CyclesAllowed, ChainsPossible, Accepted;
    UnoptimizedIsReduced(g, targets);
    AcceptedParts(targets, noCycles, g);
    if CyclesAllowed(targets, noCycles, g) {
      SameVerdict(targets, noCycles, g, CollectFirst(g, targets, |g|).record, g);
    }
  }

  /** Optimizing never makes a cycle that is forbidden, so the second check cannot fail. */
  lemma CyclesStayAllowed(targets: seq<GeneratorTarget>, noCycles: bool, g: Graph, record: seq<TargetSideEffects>,
      h: Graph)
    requires EffectsAtHome(targets) && Reduced(g, targets, record, h) && CyclesAllowed(targets, noCycles, g)
    ensures CyclesAllowed(targets, noCycles, h)
  {
    hide Reduced, EffectsAtHome, Reach;
    assert |h| == |g| by { ReducedSize(g, targets, record, h); }
    forall u: nat, v: nat | u < |h| && v < |h| && u != v && Reach(h, u, v) && Reach(h, v, u)
      ensures Reach(g, u, v) && Reach(g, v, u)
    {
      ReachedBefore(targets, g, record, h, u, v);
      ReachedBefore(targets, g, record, h, v, u);
    }
  }

  lemma ReducedSize(g: Graph, targets: seq<GeneratorTarget>, record: seq<TargetSideEffects>, h: Graph)
    requires Reduced(g, targets, record, h)
    ensures WellFormed(g) && |h| == |g| == |targets| == |record|
    ensures record == CollectFirst(g, targets, |g|).record
  {
  }

  /** Nothing is reached that was not reached before. */
  lemma ReachedBefore(targets: seq<GeneratorTarget>, g: Graph, record: seq<TargetSideEffects>, h: Graph, u: nat, v: nat)
    requires EffectsAtHome(targets) && Reduced(g, targets, record, h) && Reach(h, u, v)
    ensures Reach(g, u, v)
  {
    hide Sound, Complete, EffectsHanded, IntermediateEdges, EffectsAtHome, CollectFirst;
    var n: nat :| ReachIn(h, u, v, n);
    var m := IntermediateWalk(targets, g, record, h, u, v, n);
  }

  /** With side effects at home only the initial cycles and the chains decide. */
  lemma AtHomeVerdict(targets: seq<GeneratorTarget>, noCycles: bool, g: Graph, record: seq<TargetSideEffects>, h: Graph)
    requires EffectsAtHome(targets) && Reduced(g, targets, record, h)
    ensures Accepted(targets, noCycles, g) <==> CyclesAllowed(targets, noCycles, g) && ChainsPossible(g, h)
  {
    hide Reduced, CyclesAllowed, ChainsPossible, Accepted, EffectsAtHome;
    AcceptedParts(targets, noCycles, g);
    if CyclesAllowed(targets, noCycles, g) {
      SameVerdict(targets, noCycles, g, record, h);
      CyclesStayAllowed(targets, noCycles, g, record, h);
    }
  }

  /** Without a cycle every chain has one member. */
  lemma AcyclicChains(initial: Graph, g: Graph)
    requires Acyclic(initial) && Acyclic(g) && |initial| == |g|
    ensures ChainsPossible(initial, g)
  {
    hide Reach, Acyclic, CycleOf, CycleSetting, Ascending, Linearizable;
    forall u: nat | u < |g|
      ensures Linearizable(CycleSetting(initial, g, u), Ascending(CycleOf(g, u)))
    {
      AloneOnCycle(initial, g, u);
      AloneIsLinear(initial, CycleSetting(initial, g, u), u);
    }
  }

  lemma AloneOnCycle(initial: Graph, g: Graph, u: nat)
    requires Acyclic(g) && u < |g|
    ensures Ascending(CycleOf(g, u)) == [u]
    ensures var x := CycleSetting(initial, g, u);
      x.graph == initial && |x.cmap| == |g| && forall v: nat :: v < |g| ==> (x.cmap[v] == x.c <==> v == u)
  {
    hide Reach, Acyclic;
    ReachRefl(g, u);
    forall v: nat
      ensures v in CycleOf(g, u) <==> v == u
    {
      if v in CycleOf(g, u) { NoWayBack(g, u, v); }
    }
    assert CycleOf(g, u) == {u};
    SortedIsUnique(Ascending({u}), [u]);
  }

  lemma AloneIsLinear(initial: Graph, x: Setting, u: nat)
    requires Acyclic(initial) && x.graph == initial && |x.cmap| == |initial|
    requires forall v: nat :: v < |x.cmap| ==> (x.cmap[v] == x.c <==> v == u)
    ensures Linearizable(x, [u])
  {
    hide Reach;
    forall call | IsEdge(x, call)
      ensures !Reach(StrongPart(x), u, call.u)
    {
      if Reach(StrongPart(x), u, call.u) {
        StaysAlone(x, u, call.u);
        SelfEdge(initial, u, call.k);
        assert false;
      }
    }
    forall base, a, b
      ensures !Conflict(x, u, base, a, b)
    {
    }
  }

  lemma SelfEdge(g: Graph, u: nat, k: nat)
    requires u < |g| && k < |g[u]| && g[u][k].dest == u
    ensures !Acyclic(g)
  {
    assert HasEdge(g, u, u);
    assert ReachIn(g, u, u, 0);
    assert ReachIn(g, u, u, 1);
  }

  /** Strong edges inside the component lead to u only. */
  lemma StaysAlone(x: Setting, u: nat, v: nat)
    requires |x.cmap| == |x.graph| && forall w: nat :: w < |x.cmap| ==> (x.cmap[w] == x.c <==> w == u)
    requires Reach(StrongPart(x), u, v)
    ensures v == u
  {
    forall a: nat, b: nat | a in {u} && HasEdge(StrongPart(x), a, b)
      ensures b in {u}
    {
      hide Kept;
      assert StrongPart(x)[u] == if x.In(u) then Kept(x, x.graph[u]) else [];
      var j :| 0 <= j < |StrongPart(x)[u]| && StrongPart(x)[u][j].dest == b;
      var k := KeptFrom(x, x.graph[u], j);
    }
    ClosedUnderReach(StrongPart(x), {u}, u, v);
  }

  /** An initial graph without a cycle is always accepted. */
  lemma AcyclicIsAccepted(targets: seq<GeneratorTarget>, noCycles: bool, g: Graph)
    requires WellFormed(g) && |targets| == |g| && Acyclic(g) && EffectsAtHome(targets)
    ensures Accepted(targets, noCycles, g)
  {
    hide CyclesAllowed, ChainsPossible, Acyclic;
    AcyclicIsAllowed(targets, noCycles, g);
    var record := CollectFirst(g, targets, |g|).record;
    forall h: Graph | Reduced(g, targets, record, h)
      ensures CyclesAllowed(targets, noCycles, h) && ChainsPossible(g, h)
    {
      AcyclicStays(targets, noCycles, g, record, h);
    }
  }

  lemma AcyclicStays(targets: seq<GeneratorTarget>, noCycles: bool, g: Graph, record: seq<TargetSideEffects>, h: Graph)
    requires WellFormed(g) && Acyclic(g) && EffectsAtHome(targets) && Reduced(g, targets, record, h)
    ensures Acyclic(h) && CyclesAllowed(targets, noCycles, h) && ChainsPossible(g, h)
  {
    hide Sound, Complete, EffectsHanded, IntermediateEdges, EffectsAtHome, ChainsPossible, CyclesAllowed, CollectFirst;
    forall u: nat, n: nat | 0 < n
      ensures !ReachIn(h, u, u, n)
    {
      if ReachIn(h, u, u, n) {
        var m := IntermediateWalk(targets, g, record, h, u, u, n);
        assert false;
      }
    }
    AcyclicIsAllowed(targets, noCycles, h);
    AcyclicChains(g, h);
  }

  /** The vertices on a common cycle with u. */
  ghost function CycleOf(g: Graph, u: nat): set<nat> {
    set v: nat | v < |g| && Reach(g, u, v) && Reach(g, v, u)
  }

  /** What a walk through the cycle of u looks at. */
  ghost function CycleSetting(initial: Graph, g: Graph, u: nat): Setting {
    Setting(initial, seq(|g|, v => if v in CycleOf(g, u) then 0 else 1), 0)
  }

  /** Every cycle of the intermediate graph can be put into a chain, its members taken
      from the last to the first. */
  ghost predicate ChainsPossible(initial: Graph, intermediate: Graph) {
    forall u: nat :: u < |intermediate| ==>
      Linearizable(CycleSetting(initial, intermediate, u), Ascending(CycleOf(intermediate, u)))
  }

  /** Component c of a condensation is the cycle of its members. */
  lemma ComponentIsCycle(initial: Graph, g: Graph, cmap: seq<int>, components: seq<seq<nat>>, cg: Graph, u: nat)
    requires IsCondensation(g, cmap, components, cg) && |initial| == |g| && u < |g|
    ensures |cmap| == |g| && 0 <= cmap[u] < |components| && components[cmap[u]] == Ascending(CycleOf(g, u))
    ensures SameMembers(Setting(initial, cmap, cmap[u]), CycleSetting(initial, g, u))
    ensures SameMembers(CycleSetting(initial, g, u), Setting(initial, cmap, cmap[u]))
  {
    hide Reach, Ascending;
    var c := cmap[u];
    forall v: nat
      ensures v in components[c] <==> v in CycleOf(g, u)
    {
      if v < |g| { SameComponentIff(g, cmap, components, cg, u, v); }
    }
    SortedIsUnique(components[c], Ascending(CycleOf(g, u)));
  }

  /** Whether chains are possible can be seen from any condensation. */
  lemma ChainsPossibleIs(initial: Graph, g: Graph, cmap: seq<int>, components: seq<seq<nat>>, cg: Graph)
    requires IsCondensation(g, cmap, components, cg) && |initial| == |g|
    ensures ChainsPossible(initial, g) <==>
      forall c: nat :: c < |components| ==> Linearizable(Setting(initial, cmap, c), components[c])
  {
    hide Linearizable, Ascending, CycleSetting, CycleOf, IsCondensation;
    if ChainsPossible(initial, g) {
      forall c: nat | c < |components|
        ensures Linearizable(Setting(initial, cmap, c), components[c])
      {
        var u := FirstMember(g, cmap, components, cg, c);
        LinearizableHere(initial, g, cmap, components, cg, u);
      }
    }
    if forall c: nat :: c < |components| ==> Linearizable(Setting(initial, cmap, c), components[c]) {
      forall u: nat | u < |g|
        ensures Linearizable(CycleSetting(initial, g, u), Ascending(CycleOf(g, u)))
      {
        LinearizableHere(initial, g, cmap, components, cg, u);
      }
    }
  }

  lemma LinearizableHere(initial: Graph, g: Graph, cmap: seq<int>, components: seq<seq<nat>>, cg: Graph, u: nat)
    requires IsCondensation(g, cmap, components, cg) && |initial| == |g| && u < |g|
    ensures |cmap| == |g| && 0 <= cmap[u] < |components|
    ensures Linearizable(Setting(initial, cmap, cmap[u]), components[cmap[u]])
      <==> Linearizable(CycleSetting(initial, g, u), Ascending(CycleOf(g, u)))
  {
    hide Linearizable, Ascending, CycleSetting, CycleOf, SameMembers, IsCondensation;
    ComponentIsCycle(initial, g, cmap, components, cg, u);
    var x, y, members := Setting(initial, cmap, cmap[u]), CycleSetting(initial, g, u), components[cmap[u]];
    if Linearizable(x, members) { SameLinearizable(x, y, members); }
    if Linearizable(y, members) { SameLinearizable(y, x, members); }
  }

  lemma FirstMember(g: Graph, cmap: seq<int>, components: seq<seq<nat>>, cg: Graph, c: nat) returns (u: nat)
    requires IsCondensation(g, cmap, components, cg) && c < |components|
    ensures u < |g| && u < |cmap| && cmap[u] == c
  {
    u := components[c][0];
    assert u in components[c];
  }

  /** A safe build order: there is no cycle; it reaches nothing that the intermediate
      graph does not reach, and keeps it where there is no way back; targets on a
      common cycle come one after the other; and every strong dependency is
      honoured. */
  ghost predicate SafeOrder(initial: Graph, intermediate: Graph, fin: Graph) {
    && |fin| == |intermediate| == |initial| && WellFormed(fin) && Acyclic(fin)
    && (forall u: nat, v: nat :: u < |fin| && v < |fin| && Reach(fin, u, v) ==> Reach(intermediate, u, v))
    && (forall u: nat, v: nat ::
        u < |fin| && v < |fin| && Reach(intermediate, u, v) && !Reach(intermediate, v, u) ==> Reach(fin, u, v))
    && (forall u: nat, v: nat :: u < |fin| && v < |fin| && Reach(intermediate, u, v) && Reach(intermediate, v, u) ==>
          Reach(fin, u, v) || Reach(fin, v, u))
    && (forall u: nat, k: nat :: u < |fin| && k < |initial[u]| && initial[u][k].strong ==>
        Reach(fin, u, initial[u][k].dest))
  }

  /** Targets on a common cycle come in the order of their walks: the target of a walk that
      comes later, and the end of the later of two edges, is in front. */
  ghost predicate OrderedWithin(initial: Graph, intermediate: Graph, fin: Graph) {
    && |fin| == |intermediate| == |initial|
    && (forall u: nat, v: nat ::
        (u < |fin| && v in CycleOf(intermediate, u) && LaterWalk(CycleSetting(initial, intermediate, u), u, v)) ==>
          Reach(fin, u, v))
    && (forall i: nat, j: nat, k: nat ::
        (i < |fin| && BothInside(CycleSetting(initial, intermediate, i), i, j, k)
         && SameWalk(CycleSetting(initial, intermediate, i), i, initial[i][k].dest)) ==>
          Reach(fin, initial[i][k].dest, initial[i][j].dest))
  }

  lemma ChainsGiveOrder(g: Graph, initial: Graph, cmap: seq<int>, components: seq<seq<nat>>, cg: Graph, chains: Chains,
      fin: Graph)
    requires IsCondensation(g, cmap, components, cg) && |g| == |initial| && |chains| == |components|
    requires FinalShape(initial, cmap, cg, chains, fin) && ChainsInOrder(initial, cmap, chains)
    ensures OrderedWithin(initial, g, fin)
  {
    hide IsCondensation, FinalShape, Reach, LaterWalk, SameWalk, CycleSetting, CycleOf, Precedes;
    assert |fin| == |initial| by { ShapeParts(initial, cmap, cg, chains, fin); }
    forall u: nat | u < |g|
      ensures CycleSetting(initial, g, u).graph == initial && CycleSetting(initial, g, u).In(u)
    {
      InItsCycle(initial, g, u, u);
    }
    forall u: nat, v: nat | u < |fin| && v in CycleOf(g, u) && LaterWalk(CycleSetting(initial, g, u), u, v)
      ensures Reach(fin, u, v)
    {
      var c := OrderOfCycle(g, initial, cmap, components, cg, chains, u);
      InItsCycle(initial, g, u, v);
      PrecedesReaches(initial, cmap, cg, chains, fin, c, u, v);
    }
    forall i: nat, j: nat, k: nat | i < |fin| && BothInside(CycleSetting(initial, g, i), i, j, k)
        && SameWalk(CycleSetting(initial, g, i), i, initial[i][k].dest)
      ensures Reach(fin, initial[i][k].dest, initial[i][j].dest)
    {
      var c := OrderOfCycle(g, initial, cmap, components, cg, chains, i);
      assert EndsOrdered(CycleSetting(initial, g, i), chains[c], i);
      PrecedesReaches(initial, cmap, cg, chains, fin, c, initial[i][k].dest, initial[i][j].dest);
    }
  }

  lemma InItsCycle(initial: Graph, g: Graph, u: nat, v: nat)
    requires u < |g| == |initial|
    ensures CycleSetting(initial, g, u).graph == initial
    ensures CycleSetting(initial, g, u).In(u)
    ensures v in CycleOf(g, u) ==> CycleSetting(initial, g, u).In(v)
  {
    hide Reach;
    ReachRefl(g, u);
  }

  /** The chain of the cycle of u is in order. */
  lemma OrderOfCycle(g: Graph, initial: Graph, cmap: seq<int>, components: seq<seq<nat>>, cg: Graph, chains: Chains,
      u: nat) returns (c: nat)
    requires IsCondensation(g, cmap, components, cg) && |g| == |initial| && |chains| == |components| && u < |g|
    requires ChainsInOrder(initial, cmap, chains)
    ensures c < |chains| && ChainInOrder(CycleSetting(initial, g, u), chains[c])
  {
    hide IsCondensation, CycleSetting, ChainInOrder, CycleOf, SameMembers;
    ComponentIsCycle(initial, g, cmap, components, cg, u);
    c := cmap[u];
    SameOrder(Setting(initial, cmap, c), CycleSetting(initial, g, u), chains[c]);
  }

  lemma PrecedesReaches(initial: Graph, cmap: seq<int>, cg: Graph, chains: Chains, fin: Graph, c: nat, u: nat, v: nat)
    requires FinalShape(initial, cmap, cg, chains, fin) && c < |chains| && Precedes(chains[c], u, v)
    ensures Reach(fin, u, v)
  {
    hide Reach, FinalShape;
    var p: nat, q: nat :| p < q < |chains[c]| && chains[c][p] == u && chains[c][q] == v;
    DownTheChain(initial, cmap, cg, chains, fin, c, p, q);
  }

  lemma ShapeIsSafe(g: Graph, initial: Graph, cmap: seq<int>, components: seq<seq<nat>>, cg: Graph, chains: Chains,
      fin: Graph)
    requires IsCondensation(g, cmap, components, cg) && |g| == |initial| && WellFormed(g)
    requires FinalShape(initial, cmap, cg, chains, fin)
    requires forall u: nat, k: nat :: u < |initial| && k < |initial[u]| && initial[u][k].strong ==>
      initial[u][k] in g[u]
    requires ChainsInOrder(initial, cmap, chains)
    ensures SafeOrder(initial, g, fin) && OrderedWithin(initial, g, fin)
  {
    assert OrderedWithin(initial, g, fin) by { ChainsGiveOrder(g, initial, cmap, components, cg, chains, fin); }
    hide IsCondensation, FinalShape, Reach, Acyclic;
    ShapeParts(initial, cmap, cg, chains, fin);
    ComponentFacts(g, cmap, components, cg);
    forall c: nat, d: nat | HasEdge(cg, c, d)
      ensures d < c
    {
      ComponentEdge(g, cmap, components, cg, c, d);
    }
    FinalIsAcyclic(initial, cmap, cg, chains, fin);
    forall u: nat, v: nat | u < |fin| && v < |fin|
      ensures Reach(fin, u, v) ==> Reach(g, u, v)
      ensures Reach(g, u, v) && !Reach(g, v, u) ==> Reach(fin, u, v)
      ensures Reach(g, u, v) && Reach(g, v, u) ==> Reach(fin, u, v) || Reach(fin, v, u)
    {
      FinalPreservesReach(g, initial, cmap, components, cg, chains, fin, u, v);
      SameComponentIff(g, cmap, components, cg, u, v);
      if cmap[u] == cmap[v] { ChainOrders(initial, cmap, cg, chains, fin, u, v); }
    }
    forall u: nat, k: nat | u < |fin| && k < |initial[u]| && initial[u][k].strong
      ensures Reach(fin, u, initial[u][k].dest)
    {
      var v := initial[u][k].dest;
      var j :| 0 <= j < |g[u]| && g[u][j] == initial[u][k];
      assert HasEdge(g, u, v) && v < |g|;
      ReachEdge(g, u, v);
      if cmap[u] == cmap[v] {
        StrongEdgeKept(initial, cmap, cg, chains, fin, u, k);
        ReachEdge(fin, u, v);
      } else {
        FinalPreservesReach(g, initial, cmap, components, cg, chains, fin, u, v);
      }
    }
  }

  lemma SameComponentIff(g: Graph, cmap: seq<int>, components: seq<seq<nat>>, cg: Graph, u: nat, v: nat)
    requires IsCondensation(g, cmap, components, cg) && u < |g| && v < |g| && |cmap| == |g|
    ensures cmap[u] == cmap[v] <==> Reach(g, u, v) && Reach(g, v, u)
  {
  }

  /** Two members of a component are ordered by their chain. */
  lemma ChainOrders(initial: Graph, cmap: seq<int>, cg: Graph, chains: Chains, fin: Graph, u: nat, v: nat)
    requires FinalShape(initial, cmap, cg, chains, fin) && u < |initial| && v < |initial| && cmap[u] == cmap[v]
    ensures Reach(fin, u, v) || Reach(fin, v, u)
  {
    hide Reach;
    var p := PlaceInChain(|initial|, cmap, chains, u);
    var q := PlaceInChain(|initial|, cmap, chains, v);
    if p <= q {
      DownTheChain(initial, cmap, cg, chains, fin, cmap[u], p, q);
    } else {
      DownTheChain(initial, cmap, cg, chains, fin, cmap[u], q, p);
    }
  }

  // ----- cycles of strong dependencies

  lemma {:induction false} StrongWalkIsFinal(initial: Graph, cmap: seq<int>, cg: Graph, chains: Chains, fin: Graph,
      c: nat, u: nat, v: nat, n: nat)
    requires FinalShape(initial, cmap, cg, chains, fin) && ReachIn(StrongPart(Setting(initial, cmap, c)), u, v, n)
    requires u < |fin|
    ensures ReachIn(fin, u, v, n)
    decreases n
  {
    hide FinalShape, StrongPart, Connects, ChainsMatch;
    ShapeParts(initial, cmap, cg, chains, fin);
    var x := Setting(initial, cmap, c);
    if n > 0 {
      var w: nat :| HasEdge(StrongPart(x), u, w) && ReachIn(StrongPart(x), w, v, n - 1);
      StrongEdge(x, u, w);
      var k: nat :| k < |initial[u]| && x.Inside(initial[u][k]) && initial[u][k].dest == w;
      StrongEdgeKept(initial, cmap, cg, chains, fin, u, k);
      StrongWalkIsFinal(initial, cmap, cg, chains, fin, c, w, v, n - 1);
    }
  }

  /** When the final graph can be built, no component has a cycle of strong edges; so
      such a cycle is always rejected. */
  lemma StrongCyclesRejected(initial: Graph, cmap: seq<int>, cg: Graph, chains: Chains, fin: Graph, c: nat)
    requires FinalShape(initial, cmap, cg, chains, fin)
    requires forall b: nat, d: nat :: HasEdge(cg, b, d) ==> d < b
    ensures Acyclic(StrongPart(Setting(initial, cmap, c)))
  {
    hide FinalShape, Connects, ChainsMatch;
    ShapeParts(initial, cmap, cg, chains, fin);
    FinalIsAcyclic(initial, cmap, cg, chains, fin);
    forall u: nat, n: nat | 0 < n && ReachIn(StrongPart(Setting(initial, cmap, c)), u, u, n)
      ensures false
    {
      assert u < |StrongPart(Setting(initial, cmap, c))|;
      StrongWalkIsFinal(initial, cmap, cg, chains, fin, c, u, u, n);
    }
  }

  function Strong(dest: nat): Edge {
    Edge(dest, true, false, NoTrace)
  }

  /** Four static libraries on one cycle, 3 -> {1, 2} -> 0 strongly and 0 -> 3 weakly. */
  const DIAMOND: Graph := [[Edge(3, false, false, NoTrace)], [Strong(0)], [Strong(0)], [Strong(1), Strong(2)]]

  lemma StrongPartWellFormed(x: Setting)
    requires x.Valid()
    ensures WellFormed(StrongPart(x)) && |StrongPart(x)| == |x.graph|
  {
    var s: Graph := StrongPart(x);
    forall u: nat, k: nat | u < |s| && k < |s[u]|
      ensures s[u][k].dest < |s|
    {
      assert HasEdge(s, u, s[u][k].dest);
      StrongEdge(x, u, s[u][k].dest);
    }
  }

  lemma DiamondIsAcyclic()
    ensures Acyclic(StrongPart(Setting(DIAMOND, [0, 0, 0, 0], 0)))
  {
    var x := Setting(DIAMOND, [0, 0, 0, 0], 0);
    StrongPartWellFormed(x);
    forall u: nat, v: nat | HasEdge(StrongPart(x), u, v)
      ensures v < 4 && [0, 1, 1, 2][v] < [0, 1, 1, 2][u]
    {
      StrongEdge(x, u, v);
    }
    RankedIsAcyclic(StrongPart(x), [0, 1, 1, 2]);
  }

  lemma DiamondIsNotLinear()
    ensures !Linearizable(Setting(DIAMOND, [0, 0, 0, 0], 0), [0, 1, 2, 3])
  {
    var x := Setting(DIAMOND, [0, 0, 0, 0], 0);
    var s := StrongPart(x);
    var a, b := Along(1, 0), Along(2, 0);
    StrongEdge(x, 3, 1);
    StrongEdge(x, 3, 2);
    assert DIAMOND[3][0].dest == 1 && DIAMOND[3][1].dest == 2;
    ReachEdge(s, 3, 1);
    ReachEdge(s, 3, 2);
    assert [0, 1, 2, 3][4..] == [];
    ClosureOfNone(x);
    assert Conflict(x, 3, {}, a, b);
    assert !TreeLike(x, 3, {});
    var members := [0, 1, 2, 3];
    assert members[3] == 3 && members[3 + 1..] == [];
  }

  /** All of the diamond is one cycle. */
  lemma DiamondIsOneCycle()
    ensures WellFormed(DIAMOND) && Ascending(CycleOf(DIAMOND, 0)) == [0, 1, 2, 3]
    ensures CycleSetting(DIAMOND, DIAMOND, 0) == Setting(DIAMOND, [0, 0, 0, 0], 0)
    ensures forall v: nat :: v < 4 ==> v in CycleOf(DIAMOND, 0)
  {
    hide Ascending, Reach;
    var g: Graph := DIAMOND;
    assert g[0][0].dest == 3 && g[1][0].dest == 0 && g[2][0].dest == 0 && g[3][0].dest == 1 && g[3][1].dest == 2;
    assert HasEdge(g, 0, 3) && HasEdge(g, 3, 1) && HasEdge(g, 3, 2) && HasEdge(g, 1, 0) && HasEdge(g, 2, 0);
    ReachRefl(g, 0);
    ReachEdge(g, 0, 3);
    ReachEdge(g, 3, 1);
    ReachEdge(g, 3, 2);
    ReachEdge(g, 1, 0);
    ReachEdge(g, 2, 0);
    ReachTrans(g, 0, 3, 1);
    ReachTrans(g, 0, 3, 2);
    ReachTrans(g, 3, 1, 0);
    assert CycleOf(g, 0) == {0, 1, 2, 3};
    assert Elements([0, 1, 2, 3]) == {0, 1, 2, 3};
    SortedIsUnique(Ascending({0, 1, 2, 3}), [0, 1, 2, 3]);
    assert CycleSetting(g, g, 0).cmap == [0, 0, 0, 0];
  }

  /** A cycle without a cycle of strong edges is not always accepted: the diamond is
      allowed but rejected, because the walk from 3 meets 0 twice. */
  lemma DiamondIsRejected(targets: seq<GeneratorTarget>)
    requires |targets| == 4
    requires forall t :: 0 <= t < 4 ==> targets[t].kind == StaticLibrary && targets[t].optimizeDependencies == None
    ensures CyclesAllowed(targets, false, DIAMOND) && Acyclic(StrongPart(CycleSetting(DIAMOND, DIAMOND, 0)))
    ensures !ChainsPossible(DIAMOND, DIAMOND) && !Accepted(targets, false, DIAMOND)
  {
    hide Linearizable, Ascending, CycleOf, CycleSetting, Acyclic, CollectFirst, Sound, Complete, EffectsHanded;
    DiamondIsAcyclic();
    DiamondIsNotLinear();
    DiamondIsOneCycle();
    UnoptimizedIsReduced(DIAMOND, targets);
  }
}
