/** Targets with custom commands of their own are still waited for when link dependencies
    have been dropped, as far as their side effects were handed on, and the order built
    in the end asks for nothing new (cmComputeTargetDepends). */
module CustomCommands {
  import opened Wrappers
  import opened TargetTypes
  import opened Graphs
  import opened SideEffects
  import opened SideEffectCollection
  import opened SideEffectOrder
  import opened BuildOrder

  /** w has a custom command of its own. */
  predicate HasCommand(targets: seq<GeneratorTarget>, w: nat) {
    w < |targets| && w in targets[w].own.custom
  }

  /** Whoever needed a target with a custom command still does. */
  ghost predicate KeepsCommands(g: Graph, targets: seq<GeneratorTarget>, h: Graph) {
    forall u: nat, w: nat :: HasCommand(targets, w) && Reach(g, u, w) ==> Reach(h, u, w)
  }

  predicate Optimizes(target: GeneratorTarget) {
    (target.kind == StaticLibrary || target.kind == ObjectLibrary) && target.optimizeDependencies == Some(true)
  }

  /** u drops weak edge k, behind which is the command of w, which was not handed on. */
  ghost predicate Drops(g: Graph, targets: seq<GeneratorTarget>, u: nat, k: nat, w: nat) {
    && WellFormed(g) && u < |g| && u < |targets| && k < |g[u]| && Optimizes(targets[u]) && !g[u][k].strong
    && HasCommand(targets, w) && Reach(g, g[u][k].dest, w) && !Handed(g, MergeOrder(g), g[u][k].dest, w)
  }

  /** To everything dropped there is another way. */
  ghost predicate DroppedElsewhere(g: Graph, targets: seq<GeneratorTarget>) {
    forall u: nat, k: nat, w: nat :: Drops(g, targets, u, k, w) ==> StillReaches(g, targets, u, w)
  }

  // ----- what is left of the edges

  /** A target waits for the effects of custom commands and of its own languages. */
  predicate WaitsFor(target: GeneratorTarget, kind: Kind) {
    kind.Custom? || kind.name in target.languages
  }

  /** u waits for v, of which an effect was handed on to the end of weak edge k. */
  ghost predicate WaitsBehind(g: Graph, targets: seq<GeneratorTarget>, u: nat, k: nat, v: nat) {
    && WellFormed(g) && u < |g| && u < |targets| && k < |g[u]| && !g[u][k].strong
    && exists kind :: WaitsFor(targets[u], kind) && Hands(g, targets, MergeOrder(g), g[u][k].dest, kind, v)
  }

  /** What is left of the edges of u: all of them, or the strong ones and those to what it
      waits for. */
  ghost predicate Left(g: Graph, targets: seq<GeneratorTarget>, u: nat, v: nat) {
    && WellFormed(g) && u < |g| && u < |targets|
    && if Optimizes(targets[u])
       then (exists k :: 0 <= k < |g[u]| && g[u][k].strong && g[u][k].dest == v)
         || (exists k: nat :: WaitsBehind(g, targets, u, k, v))
       else HasEdge(g, u, v)
  }

  ghost predicate StillReachesIn(g: Graph, targets: seq<GeneratorTarget>, u: nat, v: nat, n: nat)
    decreases n
  {
    if n == 0 then u == v && u < |g|
    else exists w: nat :: Left(g, targets, u, w) && StillReachesIn(g, targets, w, v, n - 1)
  }

  ghost predicate StillReaches(g: Graph, targets: seq<GeneratorTarget>, u: nat, v: nat) {
    exists n: nat :: StillReachesIn(g, targets, u, v, n)
  }

  /** A weak edge of an optimized target leads to what was handed on. */
  lemma WantedIsHanded(g: Graph, targets: seq<GeneratorTarget>, record: seq<TargetSideEffects>, u: nat, v: nat)
    requires WellFormed(g) && u < |g| && |targets| == |g| && record == CollectFirst(g, targets, |g|).record
    ensures v in WantedByAll(targets[u].languages, record, g[u]) <==>
      exists k: nat :: WaitsBehind(g, targets, u, k, v)
  {
    hide CollectFirst, MergeOrder, Hands, Has;
    var langs := targets[u].languages;
    WantedByAllIs(langs, record, g[u], v);
    forall k: nat
      ensures WantedBy(langs, record, g[u], v, k) <==> WaitsBehind(g, targets, u, k, v)
    {
      if k < |g[u]| {
        EdgeAt(g, u, k);
        WantedForIs(langs, record[g[u][k].dest], v);
        RecordedExactly(g, targets, g[u][k].dest);
        WaitedFor(targets[u], record[g[u][k].dest], v);
      }
    }
  }

  lemma WaitedFor(target: GeneratorTarget, e: TargetSideEffects, v: nat)
    ensures (exists kind :: WaitsFor(target, kind) && Has(e, kind, v)) <==>
      Has(e, Custom, v) || exists lang :: lang in target.languages && Has(e, Language(lang), v)
  {
    if lang :| lang in target.languages && Has(e, Language(lang), v) { assert WaitsFor(target, Language(lang)); }
    if Has(e, Custom, v) { assert WaitsFor(target, Custom); }
    if kind :| WaitsFor(target, kind) && Has(e, kind, v) {
      if kind.Language? { assert kind == Language(kind.name); }
    }
  }

  /** The edges of the intermediate graph, from the initial graph and the targets alone. */
  lemma IntermediateEdgeIs(g: Graph, targets: seq<GeneratorTarget>, record: seq<TargetSideEffects>, h: Graph, u: nat,
      v: nat)
    requires Reduced(g, targets, record, h)
    ensures HasEdge(h, u, v) <==> Left(g, targets, u, v)
  {
    hide Reduced, CollectFirst, WaitsBehind;
    ReducedSize(g, targets, record, h);
    if u < |g| {
      ReducedAt(g, targets, record, h, u);
      if Optimizes(targets[u]) {
        WantedIsHanded(g, targets, record, u, v);
        OptimizedEdges(targets[u], record, g[u], h[u], v);
      } else {
        Unoptimized(targets[u], record, g[u], h[u]);
      }
    }
  }

  /** Of an optimized target the strong edges stay, and weak ones lead to what is wanted. */
  lemma OptimizedEdges(target: GeneratorTarget, record: seq<TargetSideEffects>, es: seq<Edge>, out: seq<Edge>, v: nat)
    requires IntermediateEdges(target, record, es, out) && Optimizes(target)
    requires forall k :: 0 <= k < |es| ==> es[k].dest < |record|
    ensures (exists k :: 0 <= k < |out| && out[k].dest == v) <==>
      (exists k :: 0 <= k < |es| && es[k].strong && es[k].dest == v) || v in WantedByAll(target.languages, record, es)
  {
    if k :| 0 <= k < |out| && out[k].dest == v {
      if out[k].strong {
        IntermediateKeepsStrong(target, record, es, out, out[k]);
      } else {
        assert WeakTo(out, v);
      }
    }
    if k :| 0 <= k < |es| && es[k].strong && es[k].dest == v {
      IntermediateKeepsStrong(target, record, es, out, es[k]);
      var j :| 0 <= j < |out| && out[j] == es[k];
    }
    if v in WantedByAll(target.languages, record, es) { assert WeakTo(out, v); }
  }

  lemma {:induction false} StillReachesInIs(g: Graph, targets: seq<GeneratorTarget>, record: seq<TargetSideEffects>,
      h: Graph, u: nat, v: nat, n: nat)
    requires Reduced(g, targets, record, h)
    ensures ReachIn(h, u, v, n) <==> StillReachesIn(g, targets, u, v, n)
    decreases n
  {
    hide Reduced, HasEdge, Left;
    ReducedSize(g, targets, record, h);
    if n > 0 {
      forall w: nat
        ensures HasEdge(h, u, w) <==> Left(g, targets, u, w)
        ensures ReachIn(h, w, v, n - 1) <==> StillReachesIn(g, targets, w, v, n - 1)
      {
        IntermediateEdgeIs(g, targets, record, h, u, w);
        StillReachesInIs(g, targets, record, h, w, v, n - 1);
      }
    }
  }

  lemma StillReachesIs(g: Graph, targets: seq<GeneratorTarget>, record: seq<TargetSideEffects>, h: Graph, u: nat,
      v: nat)
    requires Reduced(g, targets, record, h)
    ensures Reach(h, u, v) <==> StillReaches(g, targets, u, v)
  {
    hide Reduced, ReachIn, StillReachesIn;
    forall n: nat
      ensures ReachIn(h, u, v, n) <==> StillReachesIn(g, targets, u, v, n)
    {
      StillReachesInIs(g, targets, record, h, u, v, n);
    }
  }

  lemma ReducedAt(g: Graph, targets: seq<GeneratorTarget>, record: seq<TargetSideEffects>, h: Graph, u: nat)
    requires Reduced(g, targets, record, h) && u < |g|
    ensures WellFormed(g) && |h| == |g| == |targets| == |record|
    ensures IntermediateEdges(targets[u], record, g[u], h[u])
    ensures record == CollectFirst(g, targets, |g|).record
  {
    hide IntermediateEdges, Sound, Complete, EffectsHanded, CollectFirst;
  }

  /** An edge that is not dropped is still there. */
  lemma EdgeKept(g: Graph, targets: seq<GeneratorTarget>, record: seq<TargetSideEffects>, h: Graph, u: nat, k: nat)
    requires Reduced(g, targets, record, h) && u < |g| && u < |targets| && k < |g[u]|
    requires g[u][k].strong || !Optimizes(targets[u])
    ensures HasEdge(h, u, g[u][k].dest) && g[u][k].dest < |h|
  {
    hide Reduced, IntermediateEdges;
    ReducedAt(g, targets, record, h, u);
    if Optimizes(targets[u]) {
      IntermediateKeepsStrong(targets[u], record, g[u], h[u], g[u][k]);
    } else {
      Unoptimized(targets[u], record, g[u], h[u]);
    }
    var j :| 0 <= j < |h[u]| && h[u][j] == g[u][k];
  }

  lemma Unoptimized(target: GeneratorTarget, record: seq<TargetSideEffects>, es: seq<Edge>, out: seq<Edge>)
    requires IntermediateEdges(target, record, es, out) && !Optimizes(target)
    ensures out == es
  {
  }

  /** Behind a weak edge every command that was handed on gets an edge of its own. */
  lemma CommandKept(g: Graph, targets: seq<GeneratorTarget>, record: seq<TargetSideEffects>, h: Graph, u: nat, k: nat,
      w: nat)
    requires Reduced(g, targets, record, h) && u < |g| && u < |targets| && k < |g[u]| && WellFormed(g)
    requires Optimizes(targets[u]) && !g[u][k].strong
    requires HasCommand(targets, w) && Handed(g, MergeOrder(g), g[u][k].dest, w)
    ensures HasEdge(h, u, w)
  {
    hide Reduced, CollectFirst, MergeOrder, Handed;
    ReducedAt(g, targets, record, h, u);
    EdgeAt(g, u, k);
    var j := g[u][k].dest;
    RecordedExactly(g, targets, j);
    assert Has(targets[w].own, Custom, w);
    assert Hands(g, targets, MergeOrder(g), j, Custom, w);
    assert Has(record[j], Custom, w);
    WantedForIs(targets[u].languages, record[j], w);
    assert WantedBy(targets[u].languages, record, g[u], w, k);
    WantedByAllIs(targets[u].languages, record, g[u], w);
    assert WeakTo(h[u], w);
  }

  lemma {:induction false} CommandWalk(g: Graph, targets: seq<GeneratorTarget>, record: seq<TargetSideEffects>,
      h: Graph, u: nat, w: nat, n: nat)
    requires Reduced(g, targets, record, h) && DroppedElsewhere(g, targets)
    requires HasCommand(targets, w) && ReachIn(g, u, w, n)
    ensures Reach(h, u, w)
    decreases n
  {
    hide Reduced, Reach, MergeOrder, Handed, HasCommand, Optimizes, StillReaches;
    ReducedSize(g, targets, record, h);
    ReachInRange(g, u, w, n);
    if n == 0 {
      ReachRefl(h, u);
    } else {
      var j: nat :| HasEdge(g, u, j) && ReachIn(g, j, w, n - 1);
      var k :| 0 <= k < |g[u]| && g[u][k].dest == j;
      if g[u][k].strong || !Optimizes(targets[u]) {
        EdgeKept(g, targets, record, h, u, k);
        CommandWalk(g, targets, record, h, j, w, n - 1);
        ReachStep(h, u, j, w);
      } else if Handed(g, MergeOrder(g), j, w) {
        CommandKept(g, targets, record, h, u, k, w);
        ReachEdge(h, u, w);
      } else {
        assert Reach(g, j, w) by { WalkReaches(g, j, w, n - 1); }
        assert Drops(g, targets, u, k, w);
        StillReachesIs(g, targets, record, h, u, w);
      }
    }
  }

  lemma WalkReaches(g: Graph, u: nat, v: nat, n: nat)
    requires ReachIn(g, u, v, n)
    ensures Reach(g, u, v)
  {
  }

  /** Commands are kept exactly when there is another way to what was dropped without
      having been handed on. */
  lemma CommandsKeptExactly(g: Graph, targets: seq<GeneratorTarget>, record: seq<TargetSideEffects>, h: Graph)
    requires Reduced(g, targets, record, h)
    ensures KeepsCommands(g, targets, h) <==> DroppedElsewhere(g, targets)
  {
    hide Reduced, MergeOrder, Handed, HasCommand, Optimizes, StillReaches;
    if DroppedElsewhere(g, targets) {
      forall u: nat, w: nat | HasCommand(targets, w) && Reach(g, u, w)
        ensures Reach(h, u, w)
      {
        var n: nat :| ReachIn(g, u, w, n);
        CommandWalk(g, targets, record, h, u, w, n);
      }
    }
    if KeepsCommands(g, targets, h) {
      forall u: nat, k: nat, w: nat | Drops(g, targets, u, k, w)
        ensures StillReaches(g, targets, u, w)
      {
        EdgeAt(g, u, k);
        assert HasEdge(g, u, g[u][k].dest);
        ReachStep(g, u, g[u][k].dest, w);
        StillReachesIs(g, targets, record, h, u, w);
      }
    }
  }

  lemma HandedIsNotDropped(g: Graph, targets: seq<GeneratorTarget>, u: nat, k: nat, w: nat)
    requires WellFormed(g) && u < |g| && k < |g[u]| && AllHanded(g, g[u][k].dest)
    ensures !Drops(g, targets, u, k, w)
  {
  }

  /** Where everything is handed on nothing is dropped for good. */
  lemma HandedKeepsCommands(g: Graph, targets: seq<GeneratorTarget>, record: seq<TargetSideEffects>, h: Graph)
    requires Reduced(g, targets, record, h) && WellFormed(g) && forall v: nat :: v < |g| ==> AllHanded(g, v)
    ensures KeepsCommands(g, targets, h)
  {
    hide Reduced, AllHanded, HasCommand, Optimizes, Reach;
    forall u: nat, k: nat, w: nat | u < |g| && k < |g[u]|
      ensures !Drops(g, targets, u, k, w)
    {
      EdgeAt(g, u, k);
      HandedIsNotDropped(g, targets, u, k, w);
    }
    CommandsKeptExactly(g, targets, record, h);
  }

  /** So without cycles. */
  lemma AcyclicKeepsCommands(g: Graph, targets: seq<GeneratorTarget>, record: seq<TargetSideEffects>, h: Graph)
    requires Reduced(g, targets, record, h) && WellFormed(g) && Acyclic(g)
    ensures KeepsCommands(g, targets, h)
  {
    hide Reduced, AllHanded, Acyclic, KeepsCommands;
    forall v: nat | v < |g|
      ensures AllHanded(g, v)
    {
      AcyclicIsHanded(g, v);
    }
    HandedKeepsCommands(g, targets, record, h);
  }

  /** The order of mergings on a graph with a cycle. */
  lemma OrderOnCycle(g: Graph)
    requires g == [[Link(1), Link(2)], [Link(0)], [], [Link(1)]]
    ensures MergeOrder(g) == [Merging(1, 0), Merging(0, 0), Merging(0, 1), Merging(3, 0)]
  {
    hide Visit, VisitEach;
    var s := Trail([], {});
    var s0 := Arrived(s, 0);
    var s1 := Arrived(s0, 1);
    var r := s1.(merges := [Merging(1, 0)]);
    VisitUnfolds(g, s1, 0);
    VisitUnfolds(g, s0, 1);
    VisitEachUnfolds(g, s1, 1, 1);
    assert Visit(g, s0, 1) == r;
    var t := r.(merges := [Merging(1, 0), Merging(0, 0)]);
    VisitUnfolds(g, s, 0);
    VisitEachUnfolds(g, s0, 0, 1);
    assert VisitEach(g, s0, 0, 1) == t;
    VisitUnfolds(g, t, 2);
    VisitEachUnfolds(g, s0, 0, 2);
    var u := Arrived(t, 2).(merges := [Merging(1, 0), Merging(0, 0), Merging(0, 1)]);
    assert VisitFirst(g, 1) == Visit(g, s, 0) == u;
    VisitUnfolds(g, u, 1);
    VisitUnfolds(g, u, 2);
    assert VisitFirst(g, 3) == u;
    VisitUnfolds(g, u, 3);
    VisitEachUnfolds(g, Arrived(u, 3), 3, 1);
    VisitUnfolds(g, Arrived(u, 3), 1);
  }

  lemma NotHandedOnCycle(g: Graph)
    requires g == [[Link(1), Link(2)], [Link(0)], [], [Link(1)]]
    ensures !Handed(g, MergeOrder(g), 1, 2)
  {
    hide MergeOrder;
    OrderOnCycle(g);
    var order := MergeOrder(g);
    assert order[..0] == [];
    HandedNothing(g, [], 0, 2);
    assert order[0].at == 1 && g[1][0].dest == 0;
  }

  /** Otherwise a command can be lost: 3 is left with no dependency at all, although 1,
      on which it depends, needs the command of 2. */
  lemma CommandLost(g: Graph, targets: seq<GeneratorTarget>, record: seq<TargetSideEffects>, h: Graph)
    requires g == [[Link(1), Link(2)], [Link(0)], [], [Link(1)]] && Reduced(g, targets, record, h)
    requires Optimizes(targets[3]) && targets[2].own == TargetSideEffects({2}, map[])
    requires targets[0].own == targets[1].own == targets[3].own == NO_EFFECTS
    ensures HasCommand(targets, 2) && Reach(g, 3, 2) && !Reach(h, 3, 2)
  {
    hide Reduced, CollectFirst, MergeOrder, Handed, IntermediateEdges, Reach;
    ReducedAt(g, targets, record, h, 3);
    NotHandedOnCycle(g);
    RecordedExactly(g, targets, 1);
    forall kind, t: nat
      ensures !Has(record[1], kind, t)
    {
      if w: nat :| w < |targets| && Handed(g, MergeOrder(g), 1, w) && Has(targets[w].own, kind, t) {
        assert false;
      }
    }
    NothingLeft(targets[3], record, g[3], h[3]);
    ThreeWalk(g, h);
  }

  lemma NothingLeft(target: GeneratorTarget, record: seq<TargetSideEffects>, es: seq<Edge>, out: seq<Edge>)
    requires Optimizes(target) && IntermediateEdges(target, record, es, out) && es == [Link(1)] && 1 < |record|
    requires forall kind, t: nat :: !Has(record[1], kind, t)
    ensures out == []
  {
    if out != [] {
      var e := out[0];
      if e.strong {
        IntermediateKeepsStrong(target, record, es, out, e);
        assert false;
      } else {
        assert WeakTo(out, e.dest);
        WantedByAllIs(target.languages, record, es, e.dest);
        var k: nat :| WantedBy(target.languages, record, es, e.dest, k);
        WantedForIs(target.languages, record[1], e.dest);
        assert false;
      }
    }
  }

  lemma ThreeWalk(g: Graph, h: Graph)
    requires g == [[Link(1), Link(2)], [Link(0)], [], [Link(1)]] && |h| == 4 && h[3] == []
    ensures Reach(g, 3, 2) && !Reach(h, 3, 2)
  {
    assert HasEdge(g, 3, 1) by { assert g[3][0].dest == 1; }
    assert HasEdge(g, 1, 0) by { assert g[1][0].dest == 0; }
    assert HasEdge(g, 0, 2) by { assert g[0][1].dest == 2; }
    ReachEdge(g, 0, 2);
    ReachStep(g, 1, 0, 2);
    ReachStep(g, 3, 1, 2);
    ClosedUnderNothing(h, 3, 2);
  }

  lemma ClosedUnderNothing(h: Graph, u: nat, v: nat)
    requires u < |h| && h[u] == [] && u != v
    ensures !Reach(h, u, v)
  {
    if Reach(h, u, v) { ClosedUnderReach(h, {u}, u, v); }
  }

  // ----- the final order

  /** The final order asks for nothing that was not asked for at first. */
  ghost predicate AddsNothing(g: Graph, fin: Graph) {
    forall u: nat, v: nat :: u < |fin| && v < |fin| && Reach(fin, u, v) ==> Reach(g, u, v)
  }

  lemma FinalAddsNothing(g: Graph, targets: seq<GeneratorTarget>, record: seq<TargetSideEffects>, h: Graph, fin: Graph)
    requires Reduced(g, targets, record, h) && SafeOrder(g, h, fin) && EffectsAtHome(targets)
    ensures AddsNothing(g, fin)
  {
    hide Reduced, EffectsAtHome, Reach, Acyclic;
    forall u: nat, v: nat | u < |fin| && v < |fin| && Reach(fin, u, v)
      ensures Reach(g, u, v)
    {
      ReachedBefore(targets, g, record, h, u, v);
    }
  }

  /** Where there is no way back, a target with a custom command comes first in the end. */
  ghost predicate CommandsFirst(g: Graph, targets: seq<GeneratorTarget>, fin: Graph) {
    forall u: nat, w: nat ::
      (u < |fin| && w < |fin| && HasCommand(targets, w) && Reach(g, u, w) && !Reach(g, w, u)) ==> Reach(fin, u, w)
  }

  lemma FinalKeepsCommands(g: Graph, targets: seq<GeneratorTarget>, record: seq<TargetSideEffects>, h: Graph,
      fin: Graph)
    requires Reduced(g, targets, record, h) && SafeOrder(g, h, fin) && EffectsAtHome(targets)
    requires KeepsCommands(g, targets, h)
    ensures CommandsFirst(g, targets, fin)
  {
    hide Reduced, EffectsAtHome, Reach, Acyclic, HasCommand;
    forall u: nat, w: nat |
      u < |fin| && w < |fin| && HasCommand(targets, w) && Reach(g, u, w) && !Reach(g, w, u)
      ensures Reach(fin, u, w)
    {
      if Reach(h, w, u) { ReachedBefore(targets, g, record, h, w, u); }
    }
  }

  /** What success comes to for side effects at home. */
  lemma OrderFacts(g: Graph, targets: seq<GeneratorTarget>, record: seq<TargetSideEffects>, h: Graph, fin: Graph)
    requires Reduced(g, targets, record, h) && SafeOrder(g, h, fin) && EffectsAtHome(targets)
    ensures AddsNothing(g, fin)
    ensures DroppedElsewhere(g, targets) || Acyclic(g) ==> CommandsFirst(g, targets, fin)
  {
    hide Reduced, SafeOrder, EffectsAtHome, AddsNothing, CommandsFirst, KeepsCommands, Acyclic, DroppedElsewhere;
    FinalAddsNothing(g, targets, record, h, fin);
    CommandsKeptExactly(g, targets, record, h);
    if Acyclic(g) {
      ReducedSize(g, targets, record, h);
      AcyclicKeepsCommands(g, targets, record, h);
    }
    if KeepsCommands(g, targets, h) { FinalKeepsCommands(g, targets, record, h, fin); }
  }
}
