/** Build-order dependencies between all targets (cmComputeTargetDepends). */
module TargetDepends {
  import opened Wrappers
  import opened TargetTypes
  import opened Graphs
  import opened Sorting
  import opened Condensation
  import opened DiscoveryOrder
  import opened ComponentGraph
  import opened IntraComponent
  import opened FinalDepends
  import opened ChainOrder
  import opened SideEffects
  import opened SideEffectCollection
  import opened SideEffectOrder
  import opened BuildOrder
  import opened CustomCommands

  class ComputeTargetDepends {
    const targets: seq<GeneratorTarget>
    const noCycles: bool
    const initialGraph: Graph

    var sideEffects: seq<TargetSideEffects>
    var intermediateGraph: Graph
    var finalGraph: Graph
    var componentHead: seq<int>
    var componentTail: seq<int>

    constructor (ts: seq<GeneratorTarget>, cyclesForbidden: bool, initial: Graph)
      ensures targets == ts && noCycles == cyclesForbidden && initialGraph == initial
    {
      targets, noCycles, initialGraph := ts, cyclesForbidden, initial;
      sideEffects, intermediateGraph, finalGraph, componentHead, componentTail := [], [], [], [], [];
    }

    /** Every target index mentioned by a target is one. */
    ghost predicate TargetsOk() {
      && |targets| == |initialGraph|
      && forall i: nat, kind, t: nat :: i < |targets| && Has(targets[i].own, kind, t) ==> t < |targets|
    }

    /** The side effects of all targets, visited by index. */
    method CollectSideEffects()
      requires WellFormed(initialGraph) && |targets| == |initialGraph|
      modifies this`sideEffects
      ensures sideEffects == CollectFirst(initialGraph, targets, |initialGraph|).record
      ensures forall v: nat :: v < |initialGraph| ==> Sound(initialGraph, targets, sideEffects[v], v)
      ensures forall v: nat :: v < |initialGraph| ==>
        Holds(initialGraph, targets, MergeOrder(initialGraph), sideEffects[v], v)
      ensures forall v: nat :: v < |initialGraph| ==>
        (Complete(initialGraph, targets, sideEffects[v], v) <==> EffectsHanded(initialGraph, targets, v))
      ensures forall v: nat :: v < |initialGraph| && Undisturbed(initialGraph, v) ==>
        Complete(initialGraph, targets, sideEffects[v], v)
    {
      hide Sound, Complete, Undisturbed, Collect, Holds, MergeOrder, EffectsHanded;
      sideEffects := seq(|initialGraph|, _ => NO_EFFECTS);
      var n := |initialGraph|;
      var visited: set<nat> := {};
      for i := 0 to n
        invariant Collection(sideEffects, visited) == CollectFirst(initialGraph, targets, i)
      {
        visited := CollectSideEffectsForTarget(visited, i);
      }
      CollectedIsRight(initialGraph, targets);
      forall v: nat | v < |initialGraph|
        ensures Holds(initialGraph, targets, MergeOrder(initialGraph), sideEffects[v], v)
        ensures Complete(initialGraph, targets, sideEffects[v], v) <==> EffectsHanded(initialGraph, targets, v)
      {
        RecordedExactly(initialGraph, targets, v);
        CompleteExactlyWhen(initialGraph, targets, v);
      }
    }

    /** The side effects of i and, after visiting it, of everything it depends on. */
    method CollectSideEffectsForTarget(visited: set<nat>, i: nat) returns (visited': set<nat>)
      requires WellFormed(initialGraph) && |sideEffects| == |targets| == |initialGraph| && i < |initialGraph|
      modifies this`sideEffects
      ensures Collection(sideEffects, visited') ==
        Collect(initialGraph, targets, Collection(old(sideEffects), visited), i)
      decreases Unseen(|initialGraph|, visited)
    {
      hide Merge, Unseen, Collect, CollectEach;
      ghost var s := Collection(sideEffects, visited);
      CollectUnfolds(initialGraph, targets, s, i);
      visited' := visited;
      if i !in visited {
        visited' := visited + {i};
        sideEffects := sideEffects[i := Merge(sideEffects[i], targets[i].own)];
        ghost var t := Begun(targets, s, i);

        var edges := initialGraph[i];
        for k := 0 to |edges|
          invariant Collection(sideEffects, visited') == CollectEach(initialGraph, targets, t, i, k)
          invariant |sideEffects| == |targets| && visited + {i} <= visited'
        {
          var edge := edges[k].dest;
          FewerUnseen(|initialGraph|, visited, visited', i);
          CollectEachUnfolds(initialGraph, targets, t, i, k + 1);
          visited' := CollectSideEffectsForTarget(visited', edge);
          sideEffects := sideEffects[i := Merge(sideEffects[i], sideEffects[edge])];
        }
      }
    }

    /** Add a weak edge to each of some targets unless it has one already. */
    method PushEdges(edges: seq<Edge>, emitted: set<nat>, edge: Edge, deps: set<nat>) returns (edges': seq<Edge>,
        emitted': set<nat>)
      requires WeakExactly(edges, emitted)
      ensures Pushed(edges, edges', edge, deps) && emitted' == emitted + deps
      ensures WeakExactly(edges', emitted') && StrongOnly(edges') == StrongOnly(edges)
      ensures forall a :: |edges| <= a < |edges'| ==> edges'[a].dest !in emitted
    {
      hide WeakExactly;
      edges', emitted' := edges, emitted;
      var list := Ascending(deps);
      for k := 0 to |list|
        invariant Pushed(edges, edges', edge, deps) && emitted' == emitted + Elements(list[..k])
        invariant WeakExactly(edges', emitted')
        invariant forall a :: |edges| <= a < |edges'| ==> edges'[a].dest !in emitted
      {
        var index := list[k];
        assert index in list;
        assert Elements(list[..k + 1]) == Elements(list[..k]) + {index} by { ElementsStep(list, k); }
        if index !in emitted' {
          WeakExactlyPush(edges', emitted', Edge(index, false, edge.cross, edge.trace));
          emitted' := emitted' + {index};
          edges' := edges' + [Edge(index, false, edge.cross, edge.trace)];
        }
      }
      assert list[..|list|] == list;
      assert Elements(list) == deps;
      assert edges' == edges + edges'[|edges|..];
      StrongOnlyPush(edges, edges'[|edges|..]);
    }

    /** Replace link dependencies by dependencies on what has side effects. */
    method OptimizeLinkDependencies(gt: GeneratorTarget, inputEdges: seq<Edge>) returns (outputEdges: seq<Edge>)
      requires forall k :: 0 <= k < |inputEdges| ==> inputEdges[k].dest < |sideEffects|
      ensures Optimized(gt.languages, sideEffects, inputEdges, outputEdges)
    {
      hide WeakExactly, WeakExplained, Pushed, StrongOnly, WantedByAll, WantedFor, StagedTo, InStages, WantedAt;
      var emitted: set<nat> := {};
      outputEdges := [];
      ghost var ks: seq<nat>, ls: seq<nat> := [], [];
      NothingPushed(gt.languages, sideEffects, inputEdges);
      NothingStaged(gt.languages, sideEffects, inputEdges);
      for k := 0 to |inputEdges|
        invariant StrongOnly(outputEdges) == StrongOnly(inputEdges[..k])
        invariant emitted == WantedByAll(gt.languages, sideEffects, inputEdges[..k])
        invariant WeakExactly(outputEdges, emitted)
        invariant WeakExplained(gt.languages, sideEffects, inputEdges[..k], outputEdges)
        invariant StagedTo(gt.languages, sideEffects, inputEdges, outputEdges, ks, ls, emitted, k, 0)
      {
        var edge := inputEdges[k];
        ghost var before := outputEdges;
        InputNext(gt.languages, sideEffects, inputEdges, k);
        if edge.strong {
          WeakExactlyStrong(outputEdges, emitted, edge);
          StrongStaged(gt.languages, sideEffects, inputEdges, outputEdges, ks, ls, emitted, k);
          ks, ls := ks + [k], ls + [0];
          outputEdges := outputEdges + [edge];
        } else {
          var dse := sideEffects[edge.dest];

          ghost var pushed := emitted;
          outputEdges, emitted := PushEdges(outputEdges, emitted, edge, dse.custom);
          WantedHere(gt.languages, sideEffects, inputEdges, k, 0);
          StagePushed(gt.languages, sideEffects, inputEdges, before, outputEdges, ks, ls, pushed, k, 0, dse.custom);
          ks, ls := ks + seq(|outputEdges| - |before|, _ => k), ls + seq(|outputEdges| - |before|, _ => 0);

          ghost var emitted0 := WantedByAll(gt.languages, sideEffects, inputEdges[..k]);
          assert WantedFor(gt.languages[..0], dse) == dse.custom by { NoLanguages(gt.languages, dse); }
          for l := 0 to |gt.languages|
            invariant emitted == emitted0 + WantedFor(gt.languages[..l], dse)
            invariant Pushed(before, outputEdges, edge, WantedFor(gt.languages[..l], dse))
            invariant WeakExactly(outputEdges, emitted) && StrongOnly(outputEdges) == StrongOnly(before)
            invariant StagedTo(gt.languages, sideEffects, inputEdges, outputEdges, ks, ls, emitted, k, l + 1)
          {
            var lang := gt.languages[l];
            WantedForNext(gt.languages, dse, l);
            ghost var middle := outputEdges;
            pushed := emitted;
            if lang in dse.language {
              outputEdges, emitted := PushEdges(outputEdges, emitted, edge, dse.language[lang]);
              PushedOn(before, middle, outputEdges, edge, WantedFor(gt.languages[..l], dse), dse.language[lang]);
            } else {
              PushedNothing(before, outputEdges, edge, WantedFor(gt.languages[..l], dse));
            }
            WantedHere(gt.languages, sideEffects, inputEdges, k, l + 1);
            ghost var deps := if lang in dse.language then dse.language[lang] else {};
            assert emitted == pushed + deps;
            StagePushed(gt.languages, sideEffects, inputEdges, middle, outputEdges, ks, ls, pushed, k, l + 1, deps);
            ks, ls := ks + seq(|outputEdges| - |middle|, _ => k), ls + seq(|outputEdges| - |middle|, _ => l + 1);
          }
          EdgeStaged(gt.languages, sideEffects, inputEdges, outputEdges, ks, ls, emitted, k);
          assert gt.languages[..|gt.languages|] == gt.languages;
        }
        ExplainedNext(gt.languages, sideEffects, inputEdges, k, before, outputEdges);
      }
      assert inputEdges[..|inputEdges|] == inputEdges;
      AllStaged(gt.languages, sideEffects, inputEdges, outputEdges, ks, ls, emitted);
    }

    method ComputeIntermediateGraph()
      requires WellFormed(initialGraph) && |targets| == |sideEffects| == |initialGraph|
      modifies this`intermediateGraph
      ensures |intermediateGraph| == |initialGraph|
      ensures forall i: nat :: i < |initialGraph| ==>
        IntermediateEdges(targets[i], sideEffects, initialGraph[i], intermediateGraph[i])
    {
      hide Optimized;
      intermediateGraph := seq(|initialGraph|, _ => []);
      var n := |initialGraph|;
      for i := 0 to n
        invariant |intermediateGraph| == n
        invariant forall j: nat :: j < i ==>
          IntermediateEdges(targets[j], sideEffects, initialGraph[j], intermediateGraph[j])
      {
        var initialEdges := initialGraph[i];
        var gt := targets[i];
        var edges := initialEdges;
        if gt.kind == StaticLibrary || gt.kind == ObjectLibrary {
          if gt.optimizeDependencies.Some? && gt.optimizeDependencies.value {
            edges := OptimizeLinkDependencies(gt, initialEdges);
          }
        }
        intermediateGraph := intermediateGraph[i := edges];
      }
    }

    ghost function State(w: Walk, c: nat): Walk
      requires c < |componentTail|
      reads this`finalGraph, this`componentTail
    {
      w.(fin := finalGraph, tail := componentTail[c])
    }

    /** Emit i, after the members its strong edges lead to, at the front of the chain. */
    method IntraComponent(cmap: seq<int>, c: nat, i: nat, head: int, emitted: set<nat>, visited: set<nat>,
                          ghost r: nat, ghost base: set<nat>, ghost call: Call, ghost w: Walk)
      returns (ok: bool, head': int, emitted': set<nat>, visited': set<nat>, ghost w': Walk)
      requires c < |componentTail| && w == State(w, c) && head == w.head && emitted == w.emitted && visited == w.visited
      requires Walking(Setting(initialGraph, cmap, c), r, base, w)
      requires CallDue(Setting(initialGraph, cmap, c), r, base, w, call, i)
      requires Ordering(Setting(initialGraph, cmap, c), base, w)
      modifies this`finalGraph, this`componentTail
      ensures |componentTail| == |old(componentTail)| && |finalGraph| == |old(finalGraph)|
      ensures forall d: nat :: d < |componentTail| && d != c ==> componentTail[d] == old(componentTail)[d]
      ensures ok ==> w' == State(w', c) && head' == w'.head && emitted' == w'.emitted && visited' == w'.visited
      ensures ok ==>
        Walking(Setting(initialGraph, cmap, c), r, base, w') && Extends(Setting(initialGraph, cmap, c), w, w')
      ensures ok ==> i in w'.chain && call in w'.calls && w'.active == w.active && NewCalls(w, w', call)
      ensures ok ==> Ordering(Setting(initialGraph, cmap, c), base, w') && Suffix(w.chain, w'.chain) && i !in w.visited
      ensures !ok ==> exists a, b :: Conflict(Setting(initialGraph, cmap, c), r, base, a, b)
      decreases Unseen(|initialGraph|, emitted)
    {
      hide Linked, Reach, Walking, Followed, Since, CallDue, Extends, NewCalls, Kept, Ordering, EdgesOrdered, Suffix;
      ghost var x := Setting(initialGraph, cmap, c);
      head', emitted', visited', w' := head, emitted, visited, w;
      DueFacts(x, r, base, w, call, i);
      if i in visited {
        // Two calls lead to i.
        ghost var other := RevisitConflicts(x, r, base, w, i, call);
        return false, head', emitted', visited', w';
      }
      EnterKeeps(x, r, base, w, i, call);
      OrderingOpens(x, base, w, i, call);
      visited' := visited + {i};
      w' := Entered(w, i, call);
      if i in emitted {
        EnterExtends(x, r, base, w, i, call);
      } else {
        OpenKeeps(x, r, base, w', i);
        OpenFollows(x, r, base, w', i);
        OpenSince(x, r, base, w, i, call);
        emitted' := emitted + {i};
        w' := Opened(w', i);

        var el := initialGraph[i];
        for k := 0 to |el|
          invariant |componentTail| == |old(componentTail)| && |finalGraph| == |old(finalGraph)|
          invariant forall d: nat :: d < |componentTail| && d != c ==> componentTail[d] == old(componentTail)[d]
          invariant w' == State(w', c) && head' == w'.head && emitted' == w'.emitted && visited' == w'.visited
          invariant Walking(x, r, base, w') && Followed(x, w', i, k) && Since(x, w, w', call, i) && i in emitted'
          invariant Ordering(x, base, w') && EdgesOrdered(x, base, w'.chain, i, k) && Suffix(w.chain, w'.chain)
        {
          var edge := el[k];
          var j := edge.dest;
          if j < |cmap| && cmap[j] == c && edge.strong {
            EdgePushed(x, r, base, w', i, k);
            FewerLeft(x, w, w', call, i);
            ghost var before := w';
            finalGraph := finalGraph[i := finalGraph[i] + [Edge(j, true, edge.cross, edge.trace)]];
            ghost var s := w'.(fin := finalGraph);
            OrderingAlike(x, base, w', finalGraph);
            var ok';
            ok', head', emitted', visited', w' := IntraComponent(cmap, c, j, head', emitted', visited', r, base,
              Along(i, k), s);
            if !ok' {
              return false, head', emitted', visited', w';
            }
            OrderingFollows(x, r, base, w.chain, before, s, w', i, k);
            EdgeFollowed(x, before, s, w', i, k);
            SinceEdge(x, w, before, s, w', call, i, k);
          } else {
            EdgeSkipped(x, w', i, k);
            OrderingSkips(x, base, w'.chain, i, k);
          }
        }

        // All that i leads to is in the chain; i goes in front.
        PrependKeeps(x, r, base, w', i);
        CloseExtends(x, w, w', call, i);
        OrderingCloses(x, base, w.chain, w', i);
        if head' >= 0 {
          finalGraph := finalGraph[i := finalGraph[i] + [Edge(head', false, false, NoTrace)]];
        } else {
          componentTail := componentTail[c := i];
        }
        w' := Prepended(w', i);
        head' := i;
      }
      ok := true;
    }

    /** Choose an order for one component, last member first. */
    method LinearizeComponent(cmap: seq<int>, c: nat, nl: seq<nat>) returns (ok: bool, head: int, ghost chain: seq<nat>)
      requires Setting(initialGraph, cmap, c).Valid() && |finalGraph| == |initialGraph| && c < |componentTail|
      requires Blank(Setting(initialGraph, cmap, c), finalGraph)
      requires StrictlySorted(nl) && forall v: nat :: v in nl <==> Setting(initialGraph, cmap, c).In(v)
      modifies this`finalGraph, this`componentTail
      ensures |componentTail| == |old(componentTail)| && |finalGraph| == |old(finalGraph)|
      ensures forall d: nat :: d < |componentTail| && d != c ==> componentTail[d] == old(componentTail)[d]
      ensures ok <==> Linearizable(Setting(initialGraph, cmap, c), nl)
      ensures ok ==> Linear(Setting(initialGraph, cmap, c), finalGraph, chain)
      ensures ok ==> ChainInOrder(Setting(initialGraph, cmap, c), chain)
      ensures ok && nl != [] ==> chain != [] && head == chain[0] && componentTail[c] == chain[|chain| - 1]
      ensures ok ==> forall v: nat :: v < |finalGraph| && !Setting(initialGraph, cmap, c).In(v) ==>
        finalGraph[v] == old(finalGraph)[v]
    {
      hide Linked, Reach, Walking, TreeLike, Linear, Extends, CallDue, StrongClosure, Linearizable, Ordering, Suffix,
        Placed, ChainInOrder, StrictlySorted;
      ghost var x := Setting(initialGraph, cmap, c);
      head, chain := -1, [];
      var emitted: set<nat> := {};
      ghost var w := Walk(finalGraph, componentTail[c], -1, {}, {}, [], {}, {});
      assert nl[|nl|..] == [];
      ClosureOfNone(x);
      NothingWalked(x, w);
      NothingPlaced(x, nl, w);
      for k := |nl| downto 0
        invariant |componentTail| == |old(componentTail)| && |finalGraph| == |old(finalGraph)|
        invariant forall d: nat :: d < |componentTail| && d != c ==> componentTail[d] == old(componentTail)[d]
        invariant w == State(w, c) && head == w.head && emitted == w.emitted
        invariant Between(x, w) && w.emitted == StrongClosure(x, nl[k..]) && Placed(x, nl, k, w)
        invariant forall i: nat :: k <= i < |nl| ==>
          TreeLike(x, nl[i], StrongClosure(x, nl[i + 1..])) && nl[i] in w.chain
        invariant forall v: nat :: v < |finalGraph| && !x.In(v) ==> finalGraph[v] == old(finalGraph)[v]
      {
        var ni := nl[k];
        assert ni in nl;
        ghost var base := emitted;
        BetweenStarts(x, w, ni);
        NothingOrdered(x, w);
        var visited: set<nat> := {};
        ghost var t;
        ghost var before := w;
        ok, head, emitted, visited, t := IntraComponent(cmap, c, ni, head, emitted, visited, ni, base, Start, w);
        if !ok {
          NotLinearizable(x, nl, k, base);
          return;
        }
        WalkExtendsClosure(x, nl, k, base, t) by { EndedFacts(x, ni, base, before, t); }
        EndedIsTreeLike(x, ni, base, t) by { EndedFacts(x, ni, base, before, t); }
        EndedFacts(x, ni, base, before, t);
        WalkPlaces(x, nl, k, before, t);
        PlacedAlike(x, nl, k, t);
        w := t.(visited := {}, calls := {});
      }
      ok, chain := true, w.chain;
      assert nl[0..] == nl;
      AllLinearizable(x, nl);
      BetweenIsLinear(x, nl, w);
      AllPlaced(x, nl, w);
    }

    /** Build the final graph: a chain for each component, and edges from tails to
        heads. Fails when some walk meets a member twice. */
    method ComputeFinalDepends(ccg: ComputeComponentGraph) returns (ok: bool, ghost chains: Chains)
      requires IsCondensation(ccg.inputGraph, ccg.tarjanComponents, ccg.components, ccg.componentGraph)
      requires WellFormed(initialGraph) && |initialGraph| == |ccg.inputGraph|
      modifies this`finalGraph, this`componentHead, this`componentTail
      ensures ok <==> forall c: nat :: c < |ccg.components| ==>
        Linearizable(Setting(initialGraph, ccg.tarjanComponents, c), ccg.components[c])
      ensures ok ==> FinalShape(initialGraph, ccg.tarjanComponents, ccg.componentGraph, chains, finalGraph)
      ensures ok ==> ChainsInOrder(initialGraph, ccg.tarjanComponents, chains)
      ensures ok ==> |componentHead| == |componentTail| == |chains|
      ensures ok ==> forall c: nat :: c < |chains| ==>
        chains[c] != [] && componentHead[c] == chains[c][0] && componentTail[c] == chains[c][|chains[c]| - 1]
    {
      hide Linear, Linearizable, IsCondensation, Connecting, StrongPart, Reach, ChainInOrder,
        StrictlySorted;
      var components := ccg.components;
      var cgraph := ccg.componentGraph;
      var cmap := ccg.tarjanComponents;
      ComponentFacts(ccg.inputGraph, cmap, components, cgraph);

      finalGraph := seq(|initialGraph|, _ => []);

      componentHead := seq(|components|, _ => 0);
      componentTail := seq(|components|, _ => 0);
      chains := [];
      var nc := |components|;
      for c := 0 to nc
        modifies this`finalGraph, this`componentHead, this`componentTail
        invariant |finalGraph| == |initialGraph| && |componentHead| == |componentTail| == nc && |chains| == c
        invariant forall d: nat :: d < c ==> Linearizable(Setting(initialGraph, cmap, d), components[d])
        invariant forall d: nat :: d < c ==> Linear(Setting(initialGraph, cmap, d), finalGraph, chains[d])
        invariant ChainsInOrder(initialGraph, cmap, chains)
        invariant forall d: nat :: d < c ==>
          chains[d] != [] && componentHead[d] == chains[d][0] && componentTail[d] == chains[d][|chains[d]| - 1]
        invariant forall d: nat :: c <= d < nc ==> Blank(Setting(initialGraph, cmap, d), finalGraph)
      {
        ghost var before := finalGraph;
        var head;
        ghost var chain;
        ok, head, chain := LinearizeComponent(cmap, c, components[c]);
        if !ok {
          return;
        }
        OthersKept(initialGraph, cmap, nc, c, chains, before, finalGraph);
        componentHead := componentHead[c := head];
        chains := chains + [chain];
      }

      LinearConnects(initialGraph, cmap, cgraph, chains, finalGraph);
      var n := |cgraph|;
      for c := 0 to n
        modifies this`finalGraph
        invariant Connecting(initialGraph, cmap, cgraph, chains, finalGraph, c, 0)
      {
        var dependerTail := componentTail[c];
        var nl := cgraph[c];
        for k := 0 to |nl|
          modifies this`finalGraph
          invariant Connecting(initialGraph, cmap, cgraph, chains, finalGraph, c, k)
        {
          ConnectStep(initialGraph, cmap, cgraph, chains, finalGraph, c, k);
          var ni := nl[k];
          var dependeeHead := componentHead[ni.dest];
          finalGraph := finalGraph[dependerTail := finalGraph[dependerTail]
            + [Edge(dependeeHead, ni.strong, ni.cross, ni.trace)]];
        }
        ConnectNext(initialGraph, cmap, cgraph, chains, finalGraph, c);
      }
      ConnectedIsFinal(initialGraph, cmap, cgraph, chains, finalGraph);
      ok := true;
    }

    /** Whether every component of several targets is permitted. */
    method CheckComponents(ccg: ComputeComponentGraph) returns (ok: bool)
      requires forall c, k :: 0 <= c < |ccg.components| && 0 <= k < |ccg.components[c]| ==>
        ccg.components[c][k] < |targets|
      ensures ok <==> forall c :: 0 <= c < |ccg.components| && 2 <= |ccg.components[c]| ==>
        !noCycles && forall k :: 0 <= k < |ccg.components[c]| ==> targets[ccg.components[c][k]].kind == StaticLibrary
    {
      var components := ccg.components;
      for c := 0 to |components|
        invariant forall d :: 0 <= d < c && 2 <= |components[d]| ==>
          !noCycles && forall k :: 0 <= k < |components[d]| ==> targets[components[d][k]].kind == StaticLibrary
      {
        var nl := components[c];
        if |nl| < 2 {
          continue;
        }

        if noCycles {
          return false;
        }

        for k := 0 to |nl|
          invariant forall j :: 0 <= j < k ==> targets[nl[j]].kind == StaticLibrary
        {
          if targets[nl[k]].kind != StaticLibrary {
            return false;
          }
        }
      }
      return true;
    }

    /** The acyclic dependencies between all targets, if the given ones permit any. */
    method Compute() returns (ok: bool)
      requires WellFormed(initialGraph) && TargetsOk()
      modifies this`sideEffects, this`intermediateGraph, this`finalGraph, this`componentHead, this`componentTail
      ensures CyclesAllowed(targets, noCycles, initialGraph) ==>
        Reduced(initialGraph, targets, sideEffects, intermediateGraph)
      ensures ok ==> SafeOrder(initialGraph, intermediateGraph, finalGraph)
      ensures ok ==> OrderedWithin(initialGraph, intermediateGraph, finalGraph)
      ensures ok <==> Accepted(targets, noCycles, initialGraph)
      ensures Acyclic(initialGraph) && EffectsAtHome(targets) ==> ok
      ensures ok && EffectsAtHome(targets) ==> AddsNothing(initialGraph, finalGraph)
      ensures ok && EffectsAtHome(targets) && Acyclic(initialGraph) ==>
        CommandsFirst(initialGraph, targets, finalGraph)
      ensures ok && EffectsAtHome(targets) && DroppedElsewhere(initialGraph, targets) ==>
        CommandsFirst(initialGraph, targets, finalGraph)
    {
      hide IsCondensation, EffectsAtHome, Acyclic, Sound, Complete, CycleFree, CollectFirst, IntermediateEdges,
        CyclesAllowed, SafeOrder, FinalShape, Linearizable, Has, ChainsPossible, Reduced, Accepted,
        AddsNothing, DroppedElsewhere, CommandsFirst, OrderedWithin, ChainsInOrder, InDiscoveryOrder;
      var ccg1 := new ComputeComponentGraph(initialGraph);
      ccg1.Compute();
      ComponentFacts(initialGraph, ccg1.tarjanComponents, ccg1.components, ccg1.componentGraph);
      ok := CheckComponents(ccg1);
      if Acyclic(initialGraph) && EffectsAtHome(targets) { AcyclicIsAccepted(targets, noCycles, initialGraph); }
      if !ok {
        CheckFailed(targets, noCycles, initialGraph, ccg1.tarjanComponents, ccg1.components, ccg1.componentGraph);
        AcceptedParts(targets, noCycles, initialGraph);
        return;
      }
      CheckedCycles(targets, noCycles, initialGraph, ccg1.tarjanComponents, ccg1.components, ccg1.componentGraph);

      CollectSideEffects();
      CollectedIsRight(initialGraph, targets);
      ComputeIntermediateGraph();
      IntermediateReduced();
      SameVerdict(targets, noCycles, initialGraph, sideEffects, intermediateGraph);

      var ccg2 := new ComputeComponentGraph(intermediateGraph);
      ccg2.Compute();
      ComponentFacts(intermediateGraph, ccg2.tarjanComponents, ccg2.components, ccg2.componentGraph);
      ok := CheckComponents(ccg2);
      if !ok {
        CheckFailed(targets, noCycles, intermediateGraph, ccg2.tarjanComponents, ccg2.components, ccg2.componentGraph);
        return;
      }
      CheckedCycles(targets, noCycles, intermediateGraph, ccg2.tarjanComponents, ccg2.components, ccg2.componentGraph);

      ghost var chains;
      ok, chains := ComputeFinalDepends(ccg2);
      ChainsPossibleIs(initialGraph, intermediateGraph, ccg2.tarjanComponents, ccg2.components, ccg2.componentGraph);
      if ok {
        StrongStay(initialGraph, targets, sideEffects, intermediateGraph);
        ShapeIsSafe(intermediateGraph, initialGraph, ccg2.tarjanComponents, ccg2.components, ccg2.componentGraph,
          chains, finalGraph);
        if EffectsAtHome(targets) {
          OrderFacts(initialGraph, targets, sideEffects, intermediateGraph, finalGraph);
        }
      }
    }

    lemma IntermediateReduced()
      requires WellFormed(initialGraph) && TargetsOk() && |sideEffects| == |intermediateGraph| == |initialGraph|
      requires forall v: nat :: v < |initialGraph| ==> Sound(initialGraph, targets, sideEffects[v], v)
      requires sideEffects == CollectFirst(initialGraph, targets, |initialGraph|).record
      requires forall i: nat :: i < |initialGraph| ==>
        IntermediateEdges(targets[i], sideEffects, initialGraph[i], intermediateGraph[i])
      ensures WellFormed(intermediateGraph) && Reduced(initialGraph, targets, sideEffects, intermediateGraph)
    {
      hide Sound, Complete, Undisturbed, EffectsHanded, IntermediateEdges, CollectFirst;
      CollectedIsRight(initialGraph, targets);
      CollectedCompletely(initialGraph, targets);
      IntermediateWellFormed();
    }

    lemma IntermediateWellFormed()
      requires WellFormed(initialGraph) && TargetsOk() && |sideEffects| == |intermediateGraph| == |initialGraph|
      requires forall v: nat :: v < |initialGraph| ==> Sound(initialGraph, targets, sideEffects[v], v)
      requires forall i: nat :: i < |initialGraph| ==>
        IntermediateEdges(targets[i], sideEffects, initialGraph[i], intermediateGraph[i])
      ensures WellFormed(intermediateGraph)
    {
      hide Sound, Optimized, Reach;
      forall i: nat, k: nat | i < |intermediateGraph| && k < |intermediateGraph[i]|
        ensures intermediateGraph[i][k].dest < |intermediateGraph|
      {
        var e := intermediateGraph[i][k];
        if intermediateGraph[i] != initialGraph[i] {
          if e.strong {
            IntermediateKeepsStrong(targets[i], sideEffects, initialGraph[i], intermediateGraph[i], e);
            var j :| 0 <= j < |initialGraph[i]| && initialGraph[i][j] == e;
          } else {
            assert WeakTo(intermediateGraph[i], e.dest);
            var j, kind := IntermediateAddsNoOther(initialGraph, targets, sideEffects, i, intermediateGraph[i], e.dest);
            var w: nat :| w < |targets| && Reach(initialGraph, initialGraph[i][j].dest, w) && Has(targets[w].own, kind,
              e.dest);
          }
        }
      }
    }
  }

  /** Linearising component c leaves the others as they were. */
  lemma OthersKept(initial: Graph, cmap: seq<int>, nc: nat, c: nat, chains: Chains, before: Graph, after: Graph)
    requires c == |chains| < nc && |before| == |after| == |initial|
    requires forall d: nat :: d < c ==> Linear(Setting(initial, cmap, d), before, chains[d])
    requires forall d: nat :: c <= d < nc ==> Blank(Setting(initial, cmap, d), before)
    requires forall v: nat :: v < |after| && !Setting(initial, cmap, c).In(v) ==> after[v] == before[v]
    ensures forall d: nat :: d < c ==> Linear(Setting(initial, cmap, d), after, chains[d])
    ensures forall d: nat :: c < d < nc ==> Blank(Setting(initial, cmap, d), after)
  {
    hide Linear;
    forall d: nat | d < c
      ensures Linear(Setting(initial, cmap, d), after, chains[d])
    {
      LinearFrame(Setting(initial, cmap, d), before, after, chains[d]);
    }
  }

  /** Between two walks: a chain, and nothing under way. */
  ghost predicate Between(x: Setting, w: Walk) {
    && x.Valid() && Chained(x, w) && Linked(x, w.fin, w.chain)
    && w.emitted == Elements(w.chain) && w.active == {} && w.visited == {} && w.calls == {}
    && forall v: nat :: x.In(v) && v !in w.emitted ==> v < |w.fin| && w.fin[v] == []
  }

  lemma NothingWalked(x: Setting, w: Walk)
    requires x.Valid() && Blank(x, w.fin) && |w.fin| == |x.graph|
    requires w == Walk(w.fin, w.tail, -1, {}, {}, [], {}, {})
    ensures Between(x, w)
  {
  }

  lemma BetweenStarts(x: Setting, w: Walk, r: nat)
    requires Between(x, w) && x.In(r)
    ensures Walking(x, r, w.emitted, w) && CallDue(x, r, w.emitted, w, Start, r)
    ensures forall u: nat, y: nat :: u in w.emitted && HasEdge(StrongPart(x), u, y) ==> y in w.emitted
  {
    hide Linked, Reach;
    StartWalk(x, r, w);
    ReachRefl(StrongPart(x), r);
    forall u: nat, y: nat | u in w.emitted && HasEdge(StrongPart(x), u, y)
      ensures y in w.emitted
    {
      ChainClosed(x, w.fin, w.chain, u, y);
    }
  }

  /** A walk from r has ended. */
  lemma EndedFacts(x: Setting, r: nat, base: set<nat>, s: Walk, t: Walk)
    requires Between(x, s) && Walking(x, r, base, t) && Extends(x, s, t) && t.active == {} && r in t.chain
    requires Start in t.calls
    ensures r in t.emitted && Start in t.calls && t.active == {}
    ensures Between(x, t.(visited := {}, calls := {}))
    ensures forall v: nat :: v in s.chain ==> v in t.chain
    ensures forall v: nat :: v < |s.fin| && !x.In(v) ==> t.fin[v] == s.fin[v]
  {
    hide Linked;
    forall v: nat | v in s.chain
      ensures v in t.chain
    {
      assert v in Elements(s.chain);
    }
  }

  lemma NotLinearizable(x: Setting, nl: seq<nat>, k: nat, base: set<nat>)
    requires k < |nl| && base == StrongClosure(x, nl[k + 1..])
    requires exists a, b :: Conflict(x, nl[k], base, a, b)
    ensures !Linearizable(x, nl)
  {
    assert !TreeLike(x, nl[k], StrongClosure(x, nl[k + 1..]));
  }

  lemma AllLinearizable(x: Setting, nl: seq<nat>)
    requires forall i: nat :: i < |nl| ==> TreeLike(x, nl[i], StrongClosure(x, nl[i + 1..]))
    ensures Linearizable(x, nl)
  {
  }

  lemma BetweenIsLinear(x: Setting, nl: seq<nat>, w: Walk)
    requires Between(x, w) && (forall v: nat :: v in nl <==> x.In(v)) && forall i: nat :: i < |nl| ==> nl[i] in w.chain
    ensures Linear(x, w.fin, w.chain)
    ensures nl != [] ==> w.chain != [] && w.head == w.chain[0] && w.tail == w.chain[|w.chain| - 1]
  {
    if nl != [] { assert nl[0] in w.chain; }
  }

  /** What a due call may rely on. */
  lemma DueFacts(x: Setting, r: nat, base: set<nat>, w: Walk, call: Call, i: nat)
    requires Walking(x, r, base, w) && CallDue(x, r, base, w, call, i)
    ensures call !in w.calls && Destination(x, r, call) == i && x.In(i) && |w.fin| == |x.graph|
    ensures call.Start? || (IsEdge(x, call) && call.u in w.emitted - base)
    ensures Reach(StrongPart(x), r, i)
    ensures i !in base || i in w.emitted
    ensures w.head >= 0 ==> w.head < |x.graph|
    ensures i !in w.emitted ==> i !in w.active
  {
  }

  lemma EnterExtends(x: Setting, r: nat, base: set<nat>, w: Walk, i: nat, call: Call)
    requires Walking(x, r, base, w) && i in w.emitted && i !in w.visited
    ensures Extends(x, w, Entered(w, i, call)) && NewCalls(w, Entered(w, i, call), call) && i in w.chain
  {
  }

  lemma OpenSince(x: Setting, r: nat, base: set<nat>, w: Walk, i: nat, call: Call)
    requires Walking(x, r, base, w)
    ensures Since(x, w, Opened(Entered(w, i, call), i), call, i)
  {
  }

  lemma FewerLeft(x: Setting, s: Walk, t: Walk, call: Call, i: nat)
    requires Since(x, s, t, call, i) && i !in s.emitted && x.In(i)
    ensures Unseen(|x.graph|, t.emitted) < Unseen(|x.graph|, s.emitted)
  {
    FewerUnseen(|x.graph|, s.emitted, t.emitted, i);
  }

  lemma ElementsStep(list: seq<nat>, k: nat)
    requires k < |list|
    ensures Elements(list[..k + 1]) == Elements(list[..k]) + {list[k]}
  {
    assert list[..k + 1] == list[..k] + [list[k]];
  }

  lemma NothingPushed(languages: seq<string>, record: seq<TargetSideEffects>, es: seq<Edge>)
    ensures es[..0] == []
    ensures WeakExactly([], {}) && WeakExplained(languages, record, [], []) && WantedByAll(languages, record, []) == {}
  {
    assert forall t: nat :: !WeakTo([], t);
  }
}
