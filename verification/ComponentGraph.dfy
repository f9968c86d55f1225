/** Strongly connected components by Tarjan's algorithm, and the acyclic graph
    of components (cmComputeComponentGraph). */
module ComponentGraph {
  import opened Graphs
  import opened Sorting
  import opened TarjanWalk
  import opened DiscoveryOrder
  import opened TarjanSteps
  import opened Condensation

  /** When every vertex has been visited the invariant says all of it. */
  lemma WalksFindComponents(g: Graph, s: Walk)
    requires WellFormed(g) && Between(g, BeforeWalk(s), |g|)
    ensures Partition(|g|, s.componentOf, s.components)
    ensures ReverseTopological(g, s.componentOf)
    ensures StronglyConnected(g, s.componentOf)
  {
    hide Reach, Walked;
    AllWalked(g, BeforeWalk(s));
    assert forall v: nat :: BeforeWalk(s).Component(v) == s.Component(v);
    assert forall v: nat :: BeforeWalk(s).White(v) == s.White(v);
    assert forall v: nat :: v < |g| ==> s.Component(v) == s.componentOf[v];
    forall u: nat, v: nat | HasEdge(g, u, v)
      ensures v < |g| && s.componentOf[v] <= s.componentOf[u]
    {
      EdgeRelationIsHasEdge(g, u, v);
      assert s.Component(v) <= s.Component(u);
    }
    forall u: nat, v: nat | u < |g| && v < |g|
      ensures s.componentOf[u] == s.componentOf[v] <==> Reach(g, u, v) && Reach(g, v, u)
    {
      SameComponent(g, s, u, v);
    }
  }

  lemma SameComponent(g: Graph, s: Walk, u: nat, v: nat)
    requires Settled(EdgeRelation(g), ReachRelation(g), s) && ReverseTopological(g, s.componentOf)
    requires u < |g| && v < |g| && 0 <= s.componentOf[u] && 0 <= s.componentOf[v]
    ensures s.componentOf[u] == s.componentOf[v] <==> Reach(g, u, v) && Reach(g, v, u)
  {
    hide Reach;
    if s.componentOf[u] == s.componentOf[v] {
      assert s.Component(u) == s.Component(v);
      assert (u, v) in ReachRelation(g) && (v, u) in ReachRelation(g);
    }
    if Reach(g, u, v) && Reach(g, v, u) {
      DescendsReach(g, s.componentOf, u, v);
      DescendsReach(g, s.componentOf, v, u);
    }
  }

  class ComputeComponentGraph {
    const inputGraph: Graph
    var componentGraph: Graph

    var tarjanVisited: seq<nat>
    var tarjanComponents: seq<int>
    var tarjanEntries: seq<TarjanEntry>
    var components: seq<seq<nat>>
    var tarjanStack: seq<nat>
    var tarjanWalkId: nat
    var tarjanIndex: nat

    ghost function State(): Walk
      reads this
    {
      Walk(tarjanVisited, tarjanComponents, tarjanEntries, components, tarjanStack, tarjanWalkId, tarjanIndex)
    }

    /** Pop the component whose root is i, the entry at height m of the stack. */
    method PopComponent(i: nat, ghost m: nat) returns (ghost taken: seq<nat>)
      requires State().Sized(|inputGraph|) && Distinct(tarjanStack)
      requires forall a :: 0 <= a < |tarjanStack| ==> tarjanStack[a] < |inputGraph|
      requires m < |tarjanStack| && tarjanStack[m] == i
      modifies this`tarjanComponents, this`tarjanEntries, this`components, this`tarjanStack
      ensures PartlyPopped(|inputGraph|, old(State()), State().(components := old(components)), taken,
        |old(components)|)
      ensures components == old(components) + [Sort(taken)]
      ensures |tarjanStack| == m
    {
      ghost var s := State();
      ghost var n := |inputGraph|;
      var c := |components|;
      var component: seq<nat> := [];
      var more := true;
      while more
        invariant PartlyPopped(n, s, State(), component, c)
        invariant m <= |tarjanStack| && (more <==> m < |tarjanStack|)
        decreases |tarjanStack|
      {
        ghost var t := State();
        PopStep(n, s, t, component, c, i);
        var j := tarjanStack[|tarjanStack| - 1];
        tarjanStack := tarjanStack[..|tarjanStack| - 1];
        tarjanComponents := tarjanComponents[j := c];
        tarjanEntries := tarjanEntries[j := tarjanEntries[j].(root := i)];
        component := component + [j];
        assert State() == PoppedTop(t, i, c);
        more := j != i;
      }
      components := components + [Sort(component)];
      taken := component;
    }

    /** Depth-first visit of an unvisited vertex that every vertex in active reaches. */
    method TarjanVisit(i: nat, ghost edges: Relation, ghost reach: Relation, ghost active: set<nat>)
      requires Due(inputGraph, edges, reach, State(), active, i)
      modifies this`tarjanVisited, this`tarjanComponents, this`tarjanEntries, this`components, this`tarjanStack,
               this`tarjanIndex
      ensures Left(inputGraph, edges, reach, old(State()), State(), active, i)
      decreases State().Whites()
    {
      hide Due, Underway, Arrived, Left, PartlyPopped, Distinct, Sort;
      ghost var s0 := State();
      Begin(inputGraph, edges, reach, s0, active, i);

      tarjanVisited := tarjanVisited[i := tarjanWalkId];

      tarjanEntries := tarjanEntries[i := tarjanEntries[i].(root := i)];
      tarjanComponents := tarjanComponents[i := -1];
      tarjanIndex := tarjanIndex + 1;
      tarjanEntries := tarjanEntries[i := tarjanEntries[i].(visitIndex := tarjanIndex)];
      tarjanStack := tarjanStack + [i];
      assert State() == Pushed(s0, i);

      var nl := inputGraph[i];
      for k := 0 to |nl|
        invariant Underway(inputGraph, edges, reach, s0, State(), active, i, k)
      {
        var j := nl[k].dest;
        Next(inputGraph, edges, reach, s0, State(), active, i, k);

        // Earlier walks are settled: such an edge leaves the walk.
        if tarjanVisited[j] > 0 && tarjanVisited[j] < tarjanWalkId {
          continue;
        }

        if tarjanVisited[j] == 0 {
          ghost var s := State();
          TarjanVisit(j, edges, reach, active + {i});
          Returned(inputGraph, edges, reach, s0, s, State(), active, i, k);
        }

        // A destination without a component may have a better root.
        Compared(inputGraph, edges, reach, s0, State(), active, i, k);
        if tarjanComponents[j] < 0 {
          if tarjanEntries[tarjanEntries[j].root].visitIndex < tarjanEntries[tarjanEntries[i].root].visitIndex {
            tarjanEntries := tarjanEntries[i := tarjanEntries[i].(root := tarjanEntries[j].root)];
          }
        }
      }

      ghost var s := State();
      ReadyToPop(inputGraph, edges, reach, s0, s, active, i);
      if tarjanEntries[i].root == i {
        ghost var taken := PopComponent(i, |s0.stack|);
        EndWithComponent(inputGraph, edges, reach, s0, s, State().(components := s.components), taken, active, i);
      } else {
        EndOpen(inputGraph, edges, reach, s0, s, active, i);
      }
    }

    method Tarjan()
      requires WellFormed(inputGraph) && components == [] && tarjanStack == []
      modifies this`tarjanVisited, this`tarjanComponents, this`tarjanEntries, this`components, this`tarjanStack,
               this`tarjanIndex, this`tarjanWalkId
      ensures Partition(|inputGraph|, tarjanComponents, components)
      ensures ReverseTopological(inputGraph, tarjanComponents)
      ensures StronglyConnected(inputGraph, tarjanComponents)
      ensures InDiscoveryOrder(inputGraph, tarjanComponents)
    {
      hide Between, Due, Left, InDiscoveryOrder, EdgeRelation, ReachRelation, Partition, ReverseTopological,
        StronglyConnected, WellFormed;
      var n := |inputGraph|;
      ghost var edges, reach := EdgeRelation(inputGraph), ReachRelation(inputGraph);
      var entry := TarjanEntry(0, 0);
      tarjanEntries := seq(n, _ => entry);
      tarjanComponents := seq(n, _ => -1);
      tarjanWalkId := 0;
      tarjanVisited := seq(n, _ => 0);
      FirstWalk(inputGraph);
      assert BeforeWalk(State()) == Fresh(n).(index := 0);
      for i := 0 to n
        invariant Between(inputGraph, BeforeWalk(State()), i)
      {
        ghost var s := BeforeWalk(State());
        WalkBegins(inputGraph, s, i);

        // The stack is empty between walks, so ids may restart.
        if tarjanVisited[i] == 0 {
          tarjanWalkId := tarjanWalkId + 1;
          tarjanIndex := 0;
          assert State() == s;
          TarjanVisit(i, edges, reach, {});
          WalkEnds(inputGraph, s, State(), i);
        }
      }
      AllWalked(inputGraph, BeforeWalk(State()));
      WalksFindComponents(inputGraph, State());
    }

    /** Carry over, with their flags, the edges that leave a component. */
    method TransferEdges()
      requires Mapped(inputGraph, tarjanComponents, |components|)
      requires componentGraph == seq(|components|, _ => [])
      modifies this`componentGraph
      ensures componentGraph == Quotient(inputGraph, tarjanComponents, |components|)
    {
      var n := |inputGraph|;
      for i := 0 to n
        invariant |componentGraph| == |components|
        invariant forall c: nat :: c < |components| ==>
          componentGraph[c] == OutEdges(inputGraph, tarjanComponents, |components|, c, i)
      {
        var iComponent := tarjanComponents[i];
        var nl := inputGraph[i];
        ghost var before := componentGraph[iComponent];
        for k := 0 to |nl|
          invariant |componentGraph| == |components|
          invariant forall c: nat :: c < |components| && c != iComponent ==>
            componentGraph[c] == OutEdges(inputGraph, tarjanComponents, |components|, c, i)
          invariant componentGraph[iComponent] == before + Leaving(nl[..k], tarjanComponents, iComponent)
        {
          var j := nl[k].dest;
          var jComponent := tarjanComponents[j];
          assert nl[..k + 1][..k] == nl[..k];
          if iComponent != jComponent {
            // Nothing is merged: EdgeMultiplicity counts on it.
            var edge := Edge(jComponent, nl[k].strong, nl[k].cross, nl[k].trace);
            componentGraph := componentGraph[iComponent := componentGraph[iComponent] + [edge]];
          }
        }
        assert nl[..|nl|] == nl;
      }
    }

    constructor (input: Graph)
      ensures inputGraph == input && components == [] && tarjanStack == []
    {
      inputGraph := input;
      componentGraph, components := [], [];
      tarjanVisited, tarjanComponents, tarjanEntries, tarjanStack := [], [], [], [];
      tarjanWalkId, tarjanIndex := 0, 0;
    }

    /** Find the components and the graph between them. */
    method Compute()
      requires WellFormed(inputGraph) && components == [] && tarjanStack == []
      modifies this
      ensures IsCondensation(inputGraph, tarjanComponents, components, componentGraph)
      ensures InDiscoveryOrder(inputGraph, tarjanComponents)
    {
      hide StronglyConnected, InDiscoveryOrder;
      Tarjan();

      componentGraph := seq(|components|, _ => []);
      TransferEdges();
    }
  }
}
