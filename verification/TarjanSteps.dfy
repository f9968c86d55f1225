/** The steps of one visit of Tarjan's algorithm, each with all that it keeps: the invariant
    of the walks and the order of discovery (cmComputeComponentGraph). */
module TarjanSteps {
  import opened Graphs
  import opened Sorting
  import opened TarjanWalk
  import opened DiscoveryOrder

  /** The visit of i, begun in s0, has dealt with the first k edges. */
  ghost predicate Underway(g: Graph, edges: Relation, reach: Relation, s0: Walk, s: Walk, active: set<nat>, i: nat,
      k: nat) {
    && i < |g| && k <= |g[i]|
    && Following(|g|, edges, reach, s0, s, active, i, Dests(g[i][..k])) && Tracking(g, reach, s0, s, i, k, k)
  }

  /** The end of edge k has been visited, but its root not yet compared. */
  ghost predicate Arrived(g: Graph, edges: Relation, reach: Relation, s0: Walk, s: Walk, active: set<nat>, i: nat,
      k: nat) {
    && i < |g| && k < |g[i]|
    && Comparing(|g|, edges, reach, s0, s, active, i, g[i][k].dest, Dests(g[i][..k]))
    && Tracking(g, reach, s0, s, i, k + 1, k + 1)
  }

  /** What the visit of i leaves. */
  ghost predicate Left(g: Graph, edges: Relation, reach: Relation, s: Walk, t: Walk, active: set<nat>, i: nat) {
    i < |g| && Inv(|g|, edges, reach, t, active) && Visited(edges, s, t, i, Dests(g[i])) && Found(g, reach, s, t, i)
  }

  /** Where a visit may begin. */
  ghost predicate Due(g: Graph, edges: Relation, reach: Relation, s: Walk, active: set<nat>, i: nat) {
    && Relations(g, edges, reach) && Inv(|g|, edges, reach, s, active) && i < |g| && s.White(i)
    && forall x: nat :: x in active ==> (x, i) in reach
  }

  lemma Begin(g: Graph, edges: Relation, reach: Relation, s: Walk, active: set<nat>, i: nat)
    requires Due(g, edges, reach, s, active, i)
    ensures s.Sized(|g|) && i < |g| && Underway(g, edges, reach, s, Pushed(s, i), active, i, 0)
  {
    hide Inv, Following, Tracking, Relations;
    InvShape(|g|, edges, reach, s, active);
    StartVisit(g, edges, reach, s, active, i);
    assert g[i][..0] == [];
    TrackStart(g, reach, |g|, s, i);
  }

  /** What the next edge of i needs to know. */
  lemma Next(g: Graph, edges: Relation, reach: Relation, s0: Walk, s: Walk, active: set<nat>, i: nat, k: nat)
    requires Due(g, edges, reach, s0, active, i) && Underway(g, edges, reach, s0, s, active, i, k) && k < |g[i]|
    ensures var j := g[i][k].dest;
      && j < |g| && s.Sized(|g|) && s.walkId == s0.walkId
      && (s.White(j) ==> Due(g, edges, reach, s, active + {i}, j))
      && (!s.White(j) ==> Arrived(g, edges, reach, s0, s, active, i, k))
      && (0 < s.visited[j] < s.walkId ==> Underway(g, edges, reach, s0, s, active, i, k + 1))
    ensures s.Whites() < s0.Whites()
  {
    hide Inv, Following, Comparing, Tracking, Relations;
    var j := g[i][k].dest;
    NextEdge(g, edges, reach, s0, s, active, i, k, Dests(g[i][..k]));
    DestsStep(g[i], k);
    if !s.White(j) { TrackNext(g, edges, reach, s0, s, s, active, i, k); }
  }

  /** The recursive visit of the end of edge k has returned. */
  lemma Returned(g: Graph, edges: Relation, reach: Relation, s0: Walk, s: Walk, t: Walk, active: set<nat>, i: nat,
      k: nat)
    requires Due(g, edges, reach, s0, active, i) && Underway(g, edges, reach, s0, s, active, i, k) && k < |g[i]|
    requires Left(g, edges, reach, s, t, active + {i}, g[i][k].dest)
    ensures Arrived(g, edges, reach, s0, t, active, i, k)
  {
    hide Inv, Following, Comparing, Tracking, Relations, Visited, Found;
    var j := g[i][k].dest;
    InvShape(|g|, edges, reach, s0, active);
    NextEdge(g, edges, reach, s0, s, active, i, k, Dests(g[i][..k]));
    AfterVisit(g, edges, reach, s0, s, t, active, i, j, Dests(g[i][..k]));
    VisitedKeeps(edges, s, t, j, Dests(g[j]));
    TrackNext(g, edges, reach, s0, s, t, active, i, k);
  }

  /** The root is compared and, if the end of edge k knows a better one, replaced. */
  lemma Compared(g: Graph, edges: Relation, reach: Relation, s0: Walk, s: Walk, active: set<nat>, i: nat, k: nat)
    requires Due(g, edges, reach, s0, active, i) && Arrived(g, edges, reach, s0, s, active, i, k)
    ensures var j := g[i][k].dest;
      && s.Sized(|g|) && j < |g| && s.Root(i) < |g| && (s.Open(j) <==> s.Component(j) < 0)
      && (s.Component(j) < 0 ==> s.Root(j) < |g|)
      && var t := if s.Open(j) && s.Index(s.Root(j)) < s.Index(s.Root(i)) then WithRoot(s, i, s.Root(j)) else s;
         Underway(g, edges, reach, s0, t, active, i, k + 1)
  {
    hide Inv, Following, Comparing, Tracking, Relations;
    var j := g[i][k].dest;
    CompareRoots(g, edges, reach, s0, s, active, i, k, Dests(g[i][..k]));
    DestsStep(g[i], k);
    var t := if s.Open(j) && s.Index(s.Root(j)) < s.Index(s.Root(i)) then WithRoot(s, i, s.Root(j)) else s;
    TrackAlike(g, reach, s0, s, t, i, k + 1, k + 1);
  }

  /** Where the pop of the component of i starts. */
  lemma ReadyToPop(g: Graph, edges: Relation, reach: Relation, s0: Walk, s: Walk, active: set<nat>, i: nat)
    requires Due(g, edges, reach, s0, active, i) && Underway(g, edges, reach, s0, s, active, i, |g[i]|)
    ensures s.Sized(|g|) && Distinct(s.stack) && |s0.stack| < |s.stack| && s.stack[|s0.stack|] == i
    ensures forall a :: 0 <= a < |s.stack| ==> s.stack[a] < |g|
  {
    hide Inv, Following, Tracking;
    AtRoot(|g|, edges, reach, s0, s, active, i, Dests(g[i][..|g[i]|]));
  }

  /** The visit of i ends with i the root of a new component. */
  lemma EndWithComponent(g: Graph, edges: Relation, reach: Relation, s0: Walk, s: Walk, t: Walk, taken: seq<nat>,
      active: set<nat>, i: nat)
    requires Due(g, edges, reach, s0, active, i) && Underway(g, edges, reach, s0, s, active, i, |g[i]|)
    requires s.Root(i) == i
    requires PartlyPopped(|g|, s, t, taken, |s.components|) && |t.stack| == |s0.stack|
    ensures Left(g, edges, reach, s0, t.(components := s.components + [Sort(taken)]), active, i)
  {
    hide Inv, Tracking, Found, Visited, Sort;
    assert g[i][..|g[i]|] == g[i];
    FinishWithComponent(g, edges, reach, s0, s, t, taken, active, i);
    var u := t.(components := s.components + [Sort(taken)]);
    TrackClosed(g, edges, reach, s0, s, u, taken, active, i);
  }

  /** The visit of i ends with i left open below an earlier root. */
  lemma EndOpen(g: Graph, edges: Relation, reach: Relation, s0: Walk, s: Walk, active: set<nat>, i: nat)
    requires Due(g, edges, reach, s0, active, i) && Underway(g, edges, reach, s0, s, active, i, |g[i]|)
    requires s.Root(i) != i
    ensures Left(g, edges, reach, s0, s, active, i)
  {
    hide Inv, Following, Tracking, Found, Visited;
    assert g[i][..|g[i]|] == g[i];
    FinishOpen(g, edges, reach, s0, s, active, i);
    TrackOver(g, reach, s0, s, i);
  }

  // ----- whole walks

  /** Before the walk from i, if there is one: s has the fields as it finds them. */
  ghost predicate Between(g: Graph, s: Walk, i: nat) {
    Inv(|g|, EdgeRelation(g), ReachRelation(g), s, {}) && Walked(g, s, i)
  }

  lemma FirstWalk(g: Graph)
    requires WellFormed(g)
    ensures Between(g, Fresh(|g|), 0)
  {
    hide Walked, Relations, Inv;
    RelationsOfGraph(g);
    FreshInv(g, EdgeRelation(g), ReachRelation(g));
    NoneWalked(g, Fresh(|g|));
  }

  lemma WalkBegins(g: Graph, s: Walk, i: nat)
    requires WellFormed(g) && i < |g| && Between(g, s, i)
    ensures s.Sized(|g|) && s.stack == []
    ensures s.White(i) ==> Due(g, EdgeRelation(g), ReachRelation(g), s, {}, i)
    ensures !s.White(i) ==> Between(g, s, i + 1)
  {
    hide Walked, Relations, Inv;
    RelationsOfGraph(g);
    InvShape(|g|, EdgeRelation(g), ReachRelation(g), s, {});
    NothingOpen(|g|, EdgeRelation(g), ReachRelation(g), s);
    if !s.White(i) { WalkNotNeeded(g, s, i); }
  }

  lemma WalkEnds(g: Graph, s: Walk, t: Walk, i: nat)
    requires WellFormed(g) && i < |g| && Between(g, s, i) && s.White(i)
    requires Left(g, EdgeRelation(g), ReachRelation(g), s, t, {}, i)
    ensures Between(g, BeforeWalk(t), i + 1)
  {
    hide Walked, Relations, Inv, Found, Visited;
    RelationsOfGraph(g);
    VisitedKeeps(EdgeRelation(g), s, t, i, Dests(g[i]));
    NewWalk(|g|, EdgeRelation(g), ReachRelation(g), t);
    WalkOver(g, s, t, i);
    WalkedAlike(g, t, BeforeWalk(t), i + 1);
  }

  lemma AllWalked(g: Graph, s: Walk)
    requires WellFormed(g) && Between(g, s, |g|)
    ensures s.Sized(|g|) && s.stack == [] && InDiscoveryOrder(g, s.componentOf)
    ensures forall v: nat :: v < |g| ==> !s.White(v) && 0 <= s.Component(v)
  {
    hide Inv, InDiscoveryOrder, Swept, LowerSoFar, EdgesSoFar;
    InvShape(|g|, EdgeRelation(g), ReachRelation(g), s, {});
    NothingOpen(|g|, EdgeRelation(g), ReachRelation(g), s);
    WalkedIsInOrder(g, s);
  }
}
