/** In which order depth-first walks discover vertices, as far as the numbers of components
    show it: by index from outside, by position among the edges of one vertex
    (cmComputeComponentGraph). */
module DiscoveryOrder {
  import opened Graphs
  import opened TarjanWalk

  // ----- what the numbers promise

  /** The end of edge j of x leads neither back to x nor, any more than those before it,
      round x to the end of the later edge k. */
  ghost predicate Apart(g: Graph, reach: Relation, x: nat, j: nat, k: nat) {
    && x < |g| && j < k < |g[x]| && g[x][k].dest != x && (g[x][j].dest, x) !in reach
    && forall m: nat :: m <= j ==> !Avoids(g, x, g[x][m].dest, g[x][k].dest)
  }

  /** Whatever gets to b without x is higher than something that gets to x. */
  ghost predicate EnteredFirst(g: Graph, x: nat, b: nat) {
    exists r: nat :: Reach(g, r, x) && forall w: nat :: Avoids(g, x, w, b) ==> r < w
  }

  /** Lower vertices come first where nothing leads from there to the later ones. */
  ghost predicate LowerFirst(g: Graph, componentOf: seq<int>)
    requires |componentOf| == |g|
  {
    forall u: nat, v: nat :: (u < v < |g| && forall w: nat :: w <= u ==> !Reach(g, w, v)) ==>
      componentOf[u] < componentOf[v]
  }

  /** The same for the edges of one vertex. */
  ghost predicate EarlierEdgeFirst(g: Graph, componentOf: seq<int>)
    requires WellFormed(g) && |componentOf| == |g|
  {
    forall x: nat, j: nat, k: nat ::
      Apart(g, ReachRelation(g), x, j, k) && EnteredFirst(g, x, g[x][k].dest) ==>
        componentOf[g[x][j].dest] < componentOf[g[x][k].dest]
  }

  ghost predicate InDiscoveryOrder(g: Graph, componentOf: seq<int>) {
    WellFormed(g) && |componentOf| == |g| && LowerFirst(g, componentOf) && EarlierEdgeFirst(g, componentOf)
  }

  // ----- one visit

  /** v has been visited between s and t. */
  ghost predicate NewIn(s: Walk, t: Walk, v: nat) {
    s.White(v) && !t.White(v)
  }

  /** What has newly been visited is reached from i by way of such vertices only. */
  ghost predicate Discovered(g: Graph, s: Walk, t: Walk, i: nat) {
    forall v: nat, x: nat :: NewIn(s, t, v) && !NewIn(s, t, x) ==> Avoids(g, x, i, v)
  }

  /** New numbers are higher than old ones, which stay. */
  ghost predicate Later(s: Walk, t: Walk) {
    && |s.components| <= |t.components|
    && (forall v: nat :: s.White(v) ==> t.Component(v) == -1 || |s.components| <= t.Component(v))
    && (forall v: nat :: !s.White(v) ==> !t.White(v) && t.Component(v) == s.Component(v))
  }

  /** Nothing that gets to b without x has been visited. */
  ghost predicate Untouched(g: Graph, s: Walk, x: nat, b: nat) {
    forall w: nat :: Avoids(g, x, w, b) ==> s.White(w)
  }

  /** a has its number, and b none yet or a higher one. */
  ghost predicate Numbered(s: Walk, a: nat, b: nat) {
    0 <= s.Component(a) < |s.components| && (s.Component(b) == -1 || s.Component(a) < s.Component(b))
  }

  /** The edges of x are in order, if it came to be visited from i and i did not lead to
      the later one otherwise. */
  ghost predicate OrderedAt(g: Graph, reach: Relation, s: Walk, t: Walk, i: nat, x: nat) {
    forall j: nat, k: nat ::
      (Apart(g, reach, x, j, k) && Untouched(g, s, x, g[x][k].dest) && !Avoids(g, x, i, g[x][k].dest)) ==>
        Numbered(t, g[x][j].dest, g[x][k].dest)
  }

  ghost predicate Ordered(g: Graph, reach: Relation, s: Walk, t: Walk, i: nat) {
    forall x: nat :: NewIn(s, t, x) ==> OrderedAt(g, reach, s, t, i, x)
  }

  /** The result of the visit of i. */
  ghost predicate Found(g: Graph, reach: Relation, s: Walk, t: Walk, i: nat) {
    Discovered(g, s, t, i) && Later(s, t) && Ordered(g, reach, s, t, i)
  }

  /** One of the first m edges of i leads on to v, and not back to i. */
  ghost predicate FromEdges(g: Graph, i: nat, m: nat, v: nat) {
    exists e: nat :: e < m && i < |g| && e < |g[i]| && Avoids(g, i, g[i][e].dest, v)
  }

  /** What has been visited comes from the first m edges of i. */
  ghost predicate Below(g: Graph, s: Walk, t: Walk, i: nat, m: nat) {
    forall v: nat :: NewIn(s, t, v) && v != i ==> FromEdges(g, i, m, v)
  }

  /** The first k edges of i are in order with all others. */
  ghost predicate OwnOrder(g: Graph, reach: Relation, s: Walk, t: Walk, i: nat, k: nat) {
    forall j: nat, l: nat :: j < k && Apart(g, reach, i, j, l) && Untouched(g, s, i, g[i][l].dest) ==>
      Numbered(t, g[i][j].dest, g[i][l].dest)
  }

  /** The visit of i is under way: m edges are followed, and k dealt with. */
  ghost predicate Tracking(g: Graph, reach: Relation, s: Walk, t: Walk, i: nat, m: nat, k: nat) {
    && NewIn(s, t, i) && Discovered(g, s, t, i) && Later(s, t)
    && (forall x: nat :: NewIn(s, t, x) && x != i ==> OrderedAt(g, reach, s, t, i, x))
    && Below(g, s, t, i, m) && OwnOrder(g, reach, s, t, i, k)
  }

  /** Nothing else counts. */
  ghost predicate Alike(s: Walk, t: Walk) {
    s.visited == t.visited && s.componentOf == t.componentOf && s.components == t.components
  }

  lemma TrackStart(g: Graph, reach: Relation, n: nat, s: Walk, i: nat)
    requires Ranges(n, s) && n == |g| && i < n && s.White(i)
    ensures Tracking(g, reach, s, Pushed(s, i), i, 0, 0)
  {
    PushedFields(n, s, i);
    forall x: nat | !NewIn(s, Pushed(s, i), x)
      ensures Avoids(g, x, i, i)
    {
      AvoidsSelf(g, x, i);
    }
  }

  lemma NumberedStays(s: Walk, t: Walk, a: nat, b: nat)
    requires Later(s, t) && Numbered(s, a, b) && !s.White(a)
    ensures Numbered(t, a, b)
  {
  }

  /** The visit of the end of edge k has returned. */
  lemma TrackVisit(g: Graph, reach: Relation, n: nat, s0: Walk, s: Walk, t: Walk, i: nat, k: nat)
    requires WellFormed(g) && n == |g| && i < n && k < |g[i]| && Ranges(n, s0) && Ranges(n, s) && Ranges(n, t)
    requires Tracking(g, reach, s0, s, i, k, k) && Found(g, reach, s, t, g[i][k].dest)
    ensures Tracking(g, reach, s0, t, i, k + 1, k)
  {
    hide Avoids, Apart, OrderedAt, Untouched, Numbered;
    VisitDiscovered(g, reach, s0, s, t, i, k);
    VisitOrdered(g, reach, n, s0, s, t, i, k);
    VisitOwn(g, reach, n, s0, s, t, i, k);
  }

  lemma VisitDiscovered(g: Graph, reach: Relation, s0: Walk, s: Walk, t: Walk, i: nat, k: nat)
    requires WellFormed(g) && i < |g| && k < |g[i]|
    requires Tracking(g, reach, s0, s, i, k, k) && Found(g, reach, s, t, g[i][k].dest)
    ensures Discovered(g, s0, t, i) && Later(s0, t) && NewIn(s0, t, i) && Below(g, s0, t, i, k + 1)
  {
    hide Avoids, OrderedAt, Apart;
    var d := g[i][k].dest;
    assert HasEdge(g, i, d);
    forall v: nat, x: nat | NewIn(s0, t, v) && !NewIn(s0, t, x)
      ensures Avoids(g, x, i, v)
    {
      if s.White(v) { AvoidsStep(g, x, i, d, v); }
    }
    forall v: nat | NewIn(s0, t, v) && v != i
      ensures FromEdges(g, i, k + 1, v)
    {
      if s.White(v) {
        assert NewIn(s, t, v) && !NewIn(s, t, i);
        assert Avoids(g, i, g[i][k].dest, v);
      } else {
        assert FromEdges(g, i, k, v);
      }
    }
  }

  lemma VisitOrdered(g: Graph, reach: Relation, n: nat, s0: Walk, s: Walk, t: Walk, i: nat, k: nat)
    requires WellFormed(g) && n == |g| && i < n && k < |g[i]| && Ranges(n, s0) && Ranges(n, s)
    requires Tracking(g, reach, s0, s, i, k, k) && Found(g, reach, s, t, g[i][k].dest)
    ensures forall x: nat :: NewIn(s0, t, x) && x != i ==> OrderedAt(g, reach, s0, t, i, x)
  {
    hide Avoids, Discovered, Below, OwnOrder, Ranges;
    var d := g[i][k].dest;
    assert HasEdge(g, i, d);
    forall x: nat | NewIn(s0, t, x) && x != i
      ensures OrderedAt(g, reach, s0, t, i, x)
    {
      forall j: nat, l: nat | Apart(g, reach, x, j, l) && Untouched(g, s0, x, g[x][l].dest)
          && !Avoids(g, x, i, g[x][l].dest)
        ensures Numbered(t, g[x][j].dest, g[x][l].dest)
      {
        var b := g[x][l].dest;
        if s.White(x) {
          StillUntouched(g, reach, s0, s, i, x, b);
          if Avoids(g, x, d, b) { AvoidsStep(g, x, i, d, b); }
          assert OrderedAt(g, reach, s, t, d, x);
        } else {
          assert OrderedAt(g, reach, s0, s, i, x);
          assert Numbered(s, g[x][j].dest, b);
          NumberedIsVisited(n, s, g[x][j].dest);
          NumberedStays(s, t, g[x][j].dest, b);
        }
      }
    }
  }

  lemma NumberedIsVisited(n: nat, s: Walk, a: nat)
    requires Ranges(n, s) && 0 <= s.Component(a)
    ensures !s.White(a)
  {
  }

  lemma StillUntouched(g: Graph, reach: Relation, s0: Walk, s: Walk, i: nat, x: nat, b: nat)
    requires Discovered(g, s0, s, i) && s.White(x) && Untouched(g, s0, x, b) && !Avoids(g, x, i, b)
    ensures Untouched(g, s, x, b)
  {
    hide Avoids;
    forall w: nat | Avoids(g, x, w, b)
      ensures s.White(w)
    {
      if !s.White(w) {
        assert NewIn(s0, s, w) && !NewIn(s0, s, x);
        AvoidsTrans(g, x, i, w, b);
      }
    }
  }

  lemma VisitOwn(g: Graph, reach: Relation, n: nat, s0: Walk, s: Walk, t: Walk, i: nat, k: nat)
    requires Ranges(n, s) && Tracking(g, reach, s0, s, i, k, k) && Later(s, t)
    ensures OwnOrder(g, reach, s0, t, i, k)
  {
    hide Avoids, Untouched, Discovered, Below, Ranges;
    forall j: nat, l: nat | j < k && Apart(g, reach, i, j, l) && Untouched(g, s0, i, g[i][l].dest)
      ensures Numbered(t, g[i][j].dest, g[i][l].dest)
    {
      assert Numbered(s, g[i][j].dest, g[i][l].dest);
      NumberedIsVisited(n, s, g[i][j].dest);
      NumberedStays(s, t, g[i][j].dest, g[i][l].dest);
    }
  }

  /** No visit was needed. */
  lemma TrackSkip(g: Graph, reach: Relation, s0: Walk, s: Walk, i: nat, k: nat)
    requires Tracking(g, reach, s0, s, i, k, k)
    ensures Tracking(g, reach, s0, s, i, k + 1, k)
  {
    hide Avoids, Apart, Untouched, Discovered, OwnOrder, Later, OrderedAt;
  }

  /** Edge k has been followed, so it has its place among the others. */
  lemma TrackEdge(g: Graph, edges: Relation, reach: Relation, s0: Walk, s: Walk, active: set<nat>, i: nat, k: nat)
    requires Relations(g, edges, reach) && Inv(|g|, edges, reach, s, active + {i}) && i < |g| && k < |g[i]|
    requires forall x: nat :: x in active ==> (x, i) in reach
    requires Tracking(g, reach, s0, s, i, k + 1, k) && !s.White(g[i][k].dest)
    ensures Tracking(g, reach, s0, s, i, k + 1, k + 1)
  {
    hide Avoids, Discovered, Later, OrderedAt, Inv, Relations;
    forall j: nat, l: nat | j < k + 1 && Apart(g, reach, i, j, l) && Untouched(g, s0, i, g[i][l].dest)
      ensures Numbered(s, g[i][j].dest, g[i][l].dest)
    {
      if j == k {
        NotBackIsClosed(g, edges, reach, s, active, i, k);
        RoundIsWhite(g, reach, s0, s, i, k, l);
        WhiteHasNone(|g|, edges, reach, s, active + {i}, g[i][l].dest);
      }
    }
  }

  lemma WhiteHasNone(n: nat, edges: Relation, reach: Relation, s: Walk, active: set<nat>, b: nat)
    requires Inv(n, edges, reach, s, active) && s.White(b)
    ensures s.Component(b) == -1
  {
  }

  lemma RoundIsWhite(g: Graph, reach: Relation, s0: Walk, s: Walk, i: nat, k: nat, l: nat)
    requires Below(g, s0, s, i, k + 1) && Apart(g, reach, i, k, l) && Untouched(g, s0, i, g[i][l].dest)
    requires g[i][l].dest < |g|
    ensures s.White(g[i][l].dest)
  {
    hide Avoids;
    AvoidsSelf(g, i, g[i][l].dest);
    assert !FromEdges(g, i, k + 1, g[i][l].dest);
  }

  /** What does not lead back to i has its component when its visit is over. */
  lemma NotBackIsClosed(g: Graph, edges: Relation, reach: Relation, s: Walk, active: set<nat>, i: nat, k: nat)
    requires Relations(g, edges, reach) && Inv(|g|, edges, reach, s, active + {i}) && i < |g| && k < |g[i]|
    requires forall x: nat :: x in active ==> (x, i) in reach
    requires !s.White(g[i][k].dest) && (g[i][k].dest, i) !in reach
    ensures 0 <= s.Component(g[i][k].dest) < |s.components|
    ensures forall l: nat :: l < |g[i]| ==> g[i][l].dest < |g|
  {
    hide RootsSound, ActiveReach, NoneSkipped, Settled, ListsAgree, StackInOrder;
    var a := g[i][k].dest;
    assert (i, a) in edges && a < |g| && (i, i) in reach;
    if s.Open(a) {
      assert BackFrom(reach, s, active + {i}, a);
      var x: nat :| x in active + {i} && (a, x) in reach;
      Compose(reach, a, x, i);
      assert false;
    }
  }

  lemma TrackAlike(g: Graph, reach: Relation, s0: Walk, s: Walk, t: Walk, i: nat, m: nat, k: nat)
    requires Tracking(g, reach, s0, s, i, m, k) && Alike(s, t)
    ensures Tracking(g, reach, s0, t, i, m, k)
  {
    hide Avoids, Apart, Untouched;
    assert forall v: nat :: s.White(v) == t.White(v) && s.Component(v) == t.Component(v);
    assert forall a: nat, b: nat :: Numbered(s, a, b) == Numbered(t, a, b);
    assert forall v: nat :: NewIn(s0, s, v) == NewIn(s0, t, v);
  }

  /** All edges of i are dealt with, and it is left open. */
  lemma TrackOver(g: Graph, reach: Relation, s0: Walk, s: Walk, i: nat)
    requires i < |g| && Tracking(g, reach, s0, s, i, |g[i]|, |g[i]|)
    ensures Found(g, reach, s0, s, i)
  {
    hide Avoids, Discovered, Later, Below;
    assert OrderedAt(g, reach, s0, s, i, i);
  }

  /** All edges of i are dealt with, and it is the root of a component. */
  lemma TrackPop(g: Graph, reach: Relation, n: nat, s0: Walk, s: Walk, t: Walk, taken: seq<nat>, i: nat)
    requires n == |g| && i < n && Tracking(g, reach, s0, s, i, |g[i]|, |g[i]|)
    requires Ranges(n, s) && StackInOrder(s)
    requires PartlyPopped(n, s, t.(components := s.components), taken, |s.components|)
    requires |t.components| == |s.components| + 1 && Extends(s0, t)
    ensures Found(g, reach, s0, t, i)
  {
    hide Avoids, Below, Apart, Untouched;
    var c := |s.components|;
    forall v: nat
      ensures s.White(v) == t.White(v)
      ensures t.Component(v) == s.Component(v) || (t.Component(v) == c && s.Component(v) < 0)
    {
      if v < n && v in taken { assert v in s.stack; }
    }
    TrackOver(g, reach, s0, s, i);
    forall x: nat | NewIn(s0, t, x)
      ensures OrderedAt(g, reach, s0, t, i, x)
    {
      OrderedPopped(g, reach, s0, s, t, i, x);
    }
  }

  lemma OrderedPopped(g: Graph, reach: Relation, s0: Walk, s: Walk, t: Walk, i: nat, x: nat)
    requires |t.components| == |s.components| + 1 && OrderedAt(g, reach, s0, s, i, x)
    requires forall v: nat ::
      t.Component(v) == s.Component(v) || (t.Component(v) == |s.components| && s.Component(v) < 0)
    ensures OrderedAt(g, reach, s0, t, i, x)
  {
    hide Avoids, Untouched;
    forall j: nat, k: nat |
        Apart(g, reach, x, j, k) && Untouched(g, s0, x, g[x][k].dest) && !Avoids(g, x, i, g[x][k].dest)
      ensures Numbered(t, g[x][j].dest, g[x][k].dest)
    {
      assert Numbered(s, g[x][j].dest, g[x][k].dest);
    }
  }

  /** The same, from what the visit knows then. */
  lemma TrackClosed(g: Graph, edges: Relation, reach: Relation, s0: Walk, s: Walk, t: Walk, taken: seq<nat>,
      active: set<nat>, i: nat)
    requires i < |g| && Tracking(g, reach, s0, s, i, |g[i]|, |g[i]|) && Inv(|g|, edges, reach, s, active + {i})
    requires PartlyPopped(|g|, s, t.(components := s.components), taken, |s.components|)
    requires |t.components| == |s.components| + 1 && Visited(edges, s0, t, i, Dests(g[i]))
    ensures Found(g, reach, s0, t, i)
  {
    hide Tracking, Found, PartlyPopped, Inv;
    InvShape(|g|, edges, reach, s, active + {i});
    TrackPop(g, reach, |g|, s0, s, t, taken, i);
  }

  /** The end of edge k has been visited, now or before. */
  lemma TrackNext(g: Graph, edges: Relation, reach: Relation, s0: Walk, s: Walk, t: Walk, active: set<nat>, i: nat,
      k: nat)
    requires Relations(g, edges, reach) && i < |g| && k < |g[i]| && Tracking(g, reach, s0, s, i, k, k)
    requires Inv(|g|, edges, reach, s0, active) && Inv(|g|, edges, reach, s, active + {i})
    requires Inv(|g|, edges, reach, t, active + {i})
    requires forall x: nat :: x in active ==> (x, i) in reach
    requires s == t || Found(g, reach, s, t, g[i][k].dest)
    requires !t.White(g[i][k].dest)
    ensures Tracking(g, reach, s0, t, i, k + 1, k + 1)
  {
    hide Tracking, Found, Relations, Inv;
    InvShape(|g|, edges, reach, s0, active);
    InvShape(|g|, edges, reach, s, active + {i});
    InvShape(|g|, edges, reach, t, active + {i});
    if s == t {
      TrackSkip(g, reach, s0, s, i, k);
    } else {
      assert WellFormed(g) by { RelationsWellFormed(g, edges, reach); }
      TrackVisit(g, reach, |g|, s0, s, t, i, k);
    }
    TrackEdge(g, edges, reach, s0, t, active, i, k);
  }

  lemma RelationsWellFormed(g: Graph, edges: Relation, reach: Relation)
    requires Relations(g, edges, reach)
    ensures WellFormed(g)
  {
  }

  // ----- all walks

  /** What has been visited comes from a lower vertex, by way of visited ones. */
  ghost predicate Swept(g: Graph, s: Walk, i: nat) {
    forall v: nat, x: nat :: v < |g| && !s.White(v) && s.White(x) ==> SweptFrom(g, i, v, x)
  }

  ghost predicate SweptFrom(g: Graph, i: nat, v: nat, x: nat) {
    exists w: nat :: w < i && Avoids(g, x, w, v)
  }

  ghost predicate LowerSoFar(g: Graph, s: Walk) {
    forall u: nat, v: nat :: (!s.White(u) && u < v < |g| && forall w: nat :: w <= u ==> !Reach(g, w, v)) ==>
      Numbered(s, u, v)
  }

  ghost predicate EdgesSoFar(g: Graph, s: Walk) {
    forall x: nat, j: nat, k: nat ::
      (!s.White(x) && Apart(g, ReachRelation(g), x, j, k) && EnteredFirst(g, x, g[x][k].dest)) ==>
        Numbered(s, g[x][j].dest, g[x][k].dest)
  }

  /** Vertices below i have been walked from. */
  ghost predicate Walked(g: Graph, s: Walk, i: nat) {
    && (forall v: nat :: v < i ==> !s.White(v))
    && Swept(g, s, i) && LowerSoFar(g, s) && EdgesSoFar(g, s)
  }

  lemma {:induction false} VisitedIsClosed(g: Graph, s: Walk, u: nat, v: nat)
    requires Relations(g, EdgeRelation(g), ReachRelation(g)) && s.Sized(|g|)
    requires NoneSkipped(EdgeRelation(g), s, {}) && u < |g| && !s.White(u) && Reach(g, u, v)
    ensures v < |g| && !s.White(v)
  {
    hide Reach;
    var visited := set x: nat | x < |g| && !s.White(x);
    forall x: nat, y: nat | x in visited && HasEdge(g, x, y)
      ensures y in visited
    {
      EdgeRelationIsHasEdge(g, x, y);
    }
    ClosedUnderReach(g, visited, u, v);
  }

  lemma NoneWalked(g: Graph, s: Walk)
    requires forall v: nat :: v < |g| ==> s.White(v)
    requires s.Sized(|g|)
    ensures Walked(g, s, 0)
  {
    hide Avoids, Reach;
  }

  lemma WalkNotNeeded(g: Graph, s: Walk, i: nat)
    requires Walked(g, s, i) && !s.White(i)
    ensures Walked(g, s, i + 1)
  {
    hide Avoids, Reach, LowerSoFar, EdgesSoFar;
    forall v: nat, x: nat | v < |g| && !s.White(v) && s.White(x)
      ensures SweptFrom(g, i + 1, v, x)
    {
      assert SweptFrom(g, i, v, x);
    }
  }

  /** Two moments between walks that differ in nothing that counts. */
  lemma WalkedAlike(g: Graph, s: Walk, t: Walk, i: nat)
    requires Walked(g, s, i) && Alike(s, t)
    ensures Walked(g, t, i)
  {
    hide Avoids, Reach, Apart, EnteredFirst, SweptFrom;
    assert forall v: nat :: s.White(v) == t.White(v) && s.Component(v) == t.Component(v);
    assert forall a: nat, b: nat :: Numbered(s, a, b) == Numbered(t, a, b);
  }

  /** The walk from i is over. */
  lemma WalkOver(g: Graph, s: Walk, t: Walk, i: nat)
    requires Relations(g, EdgeRelation(g), ReachRelation(g)) && i < |g| && s.White(i) && Walked(g, s, i)
    requires Inv(|g|, EdgeRelation(g), ReachRelation(g), s, {}) && Inv(|g|, EdgeRelation(g), ReachRelation(g), t, {})
    requires Found(g, ReachRelation(g), s, t, i) && !t.White(i)
    ensures Walked(g, t, i + 1)
  {
    hide Avoids, Reach, Relations, Ordered, Apart, EnteredFirst, Swept, LowerSoFar, EdgesSoFar, Settled, ListsAgree,
      RootsSound;
    NothingOpen(|g|, EdgeRelation(g), ReachRelation(g), s);
    NothingOpen(|g|, EdgeRelation(g), ReachRelation(g), t);
    WalkSwept(g, s, t, i);
    WalkLower(g, s, t, i);
    WalkEdges(g, s, t, i);
  }

  lemma WalkSwept(g: Graph, s: Walk, t: Walk, i: nat)
    requires Swept(g, s, i) && Discovered(g, s, t, i) && Later(s, t)
    ensures Swept(g, t, i + 1)
  {
    hide Avoids;
    forall v: nat, x: nat | v < |g| && !t.White(v) && t.White(x)
      ensures SweptFrom(g, i + 1, v, x)
    {
      if s.White(v) {
        assert NewIn(s, t, v) && !NewIn(s, t, x);
      } else {
        assert SweptFrom(g, i, v, x);
      }
    }
  }

  /** Everything visited by the end of the walk from i is reached from i or below. */
  lemma Source(g: Graph, s: Walk, t: Walk, i: nat, v: nat) returns (w: nat)
    requires Swept(g, s, i) && Discovered(g, s, t, i) && s.White(i) && v < |g| && !t.White(v) && s.Sized(|g|)
    ensures w <= i && Reach(g, w, v)
  {
    hide Avoids, Reach;
    if s.White(v) {
      w := i;
      assert !NewIn(s, t, |g|);
      AvoidsReaches(g, |g|, i, v);
    } else {
      assert SweptFrom(g, i, v, i);
      w :| w < i && Avoids(g, i, w, v);
      AvoidsReaches(g, i, w, v);
    }
  }

  lemma WalkLower(g: Graph, s: Walk, t: Walk, i: nat)
    requires Walked(g, s, i) && s.White(i) && s.Sized(|g|) && Discovered(g, s, t, i) && Later(s, t)
    requires Ranges(|g|, s) && forall v: nat :: v < |g| && !s.White(v) ==> 0 <= s.Component(v)
    requires Ranges(|g|, t) && forall v: nat :: v < |g| && !t.White(v) ==> 0 <= t.Component(v)
    ensures LowerSoFar(g, t)
  {
    hide Avoids, Reach, EdgesSoFar, Swept, Discovered;
    forall u: nat, v: nat | !t.White(u) && u < v < |g| && forall w: nat :: w <= u ==> !Reach(g, w, v)
      ensures Numbered(t, u, v)
    {
      if !t.White(v) && s.White(u) {
        var w := Source(g, s, t, i, v);
        assert false;
      }
      if !s.White(u) { assert Numbered(s, u, v); }
    }
  }

  /** Before x is visited nothing that gets to b without x has been, nor is it now. */
  lemma EnteredUntouched(g: Graph, s: Walk, i: nat, x: nat, b: nat)
    requires Relations(g, EdgeRelation(g), ReachRelation(g)) && NoneSkipped(EdgeRelation(g), s, {}) && s.Sized(|g|)
    requires Walked(g, s, i) && s.White(x) && i < |g| && EnteredFirst(g, x, b)
    ensures Untouched(g, s, x, b) && !Avoids(g, x, i, b)
  {
    hide Avoids, Reach, Relations, LowerSoFar, EdgesSoFar, NoneSkipped, ReachRelation, EdgeRelation;
    var r: nat :| Reach(g, r, x) && forall w: nat :: Avoids(g, x, w, b) ==> r < w;
    if r < i { VisitedIsClosed(g, s, r, x); }
    forall w: nat | Avoids(g, x, w, b)
      ensures s.White(w)
    {
      AvoidsInGraph(g, x, w, b);
      if !s.White(w) {
        assert SweptFrom(g, i, w, x);
        var y: nat :| y < i && Avoids(g, x, y, w);
        AvoidsTrans(g, x, y, w, b);
      }
    }
  }

  lemma WalkEdges(g: Graph, s: Walk, t: Walk, i: nat)
    requires Relations(g, EdgeRelation(g), ReachRelation(g)) && i < |g| && Walked(g, s, i) && s.White(i)
    requires NoneSkipped(EdgeRelation(g), s, {}) && Ranges(|g|, s)
    requires Ordered(g, ReachRelation(g), s, t, i) && Later(s, t)
    ensures EdgesSoFar(g, t)
  {
    hide Avoids, Reach, Relations, LowerSoFar, Untouched, EnteredFirst, Swept, NoneSkipped, ReachRelation, EdgeRelation;
    forall x: nat, j: nat, k: nat |
        !t.White(x) && Apart(g, ReachRelation(g), x, j, k) && EnteredFirst(g, x, g[x][k].dest)
      ensures Numbered(t, g[x][j].dest, g[x][k].dest)
    {
      var a, b := g[x][j].dest, g[x][k].dest;
      if s.White(x) {
        EnteredUntouched(g, s, i, x, b);
        assert OrderedAt(g, ReachRelation(g), s, t, i, x);
      } else {
        assert Numbered(s, a, b);
        NumberedIsVisited(|g|, s, a);
        NumberedStays(s, t, a, b);
      }
    }
  }

  /** When all vertices have been visited the order is complete. */
  lemma WalkedIsInOrder(g: Graph, s: Walk)
    requires WellFormed(g) && s.Sized(|g|) && Walked(g, s, |g|) && forall v: nat :: v < |g| ==> 0 <= s.Component(v)
    ensures InDiscoveryOrder(g, s.componentOf)
  {
    hide Avoids, Reach, EnteredFirst, Swept, ReachRelation;
    assert forall v: nat :: v < |g| ==> s.Component(v) == s.componentOf[v];
    forall u: nat, v: nat | u < v < |g| && forall w: nat :: w <= u ==> !Reach(g, w, v)
      ensures s.componentOf[u] < s.componentOf[v]
    {
      assert Numbered(s, u, v);
    }
    forall x: nat, j: nat, k: nat | Apart(g, ReachRelation(g), x, j, k) && EnteredFirst(g, x, g[x][k].dest)
      ensures s.componentOf[g[x][j].dest] < s.componentOf[g[x][k].dest]
    {
      assert Numbered(s, g[x][j].dest, g[x][k].dest);
    }
  }
}
