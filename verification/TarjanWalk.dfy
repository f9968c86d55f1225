/** The invariant of the depth-first walks of Tarjan's algorithm, and the proof
    that every step of a walk keeps it. */
module TarjanWalk {
  import opened Graphs
  import opened Sorting

  /** Per vertex: the best root found so far and the order of the first visit. */
  datatype TarjanEntry = TarjanEntry(root: nat, visitIndex: nat)

  /** A snapshot of the fields the depth-first walks update. */
  datatype Walk = Walk(
    visited: seq<nat>,           // walk that first reached the vertex, 0 for none
    componentOf: seq<int>,       // component of the vertex, -1 for none
    entries: seq<TarjanEntry>,
    components: seq<seq<nat>>,   // members of each component found so far
    stack: seq<nat>,
    walkId: nat,
    index: nat)
  {
    /** The vertex was reached by this walk and has no component yet. */
    ghost predicate Open(v: nat) {
      v < |visited| && v < |componentOf| && visited[v] == walkId && componentOf[v] < 0
    }

    ghost predicate Sized(n: nat) {
      |visited| == n && |componentOf| == n && |entries| == n
    }

    ghost predicate White(v: nat) {
      v < |visited| && visited[v] == 0
    }

    ghost function Whites(): set<nat> {
      set v: nat | v < |visited| && White(v)
    }

    ghost function Index(v: nat): int {
      if v < |entries| then entries[v].visitIndex else 0
    }

    ghost function Root(v: nat): nat {
      if v < |entries| then entries[v].root else 0
    }

    ghost function Component(v: nat): int {
      if v < |componentOf| then componentOf[v] else -1
    }
  }

  // ----- the graph seen as two relations

  type Relation = set<(nat, nat)>

  /** Destinations of a list of edges. */
  ghost function Dests(es: seq<Edge>): set<nat> {
    set k | 0 <= k < |es| :: es[k].dest
  }

  ghost predicate Transitive(reach: Relation) {
    forall u: nat, v: nat, w: nat :: (u, v) in reach && (v, w) in reach ==> (u, w) in reach
  }

  /** The edges of the graph as a relation, and a preorder that contains them.
      The proofs about single steps use no more than this. */
  ghost predicate Relations(g: Graph, edges: Relation, reach: Relation) {
    && WellFormed(g)
    && (forall u: nat, v: nat :: (u, v) in edges <==> u < |g| && v in Dests(g[u]))
    && (forall u: nat, v: nat :: (u, v) in edges ==> v < |g|)
    && edges <= reach
    && (forall u: nat :: u < |g| ==> (u, u) in reach)
    && Transitive(reach)
  }

  // ----- the invariant of the walks, one clause group at a time

  /** Field sizes and ranges. */
  ghost predicate Ranges(n: nat, s: Walk) {
    && s.Sized(n)
    && 0 < s.walkId
    && forall v: nat :: v < n ==>
         && s.visited[v] <= s.walkId
         && -1 <= s.Component(v) < |s.components|
         && (s.White(v) ==> s.Component(v) == -1)
         && (0 < s.visited[v] < s.walkId ==> 0 <= s.Component(v))
  }

  /** The stack lists the open vertices in the order they were reached. */
  ghost predicate StackInOrder(s: Walk) {
    && (forall a :: 0 <= a < |s.stack| ==> s.Open(s.stack[a]) && 0 < s.Index(s.stack[a]) <= s.index)
    && (forall a, b :: 0 <= a < b < |s.stack| ==> s.Index(s.stack[a]) < s.Index(s.stack[b]))
    && (forall v: nat :: s.Open(v) ==> v in s.stack)
  }

  /** Each recorded root is open, no later than its vertex, and reachable from it. */
  ghost predicate RootsSound(reach: Relation, s: Walk) {
    forall v: nat {:trigger s.Root(v)} :: s.Open(v) ==>
      s.Open(s.Root(v)) && s.Index(s.Root(v)) <= s.Index(v) && (v, s.Root(v)) in reach
  }

  /** Vertices whose visit is under way reach every open vertex found after them. */
  ghost predicate ActiveReach(reach: Relation, s: Walk, active: set<nat>) {
    && (forall x: nat :: x in active ==> s.Open(x))
    && (forall x: nat, y: nat :: x in active && s.Open(y) && s.Index(x) <= s.Index(y) ==> (x, y) in reach)
  }

  /** Every open vertex leads back to one whose visit is under way. */
  ghost predicate LeadsBack(reach: Relation, s: Walk, active: set<nat>) {
    forall y: nat {:trigger BackFrom(reach, s, active, y)} :: s.Open(y) ==> BackFrom(reach, s, active, y)
  }

  ghost predicate BackFrom(reach: Relation, s: Walk, active: set<nat>, y: nat) {
    exists x: nat :: x in active && s.Index(x) <= s.Index(y) && (y, x) in reach
  }

  /** A finished visit leaves no unvisited successor. */
  ghost predicate NoneSkipped(edges: Relation, s: Walk, active: set<nat>) {
    forall v: nat, w: nat :: (v, w) in edges && !s.White(v) && v !in active ==> !s.White(w)
  }

  /** Edges out of a finished component stay in it or enter an earlier one, and
      its members reach each other. */
  ghost predicate Settled(edges: Relation, reach: Relation, s: Walk) {
    && (forall v: nat, w: nat :: (v, w) in edges && 0 <= s.Component(v) ==> 0 <= s.Component(w) <= s.Component(v))
    && (forall u: nat, v: nat :: 0 <= s.Component(u) == s.Component(v) ==> (u, v) in reach)
  }

  /** The member lists and the component map agree. */
  ghost predicate ListsAgree(s: Walk) {
    forall c :: 0 <= c < |s.components| ==>
      && s.components[c] != []
      && StrictlySorted(s.components[c])
      && forall v: nat :: v in s.components[c] <==> s.Component(v) == c
  }

  ghost predicate Inv(n: nat, edges: Relation, reach: Relation, s: Walk, active: set<nat>) {
    && Ranges(n, s)
    && StackInOrder(s)
    && RootsSound(reach, s)
    && ActiveReach(reach, s, active)
    && LeadsBack(reach, s, active)
    && NoneSkipped(edges, s, active)
    && Settled(edges, reach, s)
    && ListsAgree(s)
  }

  /** What a visit leaves as it was: everything about vertices already visited,
      and the stack below them. */
  ghost predicate Extends(s: Walk, t: Walk) {
    && t.Sized(|s.visited|) && s.Sized(|s.visited|)
    && t.walkId == s.walkId
    && s.index <= t.index
    && s.stack <= t.stack
    && |s.components| <= |t.components|
    && (forall v: nat :: v < |s.visited| && !s.White(v) ==>
          t.visited[v] == s.visited[v] && t.entries[v] == s.entries[v] && t.Component(v) == s.Component(v))
    && (forall v: nat :: s.White(v) && t.Open(v) ==> s.index < t.Index(v))
  }

  /** No edge leaves i or a later open vertex for an open vertex earlier than i
      whose index is below the bound. Of the edges of i itself only those to
      vertices in done count. */
  ghost predicate LowBound(edges: Relation, s: Walk, i: nat, done: set<nat>, bound: int) {
    forall y: nat, w: nat ::
      && (y, w) in edges
      && s.Open(y) && s.Index(i) <= s.Index(y)
      && s.Open(w) && s.Index(w) < s.Index(i)
      && (y == i ==> w in done)
      ==> bound <= s.Index(w)
  }

  /** The recorded root of i is as early as any vertex those edges lead back to. */
  ghost predicate LowLink(edges: Relation, s: Walk, i: nat, done: set<nat>) {
    LowBound(edges, s, i, done, s.Index(s.Root(i)))
  }

  // ----- first step of a visit

  function Pushed(s: Walk, i: nat): Walk
    requires s.Sized(|s.visited|) && i < |s.visited|
  {
    s.(visited := s.visited[i := s.walkId],
       componentOf := s.componentOf[i := -1],
       entries := s.entries[i := TarjanEntry(i, s.index + 1)],
       stack := s.stack + [i],
       index := s.index + 1)
  }

  /** Pushing i changes nothing about any other vertex. */
  lemma PushedFields(n: nat, s: Walk, i: nat)
    requires Ranges(n, s) && i < n && s.White(i)
    ensures var t := Pushed(s, i);
      && t.Open(i) && t.Index(i) == s.index + 1 && t.Root(i) == i && t.Component(i) == -1 && !t.White(i) && !s.Open(i)
      && (forall v: nat :: v != i ==> t.Open(v) == s.Open(v))
      && (forall v: nat :: v != i ==> t.White(v) == s.White(v))
      && (forall v: nat :: v != i ==> t.Index(v) == s.Index(v))
      && (forall v: nat :: v != i ==> t.Root(v) == s.Root(v))
      && (forall v: nat :: v != i ==> t.Component(v) == s.Component(v))
  {
  }

  lemma PushKeepsStack(n: nat, s: Walk, i: nat)
    requires Ranges(n, s) && StackInOrder(s) && i < n && s.White(i)
    ensures Ranges(n, Pushed(s, i)) && StackInOrder(Pushed(s, i))
    ensures Extends(s, Pushed(s, i))
  {
    PushedFields(n, s, i);
    var t := Pushed(s, i);
    assert i !in s.stack;
    forall v: nat | t.Open(v)
      ensures v in t.stack
    {
      if v == i { assert t.stack[|s.stack|] == i; } else { assert v in s.stack; }
    }
  }

  lemma PushKeepsReach(n: nat, reach: Relation, s: Walk, active: set<nat>, i: nat)
    requires Ranges(n, s) && StackInOrder(s) && i < n && s.White(i)
    requires RootsSound(reach, s) && ActiveReach(reach, s, active)
    requires (i, i) in reach && forall x: nat :: x in active ==> (x, i) in reach
    ensures RootsSound(reach, Pushed(s, i))
    ensures ActiveReach(reach, Pushed(s, i), active + {i})
  {
    PushedFields(n, s, i);
    forall v: nat | s.Open(v)
      ensures v != i && s.Index(v) <= s.index
    {
      assert v in s.stack;
    }
  }

  lemma PushKeepsBack(n: nat, reach: Relation, s: Walk, active: set<nat>, i: nat)
    requires Ranges(n, s) && i < n && s.White(i)
    requires LeadsBack(reach, s, active) && forall x: nat :: x in active ==> s.Open(x)
    requires (i, i) in reach
    ensures LeadsBack(reach, Pushed(s, i), active + {i})
  {
    PushedFields(n, s, i);
    var t := Pushed(s, i);
    forall y: nat | t.Open(y)
      ensures BackFrom(reach, t, active + {i}, y)
    {
      if y == i {
        assert i in active + {i};
      } else {
        assert BackFrom(reach, s, active, y);
        var x: nat :| x in active && s.Index(x) <= s.Index(y) && (y, x) in reach;
        assert x in active + {i} && s.Open(x);
      }
    }
  }

  lemma PushKeepsInv(n: nat, edges: Relation, reach: Relation, s: Walk, active: set<nat>, i: nat)
    requires Inv(n, edges, reach, s, active) && i < n && s.White(i)
    requires (i, i) in reach && forall x: nat :: x in active ==> (x, i) in reach
    ensures Inv(n, edges, reach, Pushed(s, i), active + {i})
    ensures Extends(s, Pushed(s, i))
    ensures LowLink(edges, Pushed(s, i), i, {})
  {
    PushKeepsStack(n, s, i);
    PushKeepsReach(n, reach, s, active, i);
    PushKeepsBack(n, reach, s, active, i);
    PushedFields(n, s, i);
    var t := Pushed(s, i);
    assert forall v: nat :: s.Open(v) ==> v in s.stack && s.Index(v) <= s.index;
  }

  // ----- following one edge

  /** The bound known for j, or nothing when j already has a component. */
  ghost function Better(s: Walk, i: nat, j: nat): int {
    if s.Open(j) && s.Index(s.Root(j)) < s.Index(s.Root(i)) then s.Index(s.Root(j)) else s.Index(s.Root(i))
  }

  /** What the recursive visit of an unvisited j gives its caller. */
  ghost predicate Visited(edges: Relation, s: Walk, t: Walk, j: nat, succ: set<nat>) {
    && Extends(s, t)
    && !t.White(j)
    && (0 <= t.Component(j) ==> t.stack == s.stack)
    && (t.Component(j) < 0 ==> t.Open(j) && t.Index(j) == s.index + 1 && LowLink(edges, t, j, succ))
  }

  lemma OpenBefore(n: nat, s: Walk, t: Walk, v: nat)
    requires Ranges(n, s) && StackInOrder(s) && StackInOrder(t) && Extends(s, t)
    requires t.Open(v) && (t.stack == s.stack || t.Index(v) <= s.index)
    ensures s.Open(v) && t.Index(v) == s.Index(v) && t.Root(v) == s.Root(v)
  {
    if s.White(v) {
      assert v in t.stack;
    }
  }

  lemma OpenAfter(n: nat, s: Walk, t: Walk, v: nat)
    requires Ranges(n, s) && Extends(s, t) && s.Open(v)
    ensures t.Open(v) && t.Index(v) == s.Index(v) && t.Root(v) == s.Root(v)
  {
  }

  lemma LowBoundAcrossVisit(n: nat, edges: Relation, s: Walk, t: Walk, i: nat, j: nat, done: set<nat>, succ: set<nat>)
    requires Ranges(n, s) && StackInOrder(s) && StackInOrder(t) && Visited(edges, s, t, j, succ)
    requires s.Open(i) && s.Open(s.Root(i)) && LowLink(edges, s, i, done)
    requires forall w: nat :: (j, w) in edges ==> w in succ
    ensures LowBound(edges, t, i, done, Better(t, i, j))
  {
    assert i in s.stack;
    OpenAfter(n, s, t, i);
    OpenAfter(n, s, t, s.Root(i));
    forall y: nat, w: nat | (y, w) in edges && t.Open(y) && t.Index(i) <= t.Index(y) && t.Open(w) &&
           t.Index(w) < t.Index(i) && (y == i ==> w in done)
      ensures Better(t, i, j) <= t.Index(w)
    {
      OpenBefore(n, s, t, w);
      if t.stack == s.stack || t.Index(y) <= s.index {
        OpenBefore(n, s, t, y);
      } else {
        assert t.Index(j) <= t.Index(y);
      }
    }
  }

  /** Taking the edge to j into account needs no more than the better bound. */
  lemma LowBoundWithEdge(edges: Relation, reach: Relation, s: Walk, i: nat, j: nat, done: set<nat>)
    requires RootsSound(reach, s)
    requires LowBound(edges, s, i, done, Better(s, i, j))
    ensures LowBound(edges, s, i, done + {j}, Better(s, i, j))
  {
    assert s.Open(j) ==> s.Index(s.Root(j)) <= s.Index(j);
  }

  function WithRoot(s: Walk, i: nat, r: nat): Walk
    requires i < |s.entries|
  {
    s.(entries := s.entries[i := TarjanEntry(r, s.entries[i].visitIndex)])
  }

  lemma WithRootFields(s: Walk, i: nat, r: nat)
    requires i < |s.entries|
    ensures var t := WithRoot(s, i, r);
      && t.Root(i) == r
      && (forall v: nat :: t.Open(v) == s.Open(v))
      && (forall v: nat :: t.White(v) == s.White(v))
      && (forall v: nat :: t.Index(v) == s.Index(v))
      && (forall v: nat :: v != i ==> t.Root(v) == s.Root(v))
      && (forall v: nat :: t.Component(v) == s.Component(v))
  {
  }

  lemma WithRootSound(reach: Relation, s: Walk, i: nat, r: nat)
    requires i < |s.entries| && RootsSound(reach, s)
    requires s.Open(i) && s.Open(r) && s.Index(r) <= s.Index(i) && (i, r) in reach
    ensures RootsSound(reach, WithRoot(s, i, r))
  {
    WithRootFields(s, i, r);
    var t := WithRoot(s, i, r);
    forall v: nat | t.Open(v)
      ensures t.Open(t.Root(v)) && t.Index(t.Root(v)) <= t.Index(v) && (v, t.Root(v)) in reach
    {
      if v != i { assert s.Open(s.Root(v)); }
    }
  }

  lemma WithRootBack(reach: Relation, s: Walk, active: set<nat>, i: nat, r: nat)
    requires i < |s.entries| && LeadsBack(reach, s, active)
    ensures LeadsBack(reach, WithRoot(s, i, r), active)
  {
    WithRootFields(s, i, r);
    var t := WithRoot(s, i, r);
    forall y: nat | t.Open(y)
      ensures BackFrom(reach, t, active, y)
    {
      assert BackFrom(reach, s, active, y);
      var x: nat :| x in active && s.Index(x) <= s.Index(y) && (y, x) in reach;
      assert t.Index(x) <= t.Index(y);
    }
  }

  lemma WithRootKeepsInv(n: nat, edges: Relation, reach: Relation, s: Walk, active: set<nat>, i: nat, r: nat)
    requires Inv(n, edges, reach, s, active)
    requires s.Open(i) && s.Open(r) && s.Index(r) <= s.Index(i) && (i, r) in reach
    ensures Inv(n, edges, reach, WithRoot(s, i, r), active)
  {
    WithRootSound(reach, s, i, r);
    WithRootBack(reach, s, active, i, r);
    WithRootFields(s, i, r);
  }

  // ----- completing a component

  /** i and everything opened after it. */
  ghost predicate Member(s: Walk, i: nat, v: nat) {
    s.Open(v) && s.Index(i) <= s.Index(v)
  }

  /** The members leave the stack and form the next component. */
  ghost predicate Popped(n: nat, s: Walk, t: Walk, i: nat) {
    && s.Sized(n) && t.Sized(n)
    && t.visited == s.visited && t.walkId == s.walkId && t.index == s.index
    && t.stack <= s.stack
    && (forall v: nat :: v in t.stack <==> v in s.stack && !Member(s, i, v))
    && |t.components| == |s.components| + 1
    && t.components[..|s.components|] == s.components
    && StrictlySorted(t.components[|s.components|])
    && (forall v: nat :: v in t.components[|s.components|] <==> Member(s, i, v))
    && (forall v: nat :: t.Component(v) == if Member(s, i, v) then |s.components| else s.Component(v))
    && (forall v: nat :: t.Index(v) == s.Index(v))
    && (forall v: nat :: !Member(s, i, v) ==> t.Root(v) == s.Root(v))
  }

  lemma PoppedFields(n: nat, s: Walk, t: Walk, i: nat)
    requires Ranges(n, s) && Popped(n, s, t, i)
    ensures forall v: nat :: t.Open(v) == (s.Open(v) && !Member(s, i, v))
    ensures forall v: nat :: t.White(v) == s.White(v)
  {
    forall v: nat
      ensures t.Open(v) == (s.Open(v) && !Member(s, i, v))
    {
      assert t.Component(v) == if Member(s, i, v) then |s.components| else s.Component(v);
    }
  }

  lemma PopKeepsStack(n: nat, s: Walk, t: Walk, i: nat)
    requires Ranges(n, s) && StackInOrder(s) && s.Open(i) && Popped(n, s, t, i)
    ensures Ranges(n, t) && StackInOrder(t)
  {
    PoppedFields(n, s, t, i);
    forall v: nat | v < n
      ensures -1 <= t.Component(v) < |t.components| && (t.White(v) ==> t.Component(v) == -1)
      ensures (0 < t.visited[v] < t.walkId ==> 0 <= t.Component(v))
    {
      assert -1 <= s.Component(v) < |s.components|;
      assert t.Component(v) == if Member(s, i, v) then |s.components| else s.Component(v);
    }
    forall a | 0 <= a < |t.stack|
      ensures t.Open(t.stack[a])
    {
      assert t.stack[a] == s.stack[a];
      assert t.stack[a] in t.stack;
    }
  }

  lemma PopKeepsReach(n: nat, reach: Relation, s: Walk, t: Walk, active: set<nat>, i: nat)
    requires Ranges(n, s) && Popped(n, s, t, i)
    requires RootsSound(reach, s) && ActiveReach(reach, s, active + {i}) && LeadsBack(reach, s, active + {i})
    requires i !in active && forall x: nat :: x in active ==> s.Index(x) < s.Index(i)
    ensures RootsSound(reach, t) && ActiveReach(reach, t, active) && LeadsBack(reach, t, active)
  {
    PoppedFields(n, s, t, i);
    forall v: nat | t.Open(v)
      ensures t.Open(t.Root(v)) && t.Index(t.Root(v)) <= t.Index(v) && (v, t.Root(v)) in reach
    {
      assert t.Root(v) == s.Root(v);
    }
    forall x: nat | x in active
      ensures t.Open(x)
    {
      assert x in active + {i};
    }
    forall y: nat | t.Open(y)
      ensures BackFrom(reach, t, active, y)
    {
      assert BackFrom(reach, s, active + {i}, y);
      var x: nat :| x in active + {i} && s.Index(x) <= s.Index(y) && (y, x) in reach;
      assert t.Index(x) <= t.Index(y);
    }
  }

  lemma MembersReachEachOther(reach: Relation, s: Walk, active: set<nat>, i: nat, u: nat, v: nat)
    requires ActiveReach(reach, s, active + {i}) && LeadsBack(reach, s, active + {i})
    requires s.Open(i) && forall x: nat :: x in active ==> s.Index(x) < s.Index(i)
    requires Member(s, i, u) && Member(s, i, v)
    requires forall x: nat :: (u, x) in reach && (x, i) in reach ==> (u, i) in reach
    requires (u, i) in reach && (i, v) in reach ==> (u, v) in reach
    ensures (u, v) in reach
  {
    assert BackFrom(reach, s, active + {i}, u);
    var x: nat :| x in active + {i} && s.Index(x) <= s.Index(u) && (u, x) in reach;
    assert (x, i) in reach;
  }

  /** The component is closed towards everything not yet assigned. */
  lemma MemberEdges(n: nat, edges: Relation, reach: Relation, s: Walk, active: set<nat>, i: nat, succ: set<nat>,
      v: nat, w: nat)
    requires Ranges(n, s)
    requires NoneSkipped(edges, s, active + {i})
    requires forall x: nat :: x in active ==> s.Index(x) < s.Index(i)
    requires forall x: nat :: (i, x) in edges ==> x in succ && x < n && !s.White(x)
    requires forall x: nat, y: nat :: (x, y) in edges ==> y < n
    requires s.Root(i) == i && LowLink(edges, s, i, succ)
    requires Member(s, i, v) && (v, w) in edges
    ensures Member(s, i, w) || 0 <= s.Component(w)
  {
    assert v !in active;
    if s.Open(w) {
      assert s.Index(i) <= s.Index(w);
    }
  }

  lemma PopKeepsSettled(n: nat, edges: Relation, reach: Relation, s: Walk, t: Walk, active: set<nat>, i: nat,
      succ: set<nat>)
    requires Ranges(n, s) && Popped(n, s, t, i) && Settled(edges, reach, s)
    requires NoneSkipped(edges, s, active + {i})
    requires ActiveReach(reach, s, active + {i}) && LeadsBack(reach, s, active + {i})
    requires s.Open(i) && forall x: nat :: x in active ==> s.Index(x) < s.Index(i)
    requires forall x: nat :: (i, x) in edges ==> x in succ && x < n && !s.White(x)
    requires forall x: nat, y: nat :: (x, y) in edges ==> y < n
    requires s.Root(i) == i && LowLink(edges, s, i, succ)
    requires Transitive(reach)
    ensures Settled(edges, reach, t)
  {
    forall v: nat, w: nat | (v, w) in edges && 0 <= t.Component(v)
      ensures 0 <= t.Component(w) <= t.Component(v)
    {
      if Member(s, i, v) {
        MemberEdges(n, edges, reach, s, active, i, succ, v, w);
      }
    }
    forall u: nat, v: nat | 0 <= t.Component(u) == t.Component(v)
      ensures (u, v) in reach
    {
      if Member(s, i, u) || Member(s, i, v) {
        assert Member(s, i, u) && Member(s, i, v);
        MembersReachEachOther(reach, s, active, i, u, v);
      }
    }
  }

  lemma PopKeepsLists(n: nat, s: Walk, t: Walk, i: nat)
    requires Ranges(n, s) && ListsAgree(s) && s.Open(i) && Popped(n, s, t, i)
    ensures ListsAgree(t)
  {
    forall c | 0 <= c < |t.components|
      ensures t.components[c] != [] && StrictlySorted(t.components[c])
      ensures forall v: nat :: v in t.components[c] <==> t.Component(v) == c
    {
      if c < |s.components| {
        assert t.components[c] == s.components[c];
      } else {
        assert i in t.components[c];
      }
    }
  }

  lemma PopKeepsInv(n: nat, edges: Relation, reach: Relation, s: Walk, t: Walk, active: set<nat>, i: nat,
      succ: set<nat>)
    requires Inv(n, edges, reach, s, active + {i}) && Popped(n, s, t, i)
    requires i !in active && forall x: nat :: x in active ==> s.Index(x) < s.Index(i)
    requires forall x: nat :: (i, x) in edges ==> x in succ && x < n && !s.White(x)
    requires forall x: nat, y: nat :: (x, y) in edges ==> y < n
    requires s.Root(i) == i && LowLink(edges, s, i, succ)
    requires Transitive(reach)
    ensures Inv(n, edges, reach, t, active)
  {
    assert i in active + {i};
    PopKeepsStack(n, s, t, i);
    PopKeepsReach(n, reach, s, t, active, i);
    PopKeepsSettled(n, edges, reach, s, t, active, i, succ);
    PopKeepsLists(n, s, t, i);
    PoppedFields(n, s, t, i);
  }

  lemma Compose(reach: Relation, u: nat, v: nat, w: nat)
    requires Transitive(reach) && (u, v) in reach && (v, w) in reach
    ensures (u, w) in reach
  {
  }

  /** Everything that led back to i leads on through the root r of i to z. */
  lemma LeaveBack(reach: Relation, s: Walk, active: set<nat>, i: nat, r: nat, z: nat, y: nat)
    requires BackFrom(reach, s, active + {i}, y)
    requires z in active && s.Index(z) <= s.Index(r) < s.Index(i)
    requires (y, i) in reach ==> (y, z) in reach
    ensures BackFrom(reach, s, active, y)
  {
    var x: nat :| x in active + {i} && s.Index(x) <= s.Index(y) && (y, x) in reach;
    if x == i {
      assert s.Index(z) <= s.Index(y) && (y, z) in reach;
    } else {
      assert x in active;
    }
  }

  /** A visit that found an earlier root leaves its vertices open. */
  lemma LeaveKeepsInv(n: nat, edges: Relation, reach: Relation, s: Walk, active: set<nat>, i: nat)
    requires Inv(n, edges, reach, s, active + {i})
    requires i !in active && s.Root(i) != i
    requires forall x: nat :: (i, x) in edges ==> !s.White(x)
    requires Transitive(reach)
    ensures Inv(n, edges, reach, s, active)
  {
    assert i in active + {i};
    var r := s.Root(i);
    assert s.Open(r) && s.Index(r) < s.Index(i) && (i, r) in reach by {
      assert r in s.stack && i in s.stack;
    }
    assert BackFrom(reach, s, active + {i}, r);
    var z: nat :| z in active + {i} && s.Index(z) <= s.Index(r) && (r, z) in reach;
    Compose(reach, i, r, z);
    assert LeadsBack(reach, s, active) by {
      forall y: nat | s.Open(y)
        ensures BackFrom(reach, s, active, y)
      {
        if (y, i) in reach { Compose(reach, y, i, z); }
        assert BackFrom(reach, s, active + {i}, y);
        LeaveBack(reach, s, active, i, r, z, y);
      }
    }
    forall x: nat | x in active
      ensures s.Open(x)
    {
      assert x in active + {i};
    }
  }

  // ----- frames

  lemma ExtendsTrans(n: nat, s: Walk, t: Walk, w: Walk)
    requires Ranges(n, s) && Ranges(n, t) && Extends(s, t) && Extends(t, w)
    ensures Extends(s, w)
  {
    forall v: nat | s.White(v) && w.Open(v)
      ensures s.index < w.Index(v)
    {
      if !t.White(v) { assert t.Open(v); }
    }
  }

  lemma PopExtends(n: nat, s0: Walk, s: Walk, t: Walk, i: nat)
    requires Ranges(n, s0) && Ranges(n, s) && StackInOrder(s0) && Extends(s0, s) && Popped(n, s, t, i)
    requires s.Index(i) == s0.index + 1 && t.stack == s0.stack
    requires forall v: nat :: v < n && !Member(s, i, v) ==> t.entries[v] == s.entries[v]
    ensures Extends(s0, t)
  {
    PoppedFields(n, s, t, i);
    forall v: nat | v < n && !s0.White(v)
      ensures !Member(s, i, v)
    {
      if s.Open(v) {
        assert s0.Open(v);
        assert v in s0.stack;
      }
    }
    forall v: nat | s0.White(v) && t.Open(v)
      ensures s0.index < t.Index(v)
    {
      assert s.Open(v);
    }
  }

  /** The members of the component of i are the stack from i up. */
  lemma MembersAreTop(s: Walk, i: nat, m: nat)
    requires StackInOrder(s) && m < |s.stack| && s.stack[m] == i
    ensures forall v: nat :: Member(s, i, v) <==> v in s.stack[m..]
    ensures Distinct(s.stack)
  {
    forall v: nat
      ensures Member(s, i, v) <==> v in s.stack[m..]
    {
      forall b | 0 <= b < m
        ensures s.Index(s.stack[b]) < s.Index(i)
      {
      }
      if Member(s, i, v) {
        var a :| 0 <= a < |s.stack| && s.stack[a] == v;
        assert s.stack[m..][a - m] == v;
      }
      if v in s.stack[m..] {
        var a :| 0 <= a < |s.stack[m..]| && s.stack[m..][a] == v;
        assert v == s.stack[m + a];
      }
    }
  }

  /** One turn of the edge loop, after any recursive visit. */
  lemma EdgeStep(n: nat, edges: Relation, reach: Relation, s: Walk, active: set<nat>, i: nat, j: nat, done: set<nat>)
    requires Inv(n, edges, reach, s, active) && s.Open(i) && j < n && !s.White(j)
    requires (i, j) in reach && Transitive(reach)
    requires LowBound(edges, s, i, done, Better(s, i, j))
    ensures var t := if s.Open(j) && s.Index(s.Root(j)) < s.Index(s.Root(i)) then WithRoot(s, i, s.Root(j)) else s;
      Inv(n, edges, reach, t, active) && LowLink(edges, t, i, done + {j})
  {
    LowBoundWithEdge(edges, reach, s, i, j, done);
    if s.Open(j) && s.Index(s.Root(j)) < s.Index(s.Root(i)) {
      var r := s.Root(j);
      Compose(reach, i, j, r);
      assert s.Index(s.Root(i)) <= s.Index(i);
      WithRootKeepsInv(n, edges, reach, s, active, i, r);
      WithRootFields(s, i, r);
    }
  }

  lemma WithRootUnderVisit(n: nat, s0: Walk, s: Walk, i: nat, r: nat)
    requires Ranges(n, s0) && UnderVisit(s0, s, i) && s0.White(i) && i < n
    ensures UnderVisit(s0, WithRoot(s, i, r), i)
  {
    WithRootFields(s, i, r);
  }

  /** The pop loop part way: t has lost the vertices in taken from the top of the
      stack of s and given them component c. */
  ghost predicate PartlyPopped(n: nat, s: Walk, t: Walk, taken: seq<nat>, c: nat) {
    && s.Sized(n) && t.Sized(n)
    && t == s.(componentOf := t.componentOf, entries := t.entries, stack := t.stack)
    && t.stack <= s.stack
    && (forall v: nat :: v in taken <==> v in s.stack[|t.stack|..])
    && Distinct(taken)
    && (forall v: nat :: v < n ==> t.componentOf[v] == if v in taken then c else s.componentOf[v])
    && (forall v: nat :: v < n ==> t.entries[v].visitIndex == s.entries[v].visitIndex)
    && (forall v: nat :: v < n && v !in taken ==> t.entries[v] == s.entries[v])
  }

  function PoppedTop(t: Walk, i: nat, c: nat): Walk
    requires t.stack != [] && t.stack[|t.stack| - 1] < |t.componentOf| == |t.entries|
  {
    var j := t.stack[|t.stack| - 1];
    t.(componentOf := t.componentOf[j := c],
       entries := t.entries[j := t.entries[j].(root := i)],
       stack := t.stack[..|t.stack| - 1])
  }

  lemma PopStep(n: nat, s: Walk, t: Walk, taken: seq<nat>, c: nat, i: nat)
    requires PartlyPopped(n, s, t, taken, c) && Distinct(s.stack)
    requires t.stack != [] && forall a :: 0 <= a < |s.stack| ==> s.stack[a] < n
    ensures t.stack[|t.stack| - 1] == s.stack[|t.stack| - 1] < n
    ensures PartlyPopped(n, s, PoppedTop(t, i, c), taken + [t.stack[|t.stack| - 1]], c)
  {
    var top := |t.stack| - 1;
    var j := t.stack[top];
    assert j == s.stack[top];
    assert s.stack[top..] == [j] + s.stack[top + 1..];
    forall a | 0 <= a < |taken|
      ensures taken[a] != j
    {
      assert taken[a] in taken;
    }
  }

  lemma PopDone(n: nat, s: Walk, t: Walk, taken: seq<nat>, i: nat, m: nat)
    requires Ranges(n, s) && StackInOrder(s) && m < |s.stack| && s.stack[m] == i
    requires PartlyPopped(n, s, t, taken, |s.components|) && |t.stack| == m
    ensures Popped(n, s, t.(components := s.components + [Sort(taken)]), i)
    ensures forall v: nat :: v < n && !Member(s, i, v) ==> t.entries[v] == s.entries[v]
  {
    MembersAreTop(s, i, m);
    assert s.stack == t.stack + s.stack[m..];
    BelowTop(s.stack, m);
    assert t.stack == s.stack[..m];
  }

  lemma BelowTop(stack: seq<nat>, m: nat)
    requires Distinct(stack) && m <= |stack|
    ensures forall v :: v in stack[..m] ==> v !in stack[m..]
  {
    forall a, b | 0 <= a < m && 0 <= b < |stack[m..]|
      ensures stack[..m][a] != stack[m..][b]
    {
      assert stack[m..][b] == stack[m + b];
    }
  }

  /** The clauses of the invariant that fix sizes and the stack. */
  lemma InvShape(n: nat, edges: Relation, reach: Relation, s: Walk, active: set<nat>)
    requires Inv(n, edges, reach, s, active)
    ensures Ranges(n, s) && StackInOrder(s) && s.Sized(n) && Distinct(s.stack)
    ensures forall a :: 0 <= a < |s.stack| ==> s.stack[a] < n
    ensures forall v: nat {:trigger s.Root(v)} :: s.Open(v) ==> s.Open(s.Root(v)) && s.Root(v) < n
    ensures forall x: nat :: x in active ==> s.Open(x)
  {
  }

  /** s is reached while i is visited, starting from s0. */
  ghost predicate UnderVisit(s0: Walk, s: Walk, i: nat) {
    && Extends(s0, s)
    && s.Open(i) && s.Index(i) == s0.index + 1
    && s0.stack + [i] <= s.stack
  }

  lemma UnderVisitFacts(n: nat, s0: Walk, s: Walk, active: set<nat>, i: nat)
    requires Ranges(n, s0) && StackInOrder(s0) && s0.White(i) && UnderVisit(s0, s, i)
    requires forall x: nat :: x in active ==> s0.Open(x)
    ensures i !in active && s.Open(i) && s.Index(i) == s0.index + 1 && Extends(s0, s) && !s.White(i)
    ensures s.walkId == s0.walkId
    ensures |s0.stack| < |s.stack| && s.stack[..|s0.stack|] == s0.stack && s.stack[|s0.stack|] == i
    ensures forall x: nat :: x in active ==> s.Index(x) < s.Index(i)
    ensures s.Whites() < s0.Whites()
  {
    assert (s0.stack + [i])[|s0.stack|] == i;
    forall x: nat | x in active
      ensures s.Index(x) < s.Index(i)
    {
      assert s0.Open(x) && x in s0.stack;
    }
    assert i in s0.Whites() && i !in s.Whites();
  }

  /** Every vertex under visit reaches the destination of an edge out of i. */
  lemma ActiveReachNext(reach: Relation, s: Walk, active: set<nat>, i: nat, j: nat)
    requires ActiveReach(reach, s, active + {i}) && s.Open(i)
    requires forall x: nat :: x in active ==> s.Index(x) < s.Index(i)
    requires Transitive(reach) && (i, j) in reach
    ensures forall x: nat :: x in active + {i} ==> (x, j) in reach
  {
    forall x: nat | x in active + {i}
      ensures (x, j) in reach
    {
      assert s.Index(x) <= s.Index(i);
      Compose(reach, x, i, j);
    }
  }

  /** The edge loop of the visit of i, begun in s0: successors in done are dealt with. */
  ghost predicate Following(n: nat, edges: Relation, reach: Relation, s0: Walk, s: Walk, active: set<nat>, i: nat,
      done: set<nat>) {
    && Inv(n, edges, reach, s, active + {i})
    && UnderVisit(s0, s, i)
    && LowLink(edges, s, i, done)
    && forall x: nat :: x in done ==> !s.White(x)
  }

  /** As above, with j visited but not yet compared. */
  ghost predicate Comparing(n: nat, edges: Relation, reach: Relation, s0: Walk, s: Walk, active: set<nat>, i: nat,
      j: nat, done: set<nat>) {
    && Inv(n, edges, reach, s, active + {i})
    && UnderVisit(s0, s, i)
    && LowBound(edges, s, i, done, Better(s, i, j))
    && j < n && !s.White(j)
    && forall x: nat :: x in done ==> !s.White(x)
  }

  lemma StartVisit(g: Graph, edges: Relation, reach: Relation, s: Walk, active: set<nat>, i: nat)
    requires Relations(g, edges, reach) && Inv(|g|, edges, reach, s, active) && i < |g| && s.White(i)
    requires forall x: nat :: x in active ==> (x, i) in reach
    ensures Following(|g|, edges, reach, s, Pushed(s, i), active, i, Dests([]))
  {
    assert Dests([]) == {};
    PushKeepsInv(|g|, edges, reach, s, active, i);
  }

  /** What the next edge of i needs to know. */
  lemma NextEdge(g: Graph, edges: Relation, reach: Relation, s0: Walk, s: Walk, active: set<nat>, i: nat, k: nat,
      done: set<nat>)
    requires Relations(g, edges, reach) && Inv(|g|, edges, reach, s0, active) && i < |g| && s0.White(i)
    requires Following(|g|, edges, reach, s0, s, active, i, done) && k < |g[i]|
    ensures var j := g[i][k].dest;
      && j < |g| && s.Sized(|g|) && s.walkId == s0.walkId
      && (!s.White(j) ==> Comparing(|g|, edges, reach, s0, s, active, i, j, done))
      && (0 < s.visited[j] < s.walkId ==> Following(|g|, edges, reach, s0, s, active, i, done + {j}))
    ensures Inv(|g|, edges, reach, s, active + {i}) && s.Whites() < s0.Whites()
    ensures forall x: nat :: x in active + {i} ==> (x, g[i][k].dest) in reach
  {
    UnderVisitFacts(|g|, s0, s, active, i);
    hide LowLink, LowBound, Better, WithRoot;
    var j := g[i][k].dest;
    assert j in Dests(g[i]);
    assert (i, j) in edges;
    ActiveReachNext(reach, s, active, i, j);
  }

  /** The recursive visit of j has returned. */
  lemma AfterVisit(g: Graph, edges: Relation, reach: Relation, s0: Walk, s: Walk, t: Walk, active: set<nat>, i: nat,
      j: nat, done: set<nat>)
    requires Relations(g, edges, reach) && Ranges(|g|, s0) && j < |g|
    requires Following(|g|, edges, reach, s0, s, active, i, done)
    requires Inv(|g|, edges, reach, t, active + {i}) && Visited(edges, s, t, j, Dests(g[j]))
    ensures Comparing(|g|, edges, reach, s0, t, active, i, j, done)
  {
    LowBoundAcrossVisit(|g|, edges, s, t, i, j, done, Dests(g[j]));
    ExtendsTrans(|g|, s0, s, t);
    OpenAfter(|g|, s, t, i);
  }

  /** The root is compared and, if j knows a better one, replaced. */
  lemma CompareRoots(g: Graph, edges: Relation, reach: Relation, s0: Walk, s: Walk, active: set<nat>, i: nat, k: nat,
      done: set<nat>)
    requires Relations(g, edges, reach) && Inv(|g|, edges, reach, s0, active) && i < |g| && s0.White(i) && k < |g[i]|
    requires Comparing(|g|, edges, reach, s0, s, active, i, g[i][k].dest, done)
    ensures var j := g[i][k].dest;
      && s.Sized(|g|) && j < |g| && s.Root(i) < |g| && (s.Open(j) <==> s.Component(j) < 0)
      && (s.Component(j) < 0 ==> s.Root(j) < |g|)
      && var t := if s.Open(j) && s.Index(s.Root(j)) < s.Index(s.Root(i)) then WithRoot(s, i, s.Root(j)) else s;
         Following(|g|, edges, reach, s0, t, active, i, done + {j})
  {
    hide Inv, LowLink, LowBound, Better, UnderVisit, Ranges, StackInOrder;
    var j := g[i][k].dest;
    assert j in Dests(g[i]);
    assert (i, j) in edges;
    InvShape(|g|, edges, reach, s0, active);
    InvShape(|g|, edges, reach, s, active + {i});
    assert s.Open(s.Root(i)) && (s.Open(j) ==> s.Open(s.Root(j)));
    EdgeStep(|g|, edges, reach, s, active + {i}, i, j, done);
    if s.Open(j) && s.Index(s.Root(j)) < s.Index(s.Root(i)) {
      WithRootUnderVisit(|g|, s0, s, i, s.Root(j));
    }
  }

  /** Where the pop of the component of i starts. */
  lemma AtRoot(n: nat, edges: Relation, reach: Relation, s0: Walk, s: Walk, active: set<nat>, i: nat, done: set<nat>)
    requires Inv(n, edges, reach, s0, active) && i < n && s0.White(i)
    requires Following(n, edges, reach, s0, s, active, i, done)
    ensures s.Sized(n) && Distinct(s.stack) && |s0.stack| < |s.stack| && s.stack[|s0.stack|] == i
    ensures forall a :: 0 <= a < |s.stack| ==> s.stack[a] < n
  {
    InvShape(n, edges, reach, s, active + {i});
    UnderVisitFacts(n, s0, s, active, i);
  }

  /** The visit of i ends with i the root of a new component. */
  lemma FinishWithComponent(g: Graph, edges: Relation, reach: Relation, s0: Walk, s: Walk, t: Walk, taken: seq<nat>,
      active: set<nat>, i: nat)
    requires Relations(g, edges, reach) && Inv(|g|, edges, reach, s0, active) && i < |g| && s0.White(i)
    requires Following(|g|, edges, reach, s0, s, active, i, Dests(g[i])) && s.Root(i) == i
    requires PartlyPopped(|g|, s, t, taken, |s.components|) && |t.stack| == |s0.stack|
    ensures var u := t.(components := s.components + [Sort(taken)]);
      Inv(|g|, edges, reach, u, active) && Visited(edges, s0, u, i, Dests(g[i]))
  {
    var n := |g|;
    UnderVisitFacts(n, s0, s, active, i);
    PopDone(n, s, t, taken, i, |s0.stack|);
    var u := t.(components := s.components + [Sort(taken)]);
    PopKeepsInv(n, edges, reach, s, u, active, i, Dests(g[i]));
    assert u.stack == s0.stack;
    PopExtends(n, s0, s, u, i);
    assert Member(s, i, i);
  }

  /** The visit of i ends with i left open below an earlier root. */
  lemma FinishOpen(g: Graph, edges: Relation, reach: Relation, s0: Walk, s: Walk, active: set<nat>, i: nat)
    requires Relations(g, edges, reach) && Inv(|g|, edges, reach, s0, active) && i < |g| && s0.White(i)
    requires Following(|g|, edges, reach, s0, s, active, i, Dests(g[i])) && s.Root(i) != i
    ensures Inv(|g|, edges, reach, s, active) && Visited(edges, s0, s, i, Dests(g[i]))
  {
    UnderVisitFacts(|g|, s0, s, active, i);
    LeaveKeepsInv(|g|, edges, reach, s, active, i);
  }

  lemma DestsStep(nl: seq<Edge>, k: nat)
    requires k < |nl|
    ensures Dests(nl[..k + 1]) == Dests(nl[..k]) + {nl[k].dest}
  {
    var a, b := nl[..k + 1], nl[..k];
    forall v: nat | v in Dests(a)
      ensures v in Dests(b) + {nl[k].dest}
    {
      var e :| 0 <= e < |a| && a[e].dest == v;
      if e < k { assert b[e].dest == v; }
    }
    forall v: nat | v in Dests(b) + {nl[k].dest}
      ensures v in Dests(a)
    {
      if v in Dests(b) {
        var e :| 0 <= e < |b| && b[e].dest == v;
        assert a[e].dest == v;
      } else {
        assert a[k].dest == v;
      }
    }
  }

  // ----- whole walks

  /** The edges of a graph. */
  ghost function EdgeRelation(g: Graph): Relation {
    set u: nat, k: nat | u < |g| && k < |g[u]| :: (u, g[u][k].dest)
  }

  /** Reachability among the vertices of a graph. */
  ghost function ReachRelation(g: Graph): Relation {
    set u: nat, v: nat | u < |g| && v < |g| && Reach(g, u, v) :: (u, v)
  }

  lemma EdgeRelationIsHasEdge(g: Graph, u: nat, v: nat)
    ensures (u, v) in EdgeRelation(g) <==> HasEdge(g, u, v)
    ensures HasEdge(g, u, v) <==> u < |g| && v in Dests(g[u])
  {
    if HasEdge(g, u, v) {
      var k: nat :| k < |g[u]| && g[u][k].dest == v;
      assert (u, g[u][k].dest) in EdgeRelation(g);
    }
  }

  lemma ReachIsTransitive(g: Graph)
    ensures Transitive(ReachRelation(g))
  {
    forall u: nat, v: nat, w: nat | (u, v) in ReachRelation(g) && (v, w) in ReachRelation(g)
      ensures (u, w) in ReachRelation(g)
    {
      ReachTrans(g, u, v, w);
    }
  }

  lemma RelationsOfGraph(g: Graph)
    requires WellFormed(g)
    ensures Relations(g, EdgeRelation(g), ReachRelation(g))
  {
    hide Reach;
    var edges, reach := EdgeRelation(g), ReachRelation(g);
    forall u: nat, v: nat
      ensures (u, v) in edges <==> u < |g| && v in Dests(g[u])
      ensures (u, v) in edges ==> v < |g| && (u, v) in reach
    {
      EdgeRelationIsHasEdge(g, u, v);
      if (u, v) in edges { ReachEdge(g, u, v); }
    }
    forall u: nat | u < |g|
      ensures (u, u) in reach
    {
      ReachRefl(g, u);
    }
    ReachIsTransitive(g);
  }

  /** Between walks no vertex is open. */
  lemma NothingOpen(n: nat, edges: Relation, reach: Relation, s: Walk)
    requires Inv(n, edges, reach, s, {})
    ensures s.stack == []
    ensures forall v: nat :: v < n && !s.White(v) ==> 0 <= s.Component(v)
  {
    assert s.stack == [] || s.Open(s.stack[0]);
    forall y: nat
      ensures !s.Open(y)
    {
      assert !BackFrom(reach, s, {}, y);
    }
    forall v: nat | v < n && !s.White(v)
      ensures 0 <= s.Component(v)
    {
      assert !s.Open(v);
    }
  }

  /** The fields before the first walk, with the walk counter one ahead. */
  function Fresh(n: nat): Walk {
    Walk(seq(n, _ => 0), seq(n, _ => -1), seq(n, _ => TarjanEntry(0, 0)), [], [], 1, 0)
  }

  lemma FreshInv(g: Graph, edges: Relation, reach: Relation)
    requires Relations(g, edges, reach)
    ensures Inv(|g|, edges, reach, Fresh(|g|), {})
  {
    var s := Fresh(|g|);
    assert forall v: nat :: !s.Open(v);
    assert forall v: nat :: s.Component(v) == -1;
  }

  /** The fields as the next walk finds them. */
  function BeforeWalk(s: Walk): Walk {
    s.(walkId := s.walkId + 1, index := 0)
  }

  /** A new walk may start once the last one has left nothing open. */
  lemma NewWalk(n: nat, edges: Relation, reach: Relation, s: Walk)
    requires Inv(n, edges, reach, s, {})
    ensures Inv(n, edges, reach, BeforeWalk(s), {})
  {
    NothingOpen(n, edges, reach, s);
    var t := BeforeWalk(s);
    assert forall v: nat :: !t.Open(v);
    assert forall v: nat :: t.White(v) == s.White(v);
    assert forall v: nat :: t.Component(v) == s.Component(v);
  }

  lemma VisitedKeeps(edges: Relation, s: Walk, t: Walk, j: nat, succ: set<nat>)
    requires Visited(edges, s, t, j, succ)
    ensures !t.White(j) && forall v: nat :: t.White(v) ==> s.White(v)
  {
  }
}
