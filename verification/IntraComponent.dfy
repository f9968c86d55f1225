/** Linearising one component of the target graph: the recursive walk of
    IntraComponent in cmComputeTargetDepends and what it keeps. */
module IntraComponent {
  import opened Graphs
  import opened Sorting

  /** What the walk reads: the initial graph, the component map and the component. */
  datatype Setting = Setting(graph: Graph, cmap: seq<int>, c: nat)
  {
    ghost predicate Valid() {
      WellFormed(graph) && |cmap| == |graph|
    }

    /** A vertex of the component. */
    predicate In(v: nat) {
      v < |graph| && v < |cmap| && cmap[v] == c
    }

    predicate Inside(e: Edge) {
      e.dest < |cmap| && cmap[e.dest] == c && e.strong
    }
  }

  /** The strong edges that stay in the component, in order. */
  function Kept(x: Setting, es: seq<Edge>): seq<Edge> {
    if es == [] then []
    else Kept(x, es[..|es| - 1]) + (if x.Inside(es[|es| - 1]) then [es[|es| - 1]] else [])
  }

  /** The strong edges inside the component, as a graph of their own. */
  ghost function StrongPart(x: Setting): Graph {
    seq(|x.graph|, v requires 0 <= v < |x.graph| =>
      if x.In(v) then Kept(x, x.graph[v]) else [])
  }

  lemma {:induction false} KeptAre(x: Setting, es: seq<Edge>, v: nat)
    ensures (exists k :: 0 <= k < |Kept(x, es)| && Kept(x, es)[k].dest == v)
      <==> (exists k :: 0 <= k < |es| && x.Inside(es[k]) && es[k].dest == v)
  {
    if es != [] {
      var front := es[..|es| - 1];
      KeptAre(x, front, v);
      if k :| 0 <= k < |es| && x.Inside(es[k]) && es[k].dest == v {
        if k < |front| {
          assert front[k] == es[k];
          var j :| 0 <= j < |Kept(x, front)| && Kept(x, front)[j].dest == v;
          assert Kept(x, es)[j].dest == v;
        } else {
          assert Kept(x, es)[|Kept(x, front)|].dest == v;
        }
      }
      if k :| 0 <= k < |Kept(x, es)| && Kept(x, es)[k].dest == v {
        if k < |Kept(x, front)| {
          assert Kept(x, front)[k].dest == v;
          var j :| 0 <= j < |front| && x.Inside(front[j]) && front[j].dest == v;
          assert es[j] == front[j];
        }
      }
    }
  }

  lemma StrongEdge(x: Setting, u: nat, v: nat)
    requires x.Valid()
    ensures HasEdge(StrongPart(x), u, v) <==>
      x.In(u) && exists k :: 0 <= k < |x.graph[u]| && x.Inside(x.graph[u][k]) && x.graph[u][k].dest == v
  {
    if u < |x.graph| {
      KeptAre(x, x.graph[u], v);
      assert StrongPart(x)[u] == if x.In(u) then Kept(x, x.graph[u]) else [];
    }
  }

  /** One call of the walk: its start, or the edge it came along. */
  datatype Call = Start | Along(u: nat, k: nat)

  ghost predicate IsEdge(x: Setting, call: Call) {
    call.Along? && call.u < |x.graph| && call.k < |x.graph[call.u]| && x.Inside(x.graph[call.u][call.k])
  }

  ghost function Destination(x: Setting, r: nat, call: Call): nat {
    if IsEdge(x, call) then x.graph[call.u][call.k].dest else r
  }

  /** The state of a walk that started at r when base had been emitted. */
  datatype Walk = Walk(
    fin: Graph,
    tail: int,
    head: int,
    emitted: set<nat>,
    visited: set<nat>,
    chain: seq<nat>,      // vertices prepended so far, head first
    calls: set<Call>,     // calls made since r
    active: set<nat>)     // vertices whose edges are being followed

  /** The chain so far: head, tail and the edges of its vertices. */
  ghost predicate Chained(x: Setting, w: Walk) {
    && |w.fin| == |x.graph|
    && Distinct(w.chain)
    && (forall p :: 0 <= p < |w.chain| ==> x.In(w.chain[p]))
    && w.head == (if w.chain == [] then -1 else w.chain[0])
    && (w.chain != [] ==> w.tail == w.chain[|w.chain| - 1])
  }

  /** Each vertex of the chain keeps its strong edges, which lead further down the
      chain, and has an edge to the next vertex. */
  ghost predicate Linked(x: Setting, fin: Graph, chain: seq<nat>) {
    forall p :: 0 <= p < |chain| ==> LinkedAt(x, fin, chain, p)
  }

  ghost predicate LinkedAt(x: Setting, fin: Graph, chain: seq<nat>, p: int)
    requires 0 <= p < |chain|
  {
    && chain[p] < |fin| && chain[p] < |x.graph|
    && fin[chain[p]] ==
       Kept(x, x.graph[chain[p]]) + (if p + 1 < |chain| then [Edge(chain[p + 1], false, false, NoTrace)] else [])
    && forall k :: 0 <= k < |x.graph[chain[p]]| && x.Inside(x.graph[chain[p]][k]) ==>
       x.graph[chain[p]][k].dest in chain[p + 1..]
  }

  /** Book-keeping of the sets. */
  ghost predicate SetsAgree(x: Setting, base: set<nat>, w: Walk) {
    && w.emitted == Elements(w.chain) + w.active
    && w.active !! Elements(w.chain)
    && base <= Elements(w.chain)
    && w.active <= w.visited
    && (forall v: nat :: v in w.emitted ==> x.In(v))
    && (forall v: nat :: x.In(v) && v !in w.emitted ==> v < |w.fin| && w.fin[v] == [])
  }

  /** visited holds the destinations of the calls, all different; a call other than
      the start follows an edge out of a vertex emitted since the start. */
  ghost predicate CallsAgree(x: Setting, r: nat, base: set<nat>, w: Walk) {
    && (forall call :: call in w.calls ==> Destination(x, r, call) in w.visited)
    && (forall v: nat {:trigger CalledAt(x, r, w.calls, v)} :: v in w.visited ==> CalledAt(x, r, w.calls, v))
    && (forall a, b :: a in w.calls && b in w.calls && Destination(x, r, a) == Destination(x, r, b) ==> a == b)
    && (forall call :: call in w.calls ==> call.Start? || (IsEdge(x, call) && call.u in w.emitted - base))
  }

  ghost predicate CalledAt(x: Setting, r: nat, calls: set<Call>, v: nat) {
    exists call :: call in calls && Destination(x, r, call) == v
  }

  /** Every edge of a vertex finished since the start has been called along. */
  ghost predicate AllCalled(x: Setting, base: set<nat>, w: Walk) {
    forall u: nat, k: nat :: u in w.emitted - base && u !in w.active && IsEdge(x, Along(u, k)) ==>
      Along(u, k) in w.calls
  }

  /** Everything emitted since the start can be reached from r along strong edges. */
  ghost predicate Reached(x: Setting, r: nat, base: set<nat>, w: Walk) {
    forall v: nat :: v in w.emitted - base ==> Reach(StrongPart(x), r, v)
  }

  ghost predicate Walking(x: Setting, r: nat, base: set<nat>, w: Walk) {
    && x.Valid()
    && Chained(x, w)
    && Linked(x, w.fin, w.chain)
    && SetsAgree(x, base, w)
    && CallsAgree(x, r, base, w)
    && AllCalled(x, base, w)
    && Reached(x, r, base, w)
  }

  /** Two different calls of the walk from r lead to the same vertex. */
  ghost predicate Conflict(x: Setting, r: nat, base: set<nat>, a: Call, b: Call) {
    && a != b
    && Destination(x, r, a) == Destination(x, r, b)
    && InWalk(x, r, base, a) && InWalk(x, r, base, b)
  }

  /** The call belongs to the walk from r: it is the start or follows a strong edge
      out of a vertex that r reaches and that was not emitted before. */
  ghost predicate InWalk(x: Setting, r: nat, base: set<nat>, call: Call) {
    call.Start? || (IsEdge(x, call) && call.u !in base && Reach(StrongPart(x), r, call.u))
  }

  /** No vertex is called twice in the walk from r. */
  ghost predicate TreeLike(x: Setting, r: nat, base: set<nat>) {
    forall a, b :: !Conflict(x, r, base, a, b)
  }

  // ----- steps

  /** The call enters i: it has not been visited, and now it has. */
  function Entered(w: Walk, i: nat, call: Call): Walk {
    w.(visited := w.visited + {i}, calls := w.calls + {call})
  }

  lemma EnterKeeps(x: Setting, r: nat, base: set<nat>, w: Walk, i: nat, call: Call)
    requires Walking(x, r, base, w) && i !in w.visited && Destination(x, r, call) == i
    requires call.Start? || (IsEdge(x, call) && call.u in w.emitted - base)
    ensures Walking(x, r, base, Entered(w, i, call))
  {
    hide Linked, Reach, Chained, SetsAgree, CallsAgree, AllCalled;
    EnterKeepsSets(x, base, w, i, call);
    EnterKeepsCalls(x, r, base, w, i, call);
  }

  lemma EnterKeepsSets(x: Setting, base: set<nat>, w: Walk, i: nat, call: Call)
    requires SetsAgree(x, base, w) && Chained(x, w) && AllCalled(x, base, w)
    ensures var t := Entered(w, i, call); SetsAgree(x, base, t) && Chained(x, t) && AllCalled(x, base, t)
  {
  }

  lemma EnterKeepsCalls(x: Setting, r: nat, base: set<nat>, w: Walk, i: nat, call: Call)
    requires CallsAgree(x, r, base, w) && i !in w.visited && Destination(x, r, call) == i
    requires call.Start? || (IsEdge(x, call) && call.u in w.emitted - base)
    ensures CallsAgree(x, r, base, Entered(w, i, call))
  {
    hide IsEdge;
    var t := Entered(w, i, call);
    forall v: nat | v in t.visited
      ensures CalledAt(x, r, t.calls, v)
    {
      if v == i {
        assert call in t.calls;
      } else {
        assert CalledAt(x, r, w.calls, v);
        var a :| a in w.calls && Destination(x, r, a) == v;
        assert a in t.calls;
      }
    }
  }

  lemma RevisitConflicts(x: Setting, r: nat, base: set<nat>, w: Walk, i: nat, call: Call) returns (other: Call)
    requires Walking(x, r, base, w) && i in w.visited && Destination(x, r, call) == i && call !in w.calls
    requires call.Start? || (IsEdge(x, call) && call.u in w.emitted - base)
    ensures Conflict(x, r, base, other, call)
  {
    hide Linked, Chained, Reach;
    assert CalledAt(x, r, w.calls, i);
    other :| other in w.calls && Destination(x, r, other) == i;
  }

  /** The edges of i are going to be followed. */
  function Opened(w: Walk, i: nat): Walk {
    w.(emitted := w.emitted + {i}, active := w.active + {i})
  }

  lemma OpenKeeps(x: Setting, r: nat, base: set<nat>, w: Walk, i: nat)
    requires Walking(x, r, base, w) && i in w.visited && i !in w.emitted && x.In(i)
    requires Reach(StrongPart(x), r, i)
    ensures Walking(x, r, base, Opened(w, i))
    ensures w.fin[i] == []
  {
    hide Linked, Reach;
    assert i !in base by {
      assert base <= w.emitted;
    }
  }

  /** i has followed its first k edges. */
  ghost predicate Followed(x: Setting, w: Walk, i: nat, k: nat)
    requires i < |x.graph| && k <= |x.graph[i]|
  {
    && i in w.active
    && i < |w.fin| && w.fin[i] == Kept(x, x.graph[i][..k])
    && (forall j: nat :: j < k && x.Inside(x.graph[i][j]) ==> x.graph[i][j].dest in w.chain && Along(i, j) in w.calls)
    && (forall j: nat :: Along(i, j) in w.calls ==> j < k)
  }

  /** What a call leaves alone. */
  ghost predicate Extends(x: Setting, s: Walk, t: Walk) {
    && |t.fin| == |s.fin|
    && (forall v: nat :: v < |s.fin| && (v in s.emitted || !x.In(v)) ==> t.fin[v] == s.fin[v])
    && s.emitted <= t.emitted && s.visited <= t.visited && s.calls <= t.calls
    && Elements(s.chain) <= Elements(t.chain)
  }

  /** The calls added are the given one and calls along edges of vertices that had
      not been emitted. */
  ghost predicate NewCalls(s: Walk, t: Walk, call: Call) {
    forall a :: a in t.calls && a !in s.calls && a != call ==> a.Along? && a.u !in s.emitted
  }

  /** The walk from r is about to make this call, to i. */
  ghost predicate CallDue(x: Setting, r: nat, base: set<nat>, w: Walk, call: Call, i: nat) {
    && call !in w.calls && Destination(x, r, call) == i
    && (call.Start? || (IsEdge(x, call) && call.u in w.emitted - base))
    && x.In(i) && Reach(StrongPart(x), r, i)
  }

  lemma ExtendsTrans(x: Setting, s: Walk, t: Walk, u: Walk)
    requires Extends(x, s, t) && Extends(x, t, u)
    ensures Extends(x, s, u)
  {
  }

  /** i joins the front of the chain once all its edges have been followed. */
  function Prepended(w: Walk, i: nat): Walk
    requires i < |w.fin|
  {
    w.(fin := if w.head >= 0 then w.fin[i := w.fin[i] + [Edge(w.head, false, false, NoTrace)]] else w.fin,
       tail := if w.head >= 0 then w.tail else i,
       head := i,
       chain := [i] + w.chain,
       active := w.active - {i})
  }

  lemma PrependLinks(x: Setting, w: Walk, i: nat)
    requires x.Valid() && Chained(x, w) && Linked(x, w.fin, w.chain) && x.In(i) && i !in w.chain
    requires w.fin[i] == Kept(x, x.graph[i])
    requires forall j: nat :: j < |x.graph[i]| && x.Inside(x.graph[i][j]) ==> x.graph[i][j].dest in w.chain
    ensures Linked(x, Prepended(w, i).fin, Prepended(w, i).chain)
  {
    var t := Prepended(w, i);
    forall p | 0 <= p < |t.chain|
      ensures LinkedAt(x, t.fin, t.chain, p)
    {
      assert t.chain[p + 1..] == w.chain[p..];
      if p > 0 {
        assert LinkedAt(x, w.fin, w.chain, p - 1);
        assert t.chain[p] == w.chain[p - 1];
        assert p + 1 < |t.chain| ==> t.chain[p + 1] == w.chain[p];
      } else {
        assert t.chain[1..] == w.chain;
      }
    }
  }

  lemma PrependKeeps(x: Setting, r: nat, base: set<nat>, w: Walk, i: nat)
    requires Walking(x, r, base, w) && i < |x.graph| && Followed(x, w, i, |x.graph[i]|)
    ensures Walking(x, r, base, Prepended(w, i))
  {
    hide Linked, Reach;
    assert x.graph[i][..|x.graph[i]|] == x.graph[i];
    var t := Prepended(w, i);
    assert i in w.chain <==> i in Elements(w.chain);
    PrependLinks(x, w, i);
    PrependSets(x, base, w, i);
    assert AllCalled(x, base, t);
  }

  lemma PrependSets(x: Setting, base: set<nat>, w: Walk, i: nat)
    requires Chained(x, w) && SetsAgree(x, base, w) && i in w.active && i !in w.chain && x.In(i)
    ensures Chained(x, Prepended(w, i)) && SetsAgree(x, base, Prepended(w, i))
  {
    var t := Prepended(w, i);
    assert Elements(t.chain) == Elements(w.chain) + {i} by {
      assert forall v :: v in t.chain <==> v == i || v in w.chain;
    }
    assert t.emitted == Elements(t.chain) + t.active;
  }

  /** Before the first edge of i. */
  lemma OpenFollows(x: Setting, r: nat, base: set<nat>, w: Walk, i: nat)
    requires Walking(x, r, base, w) && i !in w.emitted && x.In(i) && w.fin[i] == []
    ensures Followed(x, Opened(w, i), i, 0)
  {
    assert x.graph[i][..0] == [];
  }

  /** Edge k of i stays in the component: it is copied, and the call along it is due. */
  lemma EdgePushed(x: Setting, r: nat, base: set<nat>, w: Walk, i: nat, k: nat)
    requires Walking(x, r, base, w) && x.In(i) && k < |x.graph[i]| && Followed(x, w, i, k)
    requires x.Inside(x.graph[i][k]) && i !in base
    ensures var s := w.(fin := w.fin[i := w.fin[i] + [x.graph[i][k]]]);
      Walking(x, r, base, s) && CallDue(x, r, base, s, Along(i, k), x.graph[i][k].dest)
  {
    hide Reach;
    var s := w.(fin := w.fin[i := w.fin[i] + [x.graph[i][k]]]);
    assert i in w.chain <==> i in Elements(w.chain);
    forall p | 0 <= p < |s.chain|
      ensures LinkedAt(x, s.fin, s.chain, p)
    {
      assert LinkedAt(x, w.fin, w.chain, p);
    }
    var j := x.graph[i][k].dest;
    assert IsEdge(x, Along(i, k));
    StrongEdge(x, i, j);
    ReachRefl(StrongPart(x), j);
    ReachStep(StrongPart(x), i, j, j);
    ReachTrans(StrongPart(x), r, i, j);
  }

  /** Edge k has been followed. */
  lemma EdgeFollowed(x: Setting, w: Walk, s: Walk, t: Walk, i: nat, k: nat)
    requires x.In(i) && k < |x.graph[i]| && Followed(x, w, i, k) && x.Inside(x.graph[i][k]) && i in w.emitted
    requires s == w.(fin := w.fin[i := w.fin[i] + [x.graph[i][k]]])
    requires Extends(x, s, t) && NewCalls(s, t, Along(i, k)) && t.active == w.active
    requires x.graph[i][k].dest in t.chain && Along(i, k) in t.calls
    ensures Followed(x, t, i, k + 1)
  {
    assert x.graph[i][..k + 1][..k] == x.graph[i][..k];
    forall j: nat | j < k && x.Inside(x.graph[i][j])
      ensures x.graph[i][j].dest in t.chain
    {
      assert x.graph[i][j].dest in Elements(s.chain);
    }
  }

  lemma EdgeSkipped(x: Setting, w: Walk, i: nat, k: nat)
    requires x.In(i) && k < |x.graph[i]| && Followed(x, w, i, k) && !x.Inside(x.graph[i][k])
    ensures Followed(x, w, i, k + 1)
  {
    assert x.graph[i][..k + 1][..k] == x.graph[i][..k];
  }

  /** The walk so far, seen from the call that opened i. */
  ghost predicate Since(x: Setting, s: Walk, t: Walk, call: Call, i: nat) {
    && |t.fin| == |s.fin|
    && (forall v: nat :: v < |s.fin| && (v in s.emitted || !x.In(v)) ==> t.fin[v] == s.fin[v])
    && s.emitted + {i} <= t.emitted && s.visited <= t.visited && s.calls + {call} <= t.calls
    && Elements(s.chain) <= Elements(t.chain)
    && t.active == s.active + {i}
    && NewCalls(s, t, call)
  }

  lemma SinceEdge(x: Setting, s: Walk, w: Walk, w1: Walk, t: Walk, call: Call, i: nat, k: nat)
    requires Since(x, s, w, call, i) && i !in s.emitted && x.In(i) && i < |w.fin|
    requires w1 == w.(fin := w1.fin) && |w1.fin| == |w.fin| && forall v :: 0 <= v < |w.fin| && v != i ==>
      w1.fin[v] == w.fin[v]
    requires Extends(x, w1, t) && NewCalls(w1, t, Along(i, k)) && t.active == w.active
    ensures Since(x, s, t, call, i)
  {
  }

  /** The call that opened i returns with i at the head of the chain. */
  lemma CloseExtends(x: Setting, s: Walk, w: Walk, call: Call, i: nat)
    requires Since(x, s, w, call, i) && i !in s.emitted && i !in s.active && x.In(i) && i < |w.fin|
    ensures Extends(x, s, Prepended(w, i)) && NewCalls(s, Prepended(w, i), call)
    ensures Prepended(w, i).active == s.active && i in Prepended(w, i).chain && call in Prepended(w, i).calls
  {
    assert Elements(w.chain) <= Elements(Prepended(w, i).chain) by {
      assert forall v :: v in w.chain ==> v in [i] + w.chain;
    }
  }

  // ----- the whole walk

  lemma WalkEmits(x: Setting, r: nat, base: set<nat>, w: Walk, v: nat)
    requires Walking(x, r, base, w) && w.active == {} && r in w.emitted
    requires forall u: nat, y: nat :: u in base && HasEdge(StrongPart(x), u, y) ==> y in base
    requires Reach(StrongPart(x), r, v)
    ensures v in w.emitted
  {
    forall u: nat, y: nat | u in w.emitted && HasEdge(StrongPart(x), u, y)
      ensures y in w.emitted
    {
      StrongEdge(x, u, y);
      if u !in base {
        var k: nat :| k < |x.graph[u]| && x.Inside(x.graph[u][k]) && x.graph[u][k].dest == y;
        assert IsEdge(x, Along(u, k));
        assert Along(u, k) in w.calls;
        CalledIsEmitted(x, w, u, y);
      } else {
        assert y in base;
      }
    }
    ClosedUnderReach(StrongPart(x), w.emitted, r, v);
  }

  lemma CalledIsEmitted(x: Setting, w: Walk, u: nat, y: nat)
    requires x.Valid() && Linked(x, w.fin, w.chain) && w.emitted == Elements(w.chain) && u in w.emitted
    requires exists k: nat :: u < |x.graph| && k < |x.graph[u]| && x.Inside(x.graph[u][k]) && x.graph[u][k].dest == y
    ensures y in w.emitted
  {
    var p :| 0 <= p < |w.chain| && w.chain[p] == u;
    assert LinkedAt(x, w.fin, w.chain, p);
    assert y in w.chain[p + 1..];
  }

  /** A walk that ends made every call it could, and no two to the same vertex. */
  lemma EndedIsTreeLike(x: Setting, r: nat, base: set<nat>, w: Walk)
    requires Walking(x, r, base, w) && w.active == {} && r in w.emitted && Start in w.calls
    requires forall u: nat, y: nat :: u in base && HasEdge(StrongPart(x), u, y) ==> y in base
    ensures TreeLike(x, r, base)
  {
    hide Reach, Linked, Chained;
    forall a, b | Conflict(x, r, base, a, b)
      ensures false
    {
      InWalkIsCalled(x, r, base, w, a);
      InWalkIsCalled(x, r, base, w, b);
    }
  }

  lemma InWalkIsCalled(x: Setting, r: nat, base: set<nat>, w: Walk, call: Call)
    requires Walking(x, r, base, w) && w.active == {} && r in w.emitted && Start in w.calls
    requires forall u: nat, y: nat :: u in base && HasEdge(StrongPart(x), u, y) ==> y in base
    requires InWalk(x, r, base, call)
    ensures call in w.calls
  {
    hide Reach, Linked, Chained;
    if call.Along? {
      WalkEmits(x, r, base, w, call.u);
      assert call == Along(call.u, call.k);
    }
  }

  /** A walk may start at r from what earlier walks emitted. */
  lemma StartWalk(x: Setting, r: nat, w: Walk)
    requires x.Valid() && Chained(x, w) && Linked(x, w.fin, w.chain)
    requires w.emitted == Elements(w.chain) && w.active == {} && w.visited == {} && w.calls == {}
    requires forall v: nat :: x.In(v) && v !in w.emitted ==> v < |w.fin| && w.fin[v] == []
    ensures Walking(x, r, w.emitted, w)
  {
  }

  /** What the chain holds is closed under the strong edges of the component. */
  lemma ChainClosed(x: Setting, fin: Graph, chain: seq<nat>, u: nat, y: nat)
    requires x.Valid() && Linked(x, fin, chain) && u in chain && HasEdge(StrongPart(x), u, y)
    ensures y in chain
  {
    StrongEdge(x, u, y);
    var p :| 0 <= p < |chain| && chain[p] == u;
    assert LinkedAt(x, fin, chain, p);
    assert y in chain[p + 1..];
  }

  /** The vertices some member in a list reaches along strong edges. */
  ghost predicate ReachedFromSome(x: Setting, members: seq<nat>, v: nat) {
    exists m :: m in members && Reach(StrongPart(x), m, v)
  }

  ghost function StrongClosure(x: Setting, members: seq<nat>): set<nat> {
    set v: nat | v < |x.graph| && ReachedFromSome(x, members, v)
  }
}
