/** Which side effects the depth-first collection records, on cycles too: the order in
    which records are merged is a matter of the graph alone, and says exactly whose own
    effects are handed on to whom (CollectSideEffects in cmComputeTargetDepends). */
module SideEffectOrder {
  import opened Wrappers
  import opened TargetTypes
  import opened Graphs
  import opened SideEffects
  import opened SideEffectCollection

  /** The record of the end of an edge is merged into that of the vertex it is at. */
  datatype Merging = Merging(at: nat, edge: nat)

  /** The mergings so far, and the vertices for which a visit has begun. */
  datatype Trail = Trail(merges: seq<Merging>, visited: set<nat>)

  function Arrived(s: Trail, i: nat): Trail {
    s.(visited := s.visited + {i})
  }

  /** The visit of i, as far as the graph is concerned. */
  ghost function Visit(g: Graph, s: Trail, i: nat): (t: Trail)
    requires WellFormed(g) && i < |g|
    ensures s.visited + {i} <= t.visited
    decreases Unseen(|g|, s.visited), 0
  {
    if i in s.visited then s
    else
      FewerUnseen(|g|, s.visited, s.visited + {i}, i);
      VisitEach(g, Arrived(s, i), i, |g[i]|)
  }

  ghost function VisitEach(g: Graph, s: Trail, i: nat, k: nat): (t: Trail)
    requires WellFormed(g) && i < |g| && k <= |g[i]|
    ensures s.visited <= t.visited
    decreases Unseen(|g|, s.visited), k + 1
  {
    if k == 0 then s
    else
      var t := VisitEach(g, s, i, k - 1);
      NotMoreUnseen(|g|, s.visited, t.visited);
      var u := Visit(g, t, g[i][k - 1].dest);
      u.(merges := u.merges + [Merging(i, k - 1)])
  }

  ghost function VisitFirst(g: Graph, n: nat): Trail
    requires WellFormed(g) && n <= |g|
  {
    if n == 0 then Trail([], {}) else Visit(g, VisitFirst(g, n - 1), n - 1)
  }

  /** The order in which records are merged. */
  ghost function MergeOrder(g: Graph): seq<Merging>
    requires WellFormed(g)
  {
    VisitFirst(g, |g|).merges
  }

  lemma VisitUnfolds(g: Graph, s: Trail, i: nat)
    requires WellFormed(g) && i < |g|
    ensures i in s.visited ==> Visit(g, s, i) == s
    ensures i !in s.visited ==> Visit(g, s, i) == VisitEach(g, Arrived(s, i), i, |g[i]|)
    ensures VisitEach(g, Arrived(s, i), i, 0) == Arrived(s, i)
  {
  }

  lemma VisitEachUnfolds(g: Graph, s: Trail, i: nat, k: nat)
    requires WellFormed(g) && i < |g| && 0 < k <= |g[i]|
    ensures var u := Visit(g, VisitEach(g, s, i, k - 1), g[i][k - 1].dest);
      VisitEach(g, s, i, k) == u.(merges := u.merges + [Merging(i, k - 1)])
  {
  }

  /** Along the merging an edge is walked from its end to v. */
  ghost predicate Into(g: Graph, m: Merging, v: nat) {
    m.at == v && v < |g| && m.edge < |g[v]|
  }

  /** A walk from v to w whose edges are merged later and later towards v: what w has is
      handed on to v. */
  ghost predicate Handed(g: Graph, order: seq<Merging>, v: nat, w: nat)
    decreases |order|
  {
    v == w || exists j :: 0 <= j < |order| && Into(g, order[j], v) && Handed(g, order[..j], g[v][order[j].edge].dest, w)
  }

  lemma HandedMore(g: Graph, order: seq<Merging>, m: Merging, v: nat, w: nat)
    ensures Handed(g, order + [m], v, w) <==>
      Handed(g, order, v, w) || (Into(g, m, v) && Handed(g, order, g[v][m.edge].dest, w))
  {
    var more := order + [m];
    assert more[..|order|] == order;
    forall j | 0 <= j < |order|
      ensures more[..j] == order[..j] && more[j] == order[j]
    {
    }
    if v != w && Handed(g, order, v, w) {
      var j :| 0 <= j < |order| && Into(g, order[j], v) && Handed(g, order[..j], g[v][order[j].edge].dest, w);
      assert Handed(g, more[..j], g[v][more[j].edge].dest, w);
    }
    if v != w && Handed(g, more, v, w) {
      var j :| 0 <= j < |more| && Into(g, more[j], v) && Handed(g, more[..j], g[v][more[j].edge].dest, w);
      if j < |order| { assert Handed(g, order[..j], g[v][order[j].edge].dest, w); }
    }
    if Into(g, m, v) && Handed(g, order, g[v][m.edge].dest, w) {
      assert Handed(g, more[..|order|], g[v][more[|order|].edge].dest, w);
    }
  }

  /** Nothing is handed to a vertex into which nothing has been merged. */
  lemma HandedNothing(g: Graph, order: seq<Merging>, v: nat, w: nat)
    requires forall j :: 0 <= j < |order| ==> order[j].at != v
    ensures Handed(g, order, v, w) <==> v == w
  {
  }

  lemma {:induction false} HandedIsReached(g: Graph, order: seq<Merging>, v: nat, w: nat)
    requires WellFormed(g) && v < |g| && Handed(g, order, v, w)
    ensures Reach(g, v, w)
    decreases |order|
  {
    hide Reach;
    if v == w {
      ReachRefl(g, v);
    } else {
      var j :| 0 <= j < |order| && Into(g, order[j], v) && Handed(g, order[..j], g[v][order[j].edge].dest, w);
      EdgeAt(g, v, order[j].edge);
      HandedIsReached(g, order[..j], g[v][order[j].edge].dest, w);
      ReachStep(g, v, g[v][order[j].edge].dest, w);
    }
  }

  // ----- every edge has its turn

  /** The edges of v whose ends have been merged, in order. */
  ghost function EdgesAt(order: seq<Merging>, v: nat): seq<nat> {
    if order == [] then []
    else
      var last := order[|order| - 1];
      EdgesAt(order[..|order| - 1], v) + (if last.at == v then [last.edge] else [])
  }

  lemma EdgesAtMore(order: seq<Merging>, m: Merging, v: nat)
    ensures EdgesAt(order + [m], v) == EdgesAt(order, v) + (if m.at == v then [m.edge] else [])
  {
    assert (order + [m])[..|order|] == order;
  }

  function UpTo(k: nat): seq<nat> {
    seq(k, j => j)
  }

  /** Vertices not visited have had no edge merged, and those left again have had all. */
  ghost predicate InTurn(g: Graph, t: Trail, active: set<nat>) {
    && (forall v: nat :: v !in t.visited ==> EdgesAt(t.merges, v) == [])
    && (forall v: nat :: v in t.visited && v !in active && v < |g| ==> EdgesAt(t.merges, v) == UpTo(|g[v]|))
  }

  /** Nothing has been merged at vertices visited before. */
  ghost predicate Untouched(s: Trail, t: Trail) {
    forall v: nat :: v in s.visited ==> EdgesAt(t.merges, v) == EdgesAt(s.merges, v)
  }

  lemma {:induction false} VisitInTurn(g: Graph, s: Trail, i: nat, active: set<nat>)
    requires WellFormed(g) && i < |g| && InTurn(g, s, active) && active <= s.visited
    ensures InTurn(g, Visit(g, s, i), active) && Untouched(s, Visit(g, s, i))
    decreases Unseen(|g|, s.visited), 0
  {
    hide Visit, VisitEach, Unseen;
    VisitUnfolds(g, s, i);
    if i !in s.visited {
      FewerUnseen(|g|, s.visited, s.visited + {i}, i);
      VisitEachInTurn(g, Arrived(s, i), i, |g[i]|, active + {i});
    }
  }

  lemma {:induction false} VisitEachInTurn(g: Graph, s: Trail, i: nat, k: nat, active: set<nat>)
    requires WellFormed(g) && i < |g| && k <= |g[i]| && InTurn(g, s, active) && i in active && active <= s.visited
    requires EdgesAt(s.merges, i) == []
    ensures var t := VisitEach(g, s, i, k);
      && InTurn(g, t, active) && EdgesAt(t.merges, i) == UpTo(k)
      && forall v: nat :: v in s.visited && v != i ==> EdgesAt(t.merges, v) == EdgesAt(s.merges, v)
    decreases Unseen(|g|, s.visited), k + 1
  {
    hide Visit, Unseen, EdgesAt;
    if k > 0 {
      VisitEachInTurn(g, s, i, k - 1, active);
      var t := VisitEach(g, s, i, k - 1);
      NotMoreUnseen(|g|, s.visited, t.visited);
      VisitInTurn(g, t, g[i][k - 1].dest, active);
      var u := Visit(g, t, g[i][k - 1].dest);
      forall v: nat
        ensures EdgesAt(u.merges + [Merging(i, k - 1)], v) ==
          EdgesAt(u.merges, v) + (if v == i then [k - 1] else [])
      {
        EdgesAtMore(u.merges, Merging(i, k - 1), v);
      }
      assert UpTo(k) == UpTo(k - 1) + [k - 1];
    }
  }

  lemma {:induction false} FirstInTurn(g: Graph, n: nat)
    requires WellFormed(g) && n <= |g|
    ensures InTurn(g, VisitFirst(g, n), {}) && forall v: nat :: v < n ==> v in VisitFirst(g, n).visited
  {
    hide Visit, InTurn;
    if n > 0 {
      FirstInTurn(g, n - 1);
      VisitInTurn(g, VisitFirst(g, n - 1), n - 1, {});
    } else {
      assert InTurn(g, VisitFirst(g, 0), {}) by { NothingInTurn(g); }
    }
  }

  lemma NothingInTurn(g: Graph)
    ensures InTurn(g, Trail([], {}), {})
  {
  }

  /** Every edge is merged exactly once, those of one vertex in their order. */
  lemma EachEdgeOnce(g: Graph, v: nat)
    requires WellFormed(g) && v < |g|
    ensures EdgesAt(MergeOrder(g), v) == UpTo(|g[v]|)
  {
    hide VisitFirst, EdgesAt;
    FirstInTurn(g, |g|);
  }

  // ----- what is recorded, exactly

  /** Some target handed on to v has the effect itself. */
  ghost predicate Hands(g: Graph, targets: seq<GeneratorTarget>, order: seq<Merging>, v: nat, kind: Kind, t: nat) {
    exists w: nat :: w < |targets| && Handed(g, order, v, w) && Has(targets[w].own, kind, t)
  }

  /** The record has exactly the effects handed on. */
  ghost predicate Holds(g: Graph, targets: seq<GeneratorTarget>, order: seq<Merging>, e: TargetSideEffects, v: nat) {
    forall kind, t: nat :: Has(e, kind, t) <==> Hands(g, targets, order, v, kind, t)
  }

  /** The collection and the trail are at the same point. */
  ghost predicate Matches(g: Graph, targets: seq<GeneratorTarget>, s: Collection, t: Trail) {
    && Fits(g, targets, s) && s.visited == t.visited
    && (forall v: nat :: v in s.visited && v < |g| ==> Holds(g, targets, t.merges, s.record[v], v))
    && (forall v: nat :: v < |g| && v !in s.visited ==> s.record[v] == NO_EFFECTS)
    && (forall j :: 0 <= j < |t.merges| ==> t.merges[j].at in t.visited)
  }

  lemma ArrivedMatches(g: Graph, targets: seq<GeneratorTarget>, s: Collection, t: Trail, i: nat)
    requires Matches(g, targets, s, t) && i < |g| && i !in s.visited
    ensures Matches(g, targets, Begun(targets, s, i), Arrived(t, i))
  {
    hide Holds, Merge;
    OwnHeld(g, targets, t.merges, i);
  }

  lemma OwnHeld(g: Graph, targets: seq<GeneratorTarget>, order: seq<Merging>, i: nat)
    requires i < |targets| && forall j :: 0 <= j < |order| ==> order[j].at != i
    ensures Holds(g, targets, order, Merge(NO_EFFECTS, targets[i].own), i)
  {
    hide Handed;
    var e := Merge(NO_EFFECTS, targets[i].own);
    forall kind, t: nat
      ensures Has(e, kind, t) <==> Hands(g, targets, order, i, kind, t)
    {
      MergeHas(NO_EFFECTS, targets[i].own, kind, t);
      HandedNothing(g, order, i, i);
      forall w: nat | Handed(g, order, i, w)
        ensures w == i
      {
        HandedNothing(g, order, i, w);
      }
    }
  }

  lemma HeldMore(g: Graph, targets: seq<GeneratorTarget>, order: seq<Merging>, m: Merging, e: TargetSideEffects,
      d: TargetSideEffects, v: nat)
    requires Holds(g, targets, order, e, v)
    requires Into(g, m, v) ==> Holds(g, targets, order, d, g[v][m.edge].dest)
    ensures Holds(g, targets, order + [m], if Into(g, m, v) then Merge(e, d) else e, v)
  {
    hide Handed, Merge, Has;
    var f := if Into(g, m, v) then Merge(e, d) else e;
    forall kind, t: nat
      ensures Has(f, kind, t) <==> Hands(g, targets, order + [m], v, kind, t)
    {
      MergeHas(e, d, kind, t);
      forall w: nat
        ensures Handed(g, order + [m], v, w) <==>
          Handed(g, order, v, w) || (Into(g, m, v) && Handed(g, order, g[v][m.edge].dest, w))
      {
        HandedMore(g, order, m, v, w);
      }
    }
  }

  lemma MergedMatches(g: Graph, targets: seq<GeneratorTarget>, s: Collection, t: Trail, i: nat, k: nat)
    requires Matches(g, targets, s, t) && i < |g| && k < |g[i]| && i in s.visited && g[i][k].dest in s.visited
    ensures g[i][k].dest < |g|
    ensures Matches(g, targets, s.(record := s.record[i := Merge(s.record[i], s.record[g[i][k].dest])]),
              t.(merges := t.merges + [Merging(i, k)]))
  {
    hide Holds, Merge;
    var j := g[i][k].dest;
    EdgeAt(g, i, k);
    forall v: nat | v in s.visited && v < |g|
      ensures Holds(g, targets, t.merges + [Merging(i, k)],
                if v == i then Merge(s.record[i], s.record[j]) else s.record[v], v)
    {
      HeldMore(g, targets, t.merges, Merging(i, k), s.record[v], s.record[j], v);
    }
  }

  lemma {:induction false} CollectMatches(g: Graph, targets: seq<GeneratorTarget>, s: Collection, t: Trail, i: nat)
    requires Matches(g, targets, s, t) && i < |g|
    ensures Matches(g, targets, Collect(g, targets, s, i), Visit(g, t, i))
    decreases Unseen(|g|, s.visited), 0
  {
    hide Matches, Collect, CollectEach, Visit, VisitEach, Unseen;
    MatchesFits(g, targets, s, t);
    CollectUnfolds(g, targets, s, i);
    VisitUnfolds(g, t, i);
    if i !in s.visited {
      FewerUnseen(|g|, s.visited, s.visited + {i}, i);
      ArrivedMatches(g, targets, s, t, i);
      CollectEachMatches(g, targets, Begun(targets, s, i), Arrived(t, i), i, |g[i]|);
    }
  }

  lemma MatchesFits(g: Graph, targets: seq<GeneratorTarget>, s: Collection, t: Trail)
    requires Matches(g, targets, s, t)
    ensures Fits(g, targets, s) && s.visited == t.visited
  {
  }

  lemma {:induction false} CollectEachMatches(g: Graph, targets: seq<GeneratorTarget>, s: Collection, t: Trail,
      i: nat, k: nat)
    requires Matches(g, targets, s, t) && i < |g| && k <= |g[i]| && i in s.visited
    ensures Matches(g, targets, CollectEach(g, targets, s, i, k), VisitEach(g, t, i, k))
    decreases Unseen(|g|, s.visited), k + 1
  {
    hide Matches, Collect, Visit, Unseen, Merge;
    MatchesFits(g, targets, s, t);
    if k > 0 {
      CollectEachMatches(g, targets, s, t, i, k - 1);
      var s', t' := CollectEach(g, targets, s, i, k - 1), VisitEach(g, t, i, k - 1);
      EdgeAt(g, i, k - 1);
      NotMoreUnseen(|g|, s.visited, s'.visited);
      CollectMatches(g, targets, s', t', g[i][k - 1].dest);
      MergedMatches(g, targets, Collect(g, targets, s', g[i][k - 1].dest), Visit(g, t', g[i][k - 1].dest), i, k - 1);
    }
  }

  lemma {:induction false} CollectFirstMatches(g: Graph, targets: seq<GeneratorTarget>, n: nat)
    requires WellFormed(g) && |targets| == |g| && n <= |g|
    ensures Matches(g, targets, CollectFirst(g, targets, n), VisitFirst(g, n))
  {
    hide Collect, Visit, Holds;
    if n > 0 {
      CollectFirstMatches(g, targets, n - 1);
      CollectMatches(g, targets, CollectFirst(g, targets, n - 1), VisitFirst(g, n - 1), n - 1);
    }
  }

  /** A record has exactly the own effects of the targets handed on to it. */
  lemma RecordedExactly(g: Graph, targets: seq<GeneratorTarget>, v: nat)
    requires WellFormed(g) && |targets| == |g| && v < |g|
    ensures Holds(g, targets, MergeOrder(g), CollectFirst(g, targets, |g|).record[v], v)
  {
    hide Holds, CollectFirst, VisitFirst;
    CollectFirstMatches(g, targets, |g|);
    AllVisited(g, targets, v);
  }

  lemma AllVisited(g: Graph, targets: seq<GeneratorTarget>, v: nat)
    requires WellFormed(g) && |targets| == |g| && v < |g|
    ensures v in CollectFirst(g, targets, |g|).visited
  {
    hide Collecting;
    CollectFirstKeeps(g, targets, |g|);
  }

  /** Every effect that v reaches is handed on to it. */
  ghost predicate EffectsHanded(g: Graph, targets: seq<GeneratorTarget>, v: nat) {
    && WellFormed(g)
    && forall kind, t: nat :: ReachesEffect(g, targets, v, kind, t) ==> Hands(g, targets, MergeOrder(g), v, kind, t)
  }

  /** So it is complete exactly when every effect reached is one handed on. */
  lemma CompleteExactlyWhen(g: Graph, targets: seq<GeneratorTarget>, v: nat)
    requires WellFormed(g) && |targets| == |g| && v < |g|
    ensures Complete(g, targets, CollectFirst(g, targets, |g|).record[v], v) <==> EffectsHanded(g, targets, v)
  {
    hide CollectFirst, MergeOrder, Hands, ReachesEffect, Has;
    RecordedExactly(g, targets, v);
  }

  lemma CollectedCompletely(g: Graph, targets: seq<GeneratorTarget>)
    requires WellFormed(g) && |targets| == |g|
    ensures forall v: nat :: v < |g| ==>
      (Complete(g, targets, CollectFirst(g, targets, |g|).record[v], v) <==> EffectsHanded(g, targets, v))
  {
    hide CollectFirst, Complete, EffectsHanded;
    forall v: nat | v < |g|
      ensures Complete(g, targets, CollectFirst(g, targets, |g|).record[v], v) <==> EffectsHanded(g, targets, v)
    {
      CompleteExactlyWhen(g, targets, v);
    }
  }

  /** Everything that v reaches is handed on to it. */
  ghost predicate AllHanded(g: Graph, v: nat)
    requires WellFormed(g)
  {
    forall w: nat :: Reach(g, v, w) ==> Handed(g, MergeOrder(g), v, w)
  }

  /** The record of v is complete, whatever side effects the targets have. */
  ghost predicate AlwaysComplete(g: Graph, v: nat)
    requires WellFormed(g) && v < |g|
  {
    forall targets: seq<GeneratorTarget> {:trigger CollectFirst(g, targets, |g|)} :: |targets| == |g| ==>
      Complete(g, targets, CollectFirst(g, targets, |g|).record[v], v)
  }

  /** Targets of which only w has an effect, which is its own. */
  function OnlyEffect(n: nat, w: nat): seq<GeneratorTarget> {
    seq(n, x => GeneratorTarget(StaticLibrary, if x == w then TargetSideEffects({w}, map[]) else NO_EFFECTS, None, []))
  }

  /** Whether completeness can be relied on is a matter of the graph. */
  lemma AlwaysCompleteIs(g: Graph, v: nat)
    requires WellFormed(g) && v < |g|
    ensures AlwaysComplete(g, v) <==> AllHanded(g, v)
  {
    hide CollectFirst, MergeOrder, Handed, Reach, Complete;
    if AllHanded(g, v) {
      forall targets: seq<GeneratorTarget> | |targets| == |g|
        ensures Complete(g, targets, CollectFirst(g, targets, |g|).record[v], v)
      {
        HandedCompletes(g, targets, v);
      }
    }
    if AlwaysComplete(g, v) {
      forall w: nat | Reach(g, v, w)
        ensures Handed(g, MergeOrder(g), v, w)
      {
        ReachedInRange(g, v, w);
        var targets := OnlyEffect(|g|, w);
        assert Complete(g, targets, CollectFirst(g, targets, |g|).record[v], v);
        EffectHanded(g, targets, v, w);
      }
    }
  }

  lemma ReachedInRange(g: Graph, v: nat, w: nat)
    requires WellFormed(g) && Reach(g, v, w)
    ensures w < |g|
  {
    var n: nat :| ReachIn(g, v, w, n);
    ReachInRange(g, v, w, n);
  }

  lemma HandedCompletes(g: Graph, targets: seq<GeneratorTarget>, v: nat)
    requires WellFormed(g) && |targets| == |g| && v < |g| && AllHanded(g, v)
    ensures Complete(g, targets, CollectFirst(g, targets, |g|).record[v], v)
  {
    hide CollectFirst, MergeOrder, Handed, Reach, Has, Complete;
    CompleteExactlyWhen(g, targets, v);
    forall kind, t: nat | ReachesEffect(g, targets, v, kind, t)
      ensures Hands(g, targets, MergeOrder(g), v, kind, t)
    {
      var w: nat :| w < |targets| && Reach(g, v, w) && Has(targets[w].own, kind, t);
    }
  }

  lemma EffectHanded(g: Graph, targets: seq<GeneratorTarget>, v: nat, w: nat)
    requires WellFormed(g) && v < |g| && w < |g| && targets == OnlyEffect(|g|, w) && Reach(g, v, w)
    requires Complete(g, targets, CollectFirst(g, targets, |g|).record[v], v)
    ensures Handed(g, MergeOrder(g), v, w)
  {
    hide CollectFirst, MergeOrder, Handed, Reach, Complete;
    CompleteExactlyWhen(g, targets, v);
    assert Has(targets[w].own, Custom, w);
    assert ReachesEffect(g, targets, v, Custom, w);
    var x: nat :| x < |targets| && Handed(g, MergeOrder(g), v, x) && Has(targets[x].own, Custom, w);
  }

  /** A target whose cycles no earlier target gets to is handed everything. */
  lemma UndisturbedIsHanded(g: Graph, v: nat)
    requires WellFormed(g) && v < |g| && Undisturbed(g, v)
    ensures AllHanded(g, v)
  {
    hide AllHanded, Complete, Undisturbed, CollectFirst;
    forall targets: seq<GeneratorTarget> | |targets| == |g|
      ensures Complete(g, targets, CollectFirst(g, targets, |g|).record[v], v)
    {
      CompleteWhenUndisturbed(g, targets, v);
    }
    AlwaysCompleteIs(g, v);
  }

  lemma AcyclicIsHanded(g: Graph, v: nat)
    requires WellFormed(g) && v < |g| && Acyclic(g)
    ensures AllHanded(g, v)
  {
    hide AllHanded, Undisturbed;
    UndisturbedTargets(g, v);
    UndisturbedIsHanded(g, v);
  }

  /** On the graph on which an effect is lost, 2 is not handed on to 1. */
  lemma LostIsNotHanded(g: Graph)
    requires g == [[Link(1), Link(2)], [Link(0)], []]
    ensures Reach(g, 1, 2) && !Handed(g, MergeOrder(g), 1, 2)
  {
    hide MergeOrder, Handed, CollectFirst, Reach, Complete, Undisturbed;
    var targets := OnlyEffect(3, 2);
    EffectLost(g, targets);
    assert Reach(g, 1, 2) by {
      assert HasEdge(g, 1, 0) by { assert g[1][0].dest == 0; }
      assert HasEdge(g, 0, 2) by { assert g[0][1].dest == 2; }
      ReachEdge(g, 0, 2);
      ReachStep(g, 1, 0, 2);
    }
    if Handed(g, MergeOrder(g), 1, 2) {
      CompleteExactlyWhen(g, targets, 1);
      forall kind, t: nat | ReachesEffect(g, targets, 1, kind, t)
        ensures Hands(g, targets, MergeOrder(g), 1, kind, t)
      {
        var w: nat :| w < |targets| && Reach(g, 1, w) && Has(targets[w].own, kind, t);
        assert w == 2;
      }
      assert false;
    }
  }
}
