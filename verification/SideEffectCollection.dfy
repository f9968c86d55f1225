/** The depth-first collection of side effects as a function, and which targets it
    serves completely (CollectSideEffects in cmComputeTargetDepends). */
module SideEffectCollection {
  import opened Graphs
  import opened SideEffects

  /** What has been recorded, and for which targets a visit has begun. */
  datatype Collection = Collection(record: seq<TargetSideEffects>, visited: set<nat>)

  ghost predicate NotSeen(n: nat, visited: set<nat>, v: nat) {
    v < n && v !in visited
  }

  /** The vertices that remain. */
  ghost function Unseen(n: nat, visited: set<nat>): set<nat> {
    set v: nat | v < n && NotSeen(n, visited, v)
  }

  lemma FewerUnseen(n: nat, s: set<nat>, t: set<nat>, i: nat)
    requires i < n && i !in s && s + {i} <= t
    ensures Unseen(n, t) < Unseen(n, s)
  {
    assert NotSeen(n, s, i) && !NotSeen(n, t, i);
    assert i in Unseen(n, s) && i !in Unseen(n, t);
    forall v | v in Unseen(n, t)
      ensures v in Unseen(n, s)
    {
      assert v !in s;
    }
  }

  lemma EdgeAt(g: Graph, i: nat, k: nat)
    requires WellFormed(g) && i < |g| && k < |g[i]|
    ensures HasEdge(g, i, g[i][k].dest) && g[i][k].dest < |g|
  {
  }

  /** Everything that leads to i leads on to j. */
  lemma ReachOn(g: Graph, active: set<nat>, i: nat, j: nat)
    requires HasEdge(g, i, j) && j < |g| && forall a: nat :: a in active ==> Reach(g, a, i)
    ensures forall a: nat :: a in active + {i} ==> Reach(g, a, j)
  {
    hide Reach;
    ReachEdge(g, i, j);
    forall a: nat | a in active + {i}
      ensures Reach(g, a, j)
    {
      if a != i { ReachTrans(g, a, i, j); }
    }
  }

  /** The visit of i ends: i is complete unless it reaches a cycle. */
  lemma VisitOver(g: Graph, targets: seq<GeneratorTarget>, record: seq<TargetSideEffects>, visited: set<nat>,
      active: set<nat>, i: nat)
    requires Collecting(g, targets, record, visited, active + {i}) && i < |g|
    requires forall a: nat :: a in active ==> Reach(g, a, i)
    requires forall e :: 0 <= e < |g[i]| ==> g[i][e].dest in visited
    requires forall e :: 0 <= e < |g[i]| && g[i][e].dest !in active + {i} ==> Includes(record[i], record[g[i][e].dest])
    ensures Collecting(g, targets, record, visited, active)
  {
    hide Sound, Complete, Includes, Reach;
    assert i in active + {i};
    if CycleFree(g, i) {
      forall j: nat | HasEdge(g, i, j)
        ensures j < |g| && Includes(record[i], record[j]) && Complete(g, targets, record[j], j)
      {
        CycleFreeNext(g, i, j);
        ReachRefl(g, i);
        var e :| 0 <= e < |g[i]| && g[i][e].dest == j;
        assert j !in active + {i};
      }
      BecomesComplete(g, targets, record[i], i, record);
    }
  }

  ghost predicate Fits(g: Graph, targets: seq<GeneratorTarget>, s: Collection) {
    WellFormed(g) && |s.record| == |targets| == |g|
  }

  function Begun(targets: seq<GeneratorTarget>, s: Collection, i: nat): Collection
    requires i < |s.record| == |targets|
  {
    Collection(s.record[i := Merge(s.record[i], targets[i].own)], s.visited + {i})
  }

  /** The visit of i: nothing if it was visited before. */
  ghost function Collect(g: Graph, targets: seq<GeneratorTarget>, s: Collection, i: nat): (t: Collection)
    requires Fits(g, targets, s) && i < |g|
    ensures Fits(g, targets, t) && s.visited + {i} <= t.visited
    decreases Unseen(|g|, s.visited), 0
  {
    if i in s.visited then s
    else
      FewerUnseen(|g|, s.visited, s.visited + {i}, i);
      CollectEach(g, targets, Begun(targets, s, i), i, |g[i]|)
  }

  /** Along the first k edges of i: each end is visited and its record merged. */
  ghost function CollectEach(g: Graph, targets: seq<GeneratorTarget>, s: Collection, i: nat, k: nat): (t: Collection)
    requires Fits(g, targets, s) && i < |g| && k <= |g[i]|
    ensures Fits(g, targets, t) && s.visited <= t.visited
    decreases Unseen(|g|, s.visited), k + 1
  {
    if k == 0 then s
    else
      var t := CollectEach(g, targets, s, i, k - 1);
      var j := g[i][k - 1].dest;
      NotMoreUnseen(|g|, s.visited, t.visited);
      var u := Collect(g, targets, t, j);
      u.(record := u.record[i := Merge(u.record[i], u.record[j])])
  }

  lemma NotMoreUnseen(n: nat, s: set<nat>, t: set<nat>)
    requires s <= t
    ensures Unseen(n, t) == Unseen(n, s) || Unseen(n, t) < Unseen(n, s)
  {
    forall v | v in Unseen(n, t)
      ensures v in Unseen(n, s)
    {
      assert v !in s;
    }
  }

  lemma CollectUnfolds(g: Graph, targets: seq<GeneratorTarget>, s: Collection, i: nat)
    requires Fits(g, targets, s) && i < |g|
    ensures i in s.visited ==> Collect(g, targets, s, i) == s
    ensures i !in s.visited ==>
      Collect(g, targets, s, i) == CollectEach(g, targets, Begun(targets, s, i), i, |g[i]|)
    ensures CollectEach(g, targets, Begun(targets, s, i), i, 0) == Begun(targets, s, i)
  {
  }

  lemma CollectEachUnfolds(g: Graph, targets: seq<GeneratorTarget>, s: Collection, i: nat, k: nat)
    requires Fits(g, targets, s) && i < |g| && 0 < k <= |g[i]|
    ensures var t := CollectEach(g, targets, s, i, k - 1);
      var j := g[i][k - 1].dest;
      var u := Collect(g, targets, t, j);
      CollectEach(g, targets, s, i, k) == u.(record := u.record[i := Merge(u.record[i], u.record[j])])
  {
  }

  /** The first n targets have been visited, one after the other. */
  ghost function CollectFirst(g: Graph, targets: seq<GeneratorTarget>, n: nat): (t: Collection)
    requires WellFormed(g) && |targets| == |g| && n <= |g|
    ensures Fits(g, targets, t)
  {
    if n == 0 then Collection(seq(|g|, _ => NO_EFFECTS), {})
    else Collect(g, targets, CollectFirst(g, targets, n - 1), n - 1)
  }

  // ----- what is recorded

  /** The record while targets are being visited: active ones are incomplete. */
  ghost predicate Collecting(g: Graph, targets: seq<GeneratorTarget>, record: seq<TargetSideEffects>,
      visited: set<nat>, active: set<nat>) {
    && WellFormed(g) && |record| == |targets| == |g|
    && active <= visited
    && (forall v: nat :: v in visited ==>
        v < |g| && Sound(g, targets, record[v], v) && Includes(record[v], targets[v].own))
    && (forall v: nat :: v < |g| && v !in visited ==> record[v] == NO_EFFECTS)
    && (forall v: nat :: v in visited && v !in active && CycleFree(g, v) ==> Complete(g, targets, record[v], v))
  }

  lemma StartsSound(g: Graph, targets: seq<GeneratorTarget>, i: nat)
    requires WellFormed(g) && i < |targets| == |g|
    ensures var e := Merge(NO_EFFECTS, targets[i].own);
      Sound(g, targets, e, i) && Includes(e, targets[i].own)
  {
    var e := Merge(NO_EFFECTS, targets[i].own);
    forall kind, t: nat
      ensures Has(e, kind, t) <==> Has(targets[i].own, kind, t)
      ensures Has(e, kind, t) ==> ReachesEffect(g, targets, i, kind, t)
    {
      MergeHas(NO_EFFECTS, targets[i].own, kind, t);
      ReachRefl(g, i);
    }
  }

  lemma MergeSound(g: Graph, targets: seq<GeneratorTarget>, e: TargetSideEffects, d: TargetSideEffects, i: nat, j: nat)
    requires Sound(g, targets, e, i) && Sound(g, targets, d, j) && HasEdge(g, i, j)
    ensures Sound(g, targets, Merge(e, d), i)
    ensures Includes(Merge(e, d), e) && Includes(Merge(e, d), d)
  {
    forall kind, t: nat
      ensures Has(Merge(e, d), kind, t) ==> ReachesEffect(g, targets, i, kind, t)
      ensures Has(e, kind, t) || Has(d, kind, t) ==> Has(Merge(e, d), kind, t)
    {
      MergeHas(e, d, kind, t);
      if Has(d, kind, t) {
        assert ReachesEffect(g, targets, j, kind, t);
        var w: nat :| w < |targets| && Reach(g, j, w) && Has(targets[w].own, kind, t);
        ReachStep(g, i, j, w);
      }
    }
  }

  lemma IncludesTrans(a: TargetSideEffects, b: TargetSideEffects, c: TargetSideEffects)
    requires Includes(a, b) && Includes(b, c)
    ensures Includes(a, c)
  {
  }

  /** Visiting i is over: all it depends on directly is included. */
  lemma BecomesComplete(g: Graph, targets: seq<GeneratorTarget>, e: TargetSideEffects, i: nat,
      record: seq<TargetSideEffects>)
    requires |record| == |targets| == |g| && WellFormed(g) && i < |g|
    requires Includes(e, targets[i].own)
    requires forall j: nat :: HasEdge(g, i, j) ==>
      j < |g| && Includes(e, record[j]) && Complete(g, targets, record[j], j)
    ensures Complete(g, targets, e, i)
  {
    forall kind, t: nat | ReachesEffect(g, targets, i, kind, t)
      ensures Has(e, kind, t)
    {
      var w: nat :| w < |targets| && Reach(g, i, w) && Has(targets[w].own, kind, t);
      var n: nat :| ReachIn(g, i, w, n);
      if n > 0 {
        var j: nat :| HasEdge(g, i, j) && ReachIn(g, j, w, n - 1);
        assert Reach(g, j, w);
        assert ReachesEffect(g, targets, j, kind, t);
      }
    }
  }

  lemma CycleFreeNext(g: Graph, i: nat, j: nat)
    requires CycleFree(g, i) && HasEdge(g, i, j)
    ensures CycleFree(g, j)
    ensures !Reach(g, j, i)
  {
    forall w: nat, n: nat | 0 < n && Reach(g, j, w)
      ensures !ReachIn(g, w, w, n)
    {
      ReachStep(g, i, j, w);
    }
    if Reach(g, j, i) {
      var n: nat :| ReachIn(g, j, i, n);
      RoundTrip(g, i, j, n);
      assert false;
    }
  }

  lemma RoundTrip(g: Graph, i: nat, j: nat, n: nat)
    requires HasEdge(g, i, j) && ReachIn(g, j, i, n)
    ensures ReachIn(g, i, i, n + 1) && Reach(g, i, i)
  {
    assert ReachIn(g, i, i, 0);
  }

  /** What a visit of i leaves: the invariant, and all that was recorded before. */
  ghost predicate Visited(g: Graph, targets: seq<GeneratorTarget>, s: Collection, t: Collection, active: set<nat>) {
    && Collecting(g, targets, t.record, t.visited, active)
    && |s.record| == |t.record| && forall v: nat :: v in s.visited && v < |s.record| ==> t.record[v] == s.record[v]
  }

  /** What i has of its first k edges. */
  ghost predicate Merged(g: Graph, t: Collection, active: set<nat>, i: nat, k: nat)
    requires i < |g| == |t.record| && k <= |g[i]|
  {
    forall e :: 0 <= e < k ==>
      && g[i][e].dest < |g| && g[i][e].dest in t.visited
      && (g[i][e].dest !in active ==> Includes(t.record[i], t.record[g[i][e].dest]))
  }

  lemma {:induction false} CollectKeeps(g: Graph, targets: seq<GeneratorTarget>, s: Collection, i: nat,
      active: set<nat>)
    requires i < |g| && Collecting(g, targets, s.record, s.visited, active)
    requires forall a: nat :: a in active ==> Reach(g, a, i)
    ensures Fits(g, targets, s) && Visited(g, targets, s, Collect(g, targets, s, i), active)
    decreases Unseen(|g|, s.visited), 0
  {
    hide Sound, Complete, CycleFree, Includes, Reach, Collect, CollectEach, Unseen, Merged;
    CollectUnfolds(g, targets, s, i);
    if i !in s.visited {
      FewerUnseen(|g|, s.visited, s.visited + {i}, i);
      CollectEachKeeps(g, targets, s, i, |g[i]|, active);
      var t := CollectEach(g, targets, Begun(targets, s, i), i, |g[i]|);
      MergedEdges(g, t, active + {i}, i);
      VisitOver(g, targets, t.record, t.visited, active, i);
    }
  }

  lemma MergedEdges(g: Graph, t: Collection, active: set<nat>, i: nat)
    requires i < |g| == |t.record| && Merged(g, t, active, i, |g[i]|)
    ensures forall e :: 0 <= e < |g[i]| ==> g[i][e].dest in t.visited
    ensures forall e :: 0 <= e < |g[i]| && g[i][e].dest !in active ==>
      g[i][e].dest < |g| && Includes(t.record[i], t.record[g[i][e].dest])
  {
  }

  lemma {:induction false} CollectEachKeeps(g: Graph, targets: seq<GeneratorTarget>, s: Collection, i: nat, k: nat,
      active: set<nat>)
    requires i < |g| && k <= |g[i]| && i !in s.visited && Collecting(g, targets, s.record, s.visited, active)
    requires forall a: nat :: a in active ==> Reach(g, a, i)
    ensures Fits(g, targets, Begun(targets, s, i))
    ensures var t := CollectEach(g, targets, Begun(targets, s, i), i, k);
      Visited(g, targets, s, t, active + {i}) && Merged(g, t, active + {i}, i, k)
    decreases Unseen(|g|, s.visited + {i}), k + 1
  {
    hide Sound, Complete, CycleFree, Includes, Reach, Collect, CollectEach, Unseen, Merge, Merged;
    var s1 := Begun(targets, s, i);
    CollectUnfolds(g, targets, s, i);
    if k == 0 {
      StartsSound(g, targets, i);
      NothingMerged(g, s1, active + {i}, i);
    } else {
      CollectEachKeeps(g, targets, s, i, k - 1, active);
      CollectEachUnfolds(g, targets, s1, i, k);
      var t := CollectEach(g, targets, s1, i, k - 1);
      var j := g[i][k - 1].dest;
      EdgeAt(g, i, k - 1);
      ReachOn(g, active, i, j);
      NotMoreUnseen(|g|, s.visited + {i}, t.visited);
      CollectKeeps(g, targets, t, j, active + {i});
      MergeNext(g, targets, t, Collect(g, targets, t, j), active + {i}, i, k - 1);
    }
  }

  lemma NothingMerged(g: Graph, t: Collection, active: set<nat>, i: nat)
    requires i < |g| == |t.record|
    ensures Merged(g, t, active, i, 0)
  {
  }

  lemma MergeNext(g: Graph, targets: seq<GeneratorTarget>, t: Collection, u: Collection, active: set<nat>, i: nat,
      k: nat)
    requires i < |g| && k < |g[i]| && i in active && |t.record| == |g| && Merged(g, t, active, i, k)
    requires Visited(g, targets, t, u, active) && i in t.visited && g[i][k].dest in u.visited && t.visited <= u.visited
    ensures g[i][k].dest < |g|
    ensures var w := u.(record := u.record[i := Merge(u.record[i], u.record[g[i][k].dest])]);
      && Collecting(g, targets, w.record, w.visited, active) && Merged(g, w, active, i, k + 1)
      && forall v: nat :: v in t.visited && v != i ==> w.record[v] == t.record[v]
  {
    hide Sound, Complete, CycleFree, Includes, Reach, Merge;
    var j := g[i][k].dest;
    EdgeAt(g, i, k);
    MergeSound(g, targets, u.record[i], u.record[j], i, j);
    var w := u.(record := u.record[i := Merge(u.record[i], u.record[j])]);
    IncludesTrans(w.record[i], u.record[i], targets[i].own);
    forall e | 0 <= e < k && g[i][e].dest !in active
      ensures Includes(w.record[i], w.record[g[i][e].dest])
    {
      IncludesTrans(w.record[i], u.record[i], u.record[g[i][e].dest]);
    }
  }

  lemma {:induction false} CollectFirstKeeps(g: Graph, targets: seq<GeneratorTarget>, n: nat)
    requires WellFormed(g) && |targets| == |g| && n <= |g|
    ensures var t := CollectFirst(g, targets, n);
      Collecting(g, targets, t.record, t.visited, {}) && forall v: nat :: v < n ==> v in t.visited
  {
    hide Sound, Complete, CycleFree, Includes;
    if n > 0 {
      CollectFirstKeeps(g, targets, n - 1);
      CollectKeeps(g, targets, CollectFirst(g, targets, n - 1), n - 1, {});
    }
  }

  // ----- completeness in spite of cycles

  /** What i has of a vertex x newly visited: its own effects, and all recorded for the
      ends of its edges that were finished before. */
  ghost predicate GatheredFrom(g: Graph, targets: seq<GeneratorTarget>, t: Collection, before: set<nat>,
      active: set<nat>, i: nat, x: nat)
    requires i < |g| == |t.record| == |targets|
  {
    && x < |g| && Reach(g, i, x) && Includes(t.record[i], targets[x].own)
    && forall y: nat :: HasEdge(g, x, y) ==>
         y < |g| && y in t.visited && (y in before && y !in active ==> Includes(t.record[i], t.record[y]))
  }

  /** The visit of i has gathered from all it has newly visited, but not yet from other. */
  ghost predicate Gathered(g: Graph, targets: seq<GeneratorTarget>, t: Collection, before: set<nat>, active: set<nat>,
      i: nat, other: set<nat>)
    requires i < |g| == |t.record| == |targets|
  {
    forall x: nat :: x in t.visited && x !in before && x !in other ==> GatheredFrom(g, targets, t, before, active, i, x)
  }

  lemma {:induction false} CollectGathers(g: Graph, targets: seq<GeneratorTarget>, s: Collection, i: nat,
      active: set<nat>)
    requires i < |g| && i !in s.visited && Collecting(g, targets, s.record, s.visited, active)
    requires forall a: nat :: a in active ==> Reach(g, a, i)
    ensures Fits(g, targets, s) && Gathered(g, targets, Collect(g, targets, s, i), s.visited, active, i, {})
    decreases Unseen(|g|, s.visited), 0
  {
    hide Sound, Complete, CycleFree, Includes, Reach, Collect, CollectEach, Unseen, GatheredFrom;
    CollectUnfolds(g, targets, s, i);
    FewerUnseen(|g|, s.visited, s.visited + {i}, i);
    CollectEachKeeps(g, targets, s, i, |g[i]|, active);
    CollectEachGathers(g, targets, s, i, |g[i]|, active);
    GatheredSelf(g, targets, Collect(g, targets, s, i), s.visited, active, i);
  }

  lemma GatheredSelf(g: Graph, targets: seq<GeneratorTarget>, t: Collection, before: set<nat>, active: set<nat>, i: nat)
    requires i < |g| && i !in before && i in t.visited && Collecting(g, targets, t.record, t.visited, active + {i})
    requires Merged(g, t, active + {i}, i, |g[i]|)
    ensures GatheredFrom(g, targets, t, before, active, i, i)
  {
    hide Sound, Complete, CycleFree, Includes, Reach;
    ReachRefl(g, i);
  }

  lemma {:induction false} CollectEachGathers(g: Graph, targets: seq<GeneratorTarget>, s: Collection, i: nat, k: nat,
      active: set<nat>)
    requires i < |g| && k <= |g[i]| && i !in s.visited && Collecting(g, targets, s.record, s.visited, active)
    requires forall a: nat :: a in active ==> Reach(g, a, i)
    ensures Fits(g, targets, Begun(targets, s, i))
    ensures Gathered(g, targets, CollectEach(g, targets, Begun(targets, s, i), i, k), s.visited, active, i, {i})
    decreases Unseen(|g|, s.visited + {i}), k + 1
  {
    hide Sound, Complete, CycleFree, Includes, Reach, Collect, CollectEach, Unseen, GatheredFrom, Merge, Merged;
    var s1 := Begun(targets, s, i);
    CollectUnfolds(g, targets, s, i);
    if k > 0 {
      CollectEachGathers(g, targets, s, i, k - 1, active);
      CollectEachKeeps(g, targets, s, i, k - 1, active);
      CollectEachUnfolds(g, targets, s1, i, k);
      var t := CollectEach(g, targets, s1, i, k - 1);
      var j := g[i][k - 1].dest;
      EdgeAt(g, i, k - 1);
      ReachOn(g, active, i, j);
      NotMoreUnseen(|g|, s.visited + {i}, t.visited);
      CollectKeeps(g, targets, t, j, active + {i});
      var u := Collect(g, targets, t, j);
      if j in t.visited {
        CollectUnfolds(g, targets, t, j);
      } else {
        CollectGathers(g, targets, t, j, active + {i});
      }
      GatherNext(g, targets, t, u, s.visited, active, i, j);
    }
  }

  lemma GatherNext(g: Graph, targets: seq<GeneratorTarget>, t: Collection, u: Collection, before: set<nat>,
      active: set<nat>, i: nat, j: nat)
    requires |t.record| == |g| == |targets| && i < |g| && j < |g| && HasEdge(g, i, j)
    requires i in t.visited && i !in before && before <= t.visited <= u.visited && j in u.visited
    requires Visited(g, targets, t, u, active + {i}) && Gathered(g, targets, t, before, active, i, {i})
    requires if j in t.visited then u == t else Gathered(g, targets, u, t.visited, active + {i}, j, {})
    ensures var w := u.(record := u.record[i := Merge(u.record[i], u.record[j])]);
      Gathered(g, targets, w, before, active, i, {i})
  {
    hide Sound, Complete, CycleFree, Includes, Reach, Merge;
    var w := u.(record := u.record[i := Merge(u.record[i], u.record[j])]);
    MergeSound(g, targets, u.record[i], u.record[j], i, j);
    forall x: nat | x in w.visited && x !in before && x != i
      ensures GatheredFrom(g, targets, w, before, active, i, x)
    {
      var from := if x in t.visited then i else j;
      if x in t.visited {
        assert GatheredFrom(g, targets, t, before, active, i, x);
      } else {
        assert GatheredFrom(g, targets, u, t.visited, active + {i}, j, x);
        ReachStep(g, i, j, x);
      }
      IncludesTrans(w.record[i], u.record[from], targets[x].own);
      forall y: nat | HasEdge(g, x, y) && y in before && y !in active
        ensures Includes(w.record[i], w.record[y])
      {
        IncludesTrans(w.record[i], u.record[from], u.record[y]);
      }
    }
  }

  /** All that the first n visits have visited is reached from the targets visited. */
  lemma {:induction false} VisitedIsReached(g: Graph, targets: seq<GeneratorTarget>, n: nat, v: nat) returns (u: nat)
    requires WellFormed(g) && |targets| == |g| && n <= |g| && v in CollectFirst(g, targets, n).visited
    ensures u < n && Reach(g, u, v)
  {
    hide Reach, Collect;
    var s := CollectFirst(g, targets, n - 1);
    CollectFirstKeeps(g, targets, n - 1);
    if v in s.visited {
      u := VisitedIsReached(g, targets, n - 1, v);
    } else {
      CollectUnfolds(g, targets, s, n - 1);
      CollectGathers(g, targets, s, n - 1, {});
      assert GatheredFrom(g, targets, CollectFirst(g, targets, n), s.visited, {}, n - 1, v);
      u := n - 1;
    }
  }

  ghost predicate OnCycle(g: Graph, w: nat) {
    exists n: nat :: 0 < n && ReachIn(g, w, w, n)
  }

  /** No target with a lower index gets to a cycle that v reaches. */
  ghost predicate Undisturbed(g: Graph, v: nat) {
    forall u: nat, w: nat :: u < v && Reach(g, v, w) && OnCycle(g, w) ==> !Reach(g, u, w)
  }

  /** A target that was finished before the visit of v, and is reached from it, reaches
      no cycle. */
  lemma FinishedIsCycleFree(g: Graph, u: nat, v: nat, y: nat)
    requires Undisturbed(g, v) && u < v && Reach(g, u, y) && Reach(g, v, y)
    ensures CycleFree(g, y)
  {
    hide Reach;
    forall w: nat, n: nat | 0 < n && Reach(g, y, w)
      ensures !ReachIn(g, w, w, n)
    {
      ReachTrans(g, u, y, w);
      ReachTrans(g, v, y, w);
      assert !OnCycle(g, w);
    }
  }

  /** Whatever the visit of v comes to, its own effects are gathered for v. */
  lemma {:induction false} GatheredOnWalk(g: Graph, targets: seq<GeneratorTarget>, s: Collection, t: Collection,
      v: nat, x: nat, z: nat, n: nat)
    requires v < |g| && Collecting(g, targets, s.record, s.visited, {}) && Visited(g, targets, s, t, {})
    requires Gathered(g, targets, t, s.visited, {}, v, {}) && x in t.visited && x !in s.visited && ReachIn(g, x, z, n)
    requires forall y: nat :: y in s.visited && Reach(g, v, y) ==> CycleFree(g, y)
    ensures z < |g| && Includes(t.record[v], targets[z].own)
    decreases n
  {
    hide Sound, CycleFree, Reach;
    assert GatheredFrom(g, targets, t, s.visited, {}, v, x);
    if n > 0 {
      var y: nat :| HasEdge(g, x, y) && ReachIn(g, y, z, n - 1);
      if y in s.visited {
        assert Reach(g, v, y) by { ReachEdge(g, x, y); ReachTrans(g, v, x, y); }
        ReachInRange(g, y, z, n - 1);
        CompleteIncludes(g, targets, s.record[y], y, z, n - 1);
        IncludesTrans(t.record[v], t.record[y], targets[z].own);
      } else {
        GatheredOnWalk(g, targets, s, t, v, y, z, n - 1);
      }
    }
  }

  lemma CompleteIncludes(g: Graph, targets: seq<GeneratorTarget>, e: TargetSideEffects, y: nat, z: nat, n: nat)
    requires Complete(g, targets, e, y) && ReachIn(g, y, z, n) && z < |targets|
    ensures Includes(e, targets[z].own)
  {
    assert Reach(g, y, z);
    forall kind, t: nat | Has(targets[z].own, kind, t)
      ensures Has(e, kind, t)
    {
      assert ReachesEffect(g, targets, y, kind, t);
    }
  }

  /** Records are complete also for a target that reaches cycles, when no target with a
      lower index gets to one of them; so always for the first target. */
  lemma CompleteWhenUndisturbed(g: Graph, targets: seq<GeneratorTarget>, v: nat)
    requires WellFormed(g) && |targets| == |g| && v < |g| && Undisturbed(g, v)
    ensures Complete(g, targets, CollectFirst(g, targets, |g|).record[v], v)
  {
    hide Complete, Sound, Collect, CycleFree, Reach, Undisturbed;
    CollectFirstKeeps(g, targets, |g|);
    if !CycleFree(g, v) {
      var s := CollectFirst(g, targets, v);
      CollectFirstKeeps(g, targets, v);
      forall y: nat | y in s.visited && Reach(g, v, y)
        ensures CycleFree(g, y)
      {
        var u := VisitedIsReached(g, targets, v, y);
        FinishedIsCycleFree(g, u, v, y);
      }
      ReachRefl(g, v);
      CollectKeeps(g, targets, s, v, {});
      CollectGathers(g, targets, s, v, {});
      var t := Collect(g, targets, s, v);
      RootIsComplete(g, targets, s, t, v);
      RecordStays(g, targets, v + 1, |g|, v);
    }
  }

  lemma RootIsComplete(g: Graph, targets: seq<GeneratorTarget>, s: Collection, t: Collection, v: nat)
    requires v < |g| == |targets| == |t.record| && v !in s.visited && v in t.visited
    requires Collecting(g, targets, s.record, s.visited, {}) && Visited(g, targets, s, t, {})
    requires Gathered(g, targets, t, s.visited, {}, v, {})
    requires forall y: nat :: y in s.visited && Reach(g, v, y) ==> CycleFree(g, y)
    ensures Complete(g, targets, t.record[v], v)
  {
    hide Sound, CycleFree, Includes, Gathered, Collecting, Visited;
    forall kind, e: nat | ReachesEffect(g, targets, v, kind, e)
      ensures Has(t.record[v], kind, e)
    {
      var w: nat :| w < |targets| && Reach(g, v, w) && Has(targets[w].own, kind, e);
      var n: nat :| ReachIn(g, v, w, n);
      GatheredOnWalk(g, targets, s, t, v, v, w, n);
      HasIncluded(t.record[v], targets[w].own, kind, e);
    }
  }

  lemma HasIncluded(e: TargetSideEffects, d: TargetSideEffects, kind: Kind, t: nat)
    requires Includes(e, d) && Has(d, kind, t)
    ensures Has(e, kind, t)
  {
  }

  lemma {:induction false} RecordStays(g: Graph, targets: seq<GeneratorTarget>, m: nat, n: nat, v: nat)
    requires WellFormed(g) && |targets| == |g| && v < |g| && m <= n <= |g| && v in CollectFirst(g, targets, m).visited
    ensures v in CollectFirst(g, targets, n).visited
    ensures CollectFirst(g, targets, n).record[v] == CollectFirst(g, targets, m).record[v]
  {
    hide Collect, Sound, Complete, CycleFree;
    if m < n {
      RecordStays(g, targets, m, n - 1, v);
      CollectFirstKeeps(g, targets, n - 1);
      CollectKeeps(g, targets, CollectFirst(g, targets, n - 1), n - 1, {});
    }
  }

  /** Every record is sound, and complete for undisturbed targets. */
  lemma CollectedIsRight(g: Graph, targets: seq<GeneratorTarget>)
    requires WellFormed(g) && |targets| == |g|
    ensures var record := CollectFirst(g, targets, |g|).record;
      && (forall v: nat :: v < |g| ==> Sound(g, targets, record[v], v))
      && (forall v: nat :: v < |g| && Undisturbed(g, v) ==> Complete(g, targets, record[v], v))
  {
    hide Sound, Complete, CycleFree, Undisturbed;
    CollectFirstKeeps(g, targets, |g|);
    forall v: nat | v < |g| && Undisturbed(g, v)
      ensures Complete(g, targets, CollectFirst(g, targets, |g|).record[v], v)
    {
      CompleteWhenUndisturbed(g, targets, v);
    }
  }

  /** A target that reaches no cycle is undisturbed, and so is the first target. */
  lemma UndisturbedTargets(g: Graph, v: nat)
    ensures CycleFree(g, v) || v == 0 ==> Undisturbed(g, v)
  {
    forall w: nat | CycleFree(g, v) && Reach(g, v, w)
      ensures !OnCycle(g, w)
    {
    }
  }

  /** Without cycles exactly the effects of all targets reached are recorded. */
  lemma AcyclicIsExact(g: Graph, targets: seq<GeneratorTarget>, v: nat, kind: Kind, t: nat)
    requires WellFormed(g) && |targets| == |g| && v < |g| && Acyclic(g)
    ensures Has(CollectFirst(g, targets, |g|).record[v], kind, t) <==> ReachesEffect(g, targets, v, kind, t)
  {
    hide Collect, CollectFirst, ReachesEffect, Has, Undisturbed;
    CollectedIsRight(g, targets);
    UndisturbedTargets(g, v);
  }

  function Link(dest: nat): Edge {
    Edge(dest, false, false, NoTrace)
  }

  /** On other cycles effects are lost: here 1 is finished before 0, which it depends
      on, has been to 2. */
  lemma EffectLost(g: Graph, targets: seq<GeneratorTarget>)
    requires g == [[Link(1), Link(2)], [Link(0)], []] && |targets| == 3
    requires targets[0].own == targets[1].own == NO_EFFECTS && targets[2].own == TargetSideEffects({2}, map[])
    ensures !Complete(g, targets, CollectFirst(g, targets, |g|).record[1], 1) && !Undisturbed(g, 1)
  {
    hide Collect, CollectEach, Complete, Sound, CycleFree, Reach;
    var s := CollectFirst(g, targets, 0);
    var s0 := Begun(targets, s, 0);
    var s1 := Begun(targets, s0, 1);
    CollectUnfolds(g, targets, s, 0);
    CollectUnfolds(g, targets, s0, 1);
    CollectUnfolds(g, targets, s1, 0);
    CollectEachUnfolds(g, targets, s1, 1, 1);
    CollectEachUnfolds(g, targets, s0, 0, 1);
    CollectEachUnfolds(g, targets, s0, 0, 2);
    var t := CollectEach(g, targets, s0, 0, 1);
    assert 1 in t.visited && !Has(t.record[1], Custom, 2);
    ReachRefl(g, 0);
    CollectFirstKeeps(g, targets, 0);
    CollectEachKeeps(g, targets, s, 0, 1, {});
    assert HasEdge(g, 0, 2) by { assert g[0][1].dest == 2; }
    assert HasEdge(g, 0, 1) by { assert g[0][0].dest == 1; }
    assert HasEdge(g, 1, 0) by { assert g[1][0].dest == 0; }
    ReachOn(g, {}, 0, 2);
    CollectKeeps(g, targets, t, 2, {0});
    assert CollectFirst(g, targets, 1) == Collect(g, targets, s, 0);
    RecordStays(g, targets, 1, 3, 1);
    EffectReached(g, targets);
  }

  lemma EffectReached(g: Graph, targets: seq<GeneratorTarget>)
    requires |g| == |targets| == 3 && HasEdge(g, 0, 1) && HasEdge(g, 1, 0) && HasEdge(g, 0, 2)
    requires Has(targets[2].own, Custom, 2)
    ensures ReachesEffect(g, targets, 1, Custom, 2) && !Undisturbed(g, 1)
    ensures forall e: TargetSideEffects :: Complete(g, targets, e, 1) ==> Has(e, Custom, 2)
  {
    ReachEdge(g, 0, 2);
    ReachStep(g, 1, 0, 2);
    ReachEdge(g, 1, 0);
    ReachRefl(g, 0);
    assert ReachIn(g, 0, 0, 0);
    assert ReachIn(g, 1, 0, 1);
    assert ReachIn(g, 0, 0, 2);
    assert OnCycle(g, 0);
  }
}
