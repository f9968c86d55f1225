/** The numbering of components from the end keeps the order of the edges of a component,
    and the order in which entries were given (cmComputeLinkDepends). */
module SuccessorOrder {
  import opened Graphs
  import opened Sorting
  import opened TarjanWalk
  import opened DiscoveryOrder
  import opened Condensation
  import opened TopologicalOrder

  /** b is in the list before a, if a is there at all. */
  ghost predicate Before(s: seq<nat>, b: nat, a: nat) {
    exists p :: 0 <= p < |s| && s[p] == b && a !in s[..p]
  }

  lemma BeforeGrows(s: seq<nat>, t: seq<nat>, b: nat, a: nat)
    requires s <= t && Before(s, b, a)
    ensures Before(t, b, a)
  {
    var p :| 0 <= p < |s| && s[p] == b && a !in s[..p];
    assert t[..p] == s[..p];
  }

  lemma InListBefore(s: seq<nat>, b: nat, a: nat)
    requires b in s && a !in s
    ensures Before(s, b, a)
  {
    var p :| 0 <= p < |s| && s[p] == b;
    assert forall q :: q in s[..p] ==> q in s;
  }

  // ----- what the numbering promises

  /** No end of an edge of x from k on leads, round x, to the end of edge j. */
  ghost predicate Behind(g: Graph, x: nat, j: nat, k: nat) {
    && x < |g| && j < k < |g[x]|
    && forall m: nat :: k <= m < |g[x]| ==> !Avoids(g, x, g[x][m].dest, g[x][j].dest)
  }

  /** Whatever gets to a without x is lower than something that gets to x. */
  ghost predicate EnteredLast(g: Graph, x: nat, a: nat) {
    exists r: nat :: r < |g| && Reach(g, r, x) && forall w: nat :: Avoids(g, x, w, a) ==> w < r
  }

  ghost predicate SuccessorsInOrder(g: Graph, order: seq<int>) {
    && Falls(g) && |order| == |g|
    && forall x: nat, j: nat, k: nat :: Behind(g, x, j, k) && EnteredLast(g, x, g[x][j].dest) ==>
         order[g[x][j].dest] < order[g[x][k].dest]
  }

  // ----- one visit

  lemma {:induction false} FinishedClosed(g: Graph, done: seq<nat>, u: nat, v: nat, n: nat)
    requires Finished(g, done) && u in done && ReachIn(g, u, v, n)
    ensures v in done
    decreases n
  {
    if n > 0 {
      var w: nat :| HasEdge(g, u, w) && ReachIn(g, w, v, n - 1);
      EdgeInside(g, done, u, w);
      FinishedClosed(g, done, w, v, n - 1);
    }
  }

  lemma EdgeInside(g: Graph, done: seq<nat>, u: nat, w: nat)
    requires Finished(g, done) && u in done && HasEdge(g, u, w)
    ensures w in done
  {
    var a :| 0 <= a < |done| && done[a] == u;
    var k :| 0 <= k < |g[u]| && g[u][k].dest == w;
    assert DestsIn(g[done[a]], done[..a]);
    assert g[u][k].dest in done[..a];
  }

  /** A walk from a listed vertex does not meet one that is not listed. */
  lemma {:induction false} ListedAvoids(g: Graph, done: seq<nat>, x: nat, u: nat, v: nat, n: nat)
    requires Finished(g, done) && u in done && x !in done && ReachIn(g, u, v, n)
    ensures AvoidsIn(g, x, u, v, n)
    decreases n
  {
    if n > 0 {
      var w: nat :| HasEdge(g, u, w) && ReachIn(g, w, v, n - 1);
      EdgeInside(g, done, u, w);
      ListedAvoids(g, done, x, w, v, n - 1);
    }
  }

  lemma ListedReach(g: Graph, done: seq<nat>, x: nat, u: nat, v: nat)
    requires Finished(g, done) && u in done && Reach(g, u, v)
    ensures v in done
    ensures x !in done ==> Avoids(g, x, u, v)
  {
    var n: nat :| ReachIn(g, u, v, n);
    FinishedClosed(g, done, u, v, n);
    if x !in done { ListedAvoids(g, done, x, u, v, n); }
  }

  /** Nothing that gets to a without x has been listed. */
  ghost predicate Unlisted(g: Graph, done: seq<nat>, x: nat, a: nat) {
    forall w: nat :: Avoids(g, x, w, a) ==> w !in done
  }

  /** What a visit of d lists leads from d, round all that is still not listed. */
  lemma NewlyListed(g: Graph, done: seq<nat>, out: seq<nat>, d: nat, x: nat, v: nat)
    requires Grown(g, done, out, d) && d in out && x !in out && v in out && v !in done
    ensures Avoids(g, x, d, v)
  {
    hide Avoids;
    var p :| 0 <= p < |out| && out[p] == v;
    assert |done| <= p;
    ListedReach(g, out, x, d, v);
  }

  lemma StillUnlisted(g: Graph, done: seq<nat>, out: seq<nat>, d: nat, x: nat, a: nat)
    requires Grown(g, done, out, d) && d in out && x !in out && Unlisted(g, done, x, a) && !Avoids(g, x, d, a)
    ensures Unlisted(g, out, x, a)
  {
    hide Avoids, Grown;
    forall w: nat | Avoids(g, x, w, a)
      ensures w !in out
    {
      if w in out {
        NewlyListed(g, done, out, d, x, w);
        AvoidsTrans(g, x, d, w, a);
      }
    }
  }

  /** x is listed with the ends of its edges in order, if it comes to be listed. */
  ghost predicate ListedInOrder(g: Graph, done: seq<nat>, out: seq<nat>, x: nat, c: nat) {
    forall j: nat, k: nat ::
      (Behind(g, x, j, k) && Unlisted(g, done, x, g[x][j].dest) && !Avoids(g, x, c, g[x][j].dest)) ==>
        Before(out, g[x][k].dest, g[x][j].dest)
  }

  lemma {:induction false} VisitOrder(g: Graph, done: seq<nat>, c: nat, x: nat)
    requires Falls(g) && c < |g| && Finished(g, done) && x !in done && x in PostOrder(g, done, c)
    ensures ListedInOrder(g, done, PostOrder(g, done, c), x, c)
    decreases c, |g[c]| + 1
  {
    hide Avoids, Unlisted, Before, Finished, Grown, PostOrderEach;
    if c !in done {
      var out := PostOrderEach(g, done, c, |g[c]|);
      forall j: nat, k: nat |
          Behind(g, x, j, k) && Unlisted(g, done, x, g[x][j].dest) && !Avoids(g, x, c, g[x][j].dest)
        ensures Before(out + [c], g[x][k].dest, g[x][j].dest)
      {
        if x == c {
          AvoidsEnd(g, x, j);
          UnlistedItself(g, done, x, g[x][j].dest);
          OwnOrder(g, done, c, |g[c]|, j, k);
        } else {
          EachOrder(g, done, c, |g[c]|, x, j, k);
        }
        BeforeGrows(out, out + [c], g[x][k].dest, g[x][j].dest);
      }
    }
  }

  lemma AvoidsEnd(g: Graph, x: nat, j: nat)
    requires Falls(g) && x < |g| && j < |g[x]|
    ensures Avoids(g, x, g[x][j].dest, g[x][j].dest)
  {
    AvoidsSelf(g, x, g[x][j].dest);
  }

  lemma UnlistedItself(g: Graph, done: seq<nat>, x: nat, a: nat)
    requires Unlisted(g, done, x, a) && Avoids(g, x, a, a)
    ensures a !in done
  {
  }

  lemma MidOfEach(g: Graph, done: seq<nat>, c: nat, k: nat)
    requires Falls(g) && c < |g| && 0 < k <= |g[c]| && Finished(g, done) && c !in done
    ensures var d := g[c][k - 1].dest;
      var mid := PostOrder(g, done, d);
      && HasEdge(g, c, d) && d < c && Grown(g, done, mid, d) && d in mid && c !in mid && Finished(g, mid)
      && PostOrderEach(g, done, c, k) == PostOrderEach(g, mid, c, k - 1)
      && mid <= PostOrderEach(g, done, c, k)
  {
    hide PostOrder, Reach;
    var d := g[c][k - 1].dest;
    PostOrderGrows(g, done, d);
    PostOrderEachGrows(g, PostOrder(g, done, d), c, k - 1);
  }

  /** Of its own edges c takes the later ones first. */
  lemma {:induction false} OwnOrder(g: Graph, done: seq<nat>, c: nat, n: nat, j: nat, k: nat)
    requires Falls(g) && c < |g| && Finished(g, done) && c !in done && j < k < n <= |g[c]| && g[c][j].dest !in done
    requires forall m: nat :: k <= m < n ==> !Avoids(g, c, g[c][m].dest, g[c][j].dest)
    ensures Before(PostOrderEach(g, done, c, n), g[c][k].dest, g[c][j].dest)
    decreases n
  {
    hide Avoids, Before, Finished, Grown, PostOrder, PostOrderEach;
    var d := g[c][n - 1].dest;
    var mid := PostOrder(g, done, d);
    MidOfEach(g, done, c, n);
    if g[c][j].dest in mid { NewlyListed(g, done, mid, d, c, g[c][j].dest); }
    if k == n - 1 {
      InListBefore(mid, g[c][k].dest, g[c][j].dest);
      BeforeGrows(mid, PostOrderEach(g, done, c, n), g[c][k].dest, g[c][j].dest);
    } else {
      OwnOrder(g, mid, c, n - 1, j, k);
    }
  }

  lemma {:induction false} EachOrder(g: Graph, done: seq<nat>, c: nat, n: nat, x: nat, j: nat, k: nat)
    requires Falls(g) && c < |g| && Finished(g, done) && c !in done && n <= |g[c]|
    requires x !in done && x != c && x in PostOrderEach(g, done, c, n)
    requires Behind(g, x, j, k) && Unlisted(g, done, x, g[x][j].dest) && !Avoids(g, x, c, g[x][j].dest)
    ensures Before(PostOrderEach(g, done, c, n), g[x][k].dest, g[x][j].dest)
    decreases c, n
  {
    hide Avoids, Unlisted, Before, Finished, Grown, PostOrder;
    if n > 0 {
      var a := g[x][j].dest;
      var d := g[c][n - 1].dest;
      var mid := PostOrder(g, done, d);
      MidOfEach(g, done, c, n);
      if Avoids(g, x, d, a) { AvoidsStep(g, x, c, d, a); }
      if x in mid {
        VisitOrder(g, done, d, x);
        assert Before(mid, g[x][k].dest, a);
        BeforeGrows(mid, PostOrderEach(g, done, c, n), g[x][k].dest, a);
      } else {
        StillUnlisted(g, done, mid, d, x, a);
        EachOrder(g, mid, c, n - 1, x, j, k);
      }
    }
  }

  // ----- all visits

  /** Before x is listed nothing is that gets to a without it. */
  lemma EnteredUnlisted(g: Graph, i: nat, x: nat, a: nat)
    requires Falls(g) && i < |g| && x !in PostOrderFrom(g, i + 1) && EnteredLast(g, x, a)
    ensures Unlisted(g, PostOrderFrom(g, i + 1), x, a) && !Avoids(g, x, i, a)
  {
    hide Avoids, Reach, Finished, PostOrderFrom;
    var done := PostOrderFrom(g, i + 1);
    PostOrderFromCovers(g, i + 1);
    var r: nat :| r < |g| && Reach(g, r, x) && forall w: nat :: Avoids(g, x, w, a) ==> w < r;
    if i < r { ListedReach(g, done, x, r, x); }
    forall w: nat | Avoids(g, x, w, a)
      ensures w !in done
    {
      if w in done {
        var e: nat :| i + 1 <= e < |g| && Reach(g, e, w);
        ListedReach(g, done, x, e, w);
        AvoidsTrans(g, x, e, w, a);
      }
    }
  }

  lemma {:induction false} AllOrder(g: Graph, i: nat, x: nat, j: nat, k: nat)
    requires Falls(g) && i <= |g| && x in PostOrderFrom(g, i)
    requires Behind(g, x, j, k) && EnteredLast(g, x, g[x][j].dest)
    ensures Before(PostOrderFrom(g, i), g[x][k].dest, g[x][j].dest)
    decreases |g| - i
  {
    hide Avoids, Before, EnteredLast, Finished, Unlisted, PostOrder;
    if i < |g| {
      var done := PostOrderFrom(g, i + 1);
      if x in done {
        AllOrder(g, i + 1, x, j, k);
        PostOrderPrefix(g, i, i + 1);
        BeforeGrows(done, PostOrderFrom(g, i), g[x][k].dest, g[x][j].dest);
      } else {
        PostOrderFromCovers(g, i + 1);
        EnteredUnlisted(g, i, x, g[x][j].dest);
        VisitOrder(g, done, i, x);
      }
    }
  }

  /** Numbering backwards puts the ends of earlier edges first. */
  lemma BackwardsKeepsEdges(g: Graph, order: seq<int>)
    requires Falls(g) && NumbersBackwards(|g|, PostOrderFrom(g, 0), order)
    ensures SuccessorsInOrder(g, order)
  {
    hide Avoids, EnteredLast, PostOrderFrom, Finished;
    var all := PostOrderFrom(g, 0);
    PostOrderFromCovers(g, 0);
    forall x: nat, j: nat, k: nat | Behind(g, x, j, k) && EnteredLast(g, x, g[x][j].dest)
      ensures order[g[x][j].dest] < order[g[x][k].dest]
    {
      var a, b := g[x][j].dest, g[x][k].dest;
      AllOrder(g, 0, x, j, k);
      var p :| 0 <= p < |all| && all[p] == b && a !in all[..p];
      var q := PositionOf(all, a);
      AvoidsEnd(g, x, k);
      assert p < q;
    }
  }

  // ----- entries

  /** Something gets to w before anything gets to v. */
  ghost predicate FoundBefore(g: Graph, w: nat, v: nat) {
    exists a: nat :: a < |g| && Reach(g, a, w) && forall b: nat :: b <= a ==> !Reach(g, b, v)
  }

  /** All that leads to u is found before v. */
  ghost predicate AllBefore(g: Graph, u: nat, v: nat) {
    u < |g| && v < |g| && forall w: nat :: Reach(g, w, u) ==> FoundBefore(g, w, v)
  }

  /** Entries keep the order in which they are found, where no constraint disallows it. */
  ghost predicate EntriesInOrder(g: Graph, componentOf: seq<int>, order: seq<int>) {
    && |componentOf| == |g| && (forall v: nat :: v < |g| ==> 0 <= componentOf[v] < |order|)
    && forall u: nat, v: nat :: AllBefore(g, u, v) ==> order[componentOf[u]] < order[componentOf[v]]
  }

  lemma FoundBeforeIsLower(g: Graph, componentOf: seq<int>, components: seq<seq<nat>>, cg: Graph, w: nat, v: nat)
    requires IsCondensation(g, componentOf, components, cg) && InDiscoveryOrder(g, componentOf)
    requires v < |g| && w < |g| && FoundBefore(g, w, v)
    ensures componentOf[w] < componentOf[v]
  {
    hide Reach, EarlierEdgeFirst;
    var a: nat :| a < |g| && Reach(g, a, w) && forall b: nat :: b <= a ==> !Reach(g, b, v);
    ReachRefl(g, v);
    DescendsReach(g, componentOf, a, w);
  }

  lemma EntriesKeepOrder(g: Graph, componentOf: seq<int>, components: seq<seq<nat>>, cg: Graph, order: seq<int>)
    requires IsCondensation(g, componentOf, components, cg) && InDiscoveryOrder(g, componentOf)
    requires Falls(cg) && NumbersBackwards(|cg|, PostOrderFrom(cg, 0), order)
    ensures EntriesInOrder(g, componentOf, order)
  {
    hide Reach, FoundBefore, InDiscoveryOrder, PostOrderFrom;
    forall u: nat, v: nat | AllBefore(g, u, v)
      ensures order[componentOf[u]] < order[componentOf[v]]
    {
      ReachRefl(g, u);
      FoundBeforeIsLower(g, componentOf, components, cg, u, v);
      forall e: nat | componentOf[v] <= e < |cg|
        ensures !Reach(cg, e, componentOf[u])
      {
        if Reach(cg, e, componentOf[u]) {
          var w := components[e][0];
          assert w in components[e];
          ReachThroughComponents(g, componentOf, components, cg, w, u);
          FoundBeforeIsLower(g, componentOf, components, cg, w, v);
        }
      }
      KeepsOriginalOrder(cg, order, componentOf[u], componentOf[v]);
    }
  }
}
