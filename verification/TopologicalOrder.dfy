/** The depth-first numbering of the components of a link (VisitComponent in
    cmComputeLinkDepends). */
module TopologicalOrder {
  import opened Graphs
  import opened Sorting

  /** Every edge leads to a lower vertex, as in a graph of components. */
  ghost predicate Falls(g: Graph) {
    forall u, k :: 0 <= u < |g| && 0 <= k < |g[u]| ==> g[u][k].dest < u
  }

  /** The vertices in the order in which a visit of c finishes them, after those
      in done have been finished. */
  ghost function PostOrder(g: Graph, done: seq<nat>, c: nat): seq<nat>
    requires Falls(g) && c < |g|
    decreases c, |g[c]| + 1
  {
    if c in done then done else PostOrderEach(g, done, c, |g[c]|) + [c]
  }

  /** The first k successors of c, visited last first. */
  ghost function PostOrderEach(g: Graph, done: seq<nat>, c: nat, k: nat): seq<nat>
    requires Falls(g) && c < |g| && k <= |g[c]|
    decreases c, k
  {
    if k == 0 then done else PostOrderEach(g, PostOrder(g, done, g[c][k - 1].dest), c, k - 1)
  }

  /** Visits started from every vertex, highest first, down to i. */
  ghost function PostOrderFrom(g: Graph, i: nat): seq<nat>
    requires Falls(g) && i <= |g|
    decreases |g| - i
  {
    if i == |g| then [] else PostOrder(g, PostOrderFrom(g, i + 1), i)
  }

  /** A list of vertices in which every edge leads back to an earlier one. */
  ghost predicate Finished(g: Graph, done: seq<nat>) {
    && Distinct(done)
    && (forall a :: 0 <= a < |done| ==> done[a] < |g|)
    && (forall a :: 0 <= a < |done| ==> DestsIn(g[done[a]], done[..a]))
  }

  ghost predicate DestsIn(es: seq<Edge>, done: seq<nat>) {
    forall k :: 0 <= k < |es| ==> es[k].dest in done
  }

  /** What a visit adds: the old list is kept, the new vertices can be reached
      from c and are no higher than c. */
  ghost predicate Grown(g: Graph, done: seq<nat>, out: seq<nat>, c: nat) {
    && Finished(g, out)
    && done <= out
    && forall a :: |done| <= a < |out| ==> out[a] <= c && Reach(g, c, out[a])
  }

  lemma FinishedExtend(g: Graph, done: seq<nat>, c: nat)
    requires Finished(g, done) && c < |g| && c !in done && DestsIn(g[c], done)
    ensures Finished(g, done + [c])
  {
    var out := done + [c];
    forall a | 0 <= a < |out|
      ensures DestsIn(g[out[a]], out[..a])
    {
      assert out[..a] == if a < |done| then done[..a] else done;
    }
    forall a, b | 0 <= a < b < |out|
      ensures out[a] != out[b]
    {
      if b == |done| { assert out[a] == done[a] && done[a] in done; }
    }
  }

  lemma {:induction false} PostOrderGrows(g: Graph, done: seq<nat>, c: nat)
    requires Falls(g) && c < |g| && Finished(g, done)
    ensures Grown(g, done, PostOrder(g, done, c), c) && c in PostOrder(g, done, c)
    decreases c, |g[c]| + 1
  {
    ReachRefl(g, c);
    if c !in done {
      PostOrderEachGrows(g, done, c, |g[c]|);
      var out := PostOrderEach(g, done, c, |g[c]|);
      forall a | 0 <= a < |out|
        ensures out[a] != c
      {
        if a < |done| { assert out[a] == done[a]; }
      }
      FinishedExtend(g, out, c);
      assert (out + [c])[|out|] == c;
    }
  }

  lemma {:induction false} PostOrderEachGrows(g: Graph, done: seq<nat>, c: nat, k: nat)
    requires Falls(g) && c < |g| && k <= |g[c]| && Finished(g, done)
    ensures var out := PostOrderEach(g, done, c, k);
      Grown(g, done, out, c) && DestsIn(g[c][..k], out) && forall a :: |done| <= a < |out| ==> out[a] < c
    decreases c, k
  {
    if k > 0 {
      var d := g[c][k - 1].dest;
      var mid := PostOrder(g, done, d);
      var out := PostOrderEach(g, done, c, k);
      PostOrderGrows(g, done, d);
      PostOrderEachGrows(g, mid, c, k - 1);
      assert HasEdge(g, c, d);
      forall a | |done| <= a < |out|
        ensures out[a] < c && Reach(g, c, out[a])
      {
        if a < |mid| {
          assert out[a] == mid[a];
          ReachStep(g, c, d, mid[a]);
        }
      }
      forall x | 0 <= x < k
        ensures g[c][..k][x].dest in out
      {
        if x < k - 1 {
          assert g[c][..k - 1][x].dest in out;
        } else {
          var a :| 0 <= a < |mid| && mid[a] == d;
          assert out[a] == d;
        }
      }
    }
  }

  /** After all visits down to i, the list holds exactly what the starts reach. */
  lemma {:induction false} PostOrderFromCovers(g: Graph, i: nat)
    requires Falls(g) && i <= |g|
    ensures Finished(g, PostOrderFrom(g, i))
    ensures forall v: nat :: i <= v < |g| ==> v in PostOrderFrom(g, i)
    ensures forall v: nat :: v in PostOrderFrom(g, i) ==> exists e: nat :: i <= e < |g| && Reach(g, e, v)
    decreases |g| - i
  {
    if i < |g| {
      PostOrderFromCovers(g, i + 1);
      var done, out := PostOrderFrom(g, i + 1), PostOrderFrom(g, i);
      PostOrderGrows(g, done, i);
      forall v: nat | v in done
        ensures v in out
      {
        var a :| 0 <= a < |done| && done[a] == v;
        assert out[a] == v;
      }
      forall v: nat | v in out
        ensures exists e: nat :: i <= e < |g| && Reach(g, e, v)
      {
        var a :| 0 <= a < |out| && out[a] == v;
        if a < |done| { assert v == done[a] && v in done; }
      }
    }
  }

  /** order numbers the vertices 0 to n-1, backwards along the finishing list. */
  ghost predicate NumbersBackwards(n: nat, done: seq<nat>, order: seq<int>) {
    && |order| == n
    && forall a :: 0 <= a < |done| ==> done[a] < n && order[done[a]] == n - 1 - a
  }

  /** Distinct indices 0 to n-1 that rise along every edge. */
  ghost predicate IsTopological(g: Graph, order: seq<int>) {
    && |order| == |g|
    && (forall c: nat :: c < |g| ==> 0 <= order[c] < |g|)
    && (forall c: nat, d: nat :: c < d < |g| ==> order[c] != order[d])
    && (forall c: nat, d: nat :: HasEdge(g, c, d) ==> d < |g| && order[c] < order[d])
  }

  lemma PositionOf(s: seq<nat>, v: nat) returns (a: nat)
    requires v in s
    ensures a < |s| && s[a] == v
  {
    a :| a < |s| && s[a] == v;
  }

  lemma EdgeRises(g: Graph, done: seq<nat>, order: seq<int>, c: nat, d: nat)
    requires Finished(g, done) && NumbersBackwards(|g|, done, order)
    requires c in done && HasEdge(g, c, d)
    ensures d < |g| && order[c] < order[d]
  {
    var k: nat :| k < |g[c]| && g[c][k].dest == d;
    var a := PositionOf(done, c);
    assert DestsIn(g[c], done[..a]);
    assert g[c][k].dest in done[..a];
    var b := PositionOf(done[..a], d);
    assert done[b] == d;
  }

  /** Numbering the finishing list of all visits backwards gives a topological
      order of the components. */
  lemma BackwardsIsTopological(g: Graph, order: seq<int>)
    requires Falls(g) && NumbersBackwards(|g|, PostOrderFrom(g, 0), order)
    ensures IsTopological(g, order)
  {
    hide PostOrderFrom, Reach, Falls, Finished;
    var done := PostOrderFrom(g, 0);
    PostOrderFromCovers(g, 0);
    FinishedShort(g, done);
    forall c: nat, d: nat | HasEdge(g, c, d)
      ensures d < |g| && order[c] < order[d]
    {
      EdgeRises(g, done, order, c, d);
    }
    forall c: nat | c < |g|
      ensures 0 <= order[c] < |g|
    {
      var a := PositionOf(done, c);
    }
    forall c: nat, d: nat | c < d < |g|
      ensures order[c] != order[d]
    {
      var a := PositionOf(done, c);
      var b := PositionOf(done, d);
    }
  }

  lemma FinishedShort(g: Graph, done: seq<nat>)
    requires Finished(g, done)
    ensures |done| <= |g|
  {
    DistinctFits(|g|, done);
  }

  lemma {:induction false} PostOrderPrefix(g: Graph, i: nat, j: nat)
    requires Falls(g) && i <= j <= |g|
    ensures PostOrderFrom(g, j) <= PostOrderFrom(g, i)
    decreases j - i
  {
    if i < j {
      PostOrderPrefix(g, i + 1, j);
      PostOrderFromCovers(g, i + 1);
      PostOrderGrows(g, PostOrderFrom(g, i + 1), i);
    }
  }

  /** The original order is kept where no constraint disallows it: c stays before
      a later d unless something from d on leads to c. */
  lemma KeepsOriginalOrder(g: Graph, order: seq<int>, c: nat, d: nat)
    requires Falls(g) && NumbersBackwards(|g|, PostOrderFrom(g, 0), order)
    requires c < d < |g| && forall e: nat :: d <= e < |g| ==> !Reach(g, e, c)
    ensures order[c] < order[d]
  {
    hide PostOrderFrom, Reach;
    var all, late := PostOrderFrom(g, 0), PostOrderFrom(g, d);
    PostOrderFromCovers(g, 0);
    PostOrderFromCovers(g, d);
    PostOrderPrefix(g, 0, d);
    var a := PositionOf(all, c);
    var b := PositionOf(late, d);
    assert all[b] == d;
    forall p | 0 <= p < |late|
      ensures all[p] != c
    {
      assert all[p] == late[p] && late[p] in late;
    }
  }
}
