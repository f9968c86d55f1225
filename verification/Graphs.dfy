/** Adjacency-list graphs as the dependency engine represents them, with the
    reachability relation every later result is stated in. */
module Graphs {

  /** Where in the project's files an edge came from. */
  datatype Backtrace = NoTrace | Frame(file: string, line: nat, caller: Backtrace)

  /** A graph edge: destination vertex and the flags stored beside it. */
  datatype Edge = Edge(dest: nat, strong: bool, cross: bool, trace: Backtrace)

  /** One edge list for each vertex. */
  type Graph = seq<seq<Edge>>

  /** Every destination is a vertex. */
  ghost predicate WellFormed(g: Graph) {
    forall u, k :: 0 <= u < |g| && 0 <= k < |g[u]| ==> g[u][k].dest < |g|
  }

  ghost predicate HasEdge(g: Graph, u: nat, v: nat) {
    u < |g| && exists k :: 0 <= k < |g[u]| && g[u][k].dest == v
  }

  /** A walk of exactly n edges leads from u to v. */
  ghost predicate ReachIn(g: Graph, u: nat, v: nat, n: nat)
    decreases n
  {
    if n == 0 then u == v && u < |g|
    else exists w :: HasEdge(g, u, w) && ReachIn(g, w, v, n - 1)
  }

  /** Reflexive and transitive reachability. */
  ghost predicate Reach(g: Graph, u: nat, v: nat) {
    exists n: nat :: ReachIn(g, u, v, n)
  }

  /** No walk with at least one edge returns to its start. */
  ghost predicate Acyclic(g: Graph) {
    forall u: nat, n: nat :: 0 < n ==> !ReachIn(g, u, u, n)
  }

  lemma ReachRefl(g: Graph, u: nat)
    requires u < |g|
    ensures Reach(g, u, u)
  {
    assert ReachIn(g, u, u, 0);
  }

  lemma ReachEdge(g: Graph, u: nat, v: nat)
    requires HasEdge(g, u, v) && v < |g|
    ensures Reach(g, u, v)
  {
    assert ReachIn(g, v, v, 0);
    assert ReachIn(g, u, v, 1);
  }

  lemma {:induction false} ReachInTrans(g: Graph, u: nat, v: nat, w: nat, m: nat, n: nat)
    requires ReachIn(g, u, v, m) && ReachIn(g, v, w, n)
    ensures ReachIn(g, u, w, m + n)
    decreases m
  {
    if m > 0 {
      var x: nat :| HasEdge(g, u, x) && ReachIn(g, x, v, m - 1);
      ReachInTrans(g, x, v, w, m - 1, n);
    }
  }

  lemma ReachTrans(g: Graph, u: nat, v: nat, w: nat)
    requires Reach(g, u, v) && Reach(g, v, w)
    ensures Reach(g, u, w)
  {
    var m: nat :| ReachIn(g, u, v, m);
    var n: nat :| ReachIn(g, v, w, n);
    ReachInTrans(g, u, v, w, m, n);
  }

  lemma ReachStep(g: Graph, u: nat, v: nat, w: nat)
    requires HasEdge(g, u, v) && Reach(g, v, w)
    ensures Reach(g, u, w)
  {
    var n: nat :| ReachIn(g, v, w, n);
    assert ReachIn(g, u, w, n + 1);
  }

  lemma {:induction false} ReachInRange(g: Graph, u: nat, v: nat, n: nat)
    requires WellFormed(g) && ReachIn(g, u, v, n)
    ensures u < |g| && v < |g|
    decreases n
  {
    if n > 0 {
      var w: nat :| HasEdge(g, u, w) && ReachIn(g, w, v, n - 1);
      ReachInRange(g, w, v, n - 1);
    }
  }

  /** A set of vertices closed under edges is closed under walks. */
  lemma {:induction false} ClosedUnderReach(g: Graph, s: set<nat>, u: nat, v: nat)
    requires forall x: nat, y: nat :: x in s && HasEdge(g, x, y) ==> y in s
    requires u in s && Reach(g, u, v)
    ensures v in s
  {
    var n: nat :| ReachIn(g, u, v, n);
    ClosedUnderWalk(g, s, u, v, n);
  }

  lemma {:induction false} ClosedUnderWalk(g: Graph, s: set<nat>, u: nat, v: nat, n: nat)
    requires forall x: nat, y: nat :: x in s && HasEdge(g, x, y) ==> y in s
    requires u in s && ReachIn(g, u, v, n)
    ensures v in s
    decreases n
  {
    if n > 0 {
      var w: nat :| HasEdge(g, u, w) && ReachIn(g, w, v, n - 1);
      ClosedUnderWalk(g, s, w, v, n - 1);
    }
  }

  /** Along every edge the rank does not rise. */
  ghost predicate Descends(g: Graph, rank: seq<int>) {
    && |rank| == |g|
    && WellFormed(g)
    && forall u: nat, v: nat :: HasEdge(g, u, v) ==> v < |g| && rank[v] <= rank[u]
  }

  lemma {:induction false} DescendsAlongWalk(g: Graph, rank: seq<int>, u: nat, v: nat, n: nat)
    requires Descends(g, rank) && ReachIn(g, u, v, n)
    ensures u < |g| && v < |g| && rank[v] <= rank[u]
    decreases n
  {
    if n > 0 {
      var w: nat :| HasEdge(g, u, w) && ReachIn(g, w, v, n - 1);
      DescendsAlongWalk(g, rank, w, v, n - 1);
    }
  }

  lemma DescendsReach(g: Graph, rank: seq<int>, u: nat, v: nat)
    requires Descends(g, rank) && Reach(g, u, v)
    ensures u < |g| && v < |g| && rank[v] <= rank[u]
  {
    var n: nat :| ReachIn(g, u, v, n);
    DescendsAlongWalk(g, rank, u, v, n);
  }

  /** A rank that strictly falls along every edge rules out every cycle. */
  lemma RankedIsAcyclic(g: Graph, rank: seq<int>)
    requires |rank| == |g| && WellFormed(g)
    requires forall u: nat, v: nat :: HasEdge(g, u, v) ==> v < |g| && rank[v] < rank[u]
    ensures Acyclic(g)
  {
    forall u: nat, n: nat | 0 < n && ReachIn(g, u, u, n)
      ensures false
    {
      var w: nat :| HasEdge(g, u, w) && ReachIn(g, w, u, n - 1);
      DescendsAlongWalk(g, rank, w, u, n - 1);
    }
  }

  // ----- walks round a vertex

  /** A walk of n edges leads from u to v and nowhere meets x. */
  ghost predicate AvoidsIn(g: Graph, x: nat, u: nat, v: nat, n: nat)
    decreases n
  {
    u != x && if n == 0 then u == v && u < |g| else exists w: nat :: HasEdge(g, u, w) && AvoidsIn(g, x, w, v, n - 1)
  }

  ghost predicate Avoids(g: Graph, x: nat, u: nat, v: nat) {
    exists n: nat :: AvoidsIn(g, x, u, v, n)
  }

  lemma AvoidsSelf(g: Graph, x: nat, u: nat)
    requires u < |g| && u != x
    ensures Avoids(g, x, u, u)
  {
    assert AvoidsIn(g, x, u, u, 0);
  }

  lemma AvoidsStep(g: Graph, x: nat, u: nat, v: nat, w: nat)
    requires u != x && HasEdge(g, u, v) && Avoids(g, x, v, w)
    ensures Avoids(g, x, u, w)
  {
    var n: nat :| AvoidsIn(g, x, v, w, n);
    assert AvoidsIn(g, x, u, w, n + 1);
  }

  lemma {:induction false} AvoidsInTrans(g: Graph, x: nat, u: nat, v: nat, w: nat, m: nat, n: nat)
    requires AvoidsIn(g, x, u, v, m) && AvoidsIn(g, x, v, w, n)
    ensures AvoidsIn(g, x, u, w, m + n)
    decreases m
  {
    if m > 0 {
      var y: nat :| HasEdge(g, u, y) && AvoidsIn(g, x, y, v, m - 1);
      AvoidsInTrans(g, x, y, v, w, m - 1, n);
    }
  }

  lemma AvoidsTrans(g: Graph, x: nat, u: nat, v: nat, w: nat)
    requires Avoids(g, x, u, v) && Avoids(g, x, v, w)
    ensures Avoids(g, x, u, w)
  {
    var m: nat :| AvoidsIn(g, x, u, v, m);
    var n: nat :| AvoidsIn(g, x, v, w, n);
    AvoidsInTrans(g, x, u, v, w, m, n);
  }

  lemma {:induction false} AvoidsInReaches(g: Graph, x: nat, u: nat, v: nat, n: nat)
    requires AvoidsIn(g, x, u, v, n)
    ensures ReachIn(g, u, v, n) && u != x && v != x
    decreases n
  {
    if n > 0 {
      var w: nat :| HasEdge(g, u, w) && AvoidsIn(g, x, w, v, n - 1);
      AvoidsInReaches(g, x, w, v, n - 1);
    }
  }

  lemma AvoidsReaches(g: Graph, x: nat, u: nat, v: nat)
    requires Avoids(g, x, u, v)
    ensures Reach(g, u, v) && u != x && v != x
  {
    var n: nat :| AvoidsIn(g, x, u, v, n);
    AvoidsInReaches(g, x, u, v, n);
  }

  lemma AvoidsInGraph(g: Graph, x: nat, u: nat, v: nat)
    requires Avoids(g, x, u, v)
    ensures u < |g|
  {
    var n: nat :| AvoidsIn(g, x, u, v, n);
    assert AvoidsIn(g, x, u, v, n);
  }
}
