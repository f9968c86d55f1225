/** The order within the chain of a component where strong edges leave it open: lower
    members stand first, and so does the end of the later of two edges
    (ComputeFinalDepends and IntraComponent in cmComputeTargetDepends). */
module ChainOrder {
  import opened Graphs
  import opened Sorting
  import opened IntraComponent
  import opened FinalDepends

  /** b stands before a. */
  ghost predicate Precedes(chain: seq<nat>, b: nat, a: nat) {
    exists p, q :: 0 <= p < q < |chain| && chain[p] == b && chain[q] == a
  }

  ghost predicate Suffix(s: seq<nat>, t: seq<nat>) {
    |s| <= |t| && t[|t| - |s|..] == s
  }

  lemma SuffixTrans(s: seq<nat>, t: seq<nat>, u: seq<nat>)
    requires Suffix(s, t) && Suffix(t, u)
    ensures Suffix(s, u)
  {
    assert u[|u| - |s|..] == u[|u| - |t|..][|t| - |s|..];
  }

  lemma PrecedesGrows(s: seq<nat>, t: seq<nat>, b: nat, a: nat)
    requires Suffix(s, t) && Precedes(s, b, a)
    ensures Precedes(t, b, a)
  {
    var p, q :| 0 <= p < q < |s| && s[p] == b && s[q] == a;
    var d := |t| - |s|;
    assert t[d..][p] == t[d + p] && t[d..][q] == t[d + q];
  }

  /** What joins at the front stands before what was there. */
  lemma NewPrecedes(s: seq<nat>, t: seq<nat>, b: nat, a: nat)
    requires Suffix(s, t) && a in s && b in t && b !in s
    ensures Precedes(t, b, a)
  {
    var d := |t| - |s|;
    var q :| 0 <= q < |s| && s[q] == a;
    assert t == t[..d] + s && t[d..][q] == t[d + q];
    assert b in t[..d];
  }

  // ----- what the chain promises

  /** Some member leads to v along strong edges, and none from there on leads to u. */
  ghost predicate LaterWalk(x: Setting, u: nat, v: nat) {
    exists w: nat :: x.In(w) && Reach(StrongPart(x), w, v)
      && forall m: nat :: w <= m && x.In(m) ==> !Reach(StrongPart(x), m, u)
  }

  /** Some member leads to i, and none above it leads to b. */
  ghost predicate SameWalk(x: Setting, i: nat, b: nat) {
    exists w: nat :: x.In(w) && Reach(StrongPart(x), w, i)
      && forall m: nat :: w < m && x.In(m) ==> !Reach(StrongPart(x), m, b)
  }

  /** Edges j and k of i, in this order, are strong and stay in the component. */
  ghost predicate BothInside(x: Setting, i: nat, j: nat, k: nat) {
    && i < |x.graph| && j < k < |x.graph[i]|
    && x.Inside(x.graph[i][j]) && x.Inside(x.graph[i][k])
  }

  ghost predicate EndsOrdered(x: Setting, chain: seq<nat>, i: nat) {
    forall j: nat, k: nat :: BothInside(x, i, j, k) && SameWalk(x, i, x.graph[i][k].dest) ==>
      Precedes(chain, x.graph[i][k].dest, x.graph[i][j].dest)
  }

  ghost predicate ChainInOrder(x: Setting, chain: seq<nat>) {
    && (forall u: nat, v: nat :: x.In(u) && x.In(v) && LaterWalk(x, u, v) ==> Precedes(chain, u, v))
    && (forall i: nat :: x.In(i) ==> EndsOrdered(x, chain, i))
  }

  // ----- one walk

  /** The first n edges of u are in order, apart from those to what was there before. */
  ghost predicate EdgesOrdered(x: Setting, base: set<nat>, chain: seq<nat>, u: nat, n: nat) {
    forall j: nat, k: nat :: k < n && BothInside(x, u, j, k) && x.graph[u][k].dest !in base ==>
      Precedes(chain, x.graph[u][k].dest, x.graph[u][j].dest)
  }

  /** The edges of all that the walk has finished are in order. */
  ghost predicate Ordering(x: Setting, base: set<nat>, w: Walk) {
    && (forall u: nat :: u in w.emitted && u !in base ==> u in w.visited)
    && (forall u: nat :: u in w.emitted && u !in base && u !in w.active && u < |x.graph| ==>
          EdgesOrdered(x, base, w.chain, u, |x.graph[u]|))
  }

  lemma OrderedGrows(x: Setting, base: set<nat>, s: seq<nat>, t: seq<nat>, u: nat, n: nat)
    requires EdgesOrdered(x, base, s, u, n) && Suffix(s, t)
    ensures EdgesOrdered(x, base, t, u, n)
  {
    hide Precedes;
    forall j: nat, k: nat | k < n && BothInside(x, u, j, k) && x.graph[u][k].dest !in base
      ensures Precedes(t, x.graph[u][k].dest, x.graph[u][j].dest)
    {
      PrecedesGrows(s, t, x.graph[u][k].dest, x.graph[u][j].dest);
    }
  }

  lemma OrderingOpens(x: Setting, base: set<nat>, w: Walk, i: nat, call: Call)
    requires Ordering(x, base, w)
    ensures Ordering(x, base, Entered(w, i, call)) && Ordering(x, base, Opened(Entered(w, i, call), i))
    ensures EdgesOrdered(x, base, w.chain, i, 0) && Suffix(w.chain, w.chain)
  {
    hide EdgesOrdered;
    assert EdgesOrdered(x, base, w.chain, i, 0) by { NoEdgesOrdered(x, base, w.chain, i); }
  }

  lemma NoEdgesOrdered(x: Setting, base: set<nat>, chain: seq<nat>, i: nat)
    ensures EdgesOrdered(x, base, chain, i, 0)
  {
  }

  lemma OrderingAlike(x: Setting, base: set<nat>, w: Walk, fin: Graph)
    requires Ordering(x, base, w)
    ensures Ordering(x, base, w.(fin := fin))
  {
  }

  /** Edge k of i has been followed, from s to t. */
  lemma OrderingFollows(x: Setting, r: nat, base: set<nat>, first: seq<nat>, w: Walk, s: Walk, t: Walk, i: nat, k: nat)
    requires x.In(i) && k < |x.graph[i]| && Followed(x, w, i, k) && Walking(x, r, base, w)
    requires s == w.(fin := s.fin) && Suffix(first, w.chain)
    requires Ordering(x, base, w) && EdgesOrdered(x, base, w.chain, i, k)
    requires Suffix(s.chain, t.chain) && x.graph[i][k].dest !in s.visited && x.graph[i][k].dest in t.chain
    ensures EdgesOrdered(x, base, t.chain, i, k + 1) && Suffix(first, t.chain)
  {
    hide Precedes, Linked, Chained, CallsAgree, AllCalled, Reached;
    SuffixTrans(first, w.chain, t.chain);
    OrderedGrows(x, base, w.chain, t.chain, i, k);
    forall j: nat | BothInside(x, i, j, k) && x.graph[i][k].dest !in base
      ensures Precedes(t.chain, x.graph[i][k].dest, x.graph[i][j].dest)
    {
      assert x.graph[i][k].dest in Elements(w.chain) <==> x.graph[i][k].dest in w.chain;
      NewPrecedes(w.chain, t.chain, x.graph[i][k].dest, x.graph[i][j].dest);
    }
  }

  lemma OrderingSkips(x: Setting, base: set<nat>, chain: seq<nat>, i: nat, k: nat)
    requires EdgesOrdered(x, base, chain, i, k) && (i < |x.graph| && k < |x.graph[i]| ==> !x.Inside(x.graph[i][k]))
    ensures EdgesOrdered(x, base, chain, i, k + 1)
  {
    hide Precedes;
  }

  lemma OrderingCloses(x: Setting, base: set<nat>, first: seq<nat>, w: Walk, i: nat)
    requires i < |w.fin| && i < |x.graph| && Ordering(x, base, w) && Suffix(first, w.chain)
    requires EdgesOrdered(x, base, w.chain, i, |x.graph[i]|)
    ensures Ordering(x, base, Prepended(w, i)) && Suffix(first, Prepended(w, i).chain)
  {
    hide EdgesOrdered;
    var t := Prepended(w, i);
    assert Suffix(w.chain, t.chain);
    SuffixTrans(first, w.chain, t.chain);
    forall u: nat | u in t.emitted && u !in base && u !in t.active && u < |x.graph|
      ensures EdgesOrdered(x, base, t.chain, u, |x.graph[u]|)
    {
      OrderedGrows(x, base, w.chain, t.chain, u, |x.graph[u]|);
    }
  }

  // ----- one walk after the other

  /** The walks from member k on have each left a suffix of the chain. */
  ghost predicate InLayers(x: Setting, nl: seq<nat>, k: nat, chain: seq<nat>) {
    forall l: nat :: k <= l < |nl| ==> IsLayer(chain, StrongClosure(x, nl[l..]))
  }

  ghost predicate IsLayer(chain: seq<nat>, s: set<nat>) {
    exists p :: 0 <= p <= |chain| && Elements(chain[p..]) == s
  }

  lemma LayerGrows(s: seq<nat>, t: seq<nat>, layer: set<nat>)
    requires IsLayer(s, layer) && Suffix(s, t)
    ensures IsLayer(t, layer)
  {
    var p :| 0 <= p <= |s| && Elements(s[p..]) == layer;
    var d := |t| - |s|;
    assert t[d + p..] == t[d..][p..];
  }

  /** What the walks so far promise. */
  ghost predicate Placed(x: Setting, nl: seq<nat>, k: nat, w: Walk) {
    && InLayers(x, nl, k, w.chain)
    && forall i: nat :: i in w.emitted ==> EndsOrdered(x, w.chain, i)
  }

  lemma NothingPlaced(x: Setting, nl: seq<nat>, w: Walk)
    requires w.emitted == {}
    ensures Placed(x, nl, |nl|, w)
  {
  }

  lemma PlacedAlike(x: Setting, nl: seq<nat>, k: nat, w: Walk)
    requires Placed(x, nl, k, w)
    ensures Placed(x, nl, k, w.(visited := {}, calls := {}))
  {
  }

  lemma NothingOrdered(x: Setting, w: Walk)
    ensures Ordering(x, w.emitted, w)
  {
  }

  lemma {:induction false} AboveIsListed(x: Setting, nl: seq<nat>, k: nat, m: nat)
    requires StrictlySorted(nl) && k < |nl| && m in nl && nl[k] < m
    ensures m in nl[k + 1..]
  {
    var j :| 0 <= j < |nl| && nl[j] == m;
    assert nl[k + 1..][j - k - 1] == m;
  }

  /** The walk from member k has ended. */
  lemma WalkPlaces(x: Setting, nl: seq<nat>, k: nat, s: Walk, t: Walk)
    requires x.Valid() && StrictlySorted(nl) && k < |nl| && forall v: nat :: v in nl <==> x.In(v)
    requires Placed(x, nl, k + 1, s) && s.emitted == StrongClosure(x, nl[k + 1..])
    requires Ordering(x, s.emitted, t) && t.active == {} && Suffix(s.chain, t.chain)
    requires t.emitted == StrongClosure(x, nl[k..]) == Elements(t.chain)
    ensures Placed(x, nl, k, t)
  {
    hide StrongClosure, Reach, StrongPart, EdgesOrdered, EndsOrdered, IsLayer;
    forall l: nat | k <= l < |nl|
      ensures IsLayer(t.chain, StrongClosure(x, nl[l..]))
    {
      if l == k { WholeLayer(t.chain); } else { LayerGrows(s.chain, t.chain, StrongClosure(x, nl[l..])); }
    }
    forall i: nat | i in t.emitted
      ensures EndsOrdered(x, t.chain, i)
    {
      if i in s.emitted {
        EndsGrow(x, s.chain, t.chain, i);
      } else {
        ClosureInRange(x, nl[k..], i);
        NewEnds(x, nl, k, t.chain, i);
      }
    }
  }

  lemma WholeLayer(chain: seq<nat>)
    ensures IsLayer(chain, Elements(chain))
  {
    assert chain[0..] == chain;
  }

  lemma ClosureInRange(x: Setting, members: seq<nat>, i: nat)
    requires i in StrongClosure(x, members)
    ensures i < |x.graph|
  {
  }

  lemma EndsGrow(x: Setting, s: seq<nat>, t: seq<nat>, i: nat)
    requires EndsOrdered(x, s, i) && Suffix(s, t)
    ensures EndsOrdered(x, t, i)
  {
    hide Precedes, SameWalk;
    forall j: nat, k: nat | BothInside(x, i, j, k) && SameWalk(x, i, x.graph[i][k].dest)
      ensures Precedes(t, x.graph[i][k].dest, x.graph[i][j].dest)
    {
      PrecedesGrows(s, t, x.graph[i][k].dest, x.graph[i][j].dest);
    }
  }

  /** An edge that leads to no higher walk leads to what the same walk has added. */
  lemma NewEnds(x: Setting, nl: seq<nat>, k: nat, chain: seq<nat>, i: nat)
    requires StrictlySorted(nl) && k < |nl| && (forall v: nat :: v in nl <==> x.In(v)) && i < |x.graph|
    requires EdgesOrdered(x, StrongClosure(x, nl[k + 1..]), chain, i, |x.graph[i]|)
    requires i !in StrongClosure(x, nl[k + 1..])
    ensures EndsOrdered(x, chain, i)
  {
    hide Precedes, Reach, StrongPart;
    var base := StrongClosure(x, nl[k + 1..]);
    forall j: nat, l: nat | BothInside(x, i, j, l) && SameWalk(x, i, x.graph[i][l].dest)
      ensures Precedes(chain, x.graph[i][l].dest, x.graph[i][j].dest)
    {
      var b := x.graph[i][l].dest;
      var w: nat :| x.In(w) && Reach(StrongPart(x), w, i)
        && forall m: nat :: w < m && x.In(m) ==> !Reach(StrongPart(x), m, b);
      NotAbove(x, nl, k, w, i);
      forall m | m in nl[k + 1..]
        ensures !Reach(StrongPart(x), m, b)
      {
        ListedIsAbove(nl, k, m);
      }
      assert b !in base;
    }
  }

  lemma NotAbove(x: Setting, nl: seq<nat>, k: nat, w: nat, i: nat)
    requires StrictlySorted(nl) && k < |nl| && w in nl && i < |x.graph| && Reach(StrongPart(x), w, i)
    requires i !in StrongClosure(x, nl[k + 1..])
    ensures w <= nl[k]
  {
    hide Reach, StrongPart;
    if nl[k] < w {
      AboveIsListed(x, nl, k, w);
      assert false;
    }
  }

  lemma ListedIsAbove(nl: seq<nat>, k: nat, m: nat)
    requires StrictlySorted(nl) && k < |nl| && m in nl[k + 1..]
    ensures nl[k] < m && m in nl
  {
    var j :| 0 <= j < |nl[k + 1..]| && nl[k + 1..][j] == m;
    assert nl[k + 1 + j] == m;
  }

  /** All walks have ended. */
  lemma AllPlaced(x: Setting, nl: seq<nat>, w: Walk)
    requires x.Valid() && StrictlySorted(nl) && (forall v: nat :: v in nl <==> x.In(v)) && Placed(x, nl, 0, w)
    requires forall v: nat :: x.In(v) ==> v in w.chain && v in w.emitted
    ensures ChainInOrder(x, w.chain)
  {
    hide Reach, StrongPart, EndsOrdered, Precedes, StrongClosure, LaterWalk;
    forall u: nat, v: nat | x.In(u) && x.In(v) && LaterWalk(x, u, v)
      ensures Precedes(w.chain, u, v)
    {
      var l := LaterLayer(x, nl, u, v);
      assert IsLayer(w.chain, StrongClosure(x, nl[l..]));
      var p :| 0 <= p <= |w.chain| && Elements(w.chain[p..]) == StrongClosure(x, nl[l..]);
      assert v in Elements(w.chain[p..]) && u !in Elements(w.chain[p..]);
      NewPrecedes(w.chain[p..], w.chain, u, v);
    }
  }

  lemma LaterLayer(x: Setting, nl: seq<nat>, u: nat, v: nat) returns (l: nat)
    requires StrictlySorted(nl) && (forall m: nat :: m in nl <==> x.In(m)) && x.In(u) && x.In(v) && LaterWalk(x, u, v)
    ensures l < |nl| && v in StrongClosure(x, nl[l..]) && u !in StrongClosure(x, nl[l..])
  {
    hide Reach, StrongPart;
    var w: nat :| x.In(w) && Reach(StrongPart(x), w, v)
      && forall m: nat :: w <= m && x.In(m) ==> !Reach(StrongPart(x), m, u);
    assert w in nl;
    l :| l < |nl| && nl[l] == w;
    assert nl[l..][0] == w;
    assert ReachedFromSome(x, nl[l..], v);
    forall m | m in nl[l..]
      ensures !Reach(StrongPart(x), m, u)
    {
      var j :| 0 <= j < |nl[l..]| && nl[l..][j] == m;
      assert nl[l + j] == m;
    }
  }

  ghost predicate ChainsInOrder(initial: Graph, cmap: seq<int>, chains: Chains) {
    forall c: nat :: c < |chains| ==> ChainInOrder(Setting(initial, cmap, c), chains[c])
  }

  lemma SameStrongPart(x: Setting, y: Setting)
    requires SameMembers(x, y)
    ensures StrongPart(x) == StrongPart(y)
  {
    forall v: nat | v < |x.graph|
      ensures StrongPart(x)[v] == StrongPart(y)[v]
    {
      SameKept(x, y, x.graph[v]);
    }
  }

  /** The order is promised for the members, however the component is numbered. */
  lemma SameOrder(x: Setting, y: Setting, chain: seq<nat>)
    requires SameMembers(x, y) && ChainInOrder(x, chain)
    ensures ChainInOrder(y, chain)
  {
    hide Reach, Precedes, StrongPart;
    SameStrongPart(x, y);
    assert forall v: nat :: x.In(v) == y.In(v);
    assert forall e: Edge :: x.Inside(e) == y.Inside(e);
    forall u: nat, v: nat | y.In(u) && y.In(v) && LaterWalk(y, u, v)
      ensures Precedes(chain, u, v)
    {
      assert LaterWalk(x, u, v);
    }
    forall i: nat | y.In(i)
      ensures EndsOrdered(y, chain, i)
    {
      assert EndsOrdered(x, chain, i);
      forall j: nat, k: nat | BothInside(y, i, j, k) && SameWalk(y, i, y.graph[i][k].dest)
        ensures Precedes(chain, y.graph[i][k].dest, y.graph[i][j].dest)
      {
        assert BothInside(x, i, j, k) && SameWalk(x, i, x.graph[i][k].dest);
      }
    }
  }
}
