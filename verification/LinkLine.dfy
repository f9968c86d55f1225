/** What the emitted link line means for the link items: every dependency of an
    item follows it, also after shared libraries are de-duplicated. */
module LinkLine {
  import opened Graphs
  import opened Sorting
  import opened Condensation
  import opened LinkOrder

  /** The layout describes the components of the constraint graph g. */
  ghost predicate LayoutOf(g: Graph, x: Layout) {
    && x.Valid()
    && IsCondensation(g, x.componentOf, x.components, x.graph)
  }

  ghost predicate OccursAfter(line: seq<nat>, p: nat, v: nat) {
    exists q :: p < q < |line| && line[q] == v
  }

  lemma {:induction false} SeenMeansPresent(s: seq<nat>, m: set<nat>, k: nat, v: nat)
    requires SeenTimes(s, m, k) && 0 < k && v in m
    ensures v in s
  {
    var i :| 0 <= i <= |s| && SeenTimes(s[..i], m, k - 1) && m <= Elements(s[i..]);
    assert v in Elements(s[i..]);
    assert v in s[i..];
  }

  lemma NextComponentFollows(x: Layout, line: seq<nat>, p: nat, d: nat, v: nat)
    requires x.Valid() && EntriesOk(x, line) && DependenciesFollow(x, line)
    requires p < |line| && HasEdge(x.graph, x.componentOf[line[p]], d) && d < |x.components| && v in x.Members(d)
    ensures OccursAfter(line, p, v)
  {
    hide SeenTimes;
    assert |x.components[d]| == 1 || 2 <= x.needed[d];
    SeenMeansPresent(line[p + 1..], x.Members(d), x.needed[d], v);
    var i :| 0 <= i < |line[p + 1..]| && line[p + 1..][i] == v;
    assert line[p + 1 + i] == v;
  }

  lemma {:induction false} WalkFollows(x: Layout, line: seq<nat>, p: nat, d: nat, n: nat, v: nat)
    requires x.Valid() && EntriesOk(x, line) && DependenciesFollow(x, line)
    requires p < |line| && 0 < n && ReachIn(x.graph, x.componentOf[line[p]], d, n) && d < |x.components|
    requires v in x.Members(d)
    ensures OccursAfter(line, p, v)
    decreases n
  {
    hide DependenciesFollow;
    var c := x.componentOf[line[p]];
    var e: nat :| HasEdge(x.graph, c, e) && ReachIn(x.graph, e, d, n - 1);
    if n == 1 {
      NextComponentFollows(x, line, p, d, v);
    } else {
      var w := x.components[e][0];
      assert w in x.Members(e);
      NextComponentFollows(x, line, p, e, w);
      var q :| p < q < |line| && line[q] == w;
      MemberInRange(x, e, w);
      WalkFollows(x, line, q, d, n - 1, v);
    }
  }

  /** Every occurrence of u on the line is followed by an occurrence of each entry
      u depends on, directly or not, in another component. */
  lemma DependenciesMet(g: Graph, x: Layout, line: seq<nat>, p: nat, v: nat)
    requires LayoutOf(g, x) && EntriesOk(x, line) && DependenciesFollow(x, line)
    requires p < |line| && v < |g| && Reach(g, line[p], v) && x.componentOf[line[p]] != x.componentOf[v]
    ensures OccursAfter(line, p, v)
  {
    hide DependenciesFollow;
    ReachThroughComponents(g, x.componentOf, x.components, x.graph, line[p], v);
    var c, d := x.componentOf[line[p]], x.componentOf[v];
    var n: nat :| ReachIn(x.graph, c, d, n);
    assert v in x.Members(d) by { MemberOf(x, v); }
    WalkFollows(x, line, p, d, n, v);
  }

  ghost predicate ReachedBySome(g: Graph, originals: seq<nat>, v: nat) {
    exists o :: o in originals && Reach(g, o, v)
  }

  /** The entries that an original entry reaches. */
  ghost function ReachedFrom(g: Graph, originals: seq<nat>): set<nat> {
    set v: nat | v < |g| && ReachedBySome(g, originals, v)
  }

  lemma ReachedIsClosed(g: Graph, x: Layout, originals: seq<nat>)
    requires LayoutOf(g, x)
    ensures ClosedEntries(x, ReachedFrom(g, originals))
  {
    hide Reach;
    var r := ReachedFrom(g, originals);
    forall c: nat, u: nat, v: nat | c < |x.components| && u in x.Members(c) && v in x.Members(c) && u in r
      ensures v in r
    {
      MemberInRange(x, c, u);
      MemberInRange(x, c, v);
      var o :| o in originals && Reach(g, o, u);
      ReachTrans(g, o, u, v);
    }
    forall c: nat, d: nat, u: nat, v: nat | HasEdge(x.graph, c, d) && c < |x.components| && d < |x.components| &&
           u in x.Members(c) && v in x.Members(d) && u in r
      ensures v in r
    {
      MemberInRange(x, c, u);
      MemberInRange(x, d, v);
      ReachRefl(x.graph, d);
      ReachStep(x.graph, c, d, d);
      ReachThroughComponents(g, x.componentOf, x.components, x.graph, u, v);
      var o :| o in originals && Reach(g, o, u);
      ReachTrans(g, o, u, v);
    }
  }

  /** The line holds exactly the entries that the original ones reach. */
  lemma LineIsReachable(g: Graph, x: Layout, originals: seq<nat>, v: nat)
    requires LayoutOf(g, x) && EntriesOk(x, originals)
    ensures v in Emit(x, originals).line <==> v in ReachedFrom(g, originals)
  {
    hide Reach, DependenciesFollow, ComponentsRepeat, Emit, ClosedEntries, SeenTimes;
    var line := Emit(x, originals).line;
    EmitSatisfies(x, originals);
    ReachedIsClosed(g, x, originals);
    forall p | 0 <= p < |originals|
      ensures originals[p] in ReachedFrom(g, originals)
    {
      ReachRefl(g, originals[p]);
    }
    EmitStaysInside(x, originals, ReachedFrom(g, originals));
    if v in ReachedFrom(g, originals) {
      var o :| o in originals && Reach(g, o, v);
      var p :| 0 <= p < |originals| && originals[p] == o;
      assert line[p] == o;
      if x.componentOf[o] != x.componentOf[v] {
        DependenciesMet(g, x, line, p, v);
      } else if o != v {
        SameComponentPresent(x, line, p, v);
      }
    }
  }

  lemma TwoMembers(members: seq<nat>, u: nat, v: nat)
    requires u in members && v in members && u != v
    ensures |members| > 1
  {
  }

  lemma SameComponentPresent(x: Layout, line: seq<nat>, p: nat, v: nat)
    requires x.Valid() && EntriesOk(x, line) && ComponentsRepeat(x, line)
    requires p < |line| && v < |x.componentOf| && x.componentOf[v] == x.componentOf[line[p]] && v != line[p]
    ensures v in line
  {
    hide SeenTimes;
    var c := x.componentOf[v];
    MemberOf(x, v);
    MemberOf(x, line[p]);
    TwoMembers(x.components[c], v, line[p]);
    SeenMeansPresent(line, x.Members(c), x.needed[c], v);
  }

  // ----- de-duplication

  /** Of a shared library only the occurrence furthest back remains. */
  ghost function KeepLast(line: seq<nat>, shared: set<nat>): seq<nat> {
    if line == [] then []
    else if line[0] in shared && line[0] in line[1..] then KeepLast(line[1..], shared)
    else [line[0]] + KeepLast(line[1..], shared)
  }

  lemma {:induction false} KeepLastElements(line: seq<nat>, shared: set<nat>, v: nat)
    ensures v in KeepLast(line, shared) <==> v in line
  {
    if line != [] {
      KeepLastElements(line[1..], shared, v);
      assert line == [line[0]] + line[1..];
    }
  }

  /** Shared libraries appear once; everything else as often as before. */
  lemma {:induction false} KeepLastCounts(line: seq<nat>, shared: set<nat>, v: nat)
    ensures Count(KeepLast(line, shared), v) == if v in shared && v in line then 1 else Count(line, v)
  {
    if line != [] {
      KeepLastCounts(line[1..], shared, v);
      KeepLastElements(line[1..], shared, v);
      assert line == [line[0]] + line[1..];
    }
  }

  /** The occurrence that stays is the last one: what follows it is what followed
      the last occurrence, itself de-duplicated. */
  lemma {:induction false} KeepLastIsLast(line: seq<nat>, shared: set<nat>, q: nat) returns (before: seq<nat>)
    requires q < |line| && (line[q] in shared ==> line[q] !in line[q + 1..])
    ensures KeepLast(line, shared) == before + [line[q]] + KeepLast(line[q + 1..], shared)
    ensures line[q] in shared ==> line[q] !in before
    ensures forall v: nat :: v in before ==> v in line[..q]
  {
    if q == 0 {
      before := [];
    } else {
      var rest := KeepLastIsLast(line[1..], shared, q - 1);
      assert line[1..][q..] == line[q + 1..];
      assert line[..q] == [line[0]] + line[1..][..q - 1];
      if line[0] in shared && line[0] in line[1..] {
        before := rest;
      } else {
        before := [line[0]] + rest;
        assert line[1..][q - 1] == line[q];
      }
    }
  }

  /** For every occurrence of u and every pair (u, v) of the relation, v follows. */
  ghost predicate AllFollowed(line: seq<nat>, after: set<(nat, nat)>) {
    forall p: nat, v: nat :: p < |line| && (line[p], v) in after ==> OccursAfter(line, p, v)
  }

  lemma OccursAfterHead(line: seq<nat>, v: nat)
    requires line != []
    ensures OccursAfter(line, 0, v) <==> v in line[1..]
  {
    if OccursAfter(line, 0, v) {
      var q :| 0 < q < |line| && line[q] == v;
      assert line[1..][q - 1] == v;
    }
    if v in line[1..] {
      var q :| 0 <= q < |line[1..]| && line[1..][q] == v;
      assert line[q + 1] == v;
    }
  }

  lemma OccursAfterTail(line: seq<nat>, p: nat, v: nat)
    requires 0 < p < |line|
    ensures OccursAfter(line, p, v) <==> OccursAfter(line[1..], p - 1, v)
  {
    if OccursAfter(line, p, v) {
      var q :| p < q < |line| && line[q] == v;
      assert line[1..][q - 1] == v;
    }
    if OccursAfter(line[1..], p - 1, v) {
      var q :| p - 1 < q < |line[1..]| && line[1..][q] == v;
      assert line[q + 1] == v;
    }
  }

  /** De-duplication leaves every dependency satisfied. */
  lemma {:induction false} KeepLastFollowed(line: seq<nat>, shared: set<nat>, after: set<(nat, nat)>)
    requires AllFollowed(line, after)
    ensures AllFollowed(KeepLast(line, shared), after)
  {
    if line != [] {
      hide OccursAfter;
      var rest := line[1..];
      forall p: nat, v: nat | p < |rest| && (rest[p], v) in after
        ensures OccursAfter(rest, p, v)
      {
        assert line[p + 1] == rest[p];
        OccursAfterTail(line, p + 1, v);
      }
      KeepLastFollowed(rest, shared, after);
      var kept, keptRest := KeepLast(line, shared), KeepLast(rest, shared);
      if kept != keptRest {
        forall p: nat, v: nat | p < |kept| && (kept[p], v) in after
          ensures OccursAfter(kept, p, v)
        {
          assert kept[1..] == keptRest;
          if p == 0 {
            assert OccursAfter(line, 0, v);
            OccursAfterHead(line, v);
            KeepLastElements(rest, shared, v);
            OccursAfterHead(kept, v);
          } else {
            OccursAfterTail(kept, p, v);
          }
        }
      }
    }
  }

  /** The dependencies between different components of a constraint graph. */
  ghost function Dependencies(g: Graph, componentOf: seq<int>): set<(nat, nat)>
    requires |componentOf| == |g|
  {
    set u: nat, v: nat | u < |g| && v < |g| && Reach(g, u, v) && componentOf[u] != componentOf[v] :: (u, v)
  }

  /** The line as emitted, and the line without repeated shared libraries, satisfy
      every dependency between different components. */
  lemma LineSatisfiesDependencies(g: Graph, x: Layout, originals: seq<nat>, shared: set<nat>)
    requires LayoutOf(g, x) && EntriesOk(x, originals)
    ensures AllFollowed(Emit(x, originals).line, Dependencies(g, x.componentOf))
    ensures AllFollowed(KeepLast(Emit(x, originals).line, shared), Dependencies(g, x.componentOf))
  {
    hide Reach, DependenciesFollow, ComponentsRepeat, Emit, KeepLast, OccursAfter;
    var line := Emit(x, originals).line;
    EmitSatisfies(x, originals);
    forall p: nat, v: nat | p < |line| && (line[p], v) in Dependencies(g, x.componentOf)
      ensures OccursAfter(line, p, v)
    {
      DependenciesMet(g, x, line, p, v);
    }
    KeepLastFollowed(line, shared, Dependencies(g, x.componentOf));
  }
}
