/** Inferring dependencies of unknown items from the lists they appear in
    (AddLinkEntries and InferDependencies in cmComputeLinkDepends). */
module LinkInference {
  import opened Graphs

  /** The entries of a list after the first occurrence of a. */
  ghost function AfterFirst(list: seq<nat>, a: nat): seq<nat> {
    if list == [] then [] else if list[0] == a then list[1..] else AfterFirst(list[1..], a)
  }

  /** What a may depend on, judged by one list: the possible dependees after its
      first occurrence, itself excluded. */
  ghost function FollowSet(list: seq<nat>, a: nat, dependees: set<nat>): set<nat> {
    set b: nat | b in AfterFirst(list, a) && b != a && b in dependees
  }

  /** The follow sets of a in the lists that contain it, in the order of the lists. */
  ghost function FollowSets(lists: seq<seq<nat>>, a: nat, dependees: set<nat>): seq<set<nat>> {
    if lists == [] then []
    else
      FollowSets(lists[..|lists| - 1], a, dependees) +
      (if a in lists[|lists| - 1] then [FollowSet(lists[|lists| - 1], a, dependees)] else [])
  }

  /** b occurs in the list after an occurrence of a that is the first one. */
  ghost predicate OccursBehind(list: seq<nat>, a: nat, b: nat) {
    exists i, j :: 0 <= i < j < |list| && list[i] == a && a !in list[..i] && list[j] == b
  }

  lemma {:induction false} AfterFirstIsBehind(list: seq<nat>, a: nat, b: nat)
    ensures b in AfterFirst(list, a) <==> OccursBehind(list, a, b)
  {
    if list != [] {
      var rest := list[1..];
      if list[0] == a {
        if b in rest {
          var j :| 0 <= j < |rest| && rest[j] == b;
          assert list[0] == a && a !in list[..0] && list[j + 1] == b;
        }
        if OccursBehind(list, a, b) {
          var i, j :| 0 <= i < j < |list| && list[i] == a && a !in list[..i] && list[j] == b;
          assert rest[j - 1] == b;
        }
      } else {
        AfterFirstIsBehind(rest, a, b);
        if OccursBehind(rest, a, b) {
          var i, j :| 0 <= i < j < |rest| && rest[i] == a && a !in rest[..i] && rest[j] == b;
          assert list[..i + 1] == [list[0]] + rest[..i];
          assert list[i + 1] == a && list[j + 1] == b;
        }
        if OccursBehind(list, a, b) {
          var i, j :| 0 <= i < j < |list| && list[i] == a && a !in list[..i] && list[j] == b;
          assert list[..i] == [list[0]] + rest[..i - 1];
          assert rest[i - 1] == a && rest[j - 1] == b;
        }
      }
    }
  }

  lemma {:induction false} AfterFirstGrows(list: seq<nat>, a: nat, d: nat)
    ensures AfterFirst(list + [d], a) == if a in list then AfterFirst(list, a) + [d] else []
  {
    if list == [] {
      assert list + [d] == [d];
      assert AfterFirst([d], a) == [];
    } else {
      var whole := list + [d];
      assert whole[1..] == list[1..] + [d];
      AfterFirstGrows(list[1..], a, d);
      assert list == [list[0]] + list[1..];
    }
  }

  /** Reading one more entry of the list adds it to the sets already begun. */
  lemma FollowSetGrows(list: seq<nat>, a: nat, d: nat, dependees: set<nat>)
    ensures FollowSet(list + [d], a, dependees) ==
      if a in list && d in dependees && d != a then FollowSet(list, a, dependees) + {d}
      else if a in list then FollowSet(list, a, dependees) else {}
  {
    AfterFirstGrows(list, a, d);
  }

  /** Entries outside the list do not matter. */
  lemma FollowSetSame(list: seq<nat>, a: nat, some: set<nat>, more: set<nat>)
    requires forall b: nat :: b in list ==> (b in some <==> b in more)
    ensures FollowSet(list, a, some) == FollowSet(list, a, more)
  {
    forall b: nat | b in AfterFirst(list, a)
      ensures b in list
    {
      AfterFirstInList(list, a, b);
    }
  }

  lemma {:induction false} AfterFirstInList(list: seq<nat>, a: nat, b: nat)
    requires b in AfterFirst(list, a)
    ensures b in list
  {
    AfterFirstIsBehind(list, a, b);
  }

  lemma {:induction false} FollowSetsSame(lists: seq<seq<nat>>, a: nat, some: set<nat>, more: set<nat>)
    requires forall k, b: nat :: 0 <= k < |lists| && b in lists[k] ==> (b in some <==> b in more)
    ensures FollowSets(lists, a, some) == FollowSets(lists, a, more)
  {
    if lists != [] {
      var front, last := lists[..|lists| - 1], lists[|lists| - 1];
      assert forall k :: 0 <= k < |front| ==> front[k] == lists[k];
      FollowSetsSame(front, a, some, more);
      FollowSetSame(last, a, some, more);
    }
  }

  lemma {:induction false} FollowSetsAbsent(lists: seq<seq<nat>>, a: nat, dependees: set<nat>)
    ensures FollowSets(lists, a, dependees) == [] <==> forall k :: 0 <= k < |lists| ==> a !in lists[k]
  {
    if lists != [] {
      var front := lists[..|lists| - 1];
      FollowSetsAbsent(front, a, dependees);
      assert forall k :: 0 <= k < |front| ==> front[k] == lists[k];
      if FollowSets(lists, a, dependees) == [] {
        assert FollowSets(front, a, dependees) == [];
      }
    }
  }

  /** The elements common to all sets of a non-empty list. */
  function Common(sets: seq<set<nat>>): set<nat>
    requires sets != []
  {
    if |sets| == 1 then sets[0] else Common(sets[..|sets| - 1]) * sets[|sets| - 1]
  }

  lemma {:induction false} CommonInEach(sets: seq<set<nat>>, b: nat)
    requires sets != []
    ensures b in Common(sets) <==> forall k :: 0 <= k < |sets| ==> b in sets[k]
  {
    if |sets| > 1 {
      var front := sets[..|sets| - 1];
      CommonInEach(front, b);
      assert forall k :: 0 <= k < |front| ==> front[k] == sets[k];
    }
  }

  lemma {:induction false} InEachFollowSet(lists: seq<seq<nat>>, a: nat, dependees: set<nat>, b: nat)
    ensures (forall k :: 0 <= k < |FollowSets(lists, a, dependees)| ==> b in FollowSets(lists, a, dependees)[k])
      <==> (forall k :: 0 <= k < |lists| && a in lists[k] ==> b in FollowSet(lists[k], a, dependees))
  {
    if lists != [] {
      var front, last := lists[..|lists| - 1], lists[|lists| - 1];
      var sets, some := FollowSets(lists, a, dependees), FollowSets(front, a, dependees);
      InEachFollowSet(front, a, dependees, b);
      assert forall k :: 0 <= k < |front| ==> front[k] == lists[k];
      assert forall k :: 0 <= k < |some| ==> some[k] == sets[k];
      if a in last { assert sets[|some|] == FollowSet(last, a, dependees); }
    }
  }

  /** a is inferred to depend on b. */
  ghost predicate Inferred(lists: seq<seq<nat>>, unknown: set<nat>, dependees: set<nat>, a: nat, b: nat) {
    a in unknown && FollowSets(lists, a, dependees) != [] && b in Common(FollowSets(lists, a, dependees))
  }

  /** Intersecting the follow sets infers b from a exactly when a is unknown, occurs
      in some list, and in every list it occurs in is first followed by b, a
      possible dependee other than a. */
  lemma InferredExactlyWhen(lists: seq<seq<nat>>, unknown: set<nat>, dependees: set<nat>, a: nat, b: nat)
    ensures Inferred(lists, unknown, dependees, a, b) <==>
      && a in unknown && b in dependees && a != b
      && (exists k :: 0 <= k < |lists| && a in lists[k])
      && (forall k :: 0 <= k < |lists| && a in lists[k] ==> OccursBehind(lists[k], a, b))
  {
    hide OccursBehind, AfterFirst;
    FollowSetsAbsent(lists, a, dependees);
    if FollowSets(lists, a, dependees) != [] {
      CommonInEach(FollowSets(lists, a, dependees), b);
      InEachFollowSet(lists, a, dependees, b);
      forall k | 0 <= k < |lists|
        ensures b in FollowSet(lists[k], a, dependees) <==> OccursBehind(lists[k], a, b) && b != a && b in dependees
      {
        AfterFirstIsBehind(lists[k], a, b);
      }
    }
  }

  // ----- edge lists

  /** Weak or strong edges to each entry of a list. */
  function EdgesTo(dests: seq<nat>, strong: bool): (r: seq<Edge>)
    ensures |r| == |dests| && forall k :: 0 <= k < |r| ==> r[k] == Edge(dests[k], strong, false, NoTrace)
  {
    seq(|dests|, k requires 0 <= k < |dests| => Edge(dests[k], strong, false, NoTrace))
  }

  /** Ordered by destination, equal ones in their old order. */
  function InsertEdge(e: Edge, es: seq<Edge>): seq<Edge> {
    if es == [] || e.dest <= es[0].dest then [e] + es else [es[0]] + InsertEdge(e, es[1..])
  }

  function SortEdges(es: seq<Edge>): seq<Edge> {
    if es == [] then [] else InsertEdge(es[0], SortEdges(es[1..]))
  }

  /** The first of each run of edges with the same destination. */
  function UniqueEdges(es: seq<Edge>): seq<Edge> {
    if |es| <= 1 then es
    else
      var rest := UniqueEdges(es[1..]);
      if es[0].dest == es[1].dest then [es[0]] + rest[1..] else [es[0]] + rest
  }

  ghost predicate Rising(es: seq<Edge>) {
    forall a, b :: 0 <= a < b < |es| ==> es[a].dest < es[b].dest
  }

  ghost predicate NotFalling(es: seq<Edge>) {
    forall a, b :: 0 <= a < b < |es| ==> es[a].dest <= es[b].dest
  }

  ghost predicate LeadsTo(es: seq<Edge>, v: nat) {
    exists k :: 0 <= k < |es| && es[k].dest == v
  }

  lemma {:induction false} InsertEdgeAdds(e: Edge, es: seq<Edge>)
    ensures multiset(InsertEdge(e, es)) == multiset(es) + multiset{e}
  {
    if es != [] && e.dest > es[0].dest {
      InsertEdgeAdds(e, es[1..]);
      assert es == [es[0]] + es[1..];
    }
  }

  lemma {:induction false} InsertEdgeSorts(e: Edge, es: seq<Edge>)
    requires NotFalling(es)
    ensures NotFalling(InsertEdge(e, es))
  {
    if es != [] && e.dest > es[0].dest {
      var rest := InsertEdge(e, es[1..]);
      InsertEdgeSorts(e, es[1..]);
      InsertEdgeAdds(e, es[1..]);
      forall a | 0 <= a < |rest|
        ensures es[0].dest <= rest[a].dest
      {
        assert rest[a] in multiset(rest);
        if rest[a] != e {
          assert rest[a] in es[1..];
        }
      }
    }
  }

  lemma {:induction false} SortEdgesSorts(es: seq<Edge>)
    ensures NotFalling(SortEdges(es)) && multiset(SortEdges(es)) == multiset(es)
  {
    if es != [] {
      SortEdgesSorts(es[1..]);
      InsertEdgeSorts(es[0], SortEdges(es[1..]));
      InsertEdgeAdds(es[0], SortEdges(es[1..]));
      assert es == [es[0]] + es[1..];
    }
  }

  lemma {:induction false} UniqueEdgesInside(es: seq<Edge>)
    ensures forall e :: e in UniqueEdges(es) ==> e in es
    ensures es != [] ==> UniqueEdges(es) != [] && UniqueEdges(es)[0] == es[0]
  {
    if |es| > 1 {
      UniqueEdgesInside(es[1..]);
      assert es == [es[0]] + es[1..];
    }
  }

  lemma {:induction false} UniqueEdgesRise(es: seq<Edge>)
    requires NotFalling(es)
    ensures Rising(UniqueEdges(es))
  {
    if |es| > 1 {
      var tail, rest := es[1..], UniqueEdges(es[1..]);
      UniqueEdgesRise(tail);
      UniqueEdgesInside(tail);
      forall k | 0 <= k < |rest|
        ensures es[1].dest <= rest[k].dest
      {
        if k > 0 { assert rest[0].dest < rest[k].dest; }
      }
    }
  }

  lemma {:induction false} UniqueEdgesKeepDests(es: seq<Edge>, v: nat)
    requires NotFalling(es)
    ensures LeadsTo(UniqueEdges(es), v) <==> LeadsTo(es, v)
  {
    if |es| > 1 {
      hide LeadsTo;
      var rest, all := UniqueEdges(es[1..]), UniqueEdges(es);
      UniqueEdgesKeepDests(es[1..], v);
      UniqueEdgesInside(es[1..]);
      LeadsToHead(es, v);
      LeadsToHead(all, v);
      LeadsToHead(rest, v);
      assert all[1..] == if es[0].dest == es[1].dest then rest[1..] else rest;
    }
  }

  lemma LeadsToHead(es: seq<Edge>, v: nat)
    requires es != []
    ensures LeadsTo(es, v) <==> es[0].dest == v || LeadsTo(es[1..], v)
  {
    if LeadsTo(es[1..], v) {
      var k :| 0 <= k < |es[1..]| && es[1..][k].dest == v;
      assert es[k + 1].dest == v;
    }
    if LeadsTo(es, v) && es[0].dest != v {
      var k :| 0 <= k < |es| && es[k].dest == v;
      assert es[1..][k - 1].dest == v;
    }
  }

  /** Sorting and removing duplicates leaves one edge to each destination there was,
      in ascending order, and invents none. */
  lemma CleanedEdges(es: seq<Edge>)
    ensures var out := UniqueEdges(SortEdges(es));
      && Rising(out)
      && (forall e :: e in out ==> e in es)
      && (forall v: nat :: LeadsTo(out, v) <==> LeadsTo(es, v))
  {
    var sorted := SortEdges(es);
    SortEdgesSorts(es);
    UniqueEdgesRise(sorted);
    UniqueEdgesInside(sorted);
    forall v: nat
      ensures LeadsTo(UniqueEdges(sorted), v) <==> LeadsTo(sorted, v)
    {
      UniqueEdgesKeepDests(sorted, v);
    }
    forall e | e in sorted
      ensures e in es
    {
      assert e in multiset(sorted);
    }
    forall v: nat
      ensures LeadsTo(sorted, v) <==> LeadsTo(es, v)
    {
      if LeadsTo(sorted, v) {
        var k :| 0 <= k < |sorted| && sorted[k].dest == v;
        assert sorted[k] in es;
      }
      if LeadsTo(es, v) {
        var k :| 0 <= k < |es| && es[k].dest == v;
        assert es[k] in multiset(sorted);
        assert es[k] in sorted;
      }
    }
  }
}
