/** How much of a component is left over at any moment of the emission: the rounds in which
    its members have been seen say exactly what it still waits for (VisitEntry in
    cmComputeLinkDepends). */
module LinkRounds {
  import opened Graphs
  import opened Sorting
  import opened TopologicalOrder
  import opened LinkOrder

  /** The stretch sees all of m, and its last entry was missing. */
  ghost predicate Round(s: seq<nat>, m: set<nat>) {
    s != [] && m <= Elements(s) && !(m <= Elements(s[..|s| - 1]))
  }

  /** The stretch consists of k rounds. */
  ghost predicate Rounds(s: seq<nat>, m: set<nat>, k: nat)
    decreases k
  {
    if k == 0 then s == [] else exists i :: 0 <= i <= |s| && Rounds(s[..i], m, k - 1) && Round(s[i..], m)
  }

  /** What is pending for c after k rounds and the members seen of the next one; was says
      whether it was pending whole when the rounds began. */
  ghost predicate Waits(x: Layout, p: Pendings, c: nat, k: nat, seen: set<nat>, was: bool)
    requires x.Valid() && c < |x.components|
  {
    if (was && k < x.needed[c]) || k % x.needed[c] != 0 || seen != {}
    then x.order[c] in p && p[x.order[c]] == PendingComponent(c, x.needed[c] - k % x.needed[c], x.Members(c) - seen)
    else x.order[c] !in p
  }

  /** After the stretch s the component c waits for what its rounds leave. */
  ghost predicate WaitsAfter(x: Layout, s: seq<nat>, p: Pendings, c: nat, was: bool)
    requires x.Valid() && c < |x.components|
  {
    exists i, k: nat :: 0 <= i <= |s| && Rounds(s[..i], x.Members(c), k) && !(x.Members(c) <= Elements(s[i..]))
      && Waits(x, p, c, k, Elements(s[i..]) * x.Members(c), was)
  }

  /** Some component leads to c. */
  ghost predicate Led(x: Layout, c: nat) {
    exists d: nat :: HasEdge(x.graph, d, c)
  }

  /** What c waits for follows from the line: from all of it, or, where another component
      has called for c, from what has come since then. */
  ghost predicate WaitsFrom(x: Layout, s: Emission, c: nat, q: nat)
    requires x.Valid() && c < |x.components|
  {
    && q <= |s.line|
    && ((q == 0 && WaitsAfter(x, s.line, s.pending, c, false))
        || (Led(x, c) && WaitsAfter(x, s.line[q..], s.pending, c, true)))
  }

  ghost predicate LeftExactly(x: Layout, s: Emission)
    requires x.Valid()
  {
    forall c: nat :: c < |x.components| ==> LeftFor(x, s, c)
  }

  ghost predicate LeftFor(x: Layout, s: Emission, c: nat)
    requires x.Valid() && c < |x.components|
  {
    exists q: nat :: WaitsFrom(x, s, c, q)
  }

  lemma NeededIsPositive(x: Layout, c: nat)
    requires x.Valid() && c < |x.components|
    ensures 1 <= x.needed[c] && x.Members(c) != {}
    ensures |x.components[c]| == 1 ==> x.needed[c] == 1
  {
    assert x.components[c][0] in x.Members(c);
  }

  lemma OneRoundMore(k: nat, n: nat)
    requires 1 <= n
    ensures (k + 1) % n == if k % n == n - 1 then 0 else k % n + 1
    ensures k < n ==> k % n == k
    ensures (k + 1) % n == 0 ==> n <= k + 1
  {
    var q, r := Division(k, n);
    if k < n { Remainder(0, n, k); }
    if k + 1 < n { Remainder(0, n, k + 1); }
    if r == n - 1 {
      assert k + 1 == (q + 1) * n + 0;
      Remainder(q + 1, n, 0);
    } else {
      Remainder(q, n, r + 1);
    }
  }

  lemma Division(k: nat, n: nat) returns (q: nat, r: nat)
    requires 1 <= n
    ensures k == q * n + r && r < n && r == k % n
  {
    q, r := k / n, k % n;
  }

  lemma Remainder(q: nat, n: nat, r: nat)
    requires r < n
    ensures (q * n + r) % n == r
  {
    var p, t := Division(q * n + r, n);
    var d := q - p;
    assert d * n == q * n - p * n == t - r;
    AtLeastOnce(d, n);
  }

  lemma AtLeastOnce(d: int, n: nat)
    ensures 1 <= d ==> n <= d * n
    ensures d <= -1 ==> d * n + n <= 0
  {
    if 1 <= d { assert (d - 1) * n >= 0; }
    if d <= -1 { assert (-d - 1) * n >= 0; }
  }

  lemma RoundEnds(s: seq<nat>, m: set<nat>, i: nat, k: nat, e: nat)
    requires i <= |s| && Rounds(s[..i], m, k) && !(m <= Elements(s[i..])) && m <= Elements(s[i..]) + {e}
    ensures Rounds(s + [e], m, k + 1)
  {
    var t := s + [e];
    TailGrows(s, e, i);
    assert t[i..][..|t[i..]| - 1] == s[i..];
    assert Round(t[i..], m);
    assert t[..i] == s[..i];
  }

  /** The next entry is not one of c. */
  lemma OtherSeen(x: Layout, p: Pendings, q: Pendings, c: nat, s: seq<nat>, e: nat, was: bool)
    requires x.Valid() && c < |x.components| && e !in x.Members(c) && WaitsAfter(x, s, p, c, was)
    requires x.order[c] in p <==> x.order[c] in q
    requires x.order[c] in p ==> q[x.order[c]] == p[x.order[c]]
    ensures WaitsAfter(x, s + [e], q, c, was)
  {
    hide Rounds;
    var m := x.Members(c);
    var i, k: nat :| 0 <= i <= |s| && Rounds(s[..i], m, k) && !(m <= Elements(s[i..]))
      && Waits(x, p, c, k, Elements(s[i..]) * m, was);
    TailGrows(s, e, i);
    assert Elements((s + [e])[i..]) * m == Elements(s[i..]) * m;
    assert Waits(x, q, c, k, Elements((s + [e])[i..]) * m, was);
  }

  lemma WaitsAt(x: Layout, s: seq<nat>, p: Pendings, c: nat, was: bool) returns (i: int, k: nat)
    requires x.Valid() && c < |x.components| && WaitsAfter(x, s, p, c, was)
    ensures 0 <= i <= |s| && Rounds(s[..i], x.Members(c), k)
    ensures Elements(s[i..]) * x.Members(c) < x.Members(c)
    ensures Waits(x, p, c, k, Elements(s[i..]) * x.Members(c), was)
  {
    var m := x.Members(c);
    i, k :| 0 <= i <= |s| && Rounds(s[..i], m, k) && !(m <= Elements(s[i..]))
      && Waits(x, p, c, k, Elements(s[i..]) * m, was);
  }

  lemma WaitsSince(x: Layout, s: seq<nat>, p: Pendings, c: nat, was: bool, i: int, k: nat, seen: set<nat>)
    requires x.Valid() && c < |x.components| && 0 <= i <= |s| && Rounds(s[..i], x.Members(c), k)
    requires seen == Elements(s[i..]) * x.Members(c) && seen < x.Members(c) && Waits(x, p, c, k, seen, was)
    ensures WaitsAfter(x, s, p, c, was)
  {
    hide Rounds, Waits;
  }

  /** The next entry is one of c. */
  lemma OneSeen(x: Layout, p: Pendings, c: nat, s: seq<nat>, e: nat, was: bool)
    requires x.Valid() && PendingsOk(x, p) && c < |x.components| && e < |x.componentOf| && x.componentOf[e] == c
    requires WaitsAfter(x, s, p, c, was)
    ensures WaitsAfter(x, s + [e], SeeEntry(x, p, e).0, c, was)
  {
    hide Rounds, SeeEntry, Waits, WaitsAfter, PendingsOk;
    var m, t := x.Members(c), s + [e];
    var i, k := WaitsAt(x, s, p, c, was);
    var seen := Elements(s[i..]) * m;
    TailGrows(s, e, i);
    MemberOf(x, e);
    if m <= seen + {e} {
      RoundEnds(s, m, i, k, e);
      assert t[..|t|] == t && t[|t|..] == [];
      RoundSeen(x, p, c, k, seen, e, was);
      WaitsSince(x, t, SeeEntry(x, p, e).0, c, was, |t|, k + 1, {});
    } else {
      MemberSeen(x, p, c, k, seen, e, was);
      assert Elements(t[i..]) * m == seen + {e};
      WaitsSince(x, t, SeeEntry(x, p, e).0, c, was, i, k, seen + {e});
    }
  }

  /** The entry completes a round. */
  lemma RoundSeen(x: Layout, p: Pendings, c: nat, k: nat, seen: set<nat>, e: nat, was: bool)
    requires x.Valid() && c < |x.components| && e < |x.componentOf| && x.componentOf[e] == c
    requires Waits(x, p, c, k, seen, was) && seen < x.Members(c) <= seen + {e}
    ensures Waits(x, SeeEntry(x, p, e).0, c, k + 1, {}, was)
  {
    var m, n := x.Members(c), x.needed[c];
    NeededIsPositive(x, c);
    OneRoundMore(k, n);
    MemberOf(x, e);
    assert m - seen - {e} == {};
    assert m - {} == m;
    if x.order[c] !in p {
      assert seen == {} && m == {e};
      OneMember(x, c, e);
    }
  }

  lemma OneMember(x: Layout, c: nat, e: nat)
    requires x.Valid() && c < |x.components| && x.Members(c) == {e}
    ensures |x.components[c]| == 1
  {
    var l := x.components[c];
    assert forall i :: 0 <= i < |l| ==> l[i] in x.Members(c);
    assert forall i :: 0 <= i < |l| ==> l[i] == e;
    assert l[0] == e && l[|l| - 1] == e;
  }

  lemma OnlyMember(x: Layout, c: nat, e: nat)
    requires x.Valid() && c < |x.components| && e in x.Members(c) && |x.components[c]| == 1
    ensures x.Members(c) == {e}
  {
  }

  /** The entry leaves others of its round to be seen. */
  lemma MemberSeen(x: Layout, p: Pendings, c: nat, k: nat, seen: set<nat>, e: nat, was: bool)
    requires x.Valid() && PendingsOk(x, p) && c < |x.components| && e < |x.componentOf| && x.componentOf[e] == c
    requires Waits(x, p, c, k, seen, was) && seen <= x.Members(c) && !(x.Members(c) <= seen + {e})
    ensures Waits(x, SeeEntry(x, p, e).0, c, k, seen + {e}, was)
  {
    var m := x.Members(c);
    MemberOf(x, e);
    assert m - seen - {e} == m - (seen + {e}) != {};
    if x.order[c] !in p {
      assert seen == {};
      if |x.components[c]| == 1 { OnlyMember(x, c, e); }
      MakePendingOk(x, p, c);
      assert {} + {e} == {e};
    }
  }

  // ----- one visit

  /** The component has just been called for: it waits for all its rounds. */
  lemma CalledFor(x: Layout, p: Pendings, c: nat)
    requires x.Valid() && c < |x.components|
    requires x.order[c] in p && p[x.order[c]] == PendingComponent(c, x.needed[c], x.Members(c))
    ensures WaitsAfter(x, [], p, c, true)
  {
    NeededIsPositive(x, c);
    OneRoundMore(0, x.needed[c]);
    var s: seq<nat> := [];
    assert Elements(s) == {} && s[..0] == [] && s[0..] == [];
    assert x.Members(c) - {} == x.Members(c);
    assert Rounds(s[..0], x.Members(c), 0);
    assert Waits(x, p, c, 0, Elements(s[0..]) * x.Members(c), true);
  }

  lemma {:induction false} EachCalledFor(x: Layout, p: Pendings, es: seq<Edge>, c: nat)
    requires x.Valid() && PendingsOk(x, p) && c < |x.components|
    requires forall i :: 0 <= i < |es| ==> es[i].dest < |x.components|
    ensures var q := MakeEachPending(x, p, es);
      var k := x.order[c];
      if exists i :: 0 <= i < |es| && es[i].dest == c
      then k in q && q[k] == PendingComponent(c, x.needed[c], x.Members(c))
      else (k in p <==> k in q) && (k in p ==> q[k] == p[k])
  {
    hide PendingsOk, MakePending;
    if es != [] {
      var front, last := es[..|es| - 1], es[|es| - 1].dest;
      EachCalledFor(x, p, front, c);
      MakeEachPendingOk(x, p, front);
      MakePendingOk(x, MakeEachPending(x, p, front), last);
      if i :| 0 <= i < |es| && es[i].dest == c && i < |front| { assert front[i].dest == c; }
      if last != c { OtherIndex(x, last, c); }
    }
  }

  lemma SeenStays(x: Layout, s: Emission, e: nat, c: nat, tail: seq<nat>, was: bool)
    requires x.Valid() && PendingsOk(x, s.pending) && e < |x.componentOf| && c < |x.components|
    requires WaitsAfter(x, tail, s.pending, c, was)
    ensures WaitsAfter(x, tail + [e], SeeEntry(x, s.pending, e).0, c, was)
  {
    hide WaitsAfter, SeeEntry;
    if x.componentOf[e] == c {
      OneSeen(x, s.pending, c, tail, e, was);
    } else {
      MemberOf(x, e);
      if e in x.Members(c) { MemberInRange(x, c, e); }
      OtherIndex(x, x.componentOf[e], c);
      OthersUntouched(x, s.pending, e, x.order[c]);
      OtherSeen(x, s.pending, SeeEntry(x, s.pending, e).0, c, tail, e, was);
    }
  }

  lemma OthersUntouched(x: Layout, p: Pendings, e: nat, k: int)
    requires x.Valid() && e < |x.componentOf| && k != x.order[x.componentOf[e]]
    ensures var q := SeeEntry(x, p, e).0;
      (k in p <==> k in q) && (k in p ==> q[k] == p[k])
  {
  }

  lemma VisitLeaves(x: Layout, s: Emission, e: nat, c: nat, q: nat) returns (r: nat)
    requires x.Valid() && PendingsOk(x, s.pending) && e < |x.componentOf| && c < |x.components|
    requires WaitsFrom(x, s, c, q)
    ensures WaitsFrom(x, VisitEntry(x, s, e), c, r)
  {
    hide WaitsAfter, SeeEntry, MakeEachPending;
    var (p, completed) := SeeEntry(x, s.pending, e);
    var t := VisitEntry(x, s, e);
    var d := x.componentOf[e];
    SeeEntryOk(x, s.pending, e);
    EachCalledFor(x, p, x.graph[d], c);
    if completed && exists i :: 0 <= i < |x.graph[d]| && x.graph[d][i].dest == c {
      r := |t.line|;
      assert HasEdge(x.graph, d, c) && t.line[r..] == [];
      CalledFor(x, t.pending, c);
    } else {
      r := q;
      assert t.line[q..] == s.line[q..] + [e];
      if q == 0 && WaitsAfter(x, s.line, s.pending, c, false) {
        SeenStays(x, s, e, c, s.line, false);
        SameWaits(x, t.line, p, t.pending, c, false);
      } else {
        SeenStays(x, s, e, c, s.line[q..], true);
        SameWaits(x, t.line[q..], p, t.pending, c, true);
      }
    }
  }

  lemma SameWaits(x: Layout, s: seq<nat>, p: Pendings, q: Pendings, c: nat, was: bool)
    requires x.Valid() && c < |x.components| && WaitsAfter(x, s, p, c, was)
    requires var k := x.order[c]; (k in p <==> k in q) && (k in p ==> q[k] == p[k])
    ensures WaitsAfter(x, s, q, c, was)
  {
    hide Rounds;
    var m := x.Members(c);
    var i, k: nat :| 0 <= i <= |s| && Rounds(s[..i], m, k) && !(m <= Elements(s[i..]))
      && Waits(x, p, c, k, Elements(s[i..]) * m, was);
    assert Waits(x, q, c, k, Elements(s[i..]) * m, was);
  }

  /** Whatever the original entries are, what they leave over is exactly known. */
  lemma {:induction false} OriginalsLeave(x: Layout, originals: seq<nat>)
    requires x.Valid() && EntriesOk(x, originals)
    ensures var s := VisitEach(x, Emission([], map[]), originals);
      PendingsOk(x, s.pending) && LeftExactly(x, s)
  {
    hide WaitsFrom, VisitEntry;
    var s := VisitEach(x, Emission([], map[]), originals);
    if originals == [] {
      forall c: nat | c < |x.components|
        ensures LeftFor(x, s, c)
      {
        NothingLeft(x, c);
        assert WaitsFrom(x, s, c, 0);
      }
    } else {
      var front, e := originals[..|originals| - 1], originals[|originals| - 1];
      var r := VisitEach(x, Emission([], map[]), front);
      OriginalsLeave(x, front);
      VisitPendingOk(x, r, e);
      forall c: nat | c < |x.components|
        ensures LeftFor(x, s, c)
      {
        assert LeftFor(x, r, c);
        var q: nat :| WaitsFrom(x, r, c, q);
        var u := VisitLeaves(x, r, e, c, q);
      }
    }
  }

  lemma VisitPendingOk(x: Layout, s: Emission, e: nat)
    requires x.Valid() && PendingsOk(x, s.pending) && e < |x.componentOf|
    ensures PendingsOk(x, VisitEntry(x, s, e).pending)
  {
    SeeEntryOk(x, s.pending, e);
    EdgesLeave(x, x.componentOf[e]);
    MakeEachPendingOk(x, SeeEntry(x, s.pending, e).0, x.graph[x.componentOf[e]]);
  }

  lemma NothingLeft(x: Layout, c: nat)
    requires x.Valid() && c < |x.components|
    ensures WaitsFrom(x, Emission([], map[]), c, 0)
  {
    NeededIsPositive(x, c);
    OneRoundMore(0, x.needed[c]);
    var s: seq<nat> := [];
    assert Elements(s) == {} && s[..0] == [] && s[0..] == [];
    assert Rounds(s[..0], x.Members(c), 0);
    assert Waits(x, map[], c, 0, Elements(s[0..]) * x.Members(c), false);
  }
}
