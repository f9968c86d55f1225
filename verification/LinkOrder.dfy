/** The state machine that emits a link line: pending components, what a visit of
    one entry does to them, and what the line then guarantees (VisitEntry and
    OrderLinkEntires in cmComputeLinkDepends). */
module LinkOrder {
  import opened Graphs
  import opened Sorting
  import opened TopologicalOrder

  /** A component that must still be seen. */
  datatype PendingComponent = PendingComponent(
    id: nat,
    count: int,            // times the whole component is still to be seen
    entries: set<nat>)     // members not seen since it last was needed

  /** What the emission looks up and never changes. */
  datatype Layout = Layout(
    componentOf: seq<int>,
    components: seq<seq<nat>>,
    graph: Graph,
    order: seq<int>,       // topological index of each component
    needed: seq<nat>)      // times each component has to be seen
  {
    ghost predicate Valid() {
      && |graph| == |order| == |needed| == |components|
      && WellFormed(graph) && IsTopological(graph, order)
      && (forall v: nat :: v < |componentOf| ==> 0 <= componentOf[v] < |components|)
      && (forall c: nat :: c < |components| ==> components[c] != [] && Distinct(components[c]))
      && (forall c: nat, v: nat {:trigger v in components[c]} {:trigger componentOf[v], components[c]} ::
          c < |components| ==> (v in components[c] <==> v < |componentOf| && componentOf[v] == c))
      && (forall c: nat :: c < |components| ==> if |components[c]| == 1 then needed[c] == 1 else 2 <= needed[c])
    }

    function Members(c: nat): set<nat>
      requires c < |components|
    {
      set v | v in components[c]
    }
  }

  type Pendings = map<int, PendingComponent>

  /** The line so far and the components still pending, by topological index. */
  datatype Emission = Emission(line: seq<nat>, pending: Pendings)

  // ----- the transition function

  function MakePending(x: Layout, p: Pendings, c: nat): Pendings
    requires x.Valid() && c < |x.components|
  {
    var k := x.order[c];
    var entries := if k in p then p[k].entries else {};
    p[k := PendingComponent(c, x.needed[c], entries + x.Members(c))]
  }

  function MakeEachPending(x: Layout, p: Pendings, es: seq<Edge>): Pendings
    requires x.Valid() && forall i :: 0 <= i < |es| ==> es[i].dest < |x.components|
  {
    if es == [] then p
    else MakePending(x, MakeEachPending(x, p, es[..|es| - 1]), es[|es| - 1].dest)
  }

  /** The entry leaves its component's pending set. The flag says whether that
      completes the component. */
  function SeeEntry(x: Layout, p: Pendings, e: nat): (Pendings, bool)
    requires x.Valid() && e < |x.componentOf|
  {
    var c := x.componentOf[e];
    var k := x.order[c];
    if k in p then
      var pc := p[k];
      var rest := pc.entries - {e};
      if rest != {} then (p[k := pc.(entries := rest)], false)
      else if pc.count - 1 == 0 then (p - {k}, true)
      else (p[k := pc.(count := pc.count - 1, entries := x.Members(c))], false)
    else if |x.components[c]| > 1 then
      var q := MakePending(x, p, c);
      (q[k := q[k].(entries := q[k].entries - {e})], false)
    else (p, true)
  }

  function VisitEntry(x: Layout, s: Emission, e: nat): Emission
    requires x.Valid() && e < |x.componentOf|
  {
    var (p, completed) := SeeEntry(x, s.pending, e);
    Emission(s.line + [e], if completed then MakeEachPending(x, p, x.graph[x.componentOf[e]]) else p)
  }

  function VisitEach(x: Layout, s: Emission, es: seq<nat>): Emission
    requires x.Valid() && forall i :: 0 <= i < |es| ==> es[i] < |x.componentOf|
  {
    if es == [] then s
    else VisitEntry(x, VisitEach(x, s, es[..|es| - 1]), es[|es| - 1])
  }

  // ----- well-formed pending sets

  ghost predicate PendingOk(x: Layout, k: int, pc: PendingComponent)
    requires x.Valid()
  {
    && pc.id < |x.components| && x.order[pc.id] == k
    && pc.entries != {} && pc.entries <= x.Members(pc.id)
    && 1 <= pc.count <= x.needed[pc.id]
  }

  ghost predicate PendingsOk(x: Layout, p: Pendings)
    requires x.Valid()
  {
    forall k :: k in p ==> PendingOk(x, k, p[k])
  }

  lemma SameIndex(x: Layout, c: nat, d: nat)
    requires x.Valid() && c < |x.components| && d < |x.components| && x.order[c] == x.order[d]
    ensures c == d
  {
  }

  lemma OtherIndex(x: Layout, c: nat, d: nat)
    requires x.Valid() && c < |x.components| && d < |x.components| && c != d
    ensures x.order[c] != x.order[d]
  {
  }

  /** No edge of the component graph leads back to the component it leaves. */
  lemma EdgesLeave(x: Layout, c: nat)
    requires x.Valid() && c < |x.components|
    ensures forall i :: 0 <= i < |x.graph[c]| ==>
      x.graph[c][i].dest < |x.components| && x.order[x.graph[c][i].dest] != x.order[c]
  {
    forall i | 0 <= i < |x.graph[c]|
      ensures x.graph[c][i].dest < |x.components| && x.order[x.graph[c][i].dest] != x.order[c]
    {
      assert HasEdge(x.graph, c, x.graph[c][i].dest);
    }
  }

  lemma MemberOf(x: Layout, e: nat)
    requires x.Valid() && e < |x.componentOf|
    ensures 0 <= x.componentOf[e] < |x.components| && e in x.Members(x.componentOf[e])
  {
  }

  lemma MemberInRange(x: Layout, c: nat, e: nat)
    requires x.Valid() && c < |x.components| && e in x.Members(c)
    ensures e < |x.componentOf| && x.componentOf[e] == c
  {
    assert e in x.components[c];
  }

  lemma MakePendingOk(x: Layout, p: Pendings, c: nat)
    requires x.Valid() && PendingsOk(x, p) && c < |x.components|
    ensures PendingsOk(x, MakePending(x, p, c))
    ensures MakePending(x, p, c) == p[x.order[c] := PendingComponent(c, x.needed[c], x.Members(c))]
  {
    var k := x.order[c];
    assert x.components[c][0] in x.Members(c);
    if k in p {
      assert PendingOk(x, k, p[k]);
      SameIndex(x, p[k].id, c);
    }
    assert (if k in p then p[k].entries else {}) + x.Members(c) == x.Members(c);
  }

  lemma {:induction false} MakeEachPendingOk(x: Layout, p: Pendings, es: seq<Edge>)
    requires x.Valid() && PendingsOk(x, p) && forall i :: 0 <= i < |es| ==> es[i].dest < |x.components|
    ensures PendingsOk(x, MakeEachPending(x, p, es))
    ensures forall k :: k in MakeEachPending(x, p, es) ==>
      k in p || exists i :: 0 <= i < |es| && x.order[es[i].dest] == k
    ensures forall k :: k in p ==> k in MakeEachPending(x, p, es)
    ensures forall i :: 0 <= i < |es| ==> x.order[es[i].dest] in MakeEachPending(x, p, es)
  {
    if es != [] {
      var front := es[..|es| - 1];
      MakeEachPendingOk(x, p, front);
      MakePendingOk(x, MakeEachPending(x, p, front), es[|es| - 1].dest);
      assert forall i :: 0 <= i < |es| - 1 ==> front[i] == es[i];
    }
  }

  lemma SeeEntryOk(x: Layout, p: Pendings, e: nat)
    requires x.Valid() && PendingsOk(x, p) && e < |x.componentOf|
    ensures PendingsOk(x, SeeEntry(x, p, e).0)
  {
    var c := x.componentOf[e];
    var k := x.order[c];
    var q := SeeEntry(x, p, e).0;
    MemberOf(x, e);
    if k in p {
      assert PendingOk(x, k, p[k]);
      SameIndex(x, p[k].id, c);
      assert forall j :: j in q && j != k ==> j in p && q[j] == p[j];
    } else if |x.components[c]| > 1 {
      MakePendingOk(x, p, c);
      OtherMember(x, c, e);
      assert forall j :: j in q && j != k ==> j in p && q[j] == p[j];
    }
  }

  lemma OtherMember(x: Layout, c: nat, e: nat)
    requires x.Valid() && c < |x.components| && |x.components[c]| > 1
    ensures x.Members(c) - {e} != {}
  {
    var a, b := x.components[c][0], x.components[c][1];
    assert a in x.Members(c) && b in x.Members(c) && a != b;
    assert a in x.Members(c) - {e} || b in x.Members(c) - {e};
  }

  // ----- how often a component has been seen

  /** The line can be cut into k consecutive stretches (and a rest) that each
      contain every member of m. */
  ghost predicate SeenTimes(s: seq<nat>, m: set<nat>, k: nat)
    decreases k
  {
    k == 0 || exists i :: 0 <= i <= |s| && SeenTimes(s[..i], m, k - 1) && m <= Elements(s[i..])
  }

  /** The set has been seen k times, and since then all of it but todo. */
  ghost predicate Progress(s: seq<nat>, m: set<nat>, todo: set<nat>, k: nat) {
    exists i :: 0 <= i <= |s| && SeenTimes(s[..i], m, k) && m - todo <= Elements(s[i..])
  }

  lemma TailGrows(s: seq<nat>, e: nat, i: nat)
    requires i <= |s|
    ensures (s + [e])[..i] == s[..i] && Elements((s + [e])[i..]) == Elements(s[i..]) + {e}
  {
    assert (s + [e])[i..] == s[i..] + [e];
    assert Elements(s[i..] + [e]) == Elements(s[i..]) + {e} by {
      assert forall v :: v in s[i..] + [e] <==> v in s[i..] || v == e;
    }
  }

  lemma SeenTimesGrows(s: seq<nat>, m: set<nat>, k: nat, e: nat)
    requires SeenTimes(s, m, k)
    ensures SeenTimes(s + [e], m, k)
  {
    if k > 0 {
      var i :| 0 <= i <= |s| && SeenTimes(s[..i], m, k - 1) && m <= Elements(s[i..]);
      TailGrows(s, e, i);
    }
  }

  lemma ProgressGrows(s: seq<nat>, m: set<nat>, todo: set<nat>, k: nat, e: nat)
    requires Progress(s, m, todo, k)
    ensures Progress(s + [e], m, todo - {e}, k)
  {
    var i :| 0 <= i <= |s| && SeenTimes(s[..i], m, k) && m - todo <= Elements(s[i..]);
    TailGrows(s, e, i);
  }

  /** A stretch that has seen everything counts, and a new one may begin. */
  lemma ProgressCompletes(s: seq<nat>, m: set<nat>, k: nat)
    requires Progress(s, m, {}, k)
    ensures SeenTimes(s, m, k + 1) && Progress(s, m, m, k + 1)
  {
    var i :| 0 <= i <= |s| && SeenTimes(s[..i], m, k) && m - {} <= Elements(s[i..]);
    assert m - {} == m;
    assert SeenTimes(s, m, k + 1);
    assert s[..|s|] == s && m - m == {};
  }

  lemma ProgressRestarts(s: seq<nat>, m: set<nat>)
    ensures Progress(s, m, m, 0)
  {
    assert SeenTimes(s[..|s|], m, 0) && m - m == {};
  }

  /** After a stretch s of the line, component d has been seen as often as needed,
      or is pending and has been seen as often as its count records. */
  ghost predicate Owed(x: Layout, s: seq<nat>, p: Pendings, d: nat)
    requires x.Valid() && PendingsOk(x, p) && d < |x.components|
  {
    || SeenTimes(s, x.Members(d), x.needed[d])
    || var k := x.order[d];
       k in p && PendingOk(x, k, p[k]) && p[k].count <= x.needed[d] &&
       Progress(s, x.Members(d), p[k].entries, x.needed[d] - p[k].count)
  }

  /** Emitting an entry keeps what is owed to every component. */
  lemma SeeEntryKeepsOwed(x: Layout, p: Pendings, e: nat, s: seq<nat>, d: nat)
    requires x.Valid() && PendingsOk(x, p) && e < |x.componentOf| && d < |x.components|
    requires Owed(x, s, p, d)
    ensures PendingsOk(x, SeeEntry(x, p, e).0) && Owed(x, s + [e], SeeEntry(x, p, e).0, d)
  {
    hide SeenTimes, Progress;
    SeeEntryOk(x, p, e);
    var m := x.Members(d);
    if SeenTimes(s, m, x.needed[d]) {
      SeenTimesGrows(s, m, x.needed[d], e);
    } else {
      var k := x.order[d];
      var pc := p[k];
      ProgressGrows(s, m, pc.entries, x.needed[d] - pc.count, e);
      var c := x.componentOf[e];
      if c == d {
        if pc.entries - {e} == {} {
          ProgressCompletes(s + [e], m, x.needed[d] - pc.count);
        }
      } else {
        OtherIndex(x, c, d);
        MemberOf(x, e);
        assert PendingOk(x, k, pc);
        SameIndex(x, pc.id, d);
        assert e !in m;
        assert pc.entries - {e} == pc.entries;
        assert SeeEntry(x, p, e).0[k] == pc;
      }
    }
  }

  /** A component made pending afresh owes everything, which is always on record. */
  lemma MakePendingKeepsOwed(x: Layout, p: Pendings, c: nat, s: seq<nat>, d: nat)
    requires x.Valid() && PendingsOk(x, p) && c < |x.components| && d < |x.components|
    requires c == d || Owed(x, s, p, d)
    ensures PendingsOk(x, MakePending(x, p, c)) && Owed(x, s, MakePending(x, p, c), d)
  {
    hide SeenTimes, Progress;
    MakePendingOk(x, p, c);
    if c == d {
      ProgressRestarts(s, x.Members(d));
    } else if x.order[c] == x.order[d] {
      SameIndex(x, c, d);
    }
  }

  lemma {:induction false} MakeEachPendingKeepsOwed(x: Layout, p: Pendings, es: seq<Edge>, s: seq<nat>, d: nat)
    requires x.Valid() && PendingsOk(x, p) && d < |x.components|
    requires forall i :: 0 <= i < |es| ==> es[i].dest < |x.components|
    requires (exists i :: 0 <= i < |es| && es[i].dest == d) || Owed(x, s, p, d)
    ensures PendingsOk(x, MakeEachPending(x, p, es)) && Owed(x, s, MakeEachPending(x, p, es), d)
  {
    hide Owed;
    if es != [] {
      var front, last := es[..|es| - 1], es[|es| - 1].dest;
      MakeEachPendingOk(x, p, front);
      if last != d {
        if i :| 0 <= i < |es| && es[i].dest == d { assert front[i].dest == d; }
        MakeEachPendingKeepsOwed(x, p, front, s, d);
      }
      MakePendingKeepsOwed(x, MakeEachPending(x, p, front), last, s, d);
    }
  }

  // ----- the invariant of the emission

  ghost predicate EntriesOk(x: Layout, line: seq<nat>) {
    forall p :: 0 <= p < |line| ==> line[p] < |x.componentOf|
  }

  /** Each occurrence on the line either belongs to a component still pending, or
      everything its component leads to is owed after it. */
  ghost predicate DependsOwed(x: Layout, s: Emission)
    requires x.Valid() && EntriesOk(x, s.line) && PendingsOk(x, s.pending)
  {
    forall p: nat, d: nat :: p < |s.line| && HasEdge(x.graph, x.componentOf[s.line[p]], d) ==>
      x.order[x.componentOf[s.line[p]]] in s.pending || Owed(x, s.line[p + 1..], s.pending, d)
  }

  ghost predicate Touched(x: Layout, s: Emission, d: nat)
    requires x.Valid() && EntriesOk(x, s.line) && d < |x.components|
  {
    x.order[d] in s.pending || (|x.components[d]| > 1 && exists p :: 0 <= p < |s.line| && x.componentOf[s.line[p]] == d)
  }

  /** Pending components, and non-trivial ones that occur, are owed on the line. */
  ghost predicate SelfOwed(x: Layout, s: Emission)
    requires x.Valid() && EntriesOk(x, s.line) && PendingsOk(x, s.pending)
  {
    forall d: nat :: d < |x.components| && Touched(x, s, d) ==> Owed(x, s.line, s.pending, d)
  }

  ghost predicate Emitting(x: Layout, s: Emission) {
    && x.Valid()
    && EntriesOk(x, s.line)
    && PendingsOk(x, s.pending)
    && DependsOwed(x, s)
    && SelfOwed(x, s)
  }

  /** What a visit does to what is owed after a stretch s of the line. */
  lemma VisitKeepsOwed(x: Layout, p: Pendings, e: nat, s: seq<nat>, d: nat)
    requires x.Valid() && PendingsOk(x, p) && e < |x.componentOf| && d < |x.components|
    requires Owed(x, s, p, d) || (SeeEntry(x, p, e).1 && HasEdge(x.graph, x.componentOf[e], d))
    ensures var q := VisitEntry(x, Emission(s, p), e).pending;
      PendingsOk(x, q) && Owed(x, s + [e], q, d)
  {
    hide Owed, SeeEntry, MakeEachPending;
    if Owed(x, s, p, d) { SeeEntryKeepsOwed(x, p, e, s, d); }
    SeeEntryOk(x, p, e);
    var (q, completed) := SeeEntry(x, p, e);
    if completed {
      MakeEachPendingKeepsOwed(x, q, x.graph[x.componentOf[e]], s + [e], d);
    }
  }

  lemma VisitKeepsPending(x: Layout, s: Emission, e: nat, k: int)
    requires x.Valid() && PendingsOk(x, s.pending) && e < |x.componentOf|
    ensures var q := VisitEntry(x, s, e).pending;
      && PendingsOk(x, q)
      && (k in s.pending && k != x.order[x.componentOf[e]] ==> k in q)
      && (!SeeEntry(x, s.pending, e).1 ==> x.order[x.componentOf[e]] in q)
  {
    SeeEntryOk(x, s.pending, e);
    var (q, completed) := SeeEntry(x, s.pending, e);
    if completed { MakeEachPendingOk(x, q, x.graph[x.componentOf[e]]); }
  }

  /** Where a key of the new pending set comes from. */
  lemma VisitPendingFrom(x: Layout, s: Emission, e: nat, k: int)
    requires x.Valid() && PendingsOk(x, s.pending) && e < |x.componentOf|
    requires k in VisitEntry(x, s, e).pending
    ensures k in s.pending || k == x.order[x.componentOf[e]]
      || (SeeEntry(x, s.pending, e).1 && exists d: nat ::
          d < |x.components| && HasEdge(x.graph, x.componentOf[e], d) && x.order[d] == k)
  {
    SeeEntryOk(x, s.pending, e);
    var (q, completed) := SeeEntry(x, s.pending, e);
    var es := x.graph[x.componentOf[e]];
    if completed && k !in q {
      MakeEachPendingOk(x, q, es);
      var i :| 0 <= i < |es| && x.order[es[i].dest] == k;
      assert HasEdge(x.graph, x.componentOf[e], es[i].dest);
    }
  }

  lemma VisitKeepsDependsOwed(x: Layout, s: Emission, e: nat)
    requires Emitting(x, s) && e < |x.componentOf|
    ensures var t := VisitEntry(x, s, e);
      PendingsOk(x, t.pending) && EntriesOk(x, t.line) && DependsOwed(x, t)
  {
    hide Owed, SeeEntry, MakeEachPending, SelfOwed, HasEdge;
    var t := VisitEntry(x, s, e);
    VisitKeepsPending(x, s, e, 0);
    forall p: nat, d: nat | p < |t.line| && HasEdge(x.graph, x.componentOf[t.line[p]], d)
      ensures x.order[x.componentOf[t.line[p]]] in t.pending || Owed(x, t.line[p + 1..], t.pending, d)
    {
      var c := x.componentOf[t.line[p]];
      VisitKeepsPending(x, s, e, x.order[c]);
      assert d < |x.components|;
      if p < |s.line| {
        assert t.line[p + 1..] == s.line[p + 1..] + [e];
        assert t.line[p] == s.line[p];
        if x.order[c] in s.pending {
          if x.order[c] == x.order[x.componentOf[e]] && SeeEntry(x, s.pending, e).1 {
            SameIndex(x, c, x.componentOf[e]);
            VisitKeepsOwed(x, s.pending, e, s.line[p + 1..], d);
          }
        } else {
          VisitKeepsOwed(x, s.pending, e, s.line[p + 1..], d);
        }
      } else if SeeEntry(x, s.pending, e).1 {
        VisitKeepsOwedAtEnd(x, s, e, d);
        assert t.line[p + 1..] == [];
      }
    }
  }

  lemma VisitKeepsOwedAtEnd(x: Layout, s: Emission, e: nat, d: nat)
    requires x.Valid() && PendingsOk(x, s.pending) && e < |x.componentOf| && d < |x.components|
    requires SeeEntry(x, s.pending, e).1 && HasEdge(x.graph, x.componentOf[e], d)
    ensures var q := VisitEntry(x, s, e).pending; PendingsOk(x, q) && Owed(x, [], q, d)
  {
    hide Owed, SeeEntry, MakeEachPending;
    SeeEntryOk(x, s.pending, e);
    var q := SeeEntry(x, s.pending, e).0;
    MakeEachPendingKeepsOwed(x, q, x.graph[x.componentOf[e]], [], d);
  }

  lemma VisitKeepsSelfOwed(x: Layout, s: Emission, e: nat)
    requires Emitting(x, s) && e < |x.componentOf|
    ensures var t := VisitEntry(x, s, e);
      PendingsOk(x, t.pending) && EntriesOk(x, t.line) && SelfOwed(x, t)
  {
    hide Owed, SeeEntry, MakeEachPending, DependsOwed;
    var t := VisitEntry(x, s, e);
    VisitKeepsPending(x, s, e, 0);
    forall d: nat | d < |x.components| && Touched(x, t, d)
      ensures Owed(x, t.line, t.pending, d)
    {
      if Touched(x, s, d) {
        VisitKeepsOwed(x, s.pending, e, s.line, d);
      } else {
        NewlyTouched(x, s, e, d);
      }
    }
  }

  lemma OthersOccur(x: Layout, line: seq<nat>, e: nat, d: nat)
    requires x.Valid() && EntriesOk(x, line) && e < |x.componentOf| && d != x.componentOf[e]
    requires forall p :: 0 <= p < |line| ==> x.componentOf[line[p]] != d
    ensures forall p :: 0 <= p < |line + [e]| ==>
      (line + [e])[p] < |x.componentOf| && x.componentOf[(line + [e])[p]] != d
  {
  }

  lemma NewlyTouched(x: Layout, s: Emission, e: nat, d: nat)
    requires x.Valid() && EntriesOk(x, s.line) && PendingsOk(x, s.pending) && e < |x.componentOf| && d < |x.components|
    requires !Touched(x, s, d)
    requires EntriesOk(x, s.line + [e]) && Touched(x, VisitEntry(x, s, e), d)
    ensures var t := VisitEntry(x, s, e); PendingsOk(x, t.pending) && Owed(x, t.line, t.pending, d)
  {
    hide SeenTimes, Progress, MakeEachPending;
    var t := VisitEntry(x, s, e);
    var c := x.componentOf[e];
    VisitKeepsPending(x, s, e, 0);
    if x.order[d] in t.pending && d != c {
      VisitPendingFrom(x, s, e, x.order[d]);
      OtherIndex(x, c, d);
      var d': nat :| d' < |x.components| && HasEdge(x.graph, c, d') && x.order[d'] == x.order[d];
      SameIndex(x, d', d);
      hide Owed, SeeEntry;
      VisitKeepsOwed(x, s.pending, e, s.line, d);
    } else if d != c {
      OthersOccur(x, s.line, e, d);
      assert false;
    } else {
      // The first entry of a component that was neither pending nor seen.
      NewlyPending(x, s, e);
    }
  }

  /** The first entry of a component that was not pending. */
  lemma NewlyPending(x: Layout, s: Emission, e: nat)
    requires x.Valid() && PendingsOk(x, s.pending) && e < |x.componentOf|
    requires x.order[x.componentOf[e]] !in s.pending
    requires |x.components[x.componentOf[e]]| > 1 || x.order[x.componentOf[e]] in VisitEntry(x, s, e).pending
    ensures var t := VisitEntry(x, s, e);
      PendingsOk(x, t.pending) && Owed(x, t.line, t.pending, x.componentOf[e])
  {
    hide SeenTimes, Progress, MakeEachPending;
    var c := x.componentOf[e];
    VisitKeepsPending(x, s, e, 0);
    if |x.components[c]| == 1 {
      MakeEachPendingOk(x, s.pending, x.graph[c]);
      EdgesLeave(x, c);
      assert false;
    } else {
      MakePendingOk(x, s.pending, c);
      ProgressRestarts(s.line, x.Members(c));
      ProgressGrows(s.line, x.Members(c), x.Members(c), 0, e);
    }
  }

  /** Every visit keeps the invariant. */
  lemma VisitKeepsEmitting(x: Layout, s: Emission, e: nat)
    requires Emitting(x, s) && e < |x.componentOf|
    ensures Emitting(x, VisitEntry(x, s, e))
  {
    hide DependsOwed, SelfOwed, SeeEntry;
    VisitKeepsDependsOwed(x, s, e);
    VisitKeepsSelfOwed(x, s, e);
  }

  // ----- emptying the pending set

  /** The first pending component, or the end of the order when there is none. */
  function LowKey(x: Layout, p: Pendings): int {
    if p == map[] then |x.components| else Least(p.Keys)
  }

  /** The entry to emit next: the first of the first pending component. */
  function NextEntry(x: Layout, p: Pendings): (e: nat)
    requires x.Valid() && PendingsOk(x, p) && p != map[]
    ensures LowKey(x, p) in p && e in p[LowKey(x, p)].entries && e < |x.componentOf|
    ensures x.componentOf[e] == p[LowKey(x, p)].id && x.order[x.componentOf[e]] == LowKey(x, p)
  {
    LowKeyPresent(x, p);
    var k := LowKey(x, p);
    assert PendingOk(x, k, p[k]);
    var e: nat := Least(p[k].entries);
    MemberInRange(x, p[k].id, e);
    e
  }

  lemma LowKeyPresent(x: Layout, p: Pendings)
    requires p != map[]
    ensures LowKey(x, p) in p && forall k :: k in p ==> LowKey(x, p) <= k
  {
    assert p.Keys == {} ==> p == map[];
  }

  /** Visits the first pending component still asks for. */
  function VisitsOwed(x: Layout, p: Pendings): nat
    requires x.Valid() && PendingsOk(x, p)
  {
    if p == map[] then 0
    else
      LowKeyPresent(x, p);
      var pc := p[LowKey(x, p)];
      assert PendingOk(x, LowKey(x, p), pc);
      VisitsOf(pc, |x.Members(pc.id)|)
  }

  /** Visiting the next entry brings the end nearer: the first pending component
      moves up the order, or is owed fewer visits. */
  lemma VisitProgresses(x: Layout, s: Emission)
    requires x.Valid() && PendingsOk(x, s.pending) && s.pending != map[]
    ensures var p := VisitEntry(x, s, NextEntry(x, s.pending)).pending;
      && PendingsOk(x, p)
      && LowKey(x, s.pending) <= LowKey(x, p) <= |x.components|
      && (LowKey(x, p) == LowKey(x, s.pending) ==> VisitsOwed(x, p) < VisitsOwed(x, s.pending))
  {
    hide SeeEntry, MakeEachPending, VisitsOwed;
    var k, e := LowKey(x, s.pending), NextEntry(x, s.pending);
    var p := VisitEntry(x, s, e).pending;
    LowKeyPresent(x, s.pending);
    VisitKeepsPending(x, s, e, k);
    if p != map[] {
      LowKeyPresent(x, p);
      VisitPendingFrom(x, s, e, LowKey(x, p));
      assert PendingOk(x, LowKey(x, p), p[LowKey(x, p)]);
      if LowKey(x, p) == k { OwesFewer(x, s); }
    } else {
      assert PendingOk(x, k, s.pending[k]);
    }
  }

  lemma CompletedKeyGone(x: Layout, p: Pendings, e: nat)
    requires x.Valid() && e < |x.componentOf| && SeeEntry(x, p, e).1
    ensures x.order[x.componentOf[e]] !in SeeEntry(x, p, e).0
  {
  }

  lemma CompletedLeaves(x: Layout, s: Emission, e: nat)
    requires x.Valid() && PendingsOk(x, s.pending) && e < |x.componentOf|
    requires SeeEntry(x, s.pending, e).1
    ensures x.order[x.componentOf[e]] !in VisitEntry(x, s, e).pending
  {
    hide MakeEachPending, SeeEntry, PendingsOk;
    var c := x.componentOf[e];
    SeeEntryOk(x, s.pending, e);
    CompletedKeyGone(x, s.pending, e);
    MakeEachPendingOk(x, SeeEntry(x, s.pending, e).0, x.graph[c]);
    EdgesLeave(x, c);
  }

  /** The visits a pending component asks for. */
  function VisitsOf(pc: PendingComponent, size: nat): int {
    (pc.count - 1) * size + |pc.entries|
  }

  lemma OneVisitLess(pc: PendingComponent, e: nat, m: set<nat>)
    requires e in pc.entries
    ensures pc.entries - {e} != {} ==> VisitsOf(pc.(entries := pc.entries - {e}), |m|) < VisitsOf(pc, |m|)
    ensures pc.entries - {e} == {} ==> VisitsOf(pc.(count := pc.count - 1, entries := m), |m|) < VisitsOf(pc, |m|)
  {
    assert |pc.entries - {e}| == |pc.entries| - 1;
    assert (pc.count - 2) * |m| + |m| == (pc.count - 1) * |m|;
  }

  lemma OwesFewer(x: Layout, s: Emission)
    requires x.Valid() && PendingsOk(x, s.pending) && s.pending != map[]
    requires var p := VisitEntry(x, s, NextEntry(x, s.pending)).pending;
      PendingsOk(x, p) && p != map[] && LowKey(x, p) == LowKey(x, s.pending)
    ensures VisitsOwed(x, VisitEntry(x, s, NextEntry(x, s.pending)).pending) < VisitsOwed(x, s.pending)
  {
    hide MakeEachPending, VisitsOf, LowKey;
    var k, e := LowKey(x, s.pending), NextEntry(x, s.pending);
    var p := VisitEntry(x, s, e).pending;
    LowKeyPresent(x, p);
    if SeeEntry(x, s.pending, e).1 {
      CompletedLeaves(x, s, e);
      assert false;
    }
    var pc := s.pending[k];
    OneVisitLess(pc, e, x.Members(pc.id));
  }

  /** Repeat the visit of the next entry until nothing is pending. */
  function Drain(x: Layout, s: Emission): Emission
    requires x.Valid() && PendingsOk(x, s.pending)
    decreases |x.components| - LowKey(x, s.pending), VisitsOwed(x, s.pending)
  {
    if s.pending == map[] then s
    else
      VisitProgresses(x, s);
      LowKeyInRange(x, s.pending);
      Drain(x, VisitEntry(x, s, NextEntry(x, s.pending)))
  }

  lemma LowKeyInRange(x: Layout, p: Pendings)
    requires x.Valid() && PendingsOk(x, p)
    ensures 0 <= LowKey(x, p) <= |x.components|
    ensures p != map[] ==> LowKey(x, p) < |x.components|
  {
    if p != map[] {
      LowKeyPresent(x, p);
      assert PendingOk(x, LowKey(x, p), p[LowKey(x, p)]);
    }
  }

  // ----- the whole run

  /** The original link line, then everything left pending. */
  ghost function Emit(x: Layout, originals: seq<nat>): Emission
    requires x.Valid() && EntriesOk(x, originals)
  {
    var s := VisitEach(x, Emission([], map[]), originals);
    VisitEachKeeps(x, originals);
    Drain(x, s)
  }

  lemma {:induction false} VisitEachKeeps(x: Layout, originals: seq<nat>)
    requires x.Valid() && EntriesOk(x, originals)
    ensures var s := VisitEach(x, Emission([], map[]), originals);
      Emitting(x, s) && s.line == originals
  {
    hide DependsOwed, SelfOwed, VisitEntry;
    if originals == [] {
      EmptyEmitting(x);
    } else {
      var front := originals[..|originals| - 1];
      VisitEachKeeps(x, front);
      var s := VisitEach(x, Emission([], map[]), front);
      VisitKeepsEmitting(x, s, originals[|originals| - 1]);
      VisitAppends(x, s, originals[|originals| - 1]);
    }
  }

  lemma VisitAppends(x: Layout, s: Emission, e: nat)
    requires x.Valid() && e < |x.componentOf|
    ensures VisitEntry(x, s, e).line == s.line + [e]
  {
  }

  lemma EmptyEmitting(x: Layout)
    requires x.Valid()
    ensures Emitting(x, Emission([], map[]))
  {
  }

  lemma {:induction false} DrainKeeps(x: Layout, s: Emission)
    requires Emitting(x, s)
    ensures Emitting(x, Drain(x, s)) && Drain(x, s).pending == map[] && s.line <= Drain(x, s).line
    decreases |x.components| - LowKey(x, s.pending), VisitsOwed(x, s.pending)
  {
    hide DependsOwed, SelfOwed, VisitEntry, LowKey, VisitsOwed;
    if s.pending != map[] {
      var e := NextEntry(x, s.pending);
      VisitKeepsEmitting(x, s, e);
      VisitAppends(x, s, e);
      VisitProgresses(x, s);
      LowKeyInRange(x, s.pending);
      DrainKeeps(x, VisitEntry(x, s, e));
    }
  }

  /** After each occurrence of an entry, every component its own component leads to
      is seen whole as often as it has to be. */
  ghost predicate DependenciesFollow(x: Layout, line: seq<nat>)
    requires x.Valid() && EntriesOk(x, line)
  {
    forall p: nat, d: nat :: p < |line| && HasEdge(x.graph, x.componentOf[line[p]], d) ==>
      SeenTimes(line[p + 1..], x.Members(d), x.needed[d])
  }

  /** Every non-trivial component that occurs is seen whole as often as it has to be. */
  ghost predicate ComponentsRepeat(x: Layout, line: seq<nat>)
    requires x.Valid() && EntriesOk(x, line)
  {
    forall p: nat :: p < |line| && |x.components[x.componentOf[line[p]]]| > 1 ==>
      SeenTimes(line, x.Members(x.componentOf[line[p]]), x.needed[x.componentOf[line[p]]])
  }

  lemma NothingPendingNothingOwed(x: Layout, s: Emission)
    requires Emitting(x, s) && s.pending == map[]
    ensures DependenciesFollow(x, s.line) && ComponentsRepeat(x, s.line)
  {
    forall p: nat | p < |s.line| && |x.components[x.componentOf[s.line[p]]]| > 1
      ensures SeenTimes(s.line, x.Members(x.componentOf[s.line[p]]), x.needed[x.componentOf[s.line[p]]])
    {
      assert Touched(x, s, x.componentOf[s.line[p]]);
    }
  }

  /** The emission ends, the line begins with the original entries, and all that
      any occurrence calls for follows it. */
  lemma EmitSatisfies(x: Layout, originals: seq<nat>)
    requires x.Valid() && EntriesOk(x, originals)
    ensures var s := Emit(x, originals);
      && s.pending == map[]
      && EntriesOk(x, s.line)
      && originals <= s.line
      && DependenciesFollow(x, s.line)
      && ComponentsRepeat(x, s.line)
  {
    hide DependsOwed, SelfOwed, VisitEach, Drain, DependenciesFollow, ComponentsRepeat;
    VisitEachKeeps(x, originals);
    var s := VisitEach(x, Emission([], map[]), originals);
    DrainKeeps(x, s);
    NothingPendingNothingOwed(x, Drain(x, s));
  }

  // ----- only what is reachable is emitted

  /** r consists of whole components and is closed under the component graph. */
  ghost predicate ClosedEntries(x: Layout, r: set<nat>)
    requires x.Valid()
  {
    && (forall c: nat, u: nat, v: nat :: c < |x.components| && u in x.Members(c) && v in x.Members(c) && u in r ==>
        v in r)
    && (forall c: nat, d: nat, u: nat, v: nat ::
        (HasEdge(x.graph, c, d) && c < |x.components| && d < |x.components|
         && u in x.Members(c) && v in x.Members(d) && u in r) ==> v in r)
  }

  ghost predicate Inside(x: Layout, s: Emission, r: set<nat>)
    requires x.Valid() && PendingsOk(x, s.pending)
  {
    && (forall p :: 0 <= p < |s.line| ==> s.line[p] in r)
    && (forall k :: k in s.pending ==> PendingOk(x, k, s.pending[k]) && x.Members(s.pending[k].id) <= r)
  }

  lemma VisitStaysInside(x: Layout, s: Emission, e: nat, r: set<nat>)
    requires x.Valid() && PendingsOk(x, s.pending) && e < |x.componentOf|
    requires ClosedEntries(x, r) && Inside(x, s, r) && e in r
    ensures var t := VisitEntry(x, s, e); PendingsOk(x, t.pending) && Inside(x, t, r)
  {
    hide SeeEntry, MakeEachPending;
    var t := VisitEntry(x, s, e);
    var c := x.componentOf[e];
    VisitKeepsPending(x, s, e, 0);
    MemberOf(x, e);
    forall k | k in t.pending
      ensures PendingOk(x, k, t.pending[k]) && x.Members(t.pending[k].id) <= r
    {
      var d := t.pending[k].id;
      assert PendingOk(x, k, t.pending[k]);
      VisitPendingFrom(x, s, e, k);
      if k in s.pending {
        assert PendingOk(x, k, s.pending[k]);
        SameIndex(x, d, s.pending[k].id);
      } else if k == x.order[c] {
        SameIndex(x, d, c);
      } else {
        var d': nat :| d' < |x.components| && HasEdge(x.graph, c, d') && x.order[d'] == k;
        SameIndex(x, d, d');
      }
    }
  }

  lemma {:induction false} VisitEachStaysInside(x: Layout, originals: seq<nat>, r: set<nat>)
    requires x.Valid() && EntriesOk(x, originals) && ClosedEntries(x, r)
    requires forall p :: 0 <= p < |originals| ==> originals[p] in r
    ensures var s := VisitEach(x, Emission([], map[]), originals); PendingsOk(x, s.pending) && Inside(x, s, r)
  {
    hide ClosedEntries, VisitEntry;
    if originals != [] {
      var front := originals[..|originals| - 1];
      VisitEachStaysInside(x, front, r);
      VisitStaysInside(x, VisitEach(x, Emission([], map[]), front), originals[|originals| - 1], r);
    }
  }

  lemma {:induction false} DrainStaysInside(x: Layout, s: Emission, r: set<nat>)
    requires x.Valid() && PendingsOk(x, s.pending) && ClosedEntries(x, r) && Inside(x, s, r)
    ensures forall p :: 0 <= p < |Drain(x, s).line| ==> Drain(x, s).line[p] in r
    decreases |x.components| - LowKey(x, s.pending), VisitsOwed(x, s.pending)
  {
    hide ClosedEntries, VisitEntry, LowKey, VisitsOwed;
    if s.pending != map[] {
      var e := NextEntry(x, s.pending);
      assert e in r by {
        MemberOf(x, e);
        assert PendingOk(x, LowKey(x, s.pending), s.pending[LowKey(x, s.pending)]);
      }
      VisitStaysInside(x, s, e, r);
      VisitProgresses(x, s);
      LowKeyInRange(x, s.pending);
      DrainStaysInside(x, VisitEntry(x, s, e), r);
    }
  }

  lemma EmitStaysInside(x: Layout, originals: seq<nat>, r: set<nat>)
    requires x.Valid() && EntriesOk(x, originals) && ClosedEntries(x, r)
    requires forall p :: 0 <= p < |originals| ==> originals[p] in r
    ensures forall p :: 0 <= p < |Emit(x, originals).line| ==> Emit(x, originals).line[p] in r
  {
    hide ClosedEntries, VisitEach, Drain, Inside;
    VisitEachKeeps(x, originals);
    VisitEachStaysInside(x, originals, r);
    DrainStaysInside(x, VisitEach(x, Emission([], map[]), originals), r);
  }

  // ----- few repeats

  ghost function Count(s: seq<nat>, v: nat): nat {
    multiset(s)[v]
  }

  /** Times entry v may still be emitted before its component completes. */
  ghost function Remaining(x: Layout, p: Pendings, v: nat): int
    requires x.Valid() && v < |x.componentOf|
  {
    var k := x.order[x.componentOf[v]];
    if k in p then p[k].count - 1 + (if v in p[k].entries then 1 else 0) else 0
  }

  ghost function Index(x: Layout, v: nat): int
    requires x.Valid() && v < |x.componentOf|
  {
    x.order[x.componentOf[v]]
  }

  /** tail was emitted since the original line ended: in topological order, before
      all that is pending, and no entry more often than its component needs. */
  ghost predicate Sparse(x: Layout, tail: seq<nat>, p: Pendings)
    requires x.Valid() && EntriesOk(x, tail)
  {
    && (forall a, b :: 0 <= a < b < |tail| ==> Index(x, tail[a]) <= Index(x, tail[b]))
    && (forall a :: 0 <= a < |tail| ==> Index(x, tail[a]) <= LowKey(x, p))
    && (forall v: nat :: v < |x.componentOf| ==> Count(tail, v) + Remaining(x, p, v) <= x.needed[x.componentOf[v]])
  }

  lemma {:induction false} EachPendingAfter(x: Layout, p: Pendings, es: seq<Edge>, k: int)
    requires x.Valid() && PendingsOk(x, p) && forall i :: 0 <= i < |es| ==> es[i].dest < |x.components|
    ensures var q := MakeEachPending(x, p, es);
      || (k in p && k in q && q[k] == p[k])
      || (k !in p && k !in q)
      || (k in q && exists i ::
          0 <= i < |es| && x.order[es[i].dest] == k
          && q[k] == PendingComponent(es[i].dest, x.needed[es[i].dest], x.Members(es[i].dest)))
  {
    if es != [] {
      var front, last := es[..|es| - 1], es[|es| - 1].dest;
      EachPendingAfter(x, p, front, k);
      MakeEachPendingOk(x, p, front);
      MakePendingOk(x, MakeEachPending(x, p, front), last);
      assert forall i :: 0 <= i < |front| ==> front[i] == es[i];
    }
  }

  /** What a visit in the closing phase does to the count of one entry. */
  lemma RemainingAfterVisit(x: Layout, s: Emission, v: nat)
    requires x.Valid() && PendingsOk(x, s.pending) && s.pending != map[] && v < |x.componentOf|
    ensures var e := NextEntry(x, s.pending);
      var r := Remaining(x, VisitEntry(x, s, e).pending, v);
      || (if v == e then 1 else 0) + r <= Remaining(x, s.pending, v)
      || (v != e && Index(x, e) < Index(x, v) && r <= x.needed[x.componentOf[v]])
  {
    hide MakeEachPending;
    var e := NextEntry(x, s.pending);
    var k, j := Index(x, v), Index(x, e);
    var c := x.componentOf[e];
    LowKeyPresent(x, s.pending);
    assert PendingOk(x, j, s.pending[j]);
    SeeEntryOk(x, s.pending, e);
    MemberOf(x, v);
    var (q, completed) := SeeEntry(x, s.pending, e);
    var pc := s.pending[j];
    if k == j { SameIndex(x, x.componentOf[v], c); }
    if !completed {
      if k == j && v != e && v in pc.entries { assert v in pc.entries - {e}; }
    } else {
      EachPendingAfter(x, q, x.graph[c], k);
      CompletedLeaves(x, s, e);
      if k == j {
        assert v != e ==> v !in pc.entries;
      } else if !(k in q) && k in VisitEntry(x, s, e).pending {
        VisitPendingFrom(x, s, e, k);
      }
      if i :| 0 <= i < |x.graph[c]| && x.order[x.graph[c][i].dest] == k {
        assert HasEdge(x.graph, c, x.graph[c][i].dest);
        SameIndex(x, x.graph[c][i].dest, x.componentOf[v]);
      }
    }
  }

  lemma VisitKeepsSparse(x: Layout, s: Emission, tail: seq<nat>)
    requires x.Valid() && PendingsOk(x, s.pending) && s.pending != map[]
    requires EntriesOk(x, tail) && Sparse(x, tail, s.pending)
    ensures var e := NextEntry(x, s.pending);
      EntriesOk(x, tail + [e]) && Sparse(x, tail + [e], VisitEntry(x, s, e).pending)
  {
    hide LowKey, Remaining, SeeEntry, VisitEntry;
    var e := NextEntry(x, s.pending);
    var next := tail + [e];
    var p := VisitEntry(x, s, e).pending;
    VisitProgresses(x, s);
    forall v: nat | v < |x.componentOf|
      ensures Count(next, v) + Remaining(x, p, v) <= x.needed[x.componentOf[v]]
    {
      RemainingAfterVisit(x, s, v);
      assert Count(next, v) == Count(tail, v) + if v == e then 1 else 0;
      if v in tail {
        var a :| 0 <= a < |tail| && tail[a] == v;
        assert Index(x, tail[a]) <= Index(x, e);
      }
    }
  }

  lemma SuffixStep(tail: seq<nat>, e: nat, line: seq<nat>, longer: seq<nat>)
    requires line + [e] <= longer
    ensures tail + longer[|line|..] == tail + [e] + longer[|line + [e]|..]
  {
    assert longer[|line|..] == [e] + longer[|line| + 1..];
  }

  lemma {:induction false} DrainKeepsSparse(x: Layout, s: Emission, tail: seq<nat>)
    requires x.Valid() && PendingsOk(x, s.pending)
    requires EntriesOk(x, tail) && Sparse(x, tail, s.pending)
    ensures var d := Drain(x, s);
      s.line <= d.line && EntriesOk(x, tail + d.line[|s.line|..]) && Sparse(x, tail + d.line[|s.line|..], map[])
    decreases |x.components| - LowKey(x, s.pending), VisitsOwed(x, s.pending)
  {
    hide Sparse, VisitEntry, LowKey, VisitsOwed;
    if s.pending == map[] {
      assert tail + s.line[|s.line|..] == tail;
    } else {
      var e := NextEntry(x, s.pending);
      VisitKeepsSparse(x, s, tail);
      VisitAppends(x, s, e);
      VisitProgresses(x, s);
      LowKeyInRange(x, s.pending);
      var t := VisitEntry(x, s, e);
      DrainKeepsSparse(x, t, tail + [e]);
      var d := Drain(x, s);
      SuffixStep(tail, e, s.line, d.line);
    }
  }

  /** What is appended to the original line comes in topological order of the
      components and repeats no entry more often than its component needs. */
  lemma EmitRepeatsLittle(x: Layout, originals: seq<nat>)
    requires x.Valid() && EntriesOk(x, originals)
    ensures var line := Emit(x, originals).line;
      && originals <= line && EntriesOk(x, line)
      && (forall a, b :: |originals| <= a < b < |line| ==> Index(x, line[a]) <= Index(x, line[b]))
      && (forall v: nat :: v < |x.componentOf| ==> Count(line[|originals|..], v) <= x.needed[x.componentOf[v]])
  {
    hide DependsOwed, SelfOwed, VisitEach, Drain, DependenciesFollow, ComponentsRepeat, LowKey;
    EmitSatisfies(x, originals);
    VisitEachKeeps(x, originals);
    var s := VisitEach(x, Emission([], map[]), originals);
    NothingEmittedYet(x, s.pending);
    DrainKeepsSparse(x, s, []);
    var line := Emit(x, originals).line;
    var tail := line[|originals|..];
    assert [] + tail == tail;
    forall a, b | |originals| <= a < b < |line|
      ensures Index(x, line[a]) <= Index(x, line[b])
    {
      assert tail[a - |originals|] == line[a] && tail[b - |originals|] == line[b];
    }
    forall v: nat | v < |x.componentOf|
      ensures Count(tail, v) <= x.needed[x.componentOf[v]]
    {
      assert Count(tail, v) + Remaining(x, map[], v) <= x.needed[x.componentOf[v]];
    }
  }

  lemma NothingEmittedYet(x: Layout, p: Pendings)
    requires x.Valid() && PendingsOk(x, p)
    ensures EntriesOk(x, []) && Sparse(x, [], p)
  {
    forall v: nat | v < |x.componentOf|
      ensures Remaining(x, p, v) <= x.needed[x.componentOf[v]]
    {
      var k := Index(x, v);
      if k in p {
        assert PendingOk(x, k, p[k]);
        SameIndex(x, p[k].id, x.componentOf[v]);
      } else {
        MemberOf(x, v);
      }
    }
  }
}
