/** The line behind the original entries, block by block: one component after the other,
    what is left over of it and then all of it as often as it is still needed
    (OrderLinkEntires in cmComputeLinkDepends). */
module LinkBlocks {
  import opened Graphs
  import opened Sorting
  import opened TopologicalOrder
  import opened LinkOrder
  import opened LinkRounds

  ghost function Repeat(s: seq<nat>, k: nat): seq<nat> {
    if k == 0 then [] else s + Repeat(s, k - 1)
  }

  ghost function Flat(blocks: seq<seq<nat>>): seq<nat> {
    if blocks == [] then [] else blocks[0] + Flat(blocks[1..])
  }

  /** The entries in ascending order, then all members count - 1 times. */
  ghost predicate IsBlock(b: seq<nat>, entries: set<nat>, members: seq<nat>, count: int) {
    exists i :: 0 <= i <= |b| && StrictlySorted(b[..i]) && Elements(b[..i]) == entries
      && 1 <= count && b[i..] == Repeat(members, count - 1)
  }

  /** Component c comes behind one that leads to it. */
  ghost predicate LedBy(x: Layout, cs: seq<nat>, c: nat) {
    exists j :: 0 <= j < |cs| && HasEdge(x.graph, cs[j], c)
  }

  /** Block i is whole if an earlier component leads there, else what was pending. */
  ghost predicate BlockAt(x: Layout, p: Pendings, cs: seq<nat>, i: int, b: seq<nat>)
    requires x.Valid() && 0 <= i < |cs|
  {
    && cs[i] < |x.components|
    && if LedBy(x, cs[..i], cs[i])
       then b == Repeat(x.components[cs[i]], x.needed[cs[i]])
       else var k := x.order[cs[i]];
         k in p && IsBlock(b, p[k].entries, x.components[cs[i]], p[k].count)
  }

  /** The stretch has the blocks of the components in their topological order: of those
      pending and those they lead to, and no others. */
  ghost predicate InBlocks(x: Layout, p: Pendings, tail: seq<nat>, cs: seq<nat>, blocks: seq<seq<nat>>)
    requires x.Valid()
  {
    && |cs| == |blocks| && tail == Flat(blocks)
    && (forall i :: 0 <= i < |cs| ==> BlockAt(x, p, cs, i, blocks[i]))
    && (forall i :: 0 <= i < |cs| ==> cs[i] < |x.components|)
    && (forall i, j :: 0 <= i < j < |cs| ==> x.order[cs[i]] < x.order[cs[j]])
    && (forall d: nat :: d < |x.components| ==> (d in cs <==> x.order[d] in p || LedBy(x, cs, d)))
  }

  /** The members of each component are listed in ascending order. */
  ghost predicate MembersSorted(x: Layout) {
    forall c: nat :: c < |x.components| ==> StrictlySorted(x.components[c])
  }

  // ----- one component

  ghost function BlockOf(x: Layout, pc: PendingComponent): seq<nat>
    requires x.Valid() && pc.id < |x.components| && 1 <= pc.count
  {
    Ascending(pc.entries) + Repeat(x.components[pc.id], pc.count - 1)
  }

  ghost function AfterBlock(x: Layout, s: Emission): Emission
    requires x.Valid() && PendingsOk(x, s.pending) && s.pending != map[]
  {
    LowKeyPresent(x, s.pending);
    var k := LowKey(x, s.pending);
    var pc := s.pending[k];
    assert PendingOk(x, k, pc);
    Emission(s.line + BlockOf(x, pc), MakeEachPending(x, s.pending - {k}, x.graph[pc.id]))
  }

  /** What visiting the next entry does to the component it belongs to. */
  lemma FirstVisit(x: Layout, s: Emission)
    requires x.Valid() && PendingsOk(x, s.pending) && s.pending != map[]
    ensures LowKey(x, s.pending) in s.pending
    ensures var k := LowKey(x, s.pending);
      var pc := s.pending[k];
      var e := NextEntry(x, s.pending);
      var t := VisitEntry(x, s, e);
      && pc.id < |x.components| && 1 <= pc.count && e in pc.entries && PendingsOk(x, t.pending)
      && t.line == s.line + [e] && Ascending(pc.entries) == [e] + Ascending(pc.entries - {e})
      && t.pending ==
           (if pc.entries - {e} != {} then s.pending[k := pc.(entries := pc.entries - {e})]
            else if pc.count == 1 then MakeEachPending(x, s.pending - {k}, x.graph[pc.id])
            else s.pending[k := pc.(count := pc.count - 1, entries := x.Members(pc.id))])
  {
    hide MakeEachPending, PendingsOk, LowKey;
    LowKeyPresent(x, s.pending);
    var k := LowKey(x, s.pending);
    assert PendingOk(x, k, s.pending[k]) by { OkAt(x, s.pending, k); }
    VisitProgresses(x, s);
    var pc, e := s.pending[k], NextEntry(x, s.pending);
    assert e == Least(pc.entries);
    if pc.entries - {e} == {} && pc.count == 1 {
      assert SeeEntry(x, s.pending, e) == (s.pending - {k}, true);
    } else {
      assert !SeeEntry(x, s.pending, e).1;
    }
  }

  lemma OkAt(x: Layout, p: Pendings, k: int)
    requires x.Valid() && PendingsOk(x, p) && k in p
    ensures PendingOk(x, k, p[k])
  {
  }

  lemma SameLow(x: Layout, p: Pendings, k: int, pc: PendingComponent)
    requires p != map[] && k == LowKey(x, p)
    ensures LowKey(x, p[k := pc]) == k && p[k := pc] - {k} == p - {k}
  {
    var q := p[k := pc];
    LowKeyPresent(x, p);
    assert k in q && forall j :: j in q ==> j in p;
    LowKeyPresent(x, q);
    assert q - {k} == p - {k};
  }

  lemma MembersAscending(x: Layout, c: nat)
    requires x.Valid() && MembersSorted(x) && c < |x.components|
    ensures Ascending(x.Members(c)) == x.components[c]
  {
    SortedIsUnique(Ascending(x.Members(c)), x.components[c]);
  }

  /** Draining begins with the block of the first pending component. */
  lemma {:induction false} DrainBlock(x: Layout, s: Emission)
    requires x.Valid() && MembersSorted(x) && PendingsOk(x, s.pending) && s.pending != map[]
    ensures PendingsOk(x, AfterBlock(x, s).pending) && Drain(x, s) == Drain(x, AfterBlock(x, s))
    decreases VisitsOwed(x, s.pending)
  {
    hide VisitEntry, MakeEachPending, VisitsOwed, NextEntry, LowKey, PendingsOk, MembersSorted, Layout.Valid, Ascending;
    FirstVisit(x, s);
    VisitProgresses(x, s);
    LowKeyInRange(x, s.pending);
    var k, e := LowKey(x, s.pending), NextEntry(x, s.pending);
    var pc, t := s.pending[k], VisitEntry(x, s, e);
    if pc.entries - {e} == {} && pc.count == 1 {
      assert Ascending({}) == [] by { NothingAscending(); }
      assert Repeat(x.components[pc.id], 0) == [];
      assert t == AfterBlock(x, s);
    } else {
      SameLow(x, s.pending, k, t.pending[k]);
      DrainBlock(x, t);
      if pc.entries - {e} == {} {
        MembersAscending(x, pc.id);
        NothingAscending();
        BlockStep(s.line, e, x.components[pc.id], pc.count - 1);
      }
      assert AfterBlock(x, t).line == AfterBlock(x, s).line;
    }
  }

  lemma NothingAscending()
    ensures Ascending({}) == []
  {
  }

  lemma BlockStep(line: seq<nat>, e: nat, members: seq<nat>, k: nat)
    requires 1 <= k
    ensures line + [e] + (members + Repeat(members, k - 1)) == line + ([e] + [] + Repeat(members, k))
  {
  }

  // ----- all of them

  lemma BlockOfIs(x: Layout, pc: PendingComponent)
    requires x.Valid() && pc.id < |x.components| && 1 <= pc.count
    ensures IsBlock(BlockOf(x, pc), pc.entries, x.components[pc.id], pc.count)
  {
    var b, first := BlockOf(x, pc), Ascending(pc.entries);
    assert b[..|first|] == first && b[|first|..] == Repeat(x.components[pc.id], pc.count - 1);
    assert Elements(first) == pc.entries;
  }

  /** A component called for again has the whole of its blocks before it. */
  lemma WholeBlock(x: Layout, b: seq<nat>, c: nat)
    requires x.Valid() && MembersSorted(x) && c < |x.components|
    requires IsBlock(b, x.Members(c), x.components[c], x.needed[c])
    ensures b == Repeat(x.components[c], x.needed[c])
  {
    var i :| 0 <= i <= |b| && StrictlySorted(b[..i]) && Elements(b[..i]) == x.Members(c)
      && b[i..] == Repeat(x.components[c], x.needed[c] - 1);
    assert Elements(x.components[c]) == x.Members(c);
    SortedIsUnique(b[..i], x.components[c]);
    assert b == b[..i] + b[i..];
  }

  /** What is pending after the first block. */
  lemma PendingAfter(x: Layout, s: Emission, d: nat)
    requires x.Valid() && MembersSorted(x) && PendingsOk(x, s.pending) && s.pending != map[] && d < |x.components|
    ensures LowKey(x, s.pending) in s.pending && s.pending[LowKey(x, s.pending)].id < |x.components|
    ensures var k, l := LowKey(x, s.pending), x.order[d];
      var c := s.pending[k].id;
      var p := AfterBlock(x, s).pending;
      && x.order[c] == k
      && (HasEdge(x.graph, c, d) ==> k < l && l in p && p[l] == PendingComponent(d, x.needed[d], x.Members(d)))
      && (!HasEdge(x.graph, c, d) ==> (l in p <==> l in s.pending && d != c) && (l in p ==> p[l] == s.pending[l]))
      && (l in p ==> k < l)
  {
    hide MakeEachPending, LowKey;
    LowKeyPresent(x, s.pending);
    var k := LowKey(x, s.pending);
    OkAt(x, s.pending, k);
    var c := s.pending[k].id;
    EachCalledFor(x, s.pending - {k}, x.graph[c], d);
    if x.order[d] == k { SameIndex(x, c, d); }
  }

  /** What is appended in draining has the form of blocks. */
  lemma {:induction false} DrainInBlocks(x: Layout, s: Emission) returns (cs: seq<nat>, blocks: seq<seq<nat>>)
    requires x.Valid() && MembersSorted(x) && PendingsOk(x, s.pending)
    ensures Drain(x, s).line == s.line + Flat(blocks)
    ensures InBlocks(x, s.pending, Flat(blocks), cs, blocks)
    decreases |x.components| - LowKey(x, s.pending)
  {
    hide Layout.Valid, MembersSorted, LowKey, Drain, InBlocks, AfterBlock, PendingsOk, BlockOf;
    if s.pending == map[] {
      cs, blocks := [], [];
      NothingToDrain(x, s);
    } else {
      var t := AfterBlock(x, s);
      DrainBlock(x, s);
      LowRises(x, s);
      LowKeyInRange(x, s.pending);
      LowKeyInRange(x, t.pending);
      var ds, more := DrainInBlocks(x, t);
      FirstOfBlocks(x, s, ds, more);
      AfterBlockLine(x, s);
      var pc := s.pending[LowKey(x, s.pending)];
      cs, blocks := [pc.id] + ds, [BlockOf(x, pc)] + more;
      assert blocks[1..] == more;
    }
  }

  lemma NothingToDrain(x: Layout, s: Emission)
    requires x.Valid() && s.pending == map[]
    ensures Drain(x, s) == s && s.line + Flat([]) == s.line && InBlocks(x, map[], Flat([]), [], [])
  {
  }

  lemma AfterBlockLine(x: Layout, s: Emission)
    requires x.Valid() && PendingsOk(x, s.pending) && s.pending != map[]
    requires var k := LowKey(x, s.pending);
      k in s.pending && s.pending[k].id < |x.components| && 1 <= s.pending[k].count
    ensures AfterBlock(x, s).line == s.line + BlockOf(x, s.pending[LowKey(x, s.pending)])
  {
  }

  lemma LowRises(x: Layout, s: Emission)
    requires x.Valid() && MembersSorted(x) && PendingsOk(x, s.pending) && s.pending != map[]
    requires PendingsOk(x, AfterBlock(x, s).pending)
    ensures LowKey(x, s.pending) < LowKey(x, AfterBlock(x, s).pending)
  {
    hide MembersSorted, MakeEachPending, LowKey;
    var p := AfterBlock(x, s).pending;
    if p == map[] {
      LowKeyInRange(x, s.pending);
      NothingLow(x);
    } else {
      LowKeyPresent(x, p);
      OkAt(x, p, LowKey(x, p));
      PendingAfter(x, s, p[LowKey(x, p)].id);
    }
  }

  lemma NothingLow(x: Layout)
    ensures LowKey(x, map[]) == |x.components|
  {
  }

  lemma FirstOfBlocks(x: Layout, s: Emission, ds: seq<nat>, more: seq<seq<nat>>)
    requires x.Valid() && MembersSorted(x) && PendingsOk(x, s.pending) && s.pending != map[]
    requires InBlocks(x, AfterBlock(x, s).pending, Flat(more), ds, more)
    ensures LowKey(x, s.pending) in s.pending
    ensures var pc := s.pending[LowKey(x, s.pending)];
      pc.id < |x.components| && 1 <= pc.count
      && InBlocks(x, s.pending, Flat([BlockOf(x, pc)] + more), [pc.id] + ds, [BlockOf(x, pc)] + more)
  {
    hide Layout.Valid, MembersSorted, LowKey, AfterBlock, IsBlock, IsTopological, PendingOk, PendingsOk, LedBy, BlockAt;
    var k := LowKey(x, s.pending);
    LowKeyPresent(x, s.pending);
    OkAt(x, s.pending, k);
    var pc := s.pending[k];
    assert pc.id < |x.components| && 1 <= pc.count by { OkFacts(x, s.pending, k); }
    var cs, blocks := [pc.id] + ds, [BlockOf(x, pc)] + more;
    OrderSized(x);
    assert blocks[1..] == more;
    PendingAfter(x, s, pc.id);
    forall i | 0 <= i < |cs|
      ensures cs[i] < |x.components| && BlockAt(x, s.pending, cs, i, blocks[i])
    {
      if i == 0 { FirstBlockAt(x, s, cs); } else { NextBlockAt(x, s, cs, ds, i, blocks[i]); }
    }
    forall i, j | 0 <= i < j < |cs|
      ensures x.order[cs[i]] < x.order[cs[j]]
    {
      FirstIsHigher(x, s, ds, more);
      if i > 0 { assert cs[i] == ds[i - 1] && cs[j] == ds[j - 1]; }
    }
    forall d: nat | d < |x.components|
      ensures d in cs <==> x.order[d] in s.pending || LedBy(x, cs, d)
    {
      PendingAfter(x, s, d);
      LedByFirst(x, pc.id, ds, d);
    }
  }

  lemma OkFacts(x: Layout, p: Pendings, k: int)
    requires x.Valid() && PendingsOk(x, p) && k in p
    ensures p[k].id < |x.components| && 1 <= p[k].count
  {
    OkAt(x, p, k);
  }

  lemma OrderSized(x: Layout)
    requires x.Valid()
    ensures |x.order| == |x.components|
  {
  }

  lemma LedByFirst(x: Layout, c: nat, ds: seq<nat>, d: nat)
    ensures LedBy(x, [c] + ds, d) <==> HasEdge(x.graph, c, d) || LedBy(x, ds, d)
  {
    hide HasEdge;
    var cs := [c] + ds;
    if HasEdge(x.graph, c, d) { assert HasEdge(x.graph, cs[0], d); }
    if j :| 0 <= j < |ds| && HasEdge(x.graph, ds[j], d) { assert HasEdge(x.graph, cs[j + 1], d); }
  }

  lemma FirstBlockAt(x: Layout, s: Emission, cs: seq<nat>)
    requires x.Valid() && PendingsOk(x, s.pending) && s.pending != map[] && LowKey(x, s.pending) in s.pending
    requires var pc := s.pending[LowKey(x, s.pending)];
      pc.id < |x.components| && 1 <= pc.count && cs != [] && cs[0] == pc.id
    ensures BlockAt(x, s.pending, cs, 0, BlockOf(x, s.pending[LowKey(x, s.pending)]))
  {
    hide LowKey, IsBlock;
    OkAt(x, s.pending, LowKey(x, s.pending));
    assert !LedBy(x, cs[..0], cs[0]);
    BlockOfIs(x, s.pending[LowKey(x, s.pending)]);
  }

  lemma NextBlockAt(x: Layout, s: Emission, cs: seq<nat>, ds: seq<nat>, i: nat, b: seq<nat>)
    requires x.Valid() && MembersSorted(x) && PendingsOk(x, s.pending) && s.pending != map[]
    requires LowKey(x, s.pending) in s.pending && cs == [s.pending[LowKey(x, s.pending)].id] + ds && 0 < i < |cs|
    requires BlockAt(x, AfterBlock(x, s).pending, ds, i - 1, b)
    ensures BlockAt(x, s.pending, cs, i, b)
  {
    hide LowKey, IsBlock, LedBy, PendingsOk, Layout.Valid, MembersSorted, AfterBlock;
    var c := s.pending[LowKey(x, s.pending)].id;
    assert cs[..i] == [c] + ds[..i - 1] && cs[i] == ds[i - 1];
    OrderSized(x);
    LedByFirst(x, c, ds[..i - 1], ds[i - 1]);
    PendingAfter(x, s, ds[i - 1]);
    if HasEdge(x.graph, c, ds[i - 1]) && !LedBy(x, ds[..i - 1], ds[i - 1]) { WholeBlock(x, b, ds[i - 1]); }
  }

  lemma FirstIsHigher(x: Layout, s: Emission, ds: seq<nat>, more: seq<seq<nat>>)
    requires x.Valid() && MembersSorted(x) && PendingsOk(x, s.pending) && s.pending != map[]
    requires InBlocks(x, AfterBlock(x, s).pending, Flat(more), ds, more)
    ensures |x.order| == |x.components|
    ensures forall i :: 0 <= i < |ds| ==> ds[i] < |x.components| && LowKey(x, s.pending) < x.order[ds[i]]
  {
    hide LowKey, IsBlock, PendingsOk, Layout.Valid, MembersSorted, AfterBlock;
    OrderSized(x);
    if ds != [] {
      assert BlockAt(x, AfterBlock(x, s).pending, ds, 0, more[0]);
      assert !LedBy(x, ds[..0], ds[0]);
      PendingAfter(x, s, ds[0]);
    }
  }

  /** The line: the original entries, and then the blocks of all they leave over. */
  ghost predicate InOrderOfBlocks(x: Layout, originals: seq<nat>, line: seq<nat>)
    requires x.Valid()
  {
    && originals <= line
    && exists p: Pendings, cs: seq<nat>, blocks: seq<seq<nat>> ::
         PendingsOk(x, p) && LeftExactly(x, Emission(originals, p))
         && InBlocks(x, p, line[|originals|..], cs, blocks)
  }

  lemma EmittedInBlocks(x: Layout, originals: seq<nat>)
    requires x.Valid() && MembersSorted(x) && EntriesOk(x, originals)
    ensures InOrderOfBlocks(x, originals, Emit(x, originals).line)
  {
    hide Layout.Valid, MembersSorted, LeftExactly, InBlocks, VisitEach, Drain, DependsOwed, SelfOwed, PendingsOk,
      Emitting;
    var s := VisitEach(x, Emission([], map[]), originals);
    OriginalsLeave(x, originals);
    OriginalsFirst(x, originals);
    var cs, blocks := DrainInBlocks(x, s);
    var line := Emit(x, originals).line;
    assert line[|originals|..] == Flat(blocks);
    assert s == Emission(originals, s.pending);
  }

  lemma OriginalsFirst(x: Layout, originals: seq<nat>)
    requires x.Valid() && EntriesOk(x, originals)
    ensures VisitEach(x, Emission([], map[]), originals).line == originals
    ensures PendingsOk(x, VisitEach(x, Emission([], map[]), originals).pending)
    ensures Emit(x, originals) == Drain(x, VisitEach(x, Emission([], map[]), originals))
  {
    VisitEachKeeps(x, originals);
  }
}
