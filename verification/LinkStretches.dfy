/** Whole stretches of a component in the link line: they outlast the removal of repeated
    shared libraries when the component has none (Compute in cmComputeLinkDepends). */
module LinkStretches {
  import opened Graphs
  import opened Sorting
  import opened LinkOrder
  import opened LinkBlocks
  import opened LinkLine

  /** What is left of a line when only members of a set are looked at. */
  ghost function Only(s: seq<nat>, m: set<nat>): seq<nat> {
    if s == [] then [] else (if s[0] in m then [s[0]] else []) + Only(s[1..], m)
  }

  lemma {:induction false} OnlyElements(s: seq<nat>, m: set<nat>)
    ensures Elements(Only(s, m)) == Elements(s) * m
  {
    if s != [] {
      OnlyElements(s[1..], m);
      assert s == [s[0]] + s[1..];
      forall v: nat
        ensures v in Only(s, m) <==> v in s && v in m
      {
        assert v in Only(s[1..], m) <==> v in Elements(Only(s[1..], m));
      }
    }
  }

  /** A cut of what is left can be made in the line itself. */
  lemma {:induction false} OnlyCut(t: seq<nat>, m: set<nat>, n: nat) returns (j: nat)
    requires n <= |Only(t, m)|
    ensures j <= |t| && Only(t[..j], m) == Only(t, m)[..n] && Only(t[j..], m) == Only(t, m)[n..]
  {
    if n == 0 {
      j := 0;
      assert t[..0] == [] && t[0..] == t;
    } else {
      var head := if t[0] in m then [t[0]] else [];
      var i := OnlyCut(t[1..], m, n - |head|);
      j := i + 1;
      assert t[..j][1..] == t[1..][..i] && t[j..] == t[1..][i..];
      assert Only(t[..j], m) == head + Only(t[1..], m)[..n - |head|];
      assert Only(t, m) == head + Only(t[1..], m);
    }
  }

  /** Seeing a set whole so many times depends only on what is left of the line. */
  lemma {:induction false} SeenTimesOnly(s: seq<nat>, t: seq<nat>, m: set<nat>, k: nat)
    requires Only(s, m) == Only(t, m) && SeenTimes(s, m, k)
    ensures SeenTimes(t, m, k)
    decreases k
  {
    if k > 0 {
      var i :| 0 <= i <= |s| && SeenTimes(s[..i], m, k - 1) && m <= Elements(s[i..]);
      var j := SameCut(s, t, m, i);
      SeenTimesOnly(s[..i], t[..j], m, k - 1);
    }
  }

  lemma SameCut(s: seq<nat>, t: seq<nat>, m: set<nat>, i: nat) returns (j: nat)
    requires Only(s, m) == Only(t, m) && i <= |s| && m <= Elements(s[i..])
    ensures j <= |t| && Only(t[..j], m) == Only(s[..i], m) && m <= Elements(t[j..])
  {
    hide Only, Elements;
    var a, b := Only(s[..i], m), Only(s[i..], m);
    OnlyJoin(s[..i], s[i..], m);
    assert s[..i] + s[i..] == s;
    assert (a + b)[..|a|] == a && (a + b)[|a|..] == b;
    j := OnlyCut(t, m, |a|);
    OnlyElements(s[i..], m);
    OnlyElements(t[j..], m);
    assert Only(t[j..], m) == b;
    assert Elements(s[i..]) * m == Elements(t[j..]) * m == m;
    assert m <= Elements(t[j..]) by { assert Elements(t[j..]) * m <= Elements(t[j..]); }
  }

  lemma OnlyHead(h: nat, s: seq<nat>, m: set<nat>)
    ensures Only([h] + s, m) == (if h in m then [h] else []) + Only(s, m)
  {
    assert ([h] + s)[1..] == s;
  }

  lemma {:induction false} OnlyJoin(a: seq<nat>, b: seq<nat>, m: set<nat>)
    ensures Only(a + b, m) == Only(a, m) + Only(b, m)
  {
    if a == [] {
      assert a + b == b;
    } else {
      hide Only;
      var h, rest := a[0], a[1..];
      OnlyJoin(rest, b, m);
      assert a == [h] + rest && a + b == [h] + (rest + b);
      OnlyHead(h, rest, m);
      OnlyHead(h, rest + b, m);
    }
  }

  lemma {:induction false} OnlyKept(line: seq<nat>, shared: set<nat>, m: set<nat>)
    requires m !! shared
    ensures Only(KeepLast(line, shared), m) == Only(line, m)
  {
    if line != [] {
      OnlyKept(line[1..], shared, m);
      var rest := KeepLast(line[1..], shared);
      assert ([line[0]] + rest)[1..] == rest;
    }
  }

  /** What is kept behind an occurrence is what was behind it, de-duplicated. */
  lemma {:induction false} KeptBehind(line: seq<nat>, shared: set<nat>, p: nat) returns (q: nat)
    requires p < |KeepLast(line, shared)|
    ensures q < |line| && line[q] == KeepLast(line, shared)[p]
    ensures KeepLast(line, shared)[p + 1..] == KeepLast(line[q + 1..], shared)
  {
    var rest := KeepLast(line[1..], shared);
    if KeepLast(line, shared) == rest {
      q := KeptBehind(line[1..], shared, p);
      q := q + 1;
      assert line[1..][q..] == line[q + 1..];
    } else if p == 0 {
      q := 0;
      assert ([line[0]] + rest)[1..] == rest;
    } else {
      assert ([line[0]] + rest)[p + 1..] == rest[p..];
      q := KeptBehind(line[1..], shared, p - 1);
      q := q + 1;
      assert line[1..][q..] == line[q + 1..];
    }
  }

  /** After every occurrence each component it calls for is seen whole as often as it has
      to be, unless a shared library belongs to that component. */
  ghost predicate StretchesFollow(x: Layout, line: seq<nat>, shared: set<nat>)
    requires x.Valid() && EntriesOk(x, line)
  {
    forall p: nat, d: nat :: p < |line| && HasEdge(x.graph, x.componentOf[line[p]], d) && x.Members(d) !! shared ==>
      SeenTimes(line[p + 1..], x.Members(d), x.needed[d])
  }

  ghost predicate StretchesRepeat(x: Layout, line: seq<nat>, shared: set<nat>)
    requires x.Valid() && EntriesOk(x, line)
  {
    forall p: nat :: (
        && p < |line| && |x.components[x.componentOf[line[p]]]| > 1
        && x.Members(x.componentOf[line[p]]) !! shared) ==>
      SeenTimes(line, x.Members(x.componentOf[line[p]]), x.needed[x.componentOf[line[p]]])
  }

  /** What is left of the line still has the stretches of both kinds. */
  ghost predicate KeepsStretches(x: Layout, line: seq<nat>, shared: set<nat>) {
    var kept := KeepLast(line, shared);
    x.Valid() && EntriesOk(x, kept) && StretchesFollow(x, kept, shared) && StretchesRepeat(x, kept, shared)
  }

  /** De-duplication leaves all stretches of components without shared libraries. */
  lemma StretchesKept(x: Layout, line: seq<nat>, shared: set<nat>)
    requires x.Valid() && EntriesOk(x, line) && DependenciesFollow(x, line) && ComponentsRepeat(x, line)
    ensures KeepsStretches(x, line, shared)
  {
    hide SeenTimes, KeepLast, Only;
    var kept := KeepLast(line, shared);
    forall p | 0 <= p < |kept|
      ensures kept[p] < |x.componentOf|
    {
      var q := KeptBehind(line, shared, p);
    }
    forall p: nat, d: nat | p < |kept| && HasEdge(x.graph, x.componentOf[kept[p]], d) && x.Members(d) !! shared
      ensures SeenTimes(kept[p + 1..], x.Members(d), x.needed[d])
    {
      var q := KeptBehind(line, shared, p);
      OnlyKept(line[q + 1..], shared, x.Members(d));
      SeenTimesOnly(line[q + 1..], kept[p + 1..], x.Members(d), x.needed[d]);
    }
    forall p: nat | p < |kept| && |x.components[x.componentOf[kept[p]]]| > 1 &&
           x.Members(x.componentOf[kept[p]]) !! shared
      ensures SeenTimes(kept, x.Members(x.componentOf[kept[p]]), x.needed[x.componentOf[kept[p]]])
    {
      var q := KeptBehind(line, shared, p);
      var c := x.componentOf[kept[p]];
      OnlyKept(line, shared, x.Members(c));
      SeenTimesOnly(line, kept, x.Members(c), x.needed[c]);
    }
  }

  /** What is promised of a line, and of the same line with shared libraries kept once. */
  ghost predicate LineOk(g: Graph, x: Layout, originals: seq<nat>, line: seq<nat>, shared: set<nat>) {
    && x.Valid() && |x.componentOf| == |g| && EntriesOk(x, line) && originals <= line
    && ComponentsRepeat(x, line) && DependenciesFollow(x, line)
    && (forall v: nat :: v in line <==> v in ReachedFrom(g, originals))
    && AllFollowed(line, Dependencies(g, x.componentOf))
    && AllFollowed(KeepLast(line, shared), Dependencies(g, x.componentOf))
    && KeepsStretches(x, line, shared) && InOrderOfBlocks(x, originals, line)
  }

  lemma EmittedIsOk(g: Graph, x: Layout, originals: seq<nat>, shared: set<nat>)
    requires LayoutOf(g, x) && EntriesOk(x, originals)
    ensures Emit(x, originals).pending == map[] && LineOk(g, x, originals, Emit(x, originals).line, shared)
  {
    hide Emit, KeepLast, Reach, AllFollowed, ComponentsRepeat, DependenciesFollow, KeepsStretches, Layout.Valid,
      InOrderOfBlocks, MembersSorted;
    EmitSatisfies(x, originals);
    assert MembersSorted(x) by { LayoutSorted(g, x); }
    EmittedInBlocks(x, originals);
    LineSatisfiesDependencies(g, x, originals, shared);
    StretchesKept(x, Emit(x, originals).line, shared);
    forall v: nat
      ensures v in Emit(x, originals).line <==> v in ReachedFrom(g, originals)
    {
      LineIsReachable(g, x, originals, v);
    }
  }

  lemma LayoutSorted(g: Graph, x: Layout)
    requires LayoutOf(g, x)
    ensures MembersSorted(x)
  {
  }
}
