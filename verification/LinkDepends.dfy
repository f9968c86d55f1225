/** How the link line of a target comes about (cmComputeLinkDepends). */
module LinkDepends {
  import opened Wrappers
  import opened TargetTypes
  import opened Graphs
  import opened Sorting
  import opened Condensation
  import opened ComponentGraph
  import opened DiscoveryOrder
  import opened TopologicalOrder
  import opened SuccessorOrder
  import opened LinkOrder
  import opened LinkLine
  import opened LinkStretches
  import opened LinkInference

  /** A multiplicity that survives the conversion to a 32-bit int. */
  type Multiplicity = m: nat | m < 0x8000_0000

  /** A target, with the multiplicity of its link interface when it has one. */
  datatype Target = Target(id: nat, name: string, kind: TargetType, multiplicity: Option<Multiplicity>)

  /** A link item, by what distinguishes it from other items. */
  datatype LinkItem = TargetItem(target: Target, cross: bool) | NamedItem(name: string, cross: bool)
  {
    function AsStr(): string {
      match this
      case TargetItem(target, _) => target.name
      case NamedItem(name, _) => name
    }

    function Target(): Option<Target> {
      match this
      case TargetItem(target, _) => Some(target)
      case NamedItem(_, _) => None
    }
  }

  datatype LinkEntry = LinkEntry(item: string, target: Option<Target>, isFlag: bool, isObject: bool)

  /** The follow sets of one entry, if its dependencies have to be inferred. */
  datatype DependSetList = DependSetList(initialized: bool, sets: seq<set<nat>>)

  /** An entry whose dependencies are to be followed: those of its target, or those of
      the text of its variable. */
  datatype BFSEntry = BFSEntry(index: nat, libDepends: Option<string>)

  function CharAt(s: string, i: nat): char {
    if i < |s| then s[i] else '\0'
  }

  predicate LooksLikeFlag(value: string) {
    && CharAt(value, 0) == '-'
    && CharAt(value, 1) != 'l'
    && !("-framework" <= value)
  }

  /** The entry AddLinkEntry creates for an item. */
  function EntryFor(item: LinkItem): LinkEntry {
    LinkEntry(item.AsStr(), item.Target(), item.NamedItem? && LooksLikeFlag(item.name), false)
  }

  /** What a new item puts into the queue: targets always, other items when the list
      of their dependencies is known. */
  function Queued(libDepends: map<string, string>, item: LinkItem, index: nat): seq<BFSEntry> {
    if item.TargetItem? then [BFSEntry(index, None)]
    else if item.name in libDepends then [BFSEntry(index, Some(libDepends[item.name]))]
    else []
  }

  /** The largest multiplicity among some entries, at least two. */
  function NeededCount(entries: seq<LinkEntry>, nl: seq<nat>): nat
    requires forall k :: 0 <= k < |nl| ==> nl[k] < |entries|
  {
    if nl == [] then 2
    else
      var front := NeededCount(entries, nl[..|nl| - 1]);
      var t := entries[nl[|nl| - 1]].target;
      if t.Some? && t.value.multiplicity.Some? && t.value.multiplicity.value > front
      then t.value.multiplicity.value else front
  }

  /** It is the least count that is at least two and no multiplicity exceeds. */
  lemma {:induction false} NeededCountIsMaximum(entries: seq<LinkEntry>, nl: seq<nat>)
    requires forall k :: 0 <= k < |nl| ==> nl[k] < |entries|
    ensures var m := NeededCount(entries, nl);
      && 2 <= m
      && (forall k :: 0 <= k < |nl| ==> MultiplicityOf(entries[nl[k]]) <= m)
      && (m == 2 || exists k :: 0 <= k < |nl| && MultiplicityOf(entries[nl[k]]) == m)
  {
    if nl != [] {
      var front := nl[..|nl| - 1];
      NeededCountIsMaximum(entries, front);
      assert forall k :: 0 <= k < |front| ==> front[k] == nl[k];
    }
  }

  ghost function MultiplicityOf(e: LinkEntry): nat {
    if e.target.Some? && e.target.value.multiplicity.Some? then e.target.value.multiplicity.value else 0
  }

  ghost function NeededCounts(entries: seq<LinkEntry>, components: seq<seq<nat>>): seq<nat>
    requires forall c, k :: 0 <= c < |components| && 0 <= k < |components[c]| ==> components[c][k] < |entries|
  {
    seq(|components|, c requires 0 <= c < |components| =>
      if |components[c]| == 1 then 1 else NeededCount(entries, components[c]))
  }

  predicate IsShared(e: LinkEntry) {
    e.target.Some? && e.target.value.kind == SharedLibrary
  }

  ghost function SharedEntries(entries: seq<LinkEntry>): set<nat> {
    set i: nat | i < |entries| && IsShared(entries[i])
  }

  /** The items of a list that are not skipped. */
  function Linked(libs: seq<LinkItem>, targetName: string): seq<LinkItem> {
    if libs == [] then []
    else
      var last := libs[|libs| - 1];
      Linked(libs[..|libs| - 1], targetName) +
      (if last.AsStr() == targetName || last.AsStr() == "" then [] else [last])
  }

  ghost predicate Indexed(index: map<LinkItem, nat>, items: seq<LinkItem>, list: seq<nat>) {
    |list| == |items| && forall i :: 0 <= i < |list| ==> items[i] in index && index[items[i]] == list[i]
  }

  lemma NoneIndexed(index: map<LinkItem, nat>, libs: seq<LinkItem>, targetName: string)
    ensures Indexed(index, Linked(libs[..0], targetName), [])
  {
  }

  lemma SkippedNext(index: map<LinkItem, nat>, libs: seq<LinkItem>, targetName: string, list: seq<nat>, i: nat)
    requires i < |libs| && (libs[i].AsStr() == targetName || libs[i].AsStr() == "")
    requires Indexed(index, Linked(libs[..i], targetName), list)
    ensures Indexed(index, Linked(libs[..i + 1], targetName), list)
  {
    assert libs[..i + 1][..i] == libs[..i];
  }

  lemma IndexedNext(index: map<LinkItem, nat>, libs: seq<LinkItem>, targetName: string, list: seq<nat>, i: nat,
      entry: nat)
    requires i < |libs| && libs[i].AsStr() != targetName && libs[i].AsStr() != ""
    requires Indexed(index, Linked(libs[..i], targetName), list)
    requires libs[i] in index ==> index[libs[i]] == entry
    ensures Indexed(index[libs[i] := entry], Linked(libs[..i + 1], targetName), list + [entry])
  {
    assert libs[..i + 1][..i] == libs[..i];
  }

  /** The recorded sets are the follow sets in the lists read so far. */
  ghost predicate SetsMatchLists(record: seq<DependSetList>, lists: seq<seq<nat>>, dependees: set<nat>) {
    forall a: nat :: a < |record| ==>
      record[a].sets == if record[a].initialized then FollowSets(lists, a, dependees) else []
  }

  /** The sets begun by a list are the follow sets of the unknown entries read. */
  ghost predicate Tracks(dependSets: map<nat, set<nat>>, list: seq<nat>, unknown: set<nat>, dependees: set<nat>) {
    && (forall a: nat :: a in dependSets <==> a in list && a in unknown)
    && (forall a: nat :: a in dependSets ==> dependSets[a] == FollowSet(list, a, dependees))
  }

  /** New entries change nothing about the entries read before. */
  lemma TracksFrame(dependSets: map<nat, set<nat>>, list: seq<nat>, unknown: set<nat>, dependees: set<nat>,
      unknown': set<nat>, dependees': set<nat>)
    requires forall b :: b in list ==> (b in dependees <==> b in dependees') && (b in unknown <==> b in unknown')
    requires Tracks(dependSets, list, unknown, dependees)
    ensures Tracks(dependSets, list, unknown', dependees')
  {
    forall a: nat | a in dependSets
      ensures dependSets[a] == FollowSet(list, a, dependees')
    {
      FollowSetSame(list, a, dependees, dependees');
    }
  }

  /** The sets after entry d of the list has been read: it may be a dependee of
      the entries before it, and may have a set of its own to begin. */
  function WithEntry(dependSets: map<nat, set<nat>>, d: nat, isDependee: bool, isUnknown: bool): map<nat, set<nat>> {
    var next := map a | a in dependSets :: if isDependee && d != a then dependSets[a] + {d} else dependSets[a];
    if isUnknown && d !in next then next[d := {}] else next
  }

  lemma TracksStep(dependSets: map<nat, set<nat>>, list: seq<nat>, d: nat, unknown: set<nat>, dependees: set<nat>)
    requires Tracks(dependSets, list, unknown, dependees)
    ensures Tracks(WithEntry(dependSets, d, d in dependees, d in unknown), list + [d], unknown, dependees)
  {
    var next := WithEntry(dependSets, d, d in dependees, d in unknown);
    forall a: nat | a in next
      ensures next[a] == FollowSet(list + [d], a, dependees)
    {
      FollowSetGrows(list, a, d, dependees);
    }
  }

  lemma TracksNothing(unknown: set<nat>, dependees: set<nat>)
    ensures Tracks(map[], [], unknown, dependees)
  {
  }

  function Stored(record: seq<DependSetList>, dependSets: map<nat, set<nat>>): seq<DependSetList> {
    seq(|record|, a requires 0 <= a < |record| =>
      if a in dependSets then record[a].(sets := record[a].sets + [dependSets[a]]) else record[a])
  }

  /** Appending the sets begun by a list brings the record up to date. */
  lemma StoreKeepsMatch(record: seq<DependSetList>, lists: seq<seq<nat>>, dependSets: map<nat, set<nat>>,
      list: seq<nat>, unknown: set<nat>, dependees: set<nat>)
    requires SetsMatchLists(record, lists, dependees) && Tracks(dependSets, list, unknown, dependees)
    requires forall a: nat :: a in unknown <==> a < |record| && record[a].initialized
    ensures SetsMatchLists(Stored(record, dependSets), lists + [list], dependees)
    ensures |Stored(record, dependSets)| == |record|
    ensures forall a :: 0 <= a < |record| ==> Stored(record, dependSets)[a].initialized == record[a].initialized
  {
    assert (lists + [list])[..|lists|] == lists;
    forall a: nat | a < |record| && record[a].initialized
      ensures Stored(record, dependSets)[a].sets == FollowSets(lists + [list], a, dependees)
    {
      assert record[a].sets == FollowSets(lists, a, dependees);
    }
  }

  class ComputeLinkDepends {
    const targetName: string
    const libDepends: map<string, string>   // by item, the text of <item>_LIB_DEPENDS

    // Indexed by entry.
    var entryList: seq<LinkEntry>
    var linkEntryIndex: map<LinkItem, nat>
    var bfsQueue: seq<BFSEntry>
    var inferredDependSets: seq<DependSetList>
    var entryConstraintGraph: Graph
    var originalEntries: seq<nat>
    var objectEntries: seq<nat>

    /** The lists of entries read so far. */
    ghost var lists: seq<seq<nat>>

    var ccg: ComputeComponentGraph?
    var componentVisited: seq<bool>
    var componentOrder: seq<int>
    var componentOrderId: int
    var pendingComponents: Pendings
    var finalLinkOrder: seq<nat>
    var finalLinkEntries: seq<LinkEntry>

    constructor (name: string, known: map<string, string>)
      ensures targetName == name && libDepends == known
      ensures Valid() && entryList == [] && lists == [] && originalEntries == [] && objectEntries == []
      ensures bfsQueue == [] && entryConstraintGraph == [] && componentVisited == [] && componentOrder == []
      ensures finalLinkOrder == [] && finalLinkEntries == [] && pendingComponents == map[]
    {
      targetName, libDepends := name, known;
      entryList, linkEntryIndex, bfsQueue, inferredDependSets, entryConstraintGraph := [], map[], [], [], [];
      originalEntries, objectEntries, lists := [], [], [];
      ccg, componentVisited, componentOrder, componentOrderId := null, [], [], 0;
      pendingComponents, finalLinkOrder, finalLinkEntries := map[], [], [];
    }

    /** Entries that may be inferred as dependees: neither targets nor flags. */
    ghost function Dependees(): set<nat>
      reads this`entryList
    {
      set b: nat | b < |entryList| && entryList[b].target.None? && !entryList[b].isFlag
    }

    /** Entries whose dependencies have to be inferred. */
    ghost function Unknown(): set<nat>
      reads this`inferredDependSets
    {
      set a: nat | a < |inferredDependSets| && inferredDependSets[a].initialized
    }

    ghost predicate Sized()
      reads this
    {
      && |inferredDependSets| == |entryConstraintGraph| == |entryList|
      && WellFormed(entryConstraintGraph)
      && (forall i :: 0 <= i < |originalEntries| ==> originalEntries[i] < |entryList|)
      && (forall i :: 0 <= i < |objectEntries| ==> objectEntries[i] < |entryList|)
      && (forall item :: item in linkEntryIndex ==> linkEntryIndex[item] < |entryList|)
      && (forall k, i :: 0 <= k < |lists| && 0 <= i < |lists[k]| ==> lists[k][i] < |entryList|)
    }

    ghost predicate Valid()
      reads this
    {
      Sized() && SetsMatchLists(inferredDependSets, lists, Dependees())
    }

    /** The entry of an item, created if there is none. */
    method AddLinkEntry(item: LinkItem) returns (index: nat)
      requires Valid()
      modifies this`entryList, this`linkEntryIndex, this`bfsQueue, this`inferredDependSets, this`entryConstraintGraph
      ensures Valid() && old(entryList) <= entryList
      ensures forall b: nat :: b < |old(entryList)| ==>
        (b in Dependees() <==> b in old(Dependees())) && (b in Unknown() <==> b in old(Unknown()))
      ensures linkEntryIndex == old(linkEntryIndex)[item := index] && index < |entryList|
      ensures item in old(linkEntryIndex) ==>
        index == old(linkEntryIndex)[item] && entryList == old(entryList) && bfsQueue == old(bfsQueue)
        && inferredDependSets == old(inferredDependSets) && entryConstraintGraph == old(entryConstraintGraph)
      ensures item !in old(linkEntryIndex) ==>
        && index == |old(entryList)| && entryList == old(entryList) + [EntryFor(item)]
        && entryConstraintGraph == old(entryConstraintGraph) + [[]]
        && bfsQueue == old(bfsQueue) + Queued(libDepends, item, index)
        && inferredDependSets == old(inferredDependSets) +
             [DependSetList(Queued(libDepends, item, index) == [] && !LooksLikeFlag(item.AsStr()), [])]
    {
      // Equal items share an index.
      if item in linkEntryIndex {
        index := linkEntryIndex[item];
        return;
      }

      index := |entryList|;
      ghost var before := Dependees();
      linkEntryIndex := linkEntryIndex[item := index];
      entryList := entryList + [EntryFor(item)];
      entryConstraintGraph := entryConstraintGraph + [[]];

      // Known lists are followed; only plain libraries are left to inference.
      var initialized := false;
      if item.TargetItem? {
        bfsQueue := bfsQueue + [BFSEntry(index, None)];
      } else if item.name in libDepends {
        bfsQueue := bfsQueue + [BFSEntry(index, Some(libDepends[item.name]))];
      } else if !entryList[index].isFlag {
        initialized := true;
      }
      inferredDependSets := inferredDependSets + [DependSetList(initialized, [])];

      forall a: nat | a <= index
        ensures FollowSets(lists, a, Dependees()) == FollowSets(lists, a, before)
        ensures a == index ==> FollowSets(lists, a, Dependees()) == []
      {
        FollowSetsSame(lists, a, before, Dependees());
        FollowSetsAbsent(lists, index, Dependees());
      }
    }

    /** The list holds, in order, the entries of the items that are not skipped. */
    ghost predicate Resolves(libs: seq<LinkItem>, list: seq<nat>)
      reads this
    {
      Indexed(linkEntryIndex, Linked(libs, targetName), list)
    }

    /** Constrain the order of two entries, or put a direct one on the original line. */
    method AddConstraint(depender: int, dependee: nat)
      requires Valid() && -1 <= depender < |entryList| && dependee < |entryList|
      modifies this`entryConstraintGraph, this`originalEntries
      ensures Valid()
      ensures originalEntries == old(originalEntries) + (if depender < 0 then [dependee] else [])
      ensures |entryConstraintGraph| == |old(entryConstraintGraph)|
      ensures forall a: nat :: a < |entryConstraintGraph| ==>
        entryConstraintGraph[a] ==
          old(entryConstraintGraph)[a] + (if a == depender then EdgesTo([dependee], false) else [])
    {
      hide SetsMatchLists;
      if depender >= 0 {
        var edges := entryConstraintGraph[depender] + [Edge(dependee, false, false, NoTrace)];
        entryConstraintGraph := entryConstraintGraph[depender := edges];
        assert EdgesTo([dependee], false) == [Edge(dependee, false, false, NoTrace)];
      } else {
        originalEntries := originalEntries + [dependee];
      }
    }

    /** Add the entry of one item of a list and update the sets begun by the list. */
    method ReadItem(depender: int, item: LinkItem, dependSets: map<nat, set<nat>>, ghost list: seq<nat>)
      returns (next: map<nat, set<nat>>, dependee: nat)
      requires Valid() && -1 <= depender < |entryList|
      requires Tracks(dependSets, list, Unknown(), Dependees()) && forall j :: 0 <= j < |list| ==> list[j] < |entryList|
      modifies this`entryList, this`linkEntryIndex, this`bfsQueue, this`inferredDependSets, this`entryConstraintGraph,
               this`originalEntries
      ensures Valid() && old(entryList) <= entryList && dependee < |entryList|
      ensures linkEntryIndex == old(linkEntryIndex)[item := dependee]
      ensures item in old(linkEntryIndex) ==> dependee == old(linkEntryIndex)[item]
      ensures originalEntries == old(originalEntries) + (if depender < 0 then [dependee] else [])
      ensures GraphGrown(old(entryConstraintGraph), entryConstraintGraph, depender, [dependee])
      ensures Tracks(next, list + [dependee], Unknown(), Dependees())
    {
      hide SetsMatchLists, Tracks, WellFormed, WithEntry;
      ghost var unknown, dependees := Unknown(), Dependees();
      dependee := AddLinkEntry(item);
      TracksFrame(dependSets, list, unknown, dependees, Unknown(), Dependees());

      AddConstraint(depender, dependee);

      // The new entry joins the sets already begun, and may begin one.
      next := WithEntry(dependSets, dependee,
        entryList[dependee].target.None? && !entryList[dependee].isFlag, inferredDependSets[dependee].initialized);
      TracksStep(dependSets, list, dependee, Unknown(), Dependees());
    }

    /** Read one dependency list of an entry, or of the target itself (-1). */
    method AddLinkEntries(depender: int, libs: seq<LinkItem>) returns (ghost list: seq<nat>)
      requires Valid() && -1 <= depender < |entryList|
      modifies this`entryList, this`linkEntryIndex, this`bfsQueue, this`inferredDependSets, this`entryConstraintGraph,
               this`originalEntries, this`lists
      ensures Valid() && old(entryList) <= entryList
      ensures Resolves(libs, list) && lists == old(lists) + [list]
      ensures originalEntries == old(originalEntries) + (if depender < 0 then list else [])
      ensures GraphGrown(old(entryConstraintGraph), entryConstraintGraph, depender, list)
    {
      hide SetsMatchLists, Tracks, WellFormed, Stored, GraphGrown, Indexed, Linked;
      // Maps an unknown entry of this list to what has followed it.
      var dependSets: map<nat, set<nat>> := map[];
      list := [];
      NoneIndexed(linkEntryIndex, libs, targetName);
      TracksNothing(Unknown(), Dependees());
      GrownByNothing(entryConstraintGraph, depender);

      for i := 0 to |libs|
        invariant Valid() && old(entryList) <= entryList && lists == old(lists)
        invariant Resolves(libs[..i], list) && forall j :: 0 <= j < |list| ==> list[j] < |entryList|
        invariant originalEntries == old(originalEntries) + (if depender < 0 then list else [])
        invariant GraphGrown(old(entryConstraintGraph), entryConstraintGraph, depender, list)
        invariant Tracks(dependSets, list, Unknown(), Dependees())
      {
        var item := libs[i];
        // Neither the target itself nor an empty item is linked.
        if item.AsStr() == targetName || item.AsStr() == "" {
          SkippedNext(linkEntryIndex, libs, targetName, list, i);
          continue;
        }
        ghost var grown, index := entryConstraintGraph, linkEntryIndex;
        var next, dependee := ReadItem(depender, item, dependSets, list);
        IndexedNext(index, libs, targetName, list, i, dependee);
        GrownTwice(old(entryConstraintGraph), grown, entryConstraintGraph, depender, list, [dependee]);
        dependSets := next;
        list := list + [dependee];
      }
      assert libs[..|libs|] == libs;

      // One more follow set for each unknown entry read.
      StoreKeepsMatch(inferredDependSets, lists, dependSets, list, Unknown(), Dependees());
      inferredDependSets := Stored(inferredDependSets, dependSets);
      lists := lists + [list];
    }

    /** Record an explicitly linked object file, once. */
    method AddLinkObject(item: LinkItem)
      requires Valid()
      modifies this`entryList, this`linkEntryIndex, this`inferredDependSets, this`entryConstraintGraph,
               this`objectEntries
      ensures Valid()
      ensures item in old(linkEntryIndex) ==>
        linkEntryIndex == old(linkEntryIndex) && entryList == old(entryList) && objectEntries == old(objectEntries)
        && inferredDependSets == old(inferredDependSets) && entryConstraintGraph == old(entryConstraintGraph)
      ensures item !in old(linkEntryIndex) ==>
        && entryList == old(entryList) + [LinkEntry(item.AsStr(), None, false, true)]
        && linkEntryIndex == old(linkEntryIndex)[item := |old(entryList)|]
        && objectEntries == old(objectEntries) + [|old(entryList)|]
        && entryConstraintGraph == old(entryConstraintGraph) + [[]]
        && inferredDependSets == old(inferredDependSets) + [DependSetList(false, [])]
    {
      if item in linkEntryIndex {
        return;
      }
      var index := |entryList|;
      ghost var before := Dependees();
      linkEntryIndex := linkEntryIndex[item := index];
      entryList := entryList + [LinkEntry(item.AsStr(), None, false, true)];
      inferredDependSets := inferredDependSets + [DependSetList(false, [])];
      entryConstraintGraph := entryConstraintGraph + [[]];
      objectEntries := objectEntries + [index];
      forall a: nat | a < index
        ensures FollowSets(lists, a, Dependees()) == FollowSets(lists, a, before)
      {
        FollowSetsSame(lists, a, before, Dependees());
      }
    }

    /** What the lists read so far let an entry depend on. */
    ghost function InferredFrom(a: nat): set<nat>
      reads this`lists, this`entryList, this`inferredDependSets
    {
      set b: nat | b < |entryList| && Inferred(lists, Unknown(), Dependees(), a, b)
    }

    lemma CommonIsInferred(a: nat)
      requires Valid() && a < |entryList|
      ensures var record := inferredDependSets[a];
        InferredFrom(a) == if record.initialized && record.sets != [] then Common(record.sets) else {}
    {
      hide Common, FollowSets;
      var record := inferredDependSets[a];
      var found := if record.initialized && record.sets != [] then Common(record.sets) else {};
      forall b: nat
        ensures b in found <==> Inferred(lists, Unknown(), Dependees(), a, b)
        ensures b in found ==> b < |entryList|
      {
        InferredExactlyWhen(lists, Unknown(), Dependees(), a, b);
      }
    }

    /** Add the dependencies common to all follow sets of an entry to the graph. */
    method InferDependencies()
      requires Valid()
      modifies this`entryConstraintGraph
      ensures Valid() && |entryConstraintGraph| == |old(entryConstraintGraph)|
      ensures forall a: nat :: a < |entryList| ==>
        entryConstraintGraph[a] == old(entryConstraintGraph)[a] + EdgesTo(Ascending(InferredFrom(a)), true)
    {
      hide SetsMatchLists, InferredFrom, Ascending;
      for depender := 0 to |inferredDependSets|
        invariant Valid() && |entryConstraintGraph| == |old(entryConstraintGraph)|
        invariant forall a: nat :: a < |entryList| ==>
          entryConstraintGraph[a] ==
            old(entryConstraintGraph)[a] + (if a < depender then EdgesTo(Ascending(InferredFrom(a)), true) else [])
      {
        var sets := inferredDependSets[depender];
        CommonIsInferred(depender);
        // Nothing can be inferred here: InferredFrom is empty.
        if !sets.initialized || sets.sets == [] {
          assert EdgesTo(Ascending({}), true) == [] by { NothingAscending(); }
          continue;
        }

        var common := sets.sets[0];
        for k := 1 to |sets.sets|
          invariant common == Common(sets.sets[..k])
        {
          assert sets.sets[..k + 1][..k] == sets.sets[..k];
          common := common * sets.sets[k];
        }
        assert sets.sets[..|sets.sets|] == sets.sets;

        assert forall b: nat :: b in common ==> b < |entryList| by { InferredInRange(depender); }
        var dests := Ascending(common);
        assert forall k :: 0 <= k < |dests| ==> dests[k] in dests;
        entryConstraintGraph := entryConstraintGraph[depender := entryConstraintGraph[depender] + EdgesTo(dests, true)];
      }
    }

    lemma InferredInRange(a: nat)
      ensures forall b: nat :: b in InferredFrom(a) ==> b < |entryList|
    {
    }

    lemma NothingAscending()
      ensures Ascending({}) == []
    {
    }

    /** Sort the outgoing edges of each entry and make them unique. */
    method CleanConstraintGraph()
      requires Valid()
      modifies this`entryConstraintGraph
      ensures Valid() && |entryConstraintGraph| == |old(entryConstraintGraph)|
      ensures forall a: nat :: a < |entryList| ==> Rising(entryConstraintGraph[a])
      ensures forall a: nat :: a < |entryList| ==> forall e :: e in entryConstraintGraph[a] ==>
        e in old(entryConstraintGraph)[a]
      ensures forall a: nat, v: nat :: a < |entryList| ==>
        (LeadsTo(entryConstraintGraph[a], v) <==> LeadsTo(old(entryConstraintGraph)[a], v))
    {
      hide SetsMatchLists, Rising, LeadsTo;
      for i := 0 to |entryConstraintGraph|
        invariant Valid() && |entryConstraintGraph| == |old(entryConstraintGraph)|
        invariant forall a: nat :: i <= a < |entryList| ==> entryConstraintGraph[a] == old(entryConstraintGraph)[a]
        invariant forall a: nat :: a < i ==> Rising(entryConstraintGraph[a])
        invariant forall a: nat :: a < i ==> forall e :: e in entryConstraintGraph[a] ==>
          e in old(entryConstraintGraph)[a]
        invariant forall a: nat, v: nat :: a < i ==>
          (LeadsTo(entryConstraintGraph[a], v) <==> LeadsTo(old(entryConstraintGraph)[a], v))
      {
        CleanedEdges(entryConstraintGraph[i]);
        var edges := UniqueEdges(SortEdges(entryConstraintGraph[i]));
        assert forall k :: 0 <= k < |edges| ==> edges[k] in entryConstraintGraph[i];
        entryConstraintGraph := entryConstraintGraph[i := edges];
      }
    }

    // ----- ordering

    /** Every component lists entries of this computation. */
    ghost predicate EntriesInComponents()
      reads this`ccg, ccg, this`entryList
    {
      ccg != null && forall c, k :: 0 <= c < |ccg.components| && 0 <= k < |ccg.components[c]| ==>
        ccg.components[c][k] < |entryList|
    }

    /** What the emission looks up. */
    ghost function Plan(): Layout
      requires EntriesInComponents()
      reads this`ccg, ccg, this`entryList, this`componentOrder
    {
      Layout(ccg.tarjanComponents, ccg.components, ccg.componentGraph, componentOrder,
        NeededCounts(entryList, ccg.components))
    }

    ghost predicate Planned()
      reads this`ccg, ccg, this`entryList, this`componentOrder
    {
      EntriesInComponents() && Plan().Valid()
    }

    /** Visit a component after the ones its edges lead to, and give it the next
        index from the end. */
    method VisitComponent(c: nat, ghost active: set<nat>, ghost finished: seq<nat>)
      requires ccg != null && Falls(ccg.componentGraph) && Finished(ccg.componentGraph, finished)
      requires c < |ccg.componentGraph|
      requires Numbering(|ccg.componentGraph|, componentVisited, componentOrder, componentOrderId, active, finished)
      requires forall a :: a in active ==> c < a
      modifies this`componentVisited, this`componentOrder, this`componentOrderId
      ensures Numbering(|ccg.componentGraph|, componentVisited, componentOrder, componentOrderId, active,
        PostOrder(ccg.componentGraph, finished, c))
      decreases c
    {
      hide PostOrder, PostOrderEach, Finished, Grown, Falls;
      ghost var g := ccg.componentGraph;
      PostOrderUnfolds(g, finished, c);
      if componentVisited[c] {
        return;
      }

      componentVisited := componentVisited[c := true];

      // PostOrderEach takes the edges from the last to the first.
      var nl := ccg.componentGraph[c];
      ghost var done := finished;
      for k := |nl| downto 0
        invariant Numbering(|g|, componentVisited, componentOrder, componentOrderId, active + {c}, done)
        invariant Finished(g, done) && c !in done
        invariant PostOrderEach(g, finished, c, |nl|) == PostOrderEach(g, done, c, k)
      {
        PostOrderEachUnfolds(g, done, c, k + 1);
        PostOrderGrowsBelow(g, done, nl[k].dest, c);
        VisitComponent(nl[k].dest, active + {c}, done);
        done := PostOrder(g, done, nl[k].dest);
      }
      PostOrderEachUnfolds(g, done, c, 0);

      // Ids are handed out downwards, one for each finished component.
      NumberingRoom(g, done, c);
      componentOrderId := componentOrderId - 1;
      componentOrder := componentOrder[c := componentOrderId];
    }

    /** The number of times a component of several entries has to be seen. */
    method ComputeComponentCount(nl: seq<nat>) returns (count: nat)
      requires forall k :: 0 <= k < |nl| ==> nl[k] < |entryList|
      ensures count == NeededCount(entryList, nl)
    {
      count := 2;
      for i := 0 to |nl|
        invariant count == NeededCount(entryList, nl[..i])
      {
        assert nl[..i + 1][..i] == nl[..i];
        var target := entryList[nl[i]].target;
        if target.Some? {
          var multiplicity := target.value.multiplicity;
          if multiplicity.Some? && multiplicity.value > count {
            count := multiplicity.value;
          }
        }
      }
      assert nl[..|nl|] == nl;
    }

    method MakePendingComponent(component: nat)
      requires Planned() && component < |ccg.components|
      modifies this`pendingComponents
      ensures pendingComponents == MakePending(Plan(), old(pendingComponents), component)
    {
      // Keys are positions in the order, so the least key comes first.
      var key := componentOrder[component];
      var pc := if key in pendingComponents then pendingComponents[key] else PendingComponent(component, 0, {});
      pc := pc.(id := component);
      var nl := ccg.components[component];

      if |nl| == 1 {
        pc := pc.(count := 1);
      } else {
        var count := ComputeComponentCount(nl);
        pc := pc.(count := count);
      }

      pc := pc.(entries := pc.entries + set v | v in nl);
      pendingComponents := pendingComponents[key := pc];
    }

    ghost function State(): Emission
      reads this`finalLinkOrder, this`pendingComponents
    {
      Emission(finalLinkOrder, pendingComponents)
    }

    /** What seeing an entry does to its own component. */
    method UpdateComponent(index: nat) returns (completed: bool)
      requires Planned() && PendingsOk(Plan(), pendingComponents) && index < |ccg.tarjanComponents|
      modifies this`pendingComponents
      ensures (pendingComponents, completed) == SeeEntry(Plan(), old(pendingComponents), index)
    {
      hide PendingOk, PendingsOk;
      ghost var x, p := Plan(), pendingComponents;
      completed := false;
      var component := ccg.tarjanComponents[index];
      var key := componentOrder[component];
      var nl := ccg.components[component];
      if key in pendingComponents {
        var pc := pendingComponents[key];

        pc := pc.(entries := pc.entries - {index});
        if pc.entries == {} {
          // A stretch with every member ends here.
          pc := pc.(count := pc.count - 1);

          if pc.count == 0 {
            pendingComponents := pendingComponents - {key};
            completed := true;
          } else {
            // A count above one belongs to several members.
            assert |nl| > 1 by { OnlyLargeRepeat(x, p, component); }
            pendingComponents := pendingComponents[key := pc.(entries := set v | v in nl)];
          }
        } else {
          pendingComponents := pendingComponents[key := pc];
        }
      } else {
        if |nl| > 1 {
          // Its first stretch begins with this entry.
          MakePendingComponent(component);
          var left := pendingComponents[key].entries - {index};
          pendingComponents := pendingComponents[key := pendingComponents[key].(entries := left)];
        } else {
          completed := true;
        }
      }
    }

    /** Emit one entry and update the pending components. */
    method VisitEntry(index: nat)
      requires Planned() && PendingsOk(Plan(), pendingComponents) && index < |ccg.tarjanComponents|
      modifies this`finalLinkOrder, this`pendingComponents
      ensures State() == LinkOrder.VisitEntry(Plan(), old(State()), index)
      ensures PendingsOk(Plan(), pendingComponents)
    {
      hide PendingOk, PendingsOk, MakeEachPending, SeeEntry;
      ghost var x, p := Plan(), pendingComponents;
      VisitKeepsPending(x, old(State()), index, 0);

      finalLinkOrder := finalLinkOrder + [index];

      var completed := UpdateComponent(index);

      if completed {
        var ol := ccg.componentGraph[ccg.tarjanComponents[index]];
        ghost var q := pendingComponents;
        assert ol[..0] == [];
        NoneEachPending(x, q);
        for k := 0 to |ol|
          invariant finalLinkOrder == old(finalLinkOrder) + [index]
          invariant pendingComponents == MakeEachPending(x, q, ol[..k])
        {
          assert ol[..k + 1][..k] == ol[..k];
          // MakePending starts over even when a stretch was under way.
          MakePendingComponent(ol[k].dest);
          EachPendingUnfolds(x, q, ol[..k + 1]);
        }
        assert ol[..|ol|] == ol;
      }
    }

    /** The entries are grouped into components, and these numbered. */
    method NumberComponents()
      requires Valid() && componentVisited == [] && componentOrder == []
      modifies this`ccg, this`componentVisited, this`componentOrder, this`componentOrderId
      ensures Planned() && fresh(ccg) && LayoutOf(entryConstraintGraph, Plan())
      ensures NumberedDepthFirst(ccg.componentGraph, componentOrder)
      ensures KeepsGivenOrder(entryConstraintGraph, Plan())
    {
      hide SetsMatchLists, IsCondensation, Falls, PostOrder, PostOrderFrom, Finished, Numbering, IsTopological,
        Layout.Valid, InDiscoveryOrder, KeepsGivenOrder, NumberedDepthFirst;
      ccg := new ComputeComponentGraph(entryConstraintGraph);
      ccg.Compute();
      CondensationFalls(entryConstraintGraph, ccg.tarjanComponents, ccg.components, ccg.componentGraph);

      // Nothing is finished yet.
      ghost var g := ccg.componentGraph;
      var n := |ccg.componentGraph|;
      componentVisited := seq(n, _ => false);
      componentOrder := seq(n, _ => n);
      componentOrderId := n;
      NothingNumbered(g, componentVisited, componentOrder, componentOrderId);
      // PostOrderFrom also begins with the last vertex.
      for c := n downto 0
        modifies this`componentVisited, this`componentOrder, this`componentOrderId
        invariant Numbering(n, componentVisited, componentOrder, componentOrderId, {}, PostOrderFrom(g, c))
        invariant Finished(g, PostOrderFrom(g, c))
      {
        VisitComponent(c, {}, PostOrderFrom(g, c + 1));
        PostOrderFromUnfolds(g, c);
      }
      LayoutFits(entryConstraintGraph, ccg.tarjanComponents, ccg.components, g, componentVisited, componentOrder,
        componentOrderId, entryList);
      GivenOrderKept(entryConstraintGraph, Plan());
    }

    /** Visit the original entries, then drain. */
    method OrderLinkEntries()
      requires Valid() && componentVisited == [] && componentOrder == [] && finalLinkOrder == []
      requires pendingComponents == map[]
      modifies this`ccg, this`componentVisited, this`componentOrder, this`componentOrderId, this`finalLinkOrder,
               this`pendingComponents
      ensures Planned() && LayoutOf(entryConstraintGraph, Plan())
      ensures NumberedDepthFirst(ccg.componentGraph, componentOrder)
      ensures KeepsGivenOrder(entryConstraintGraph, Plan())
      ensures EntriesOk(Plan(), originalEntries) && State() == Emit(Plan(), originalEntries)
    {
      hide SetsMatchLists, IsCondensation, PostOrderFrom, PendingOk, Emitting, PendingsOk, LinkOrder.VisitEntry,
        Layout.Valid, KeepsGivenOrder, NumberedDepthFirst;
      NumberComponents();
      ghost var x := Plan();
      assert EntriesOk(x, originalEntries) by { OriginalsFit(); }

      assert originalEntries[..0] == [];
      NoneVisited(x);
      for i := 0 to |originalEntries|
        modifies this`finalLinkOrder, this`pendingComponents
        invariant State() == VisitEach(x, Emission([], map[]), originalEntries[..i])
        invariant PendingsOk(x, pendingComponents)
      {
        assert originalEntries[..i + 1][..i] == originalEntries[..i];
        VisitEntry(originalEntries[i]);
        VisitEachUnfolds(x, originalEntries[..i + 1]);
      }
      assert originalEntries[..|originalEntries|] == originalEntries;

      while pendingComponents != map[]
        modifies this`finalLinkOrder, this`pendingComponents
        invariant PendingsOk(x, pendingComponents)
        invariant Drain(x, State()) == Drain(x, VisitEach(x, Emission([], map[]), originalEntries))
        decreases |x.components| - LowKey(x, pendingComponents), VisitsOwed(x, pendingComponents)
      {
        // The least key is LowKey, so this entry is NextEntry.
        VisitProgresses(x, State());
        LowKeyInRange(x, pendingComponents);
        DrainUnfolds(x, State());
        var first := pendingComponents[Least(pendingComponents.Keys)];
        assert first.entries != {} && Least(first.entries) == NextEntry(x, pendingComponents);
        VisitEntry(Least(first.entries));
      }
      DrainUnfolds(x, State());
    }

    lemma OriginalsFit()
      requires Valid() && Planned() && LayoutOf(entryConstraintGraph, Plan())
      ensures EntriesOk(Plan(), originalEntries)
    {
    }

    /** Objects in front, then the line as KeepLast leaves it. */
    method CollectFinalEntries()
      requires finalLinkEntries == []
      requires forall i :: 0 <= i < |finalLinkOrder| ==> finalLinkOrder[i] < |entryList|
      requires forall i :: 0 <= i < |objectEntries| ==> objectEntries[i] < |entryList|
      modifies this`finalLinkEntries
      ensures Listed(finalLinkEntries, entryList, objectEntries + KeepLast(finalLinkOrder, SharedEntries(entryList)))
    {
      hide KeepLast, ListedReversed, Reversed, Listed;
      ghost var shared := SharedEntries(entryList);
      KeepLastNothing(entryList, shared);
      // Backwards, the first occurrence met is the last one.
      var emitted: set<nat> := {};
      assert finalLinkOrder[|finalLinkOrder|..] == [];
      ghost var kept: seq<nat> := [];
      for p := |finalLinkOrder| downto 0
        invariant kept == KeepLast(finalLinkOrder[p..], shared)
        invariant emitted == set i | i in finalLinkOrder[p..] && i in shared
        invariant ListedReversed(finalLinkEntries, entryList, kept)
      {
        var i := finalLinkOrder[p];
        var e := entryList[i];
        KeepLastUnfolds(finalLinkOrder, p, shared);
        OneMoreListed(finalLinkEntries, entryList, kept, i);
        var uniquify := e.target.Some? && e.target.value.kind == SharedLibrary;
        if !uniquify || i !in emitted {
          finalLinkEntries := finalLinkEntries + [e];
          kept := [i] + kept;
        }
        if uniquify {
          emitted := emitted + {i};
        }
      }
      assert finalLinkOrder[0..] == finalLinkOrder;

      // Still backwards: the objects come last here.
      ghost var line := kept;
      assert objectEntries[|objectEntries|..] + line == line;
      for p := |objectEntries| downto 0
        invariant kept == objectEntries[p..] + line
        invariant ListedReversed(finalLinkEntries, entryList, kept)
      {
        OneMoreListed(finalLinkEntries, entryList, kept, objectEntries[p]);
        finalLinkEntries := finalLinkEntries + [entryList[objectEntries[p]]];
        kept := [objectEntries[p]] + kept;
      }

      ReversedListed(finalLinkEntries, entryList, kept);
      finalLinkEntries := Reversed(finalLinkEntries);
    }

    /** Constrain the order by what is inferred, with one edge for each destination. */
    method InferAndClean()
      requires Valid()
      modifies this`entryConstraintGraph
      ensures Valid() && |entryConstraintGraph| == |old(entryConstraintGraph)| == |entryList|
      ensures forall a: nat, v: nat :: a < |entryList| ==>
        (LeadsTo(entryConstraintGraph[a], v) <==> LeadsTo(old(entryConstraintGraph)[a], v) || v in InferredFrom(a))
    {
      hide SetsMatchLists, LeadsTo, InferredFrom, EdgesTo, Ascending, Rising, WellFormed;
      InferDependencies();
      ghost var inferred := entryConstraintGraph;

      CleanConstraintGraph();
      forall a: nat, v: nat | a < |entryList|
        ensures LeadsTo(inferred[a], v) <==> LeadsTo(old(entryConstraintGraph)[a], v) || v in InferredFrom(a)
      {
        LeadsToInferred(old(entryConstraintGraph)[a], InferredFrom(a), v);
      }
    }

    /** Everything after the dependency lists have been read: infer, order, filter. */
    method Finish()
      requires Valid() && componentVisited == [] && componentOrder == []
      requires finalLinkOrder == [] && pendingComponents == map[] && finalLinkEntries == []
      modifies this`entryConstraintGraph, this`ccg, this`componentVisited, this`componentOrder, this`componentOrderId,
               this`finalLinkOrder, this`pendingComponents, this`finalLinkEntries
      ensures Valid() && |entryConstraintGraph| == |old(entryConstraintGraph)| == |entryList|
      ensures forall a: nat, v: nat :: a < |entryList| ==>
        (LeadsTo(entryConstraintGraph[a], v) <==> LeadsTo(old(entryConstraintGraph)[a], v) || v in InferredFrom(a))
      ensures Planned() && LayoutOf(entryConstraintGraph, Plan())
      ensures NumberedDepthFirst(ccg.componentGraph, componentOrder)
      ensures KeepsGivenOrder(entryConstraintGraph, Plan())
      ensures EntriesOk(Plan(), originalEntries) && State() == Emit(Plan(), originalEntries)
      ensures pendingComponents == map[]
      ensures LineOk(entryConstraintGraph, Plan(), originalEntries, finalLinkOrder, SharedEntries(entryList))
      ensures Listed(finalLinkEntries, entryList, objectEntries + KeepLast(finalLinkOrder, SharedEntries(entryList)))
      ensures SharedOnce(entryList, finalLinkOrder, KeepLast(finalLinkOrder, SharedEntries(entryList)))
    {
      hide SetsMatchLists, IsCondensation, PostOrderFrom, Layout.Valid, LeadsTo, Emit, KeepLast, InferredFrom, Listed,
        WellFormed, LayoutOf, NumberedDepthFirst, LineOk, KeepsGivenOrder, SharedOnce;
      InferAndClean();
      OrderLinkEntries();
      ghost var x := Plan();
      EmittedIsOk(entryConstraintGraph, x, originalEntries, SharedEntries(entryList));
      LineFits(entryConstraintGraph, x, originalEntries, finalLinkOrder, SharedEntries(entryList));
      CollectFinalEntries();
      SharedKeptOnce(entryList, finalLinkOrder);
    }
  }

  /** A shared library that is in the line is kept once, and everything else as often as
      it is there. */
  ghost predicate SharedOnce(entries: seq<LinkEntry>, line: seq<nat>, kept: seq<nat>) {
    forall v: nat :: v < |entries| ==>
      Count(kept, v) ==
        if entries[v].target.Some? && entries[v].target.value.kind == SharedLibrary && v in line then 1
        else Count(line, v)
  }

  lemma SharedKeptOnce(entries: seq<LinkEntry>, line: seq<nat>)
    ensures SharedOnce(entries, line, KeepLast(line, SharedEntries(entries)))
  {
    hide KeepLast, Count;
    forall v: nat | v < |entries|
      ensures Count(KeepLast(line, SharedEntries(entries)), v) ==
        if entries[v].target.Some? && entries[v].target.value.kind == SharedLibrary && v in line then 1
        else Count(line, v)
    {
      KeepLastCounts(line, SharedEntries(entries), v);
    }
  }

  /** The line names entries only. */
  lemma LineFits(g: Graph, x: Layout, originals: seq<nat>, line: seq<nat>, shared: set<nat>)
    requires LineOk(g, x, originals, line, shared)
    ensures forall i :: 0 <= i < |line| ==> line[i] < |g|
  {
  }

  /** Vertex depender has gained weak edges to the entries of a list; vertices may
      have been added; nothing else has changed. */
  ghost predicate GraphGrown(before: Graph, after: Graph, depender: int, list: seq<nat>) {
    && |before| <= |after|
    && forall a: nat :: a < |after| ==>
         after[a] == (if a < |before| then before[a] else []) + (if a == depender then EdgesTo(list, false) else [])
  }

  lemma GrownByNothing(g: Graph, depender: int)
    ensures GraphGrown(g, g, depender, [])
  {
    assert EdgesTo([], false) == [];
  }

  lemma GrownTwice(g: Graph, h: Graph, i: Graph, depender: int, list: seq<nat>, more: seq<nat>)
    requires GraphGrown(g, h, depender, list) && GraphGrown(h, i, depender, more) && depender < |g|
    ensures GraphGrown(g, i, depender, list + more)
  {
    assert EdgesTo(list + more, false) == EdgesTo(list, false) + EdgesTo(more, false);
    forall a: nat | a < |i|
      ensures i[a] == (if a < |g| then g[a] else []) + (if a == depender then EdgesTo(list + more, false) else [])
    {
      if a < |h| {
        assert h[a] == (if a < |g| then g[a] else []) + (if a == depender then EdgesTo(list, false) else []);
      }
    }
  }

  /** The numbering is the depth-first one, backwards. */
  /** The numbering of components follows the order in which entries and constraints were
      given, where no constraint disallows it. */
  ghost predicate KeepsGivenOrder(g: Graph, x: Layout) {
    && InDiscoveryOrder(g, x.componentOf) && SuccessorsInOrder(x.graph, x.order)
    && EntriesInOrder(g, x.componentOf, x.order)
  }

  lemma GivenOrderKept(g: Graph, x: Layout)
    requires LayoutOf(g, x) && InDiscoveryOrder(g, x.componentOf) && NumberedDepthFirst(x.graph, x.order)
    ensures KeepsGivenOrder(g, x)
  {
    hide InDiscoveryOrder, PostOrderFrom, IsCondensation, EntriesInOrder, SuccessorsInOrder;
    BackwardsKeepsEdges(x.graph, x.order);
    EntriesKeepOrder(g, x.componentOf, x.components, x.graph, x.order);
  }

  ghost predicate NumberedDepthFirst(g: Graph, order: seq<int>) {
    Falls(g) && NumbersBackwards(|g|, PostOrderFrom(g, 0), order)
  }

  /** The visit order so far, as the three fields record it. */
  ghost predicate Numbering(n: nat, visited: seq<bool>, order: seq<int>, id: int, active: set<nat>,
      finished: seq<nat>) {
    && |visited| == n
    && NumbersBackwards(n, finished, order)
    && id == n - |finished|
    && forall v: nat :: v < n ==> (visited[v] <==> v in finished || v in active)
  }

  lemma PostOrderUnfolds(g: Graph, done: seq<nat>, c: nat)
    requires Falls(g) && c < |g|
    ensures PostOrder(g, done, c) == if c in done then done else PostOrderEach(g, done, c, |g[c]|) + [c]
  {
  }

  lemma PostOrderEachUnfolds(g: Graph, done: seq<nat>, c: nat, k: nat)
    requires Falls(g) && c < |g| && k <= |g[c]|
    ensures PostOrderEach(g, done, c, k) ==
      if k == 0 then done
      else (assert g[c][k - 1].dest < c; PostOrderEach(g, PostOrder(g, done, g[c][k - 1].dest), c, k - 1))
    ensures k > 0 ==> g[c][k - 1].dest < c
  {
  }

  lemma PostOrderGrowsBelow(g: Graph, done: seq<nat>, d: nat, c: nat)
    requires Falls(g) && d < c < |g| && Finished(g, done) && c !in done
    ensures Finished(g, PostOrder(g, done, d)) && c !in PostOrder(g, done, d)
  {
    PostOrderGrows(g, done, d);
    var out := PostOrder(g, done, d);
    forall a | 0 <= a < |done|
      ensures out[a] != c
    {
      assert out[a] == done[a];
    }
  }

  /** There is an index left for a vertex not yet finished. */
  lemma NumberingRoom(g: Graph, done: seq<nat>, c: nat)
    requires Finished(g, done) && c < |g| && c !in done
    ensures |done| < |g|
  {
    forall a | 0 <= a < |done|
      ensures done[a] != c
    {
    }
    DistinctFits(|g|, done + [c]);
  }

  lemma EachPendingUnfolds(x: Layout, p: Pendings, es: seq<Edge>)
    requires x.Valid() && es != [] && forall i :: 0 <= i < |es| ==> es[i].dest < |x.components|
    ensures MakeEachPending(x, p, es) == MakePending(x, MakeEachPending(x, p, es[..|es| - 1]), es[|es| - 1].dest)
  {
  }

  lemma NoneEachPending(x: Layout, p: Pendings)
    requires x.Valid()
    ensures MakeEachPending(x, p, []) == p
  {
  }

  /** A component that must be seen more than once has more than one member. */
  lemma OnlyLargeRepeat(x: Layout, p: Pendings, c: nat)
    requires x.Valid() && PendingsOk(x, p) && c < |x.components| && x.order[c] in p && p[x.order[c]].count != 1
    ensures |x.components[c]| > 1
  {
    assert PendingOk(x, x.order[c], p[x.order[c]]);
    SameIndex(x, c, p[x.order[c]].id);
  }

  lemma NoneVisited(x: Layout)
    requires x.Valid()
    ensures VisitEach(x, Emission([], map[]), []) == Emission([], map[]) && PendingsOk(x, map[])
  {
  }

  lemma VisitEachUnfolds(x: Layout, es: seq<nat>)
    requires x.Valid() && es != [] && EntriesOk(x, es)
    ensures VisitEach(x, Emission([], map[]), es) ==
      LinkOrder.VisitEntry(x, VisitEach(x, Emission([], map[]), es[..|es| - 1]), es[|es| - 1])
  {
  }

  lemma DrainUnfolds(x: Layout, s: Emission)
    requires x.Valid() && PendingsOk(x, s.pending)
    ensures s.pending == map[] ==> Drain(x, s) == s
    ensures s.pending != map[] ==>
      var t := LinkOrder.VisitEntry(x, s, NextEntry(x, s.pending));
      PendingsOk(x, t.pending) && Drain(x, s) == Drain(x, t)
  {
    if s.pending != map[] { VisitProgresses(x, s); }
  }

  lemma CondensationFalls(g: Graph, componentOf: seq<int>, components: seq<seq<nat>>, cg: Graph)
    requires IsCondensation(g, componentOf, components, cg)
    ensures Falls(cg) && |cg| == |components| && WellFormed(cg)
  {
    hide IsCondensation;
    ComponentGraphIsAcyclic(g, componentOf, components, cg);
    forall c: nat, k: nat | c < |cg| && k < |cg[c]|
      ensures cg[c][k].dest < c
    {
      assert HasEdge(cg, c, cg[c][k].dest);
      ComponentEdge(g, componentOf, components, cg, c, cg[c][k].dest);
    }
  }

  lemma NothingNumbered(g: Graph, visited: seq<bool>, order: seq<int>, id: int)
    requires Falls(g) && |visited| == |order| == |g| == id && forall v :: 0 <= v < |g| ==> !visited[v]
    ensures Numbering(|g|, visited, order, id, {}, PostOrderFrom(g, |g|)) && Finished(g, PostOrderFrom(g, |g|))
  {
  }

  lemma PostOrderFromUnfolds(g: Graph, c: nat)
    requires Falls(g) && c < |g|
    ensures PostOrderFrom(g, c) == PostOrder(g, PostOrderFrom(g, c + 1), c) && Finished(g, PostOrderFrom(g, c))
  {
    PostOrderFromCovers(g, c);
  }

  lemma PartitionRange(n: nat, componentOf: seq<int>, components: seq<seq<nat>>, c: nat, k: nat)
    requires Partition(n, componentOf, components) && c < |components| && k < |components[c]|
    ensures components[c][k] < n && componentOf[components[c][k]] == c
  {
    var v := components[c][k];
    assert v in components[c];
  }

  lemma LayoutFits(g: Graph, componentOf: seq<int>, components: seq<seq<nat>>, cg: Graph, visited: seq<bool>,
      order: seq<int>, id: int, entries: seq<LinkEntry>)
    requires IsCondensation(g, componentOf, components, cg) && Falls(cg) && |g| == |entries| && |cg| == |components|
    requires Numbering(|cg|, visited, order, id, {}, PostOrderFrom(cg, 0))
    ensures forall c, k :: 0 <= c < |components| && 0 <= k < |components[c]| ==> components[c][k] < |entries|
    ensures NumberedDepthFirst(cg, order)
    ensures LayoutOf(g, Layout(componentOf, components, cg, order, NeededCounts(entries, components)))
  {
    hide Falls, PostOrderFrom, StronglyConnected, ReverseTopological;
    BackwardsIsTopological(cg, order);
    ComponentGraphIsAcyclic(g, componentOf, components, cg);
    forall c: nat, k: nat | c < |components| && k < |components[c]|
      ensures components[c][k] < |entries|
    {
      PartitionRange(|g|, componentOf, components, c, k);
    }
    forall c: nat | c < |components|
      ensures |components[c]| != 1 ==> 2 <= NeededCount(entries, components[c])
    {
      NeededCountIsMaximum(entries, components[c]);
    }
  }

  lemma LayoutSize(g: Graph, x: Layout)
    requires LayoutOf(g, x)
    ensures |x.componentOf| == |g|
  {
  }

  lemma LeadsToInferred(es: seq<Edge>, inferred: set<nat>, v: nat)
    ensures LeadsTo(es + EdgesTo(Ascending(inferred), true), v) <==> LeadsTo(es, v) || v in inferred
  {
    var dests := Ascending(inferred);
    var more := EdgesTo(dests, true);
    if LeadsTo(es + more, v) {
      var k :| 0 <= k < |es + more| && (es + more)[k].dest == v;
      if k >= |es| { assert more[k - |es|].dest == v && dests[k - |es|] in dests; }
    }
    if LeadsTo(es, v) {
      var k :| 0 <= k < |es| && es[k].dest == v;
      assert (es + more)[k].dest == v;
    }
    if v in inferred {
      var k :| 0 <= k < |dests| && dests[k] == v;
      assert (es + more)[|es| + k].dest == v;
    }
  }

  /** The entries at some indices, in order. */
  ghost predicate Listed(out: seq<LinkEntry>, entries: seq<LinkEntry>, indices: seq<nat>) {
    |out| == |indices| && forall k :: 0 <= k < |indices| ==> indices[k] < |entries| && out[k] == entries[indices[k]]
  }

  ghost predicate ListedReversed(out: seq<LinkEntry>, entries: seq<LinkEntry>, indices: seq<nat>) {
    |out| == |indices| && forall k :: 0 <= k < |indices| ==>
      indices[k] < |entries| && out[|out| - 1 - k] == entries[indices[k]]
  }

  function Reversed(s: seq<LinkEntry>): seq<LinkEntry> {
    seq(|s|, k requires 0 <= k < |s| => s[|s| - 1 - k])
  }

  lemma OneMoreListed(out: seq<LinkEntry>, entries: seq<LinkEntry>, indices: seq<nat>, i: nat)
    requires ListedReversed(out, entries, indices) && i < |entries|
    ensures ListedReversed(out + [entries[i]], entries, [i] + indices)
  {
  }

  lemma ReversedListed(out: seq<LinkEntry>, entries: seq<LinkEntry>, indices: seq<nat>)
    requires ListedReversed(out, entries, indices)
    ensures Listed(Reversed(out), entries, indices)
  {
  }

  lemma KeepLastNothing(entries: seq<LinkEntry>, shared: set<nat>)
    ensures KeepLast([], shared) == [] && ListedReversed([], entries, [])
  {
  }

  lemma KeepLastUnfolds(line: seq<nat>, p: nat, shared: set<nat>)
    requires p < |line|
    ensures KeepLast(line[p..], shared) ==
      if line[p] in shared && line[p] in line[p + 1..] then KeepLast(line[p + 1..], shared)
      else [line[p]] + KeepLast(line[p + 1..], shared)
  {
    assert line[p..][1..] == line[p + 1..];
  }
}
