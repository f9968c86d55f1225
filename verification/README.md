# CMake dependency order, presets and small encodings in Dafny

A model of parts of CMake 3.22.1 with proofs of what they guarantee. Classes of the
original are classes here, with the same fields; each method is specified by a function
or relation on values, and the guarantees are proved about those.

## What is modelled

**Component graphs** (`Graphs`, `TarjanWalk`, `DiscoveryOrder`, `TarjanSteps`,
`Condensation`, `ComponentGraph`). `cmComputeComponentGraph` divides a graph into
components by a variant of Tarjan's algorithm with walk ids and roots, and builds the
graph between them. `Compute` is proved to find exactly the components, numbered against
the edges and otherwise in the order of discovery, for every well-formed graph.

**Link order** (`TopologicalOrder`, `SuccessorOrder`, `LinkOrder`, `LinkRounds`,
`LinkBlocks`, `LinkLine`, `LinkStretches`, `LinkInference`, `LinkDepends`, `LinkItems`).
`cmComputeLinkDepends` infers dependencies of unknown items, numbers the components of
the constraint graph, emits the original line and then whatever is still pending, and
keeps shared libraries once. `LinkOrder` is the emission as a state machine; its main
result is that the machine ends and that every dependency between components is
satisfied wherever an item appears, which `LinkLine` carries over to items and through
the removal of duplicates; `LinkStretches` does the same for whole repetitions of
components. `LinkRounds` and `LinkBlocks` give the line itself: behind the original
entries it comes in blocks, one component after the other, of what exactly is left over.
Here the original comment promises that non-trivial components are seen twice; the code,
and the model, see them max(2, multiplicity) times.

**Target order** (`SideEffects`, `SideEffectCollection`, `SideEffectOrder`,
`IntraComponent`, `FinalDepends`, `ChainOrder`, `BuildOrder`, `CustomCommands`,
`TargetDepends`). `cmComputeTargetDepends` reduces link dependencies to those with side
effects, puts each component into a chain and connects the chains. Success is proved to
give an acyclic order that honours every strong dependency and keeps reachability, and
on cycles follows the walks (`ChainOrder`); it comes exactly for the graphs that are
`Accepted`, among them every acyclic one whose side effects are at home. The walk
through a component never takes back what it has visited, so some components without a
strong cycle are rejected; the exact condition under which components can be put into
chains is `ChainsPossible`, and `DiamondIsRejected` is a graph that shows the
difference. Side effects are recorded once for each target. On a cycle a target may be
finished before those it depends on, and then misses effects: `EffectLost` is such a
graph. What is recorded is known exactly: the depth-first search fixes an order in which
the record of the end of each edge is merged into that of its beginning, and an effect
arrives by the walks along which the edges are merged later and later (`Handed`). A
record is complete exactly when every effect reached is handed on; it is for targets
whose cycles no earlier target gets to (`Undisturbed`). A lost effect can cost a
dependency: `CommandLost` is a graph on which an optimized library no longer depends on
a custom command it needs, and `CommandsKeptExactly` says when that cannot happen.

**Presets** (`PresetInheritance`, `PresetText`, `PathNames`, `PresetPredefined`,
`PresetReferences`, `PresetConditions`, `PresetMacros`). `VisitPreset` takes its map of
statuses by value, so presets are visited again and again. Success comes exactly for
files without faults, the fields being judged by the values a preset resolves to. Values
are proved not to suffer. Conditions do: a null condition is dropped at the end of a
visit, and a second visit then inherits the condition it was to suppress. Final
conditions are as meant exactly when there is no preset with a null condition of its
own, a child, and a parent that is meant to have a condition; `NullConditionLost` is a
file with such a preset. Macro expansion is proved against a grammar of texts and a
meaning of macros. A macro of the vendor namespace is documented to make a preset be
ignored. Met through a reference it is an error instead, as `VendorByReference` shows.
The exact condition is `VendorFirst`: take the first variable of the order that reaches
a cycle, a faulty text or a vendor's; the preset is ignored when the first piece that
stops in that variable's own text is a vendor macro. Conditions are modelled with all
their operators; searching for a regular expression is a parameter.

**Small parts** (`Algorithms`, `Numerals`, `Base32`, `CacheHelp`). Removing elements at
given indices by rotations; base 32 as section 6 of RFC 4648 defines it, with a decoder;
and the help text of cache entries, written and read back. A help text that begins with
a newline is written twice, because an unsigned difference wraps around, and one that
begins with a backslash and `n` is read as a newline; `HelpRoundTrip` says exactly which
texts survive.

`Wrappers`, `TargetTypes`, `CycleStatuses` and `Sorting` hold shared declarations.

## Conventions

- An edge is a record of destination, strong flag, cross flag and backtrace. Graphs handed
  to the algorithms are well formed: destinations are vertices.
- Numbers are unbounded. The unsigned difference in the help-text writer is modelled where
  it wraps; vertex numbers and multiplicities are taken to fit the original's integers.
- Ordered sets are iterated in ascending order of their elements; the order of a map that
  the results do not depend on is a parameter.
- Arguments marked ghost, and functions such as `State` and `Plan`, are only there for the
  proofs.

## Model

| member | source | states |
|---|---|---|
| ComponentGraph.ComputeComponentGraph.Compute | cmake-3.22.1/Source/cmComputeComponentGraph.cxx:15-24 | For every graph: the components partition the vertices into sorted non-empty lists, two vertices share one exactly when each reaches the other, edges between components lead to lower numbers, the component graph has exactly the images of the inter-component edges, and components that no edge relates are numbered in the order of discovery |
| ComponentGraph.ComputeComponentGraph.Tarjan | cmake-3.22.1/Source/cmComputeComponentGraph.cxx:26-46 | The walks from all vertices, with per-walk ids, leave a partition that agrees with the component map, is strongly connected in both directions, and is numbered against the edges; of two vertices the lower has the lower number unless something up to it leads to the other; and of two edges of one vertex the end of the earlier has the lower number unless it leads back, or the end of the later is found before |
| ComponentGraph.ComputeComponentGraph.TarjanVisit | cmake-3.22.1/Source/cmComputeComponentGraph.cxx:48-113 | One visit keeps the lowlink invariant: every unvisited vertex it can reach is visited, the stack stays in index order, a vertex still on the stack leads back to an active one, and nothing settled changes; new vertices are reached by way of new ones only, and follow the edges in their order; it ends because unvisited vertices run out |
| ComponentGraph.ComputeComponentGraph.PopComponent | cmake-3.22.1/Source/cmComputeComponentGraph.cxx:91-112 | Popping down to the root removes exactly the stack from the root up and gives it one component number |
| ComponentGraph.ComputeComponentGraph.TransferEdges | cmake-3.22.1/Source/cmComputeComponentGraph.cxx:115-134 | The component graph becomes, in order and with multiplicity, the images of the edges that leave each component |
| ComponentGraph.WalksFindComponents | cmake-3.22.1/Source/cmComputeComponentGraph.cxx:26-113 | The invariant between walks, once no vertex is unvisited, gives partition, mutual reachability if and only if same component, and reverse topological numbers |
| DiscoveryOrder.TrackEdge | cmake-3.22.1/Source/cmComputeComponentGraph.cxx:64-86 | When edge k of a vertex has been followed, its end has a component if it does not lead back, and what only later edges lead to has not been visited |
| DiscoveryOrder.TrackVisit | cmake-3.22.1/Source/cmComputeComponentGraph.cxx:64-86 | The recursive visit of the end of an edge keeps the order of all edges followed so far, at any depth |
| DiscoveryOrder.WalkOver | cmake-3.22.1/Source/cmComputeComponentGraph.cxx:36-46 | A walk from the next vertex keeps the order of discovery: nothing that it visits had been found from lower vertices |
| Condensation.EdgeMultiplicity | cmake-3.22.1/Source/cmComputeComponentGraph.cxx:115-134 | An edge of the component graph occurs exactly as often as there are edges of the input that become it |
| Condensation.EdgesInOrder | cmake-3.22.1/Source/cmComputeComponentGraph.cxx:115-134 | Two edges that leave one component keep their order: those of a lower member come first, and those of one member as they are |
| Condensation.ComponentEdge | cmake-3.22.1/Source/cmComputeComponentGraph.cxx:115-134 | Two components are joined exactly when some edge joins members of them, and the edge falls |
| Condensation.ComponentGraphIsAcyclic | cmake-3.22.1/Source/cmComputeComponentGraph.cxx:88-134 | The component graph is well formed and has no cycle |
| Condensation.ReachThroughComponents | cmake-3.22.1/Source/cmComputeComponentGraph.cxx:115-134 | A vertex reaches another exactly when its component reaches the other's in the component graph |
| TarjanWalk.PushKeepsInv | cmake-3.22.1/Source/cmComputeComponentGraph.cxx:52-63 | Entering a vertex keeps the whole invariant |
| TarjanWalk.LowBoundAcrossVisit | cmake-3.22.1/Source/cmComputeComponentGraph.cxx:64-86 | The bound on the lowest index reachable from a vertex on the stack survives the visit of a successor |
| TarjanWalk.PopKeepsInv | cmake-3.22.1/Source/cmComputeComponentGraph.cxx:88-112 | When a vertex is its own root, giving everything above it to one component keeps the whole invariant |
| TarjanWalk.LeaveKeepsInv | cmake-3.22.1/Source/cmComputeComponentGraph.cxx:88-112 | When a vertex is not its own root, leaving it on the stack keeps the whole invariant |
| TopologicalOrder.BackwardsIsTopological | cmake-3.22.1/Source/cmComputeLinkDepends.cxx:684-715 | Numbering backwards in order of completion gives distinct indices 0 to n-1 that rise along every edge of the component graph |
| TopologicalOrder.KeepsOriginalOrder | cmake-3.22.1/Source/cmComputeLinkDepends.cxx:694-701 | Components that no constraint relates through later ones keep their original order |
| SuccessorOrder.BackwardsKeepsEdges | cmake-3.22.1/Source/cmComputeLinkDepends.cxx:684-758 | Of two edges of a component the end of the earlier gets the lower index, unless what the later ones lead to, or something found before, leads there |
| SuccessorOrder.EntriesKeepOrder | cmake-3.22.1/Source/cmComputeLinkDepends.cxx:672-701 | Of two entries the component of the first comes first if all that leads to it is found, from lower entries, before anything that leads to the other |
| LinkDepends.ComputeLinkDepends.VisitComponent | cmake-3.22.1/Source/cmComputeLinkDepends.cxx:738-758 | Visits a component after those it leads to, in reverse order, and hands out indices downwards: the fields stay those of the depth-first completion order |
| LinkDepends.ComputeLinkDepends.NumberComponents | cmake-3.22.1/Source/cmComputeLinkDepends.cxx:672-696 | Components of the constraint graph are found and numbered topologically, depth first |
| LinkDepends.ComputeLinkDepends.MakePendingComponent | cmake-3.22.1/Source/cmComputeLinkDepends.cxx:817-849 | A component becomes pending whole, also when it was partly seen: once if trivial, else as often as needed |
| LinkDepends.ComputeLinkDepends.ComputeComponentCount | cmake-3.22.1/Source/cmComputeLinkDepends.cxx:851-865 | The number of times needed is the specified one |
| LinkDepends.NeededCountIsMaximum | cmake-3.22.1/Source/cmComputeLinkDepends.cxx:851-865 | That number is the least one not below 2 and not below any multiplicity of a member |
| LinkDepends.ComputeLinkDepends.UpdateComponent | cmake-3.22.1/Source/cmComputeLinkDepends.cxx:765-803 | Seeing an entry updates its component: fewer entries left, one time fewer, done, or newly pending; the assertion that only components of several entries are seen again holds |
| LinkDepends.ComputeLinkDepends.VisitEntry | cmake-3.22.1/Source/cmComputeLinkDepends.cxx:760-815 | One visit is one step of the emission state machine, and keeps every pending component consistent |
| LinkDepends.ComputeLinkDepends.OrderLinkEntries | cmake-3.22.1/Source/cmComputeLinkDepends.cxx:670-715 | The emission of the original line followed by draining what is pending, with components numbered in the order of the given entries and constraints; it ends by the measure (components from the lowest pending index on, visits that component is owed) |
| LinkOrder.VisitProgresses | cmake-3.22.1/Source/cmComputeLinkDepends.cxx:707-715 | Visiting the first entry of the first pending component raises the lowest pending index or lowers the visits owed |
| LinkOrder.SeenTimesGrows | cmake-3.22.1/Source/cmComputeLinkDepends.cxx:141-158 | Disjoint consecutive stretches of the line that each contain a whole component are not lost when the line grows |
| LinkOrder.SeeEntryKeepsOwed | cmake-3.22.1/Source/cmComputeLinkDepends.cxx:765-803 | Seeing an entry keeps what every component is still owed, when it completes a stretch, restarts one, or finishes |
| LinkOrder.MakePendingKeepsOwed | cmake-3.22.1/Source/cmComputeLinkDepends.cxx:817-849 | Resetting a partly seen component keeps what every component is owed |
| LinkOrder.VisitKeepsDependsOwed | cmake-3.22.1/Source/cmComputeLinkDepends.cxx:805-814 | After every occurrence of an entry the components its own component leads to are owed in full, or will be |
| LinkOrder.VisitKeepsSelfOwed | cmake-3.22.1/Source/cmComputeLinkDepends.cxx:765-803 | Every component of several entries that occurs at all is owed its needed number of whole stretches |
| LinkOrder.EmitSatisfies | cmake-3.22.1/Source/cmComputeLinkDepends.cxx:670-715 | The emission ends with nothing pending; the line begins with the original entries; every occurrence is followed by the needed whole stretches of each component its own leads to; every non-trivial component that occurs is seen whole at least max(2, multiplicity) times |
| LinkOrder.EmitStaysInside | cmake-3.22.1/Source/cmComputeLinkDepends.cxx:670-715 | A set of whole components that contains the original entries and is closed along the component graph contains the line |
| LinkOrder.EmitRepeatsLittle | cmake-3.22.1/Source/cmComputeLinkDepends.cxx:160-173 | What is appended comes in topological order of components and repeats no entry more often than its component needs |
| LinkRounds.OriginalsLeave | cmake-3.22.1/Source/cmComputeLinkDepends.cxx:760-849 | What each component still waits for after the original entries follows exactly from the rounds in which its members have been seen, counted from the beginning or from the last time it was called for |
| LinkBlocks.DrainBlock | cmake-3.22.1/Source/cmComputeLinkDepends.cxx:703-715 | Draining goes on with the members left over of the first pending component in ascending order, then with all its members as often as it still needs them |
| LinkBlocks.DrainInBlocks | cmake-3.22.1/Source/cmComputeLinkDepends.cxx:703-715 | All that draining appends has the form of such blocks, one for each component that is pending or that one of them leads to, in topological order; a component led to comes whole |
| LinkBlocks.EmittedInBlocks | cmake-3.22.1/Source/cmComputeLinkDepends.cxx:670-715 | The line is the original entries and then the blocks of exactly what they leave over |
| LinkLine.DependenciesMet | cmake-3.22.1/Source/cmComputeLinkDepends.cxx:141-173 | After every occurrence of u in the line there is an occurrence of every v that u reaches in another component |
| LinkLine.LineIsReachable | cmake-3.22.1/Source/cmComputeLinkDepends.cxx:670-715 | The line contains exactly the entries reachable from the original ones |
| LinkLine.KeepLastCounts | cmake-3.22.1/Source/cmComputeLinkDepends.cxx:254-266 | De-duplication keeps each shared library once and every other item as often as before |
| LinkLine.KeepLastIsLast | cmake-3.22.1/Source/cmComputeLinkDepends.cxx:254-266 | A shared library stays only where it stands last, and the items around it keep their order |
| LinkLine.KeepLastFollowed | cmake-3.22.1/Source/cmComputeLinkDepends.cxx:254-266 | Whatever relation says v must follow every u still says so after de-duplication |
| LinkStretches.StretchesKept | cmake-3.22.1/Source/cmComputeLinkDepends.cxx:254-266 | De-duplication also leaves every needed whole stretch of each component that has no shared library: after every occurrence whose component calls for it, and in the whole line for a component that occurs |
| LinkStretches.SeenTimesOnly | cmake-3.22.1/Source/cmComputeLinkDepends.cxx:141-158 | How often a line holds a whole component depends only on the occurrences of its members |
| LinkStretches.KeptBehind | cmake-3.22.1/Source/cmComputeLinkDepends.cxx:254-266 | What is kept behind an item is the de-duplicated form of what was behind one occurrence of it |
| LinkLine.LineSatisfiesDependencies | cmake-3.22.1/Source/cmComputeLinkDepends.cxx:141-173 | All dependencies between different components are satisfied by the emitted line and by the line after de-duplication |
| LinkDepends.ComputeLinkDepends.CollectFinalEntries | cmake-3.22.1/Source/cmComputeLinkDepends.cxx:254-274 | The final entries are the objects in order, then the line with each shared library once, at its last position |
| LinkDepends.SharedKeptOnce | cmake-3.22.1/Source/cmComputeLinkDepends.cxx:254-266 | A shared library in the line is kept once, and all else as often as it is there |
| LinkDepends.ComputeLinkDepends.AddLinkEntry | cmake-3.22.1/Source/cmComputeLinkDepends.cxx:296-336 | An item gets one index, the same for equal items, and its entry; it waits in the queue, as target or with the text of its dependencies, exactly when these are known; only an item that is neither known nor a flag is to be inferred |
| LinkDepends.ComputeLinkDepends.AddLinkObject | cmake-3.22.1/Source/cmComputeLinkDepends.cxx:338-357 | An object gets an entry of its own in the object list |
| LinkDepends.ComputeLinkDepends.AddLinkEntries | cmake-3.22.1/Source/cmComputeLinkDepends.cxx:539-590 | A list of libraries adds its entries, original entries or constraint edges from the depender, and to each unknown item the set of dependees that follow it |
| LinkItems.FlagsAre | cmake-3.22.1/Source/cmComputeLinkDepends.cxx:316-319 | A dash makes a flag, except before the name of a library or of a framework |
| LinkItems.EntriesAre | cmake-3.22.1/Source/cmComputeLinkDepends.cxx:311-319 | The entry of a target keeps the target and is no flag; that of another item is a flag if it looks like one |
| LinkItems.FollowedAre | cmake-3.22.1/Source/cmComputeLinkDepends.cxx:321-334 | Targets are queued, and items for which a text of dependencies is known |
| LinkItems.LinkedInOrder | cmake-3.22.1/Source/cmComputeLinkDepends.cxx:539-560 | Every item of a list but the target itself and empty ones is linked, in the order of the list |
| LinkDepends.ComputeLinkDepends.InferDependencies | cmake-3.22.1/Source/cmComputeLinkDepends.cxx:613-643 | Each item gains exactly the inferred dependencies, as strong edges in ascending order |
| LinkInference.InferredExactlyWhen | cmake-3.22.1/Source/cmComputeLinkDepends.cxx:613-643 | B is inferred from A exactly when A is unknown and occurs in some list, and in every list with A the possible dependee B, not A itself, occurs behind the first A |
| LinkInference.AfterFirstIsBehind | cmake-3.22.1/Source/cmComputeLinkDepends.cxx:539-590 | The set begun at an item collects exactly what occurs behind its first occurrence |
| LinkDepends.ComputeLinkDepends.CleanConstraintGraph | cmake-3.22.1/Source/cmComputeLinkDepends.cxx:645-656 | Edges become strictly ascending; none is invented and no destination is lost |
| LinkDepends.ComputeLinkDepends.InferAndClean | cmake-3.22.1/Source/cmComputeLinkDepends.cxx:234-238 | Together the two steps make the destinations of each entry the given and the inferred ones |
| LinkInference.CleanedEdges | cmake-3.22.1/Source/cmComputeLinkDepends.cxx:645-656 | Sorting and removing equal neighbours leaves one edge for each destination |
| LinkDepends.ComputeLinkDepends.Finish | cmake-3.22.1/Source/cmComputeLinkDepends.cxx:234-274 | After the lists are read: constraint edges are the given and the inferred ones, components keep the given order, the line contains exactly what is reachable, comes in blocks behind the original entries, repeats components as often as needed, and the final entries name each shared library once, satisfy every dependency between components and keep the stretches of components without shared libraries |
| TargetDepends.ComputeTargetDepends.CollectSideEffects | cmake-3.22.1/Source/cmComputeTargetDepends.cxx:423-433 | Each record holds exactly the own effects of the targets handed on to it, by walks whose edges are merged later and later; it is complete exactly when every effect reached is one of these, and never holds any other |
| TargetDepends.ComputeTargetDepends.CollectSideEffectsForTarget | cmake-3.22.1/Source/cmComputeTargetDepends.cxx:435-457 | One recursive visit is one step of that collection: record and visited set become those it gives |
| SideEffectCollection.BecomesComplete | cmake-3.22.1/Source/cmComputeTargetDepends.cxx:435-457 | A record that includes its own effects and those of its successors is complete when they are |
| SideEffectCollection.CollectKeeps | cmake-3.22.1/Source/cmComputeTargetDepends.cxx:435-457 | A visit changes no earlier record, records only effects of targets reached, and completes all visits it ends of targets that reach no cycle |
| SideEffectCollection.CollectGathers | cmake-3.22.1/Source/cmComputeTargetDepends.cxx:435-457 | At the end of a visit its target has the own effects of all targets newly visited, on cycles too, and all recorded for the finished targets these lead to |
| SideEffectOrder.RecordedExactly | cmake-3.22.1/Source/cmComputeTargetDepends.cxx:423-457 | For every graph and target, cycles included: an effect is recorded exactly when it is an own effect of some target handed on |
| SideEffectOrder.CompleteExactlyWhen | cmake-3.22.1/Source/cmComputeTargetDepends.cxx:423-457 | A record is complete exactly when every effect that is reached is handed on |
| SideEffectOrder.AlwaysCompleteIs | cmake-3.22.1/Source/cmComputeTargetDepends.cxx:423-457 | The record of a target is complete whatever effects the targets have exactly when everything it reaches is handed on to it, which the graph alone tells |
| SideEffectOrder.EachEdgeOnce | cmake-3.22.1/Source/cmComputeTargetDepends.cxx:443-456 | In the order of merging every edge of every target occurs exactly once, and those of one target in their order |
| SideEffectOrder.HandedIsReached | cmake-3.22.1/Source/cmComputeTargetDepends.cxx:443-456 | What is handed on is reached |
| SideEffectOrder.UndisturbedIsHanded | cmake-3.22.1/Source/cmComputeTargetDepends.cxx:423-457 | Everything is handed on to a target when no target with a lower index gets to a cycle that it reaches; so to the first target and to those that reach no cycle |
| SideEffectCollection.AcyclicIsExact | cmake-3.22.1/Source/cmComputeTargetDepends.cxx:423-457 | In a graph without cycles a target has recorded exactly the side effects of the targets it reaches |
| SideEffectCollection.EffectLost | cmake-3.22.1/Source/cmComputeTargetDepends.cxx:441-457 | On three targets, two of them on a cycle, a side effect that is reached is not recorded |
| SideEffectOrder.LostIsNotHanded | cmake-3.22.1/Source/cmComputeTargetDepends.cxx:441-457 | On those targets the exact condition fails: what is reached is not handed on |
| TargetDepends.ComputeTargetDepends.PushEdges | cmake-3.22.1/Source/cmComputeTargetDepends.cxx:497-523 | Weak edges are pushed to exactly the targets that have none yet |
| TargetDepends.ComputeTargetDepends.OptimizeLinkDependencies | cmake-3.22.1/Source/cmComputeTargetDepends.cxx:487-526 | The strong edges, and one weak edge to each target with a side effect the compile must wait for, with the flags of the first edge that asks for it; all in the order of the edges they come from, custom commands before languages |
| TargetDepends.ComputeTargetDepends.ComputeIntermediateGraph | cmake-3.22.1/Source/cmComputeTargetDepends.cxx:459-485 | Static and object libraries that ask for it get optimized edges, all others their own |
| SideEffects.IntermediateKeepsStrong | cmake-3.22.1/Source/cmComputeTargetDepends.cxx:487-494 | Exactly the strong edges there were |
| SideEffects.IntermediateKeepsCustom | cmake-3.22.1/Source/cmComputeTargetDepends.cxx:496-507 | One edge: behind a weak edge whose end has a complete record, every target with a custom command gets a direct edge |
| SideEffects.IntermediateAddsNoOther | cmake-3.22.1/Source/cmComputeTargetDepends.cxx:496-523 | A weak edge that remains leads to a side effect behind a weak edge there was |
| SideEffects.WantedByAllIs | cmake-3.22.1/Source/cmComputeTargetDepends.cxx:496-523 | The targets to wait for are those with a custom effect, or one in a language of the target, recorded for the end of a weak edge |
| SideEffects.StagePushed | cmake-3.22.1/Source/cmComputeTargetDepends.cxx:496-523 | What is pushed for one edge and one kind of effect was asked for by no edge or kind before it |
| CustomCommands.IntermediateEdgeIs | cmake-3.22.1/Source/cmComputeTargetDepends.cxx:459-526 | The edges of the intermediate graph in terms of the targets and the initial graph: all edges of a target that is not optimized, else its strong ones and one to each target it waits for of which an effect was handed on to the end of a weak edge |
| CustomCommands.CommandsKeptExactly | cmake-3.22.1/Source/cmComputeTargetDepends.cxx:459-526 | Whoever reached a target with a custom command still does after optimization exactly when, by such edges, there is another way to each command behind a weak edge of an optimized target whose end was not handed it |
| CustomCommands.AcyclicKeepsCommands | cmake-3.22.1/Source/cmComputeTargetDepends.cxx:459-526 | Without cycles no command is lost |
| CustomCommands.CommandLost | cmake-3.22.1/Source/cmComputeTargetDepends.cxx:487-523 | With a cycle one can be: on four targets an optimized library outside the cycle keeps no dependency, although it needed a custom command behind it |
| TargetDepends.ComputeTargetDepends.IntraComponent | cmake-3.22.1/Source/cmComputeTargetDepends.cxx:672-705 | One call of the walk: on success the vertices it enters are put in front of the chain, their strong edges copied; failure means that two calls of one walk lead to the same vertex |
| TargetDepends.ComputeTargetDepends.LinearizeComponent | cmake-3.22.1/Source/cmComputeTargetDepends.cxx:724-736 | A component becomes a chain from its head through every member to its tail, exactly when each of its walks meets no vertex twice |
| IntraComponent.PrependKeeps | cmake-3.22.1/Source/cmComputeTargetDepends.cxx:683-703 | Putting a vertex whose edges are all followed in front of the chain keeps the walk invariant |
| IntraComponent.RevisitConflicts | cmake-3.22.1/Source/cmComputeTargetDepends.cxx:677-681 | Meeting a vertex that the walk has entered and not finished into the chain shows two different calls that lead there |
| IntraComponent.EndedIsTreeLike | cmake-3.22.1/Source/cmComputeTargetDepends.cxx:672-705 | A walk that ends met no vertex twice |
| ChainOrder.OrderingFollows | cmake-3.22.1/Source/cmComputeTargetDepends.cxx:683-692 | The end of a later edge joins the chain in front of the end of an earlier one |
| ChainOrder.WalkPlaces | cmake-3.22.1/Source/cmComputeTargetDepends.cxx:724-736 | The walks from the members, last member first, each put what they add in front |
| ChainOrder.AllPlaced | cmake-3.22.1/Source/cmComputeTargetDepends.cxx:724-736 | So a member stands before another if some member leads to the other along strong edges, and neither that one nor any after it leads to the first |
| TargetDepends.ComputeTargetDepends.ComputeFinalDepends | cmake-3.22.1/Source/cmComputeTargetDepends.cxx:707-753 | Succeeds exactly when every component can be put into a chain, and then tails are wired to heads along the component graph; where strong edges leave it open, lower members and the ends of later edges stand first |
| FinalDepends.FinalIsAcyclic | cmake-3.22.1/Source/cmComputeTargetDepends.cxx:707-753 | The final graph has no cycle |
| FinalDepends.FinalPreservesReach | cmake-3.22.1/Source/cmComputeTargetDepends.cxx:707-753 | Between components the final graph reaches exactly what the intermediate graph reaches; within one it adds nothing |
| FinalDepends.StrongEdgeKept | cmake-3.22.1/Source/cmComputeTargetDepends.cxx:672-705 | Every strong edge inside a component is an edge of the final graph |
| FinalDepends.KeptInPlace | cmake-3.22.1/Source/cmComputeTargetDepends.cxx:683-691 | The strong edges inside a component are copied with their flags and in their order |
| FinalDepends.FinalEdgesAre | cmake-3.22.1/Source/cmComputeTargetDepends.cxx:672-753 | Behind its strong edges each member has one weak edge to the next of its chain, and the tail the edges of its component, in their order and with their flags, to the heads of those it depends on |
| BuildOrder.ChainsPossibleIs | cmake-3.22.1/Source/cmComputeTargetDepends.cxx:707-736 | Whether every cycle can be put into a chain is a property of the graphs, not of how components are numbered |
| FinalDepends.SameLinearizable | cmake-3.22.1/Source/cmComputeTargetDepends.cxx:672-705 | A walk through a component looks only at who its members are |
| BuildOrder.CheckFailed | cmake-3.22.1/Source/cmComputeTargetDepends.cxx:594-625 | When the check fails there is a cycle that is not allowed |
| BuildOrder.ShapeIsSafe | cmake-3.22.1/Source/cmComputeTargetDepends.cxx:707-753 | The final graph is a safe build order: acyclic, no reachability invented or lost between targets not on a common cycle, a total order within each cycle, as the walks give it, every strong dependency honoured |
| BuildOrder.ChainsGiveOrder | cmake-3.22.1/Source/cmComputeTargetDepends.cxx:707-753 | In the final graph targets on a common cycle reach each other in the order of the walks |
| BuildOrder.StrongCyclesRejected | cmake-3.22.1/Source/cmComputeTargetDepends.cxx:672-736 | A component with a cycle of strong edges is always rejected |
| BuildOrder.DiamondIsRejected | cmake-3.22.1/Source/cmComputeTargetDepends.cxx:672-681 | A graph of static libraries whose one cycle has no cycle of strong edges, so that its cycles are allowed, is rejected: its diamond of strong edges cannot be put into a chain |
| TargetDepends.ComputeTargetDepends.CheckComponents | cmake-3.22.1/Source/cmComputeTargetDepends.cxx:594-625 | Fails exactly on a component of several targets when cycles are forbidden or one of them is not a static library |
| BuildOrder.CheckedCycles | cmake-3.22.1/Source/cmComputeTargetDepends.cxx:594-625 | When the check passes, targets on a cycle are static libraries, and there is none when cycles are forbidden |
| TargetDepends.ComputeTargetDepends.Compute | cmake-3.22.1/Source/cmComputeTargetDepends.cxx:112-153 | Succeeds exactly when the graph is accepted, which depends on the targets and the initial graph alone, and always for an acyclic graph whose side effects are at home; whenever the initial cycles are allowed, also if it fails later, the records and the intermediate graph are the right ones; success gives a safe build order, on cycles that of the walks, which for side effects at home asks for nothing that was not asked for, and builds custom commands first where none was lost |
| BuildOrder.SameVerdict | cmake-3.22.1/Source/cmComputeTargetDepends.cxx:112-153 | A graph is accepted exactly when any one intermediate graph made from its records has only allowed cycles and can be put into chains: the order of pushed edges does not matter |
| BuildOrder.AcyclicIsAccepted | cmake-3.22.1/Source/cmComputeTargetDepends.cxx:112-153 | A graph without cycles is accepted when each recorded side effect is that of the target itself |
| BuildOrder.UnoptimizedVerdict | cmake-3.22.1/Source/cmComputeTargetDepends.cxx:112-153 | When no target drops dependencies a graph is accepted exactly when its own cycles are allowed and can be put into chains |
| BuildOrder.CyclesStayAllowed | cmake-3.22.1/Source/cmComputeTargetDepends.cxx:130-142 | With side effects at home the second check of cycles never fails after the first has passed |
| BuildOrder.AtHomeVerdict | cmake-3.22.1/Source/cmComputeTargetDepends.cxx:112-153 | Then only the initial cycles and the chains decide |
| CustomCommands.FinalAddsNothing | cmake-3.22.1/Source/cmComputeTargetDepends.cxx:112-153 | With side effects at home the final graph reaches nothing that the initial graph does not |
| CustomCommands.FinalKeepsCommands | cmake-3.22.1/Source/cmComputeTargetDepends.cxx:112-153 | Where no command was lost and there is no way back, whoever reached a target with a custom command reaches it in the final graph |
| PresetInheritance.PresetsFile.VisitPreset | cmake-3.22.1/Source/cmCMakePresetsFile.cxx:78-135 | Visiting a preset resolves it and all it inherits from; a further visit changes nothing but, perhaps, conditions; each failure names a fault of the file as it was read: a cycle, a missing parent, an inherited user preset, an unnamed variable, or fields that are faulty for the values a preset resolves to; its own faults and those of its first parent are reported before others; it ends on cyclic files too |
| PresetInheritance.PresetsFile.ComputePresetInheritance | cmake-3.22.1/Source/cmCMakePresetsFile.cxx:137-157 | Success exactly when the file has no inheritance cycle, missing parent, inherited user preset, unnamed variable or preset with a field fault in its resolved values: no generator or build directory before version 3 of its file, errors without their warnings, an unnamed cache variable; then every preset has the first-wins merge of its own values and its parents'; conditions are as meant exactly when no null condition is overridden |
| PresetInheritance.MergedIsFirst | cmake-3.22.1/Source/cmCMakePresetsFile.cxx:106-127 | A variable of the merge is the preset's own, or that of the first parent that has it |
| PresetInheritance.MergedFieldIsFirst | cmake-3.22.1/Source/cmCMakePresetsFile.cxx:106-127 | The same for every other inherited field |
| PresetInheritance.MergedContains | cmake-3.22.1/Source/cmCMakePresetsFile.cxx:119-121 | Merging a parent a second time changes nothing |
| PresetInheritance.ResolvedIsUnique | cmake-3.22.1/Source/cmCMakePresetsFile.cxx:137-157 | The resolved values are the same whatever order presets are visited in |
| PresetInheritance.ResolvedIsAcyclic | cmake-3.22.1/Source/cmCMakePresetsFile.cxx:78-135 | Presets resolved parents first have no cycle, no missing parent and no inherited user preset |
| PresetInheritance.MergeAgain | cmake-3.22.1/Source/cmCMakePresetsFile.cxx:106-127 | A further visit leaves a resolved preset's values alone |
| PresetInheritance.IsInvalid | cmake-3.22.1/Source/cmCMakePresetsFile.cxx:129-134 | Fields found invalid at the end of a visit are invalid for the values the preset resolves to, not for a passing state |
| PresetInheritance.NoneInvalid | cmake-3.22.1/Source/cmCMakePresetsFile.cxx:129-134 | When all presets are resolved and valid, no way of resolving the file gives an invalid one |
| PresetInheritance.FaultyIsInvalid | cmake-3.22.1/Source/cmCMakePresetsFile.cxx:680-706 | The check of a preset fails exactly for those faults, which hidden presets may have, by the version of the file it is in |
| PresetInheritance.ParentReports | cmake-3.22.1/Source/cmCMakePresetsFile.cxx:98-118 | A missing first parent is reported as such before a user preset is, and both before anything of the parent itself |
| PresetInheritance.OverrideFound | cmake-3.22.1/Source/cmCMakePresetsFile.cxx:123-125 | A resolved preset without a condition gains one only because a null condition was overridden |
| PresetInheritance.FirstOfIs | cmake-3.22.1/Source/cmCMakePresetsFile.cxx:106-125 | The condition that is inherited is that of the first parent that is to have one |
| PresetInheritance.NullConditionLost | cmake-3.22.1/Source/cmCMakePresetsFile.cxx:123-130 | A concrete file on which the null condition of a preset with a child is overridden by its parent's condition |
| PresetText.NoBrace | cmake-3.22.1/Source/cmCMakePresetsFile.cxx:166-171 | No namespace, nor the beginning of one, contains a brace |
| PresetText.ParseMacro | cmake-3.22.1/Source/cmCMakePresetsFile.cxx:469-505 | A dollar sign, a whole namespace, a brace and a name up to the next brace are one macro |
| PresetText.ParseNoMacro | cmake-3.22.1/Source/cmCMakePresetsFile.cxx:469-489 | What only begins like a macro stands for itself, with the character that ends it |
| PresetText.ReadMacro | cmake-3.22.1/Source/cmCMakePresetsFile.cxx:491-505 | The character loop finishes a macro exactly where the text is divided |
| PresetText.ReadNoMacro | cmake-3.22.1/Source/cmCMakePresetsFile.cxx:469-489 | The character loop gives up a macro exactly where the text is divided |
| PresetText.ReadEnd | cmake-3.22.1/Source/cmCMakePresetsFile.cxx:508-518 | At the end of a text the loop has read all pieces, and knows whether the last macro is closed |
| PresetText.EscapeRoundTrip | cmake-3.22.1/Source/cmCMakePresetsFile.cxx:444-521 | For every text, writing each dollar sign as a macro and expanding gives the text back |
| PresetText.PlainText | cmake-3.22.1/Source/cmCMakePresetsFile.cxx:444-521 | A text without a dollar sign is returned unchanged |
| PresetText.DoubledDollar | cmake-3.22.1/Source/cmCMakePresetsFile.cxx:469-489 | Two dollar signs stand for themselves, and the second opens no macro |
| PresetPredefined.SourceDir | cmake-3.22.1/Source/cmCMakePresetsFile.cxx:315-323 | The source directory |
| PresetPredefined.SourceParentDir | cmake-3.22.1/Source/cmCMakePresetsFile.cxx:324-327 | The part of the source directory before its last name |
| PresetPredefined.SourceDirName | cmake-3.22.1/Source/cmCMakePresetsFile.cxx:328-331 | The last name of the source directory |
| PresetPredefined.SourceParts | cmake-3.22.1/Source/cmCMakePresetsFile.cxx:320-331 | Parent and name with a slash between them are the source directory exactly when it is not directly below a root |
| PresetPredefined.PresetName | cmake-3.22.1/Source/cmCMakePresetsFile.cxx:332-335 | The name of the preset |
| PresetPredefined.GeneratorName | cmake-3.22.1/Source/cmCMakePresetsFile.cxx:336-342 | The generator, and nothing for a hidden preset |
| PresetPredefined.DollarSign | cmake-3.22.1/Source/cmCMakePresetsFile.cxx:343-346 | A dollar sign |
| PresetPredefined.HostSystemName | cmake-3.22.1/Source/cmCMakePresetsFile.cxx:347-353 | The host system, and an error before version 3 |
| PresetPredefined.UnknownName | cmake-3.22.1/Source/cmCMakePresetsFile.cxx:354-356 | Any other name is an error |
| PresetPredefined.VariableOf | cmake-3.22.1/Source/cmCMakePresetsFile.cxx:359-385 | A variable of the preset if it has one of that name, else of the system, else nothing |
| PresetPredefined.ParentVariable | cmake-3.22.1/Source/cmCMakePresetsFile.cxx:376-385 | A variable of the system, whatever the preset has |
| PresetPredefined.NamelessVariable | cmake-3.22.1/Source/cmCMakePresetsFile.cxx:376-380 | An empty name is an error |
| PresetPredefined.VendorMacro | cmake-3.22.1/Source/cmCMakePresetsFile.cxx:523-541 | A macro of a vendor makes the preset be ignored |
| PathNames.NameIsLast | cmake-3.22.1/Source/kwsys/SystemTools.cxx:3798-3811 | The last name of a path has no slash and is its end |
| PathNames.PartsMakeWhole | cmake-3.22.1/Source/kwsys/SystemTools.cxx:3774-3811 | Parent, slash and last name are the path exactly when its last slash is not that of a root |
| PathNames.ParentsAtRoots | cmake-3.22.1/Source/kwsys/SystemTools.cxx:3774-3793 | Directly below a root the parent is the root, with its slash; a single name has none |
| PresetMacros.PresetExpander.ExpandMacros | cmake-3.22.1/Source/cmCMakePresetsFile.cxx:444-521 | The loop computes the meaning of the text, and its verdict is that of the first piece that stops the expansion: ignored for a vendor macro of the text itself, an error otherwise; once all variables are expanded it changes nothing |
| PresetMacros.PresetExpander.ExpandMacro | cmake-3.22.1/Source/cmCMakePresetsFile.cxx:523-541 | A macro gets its value, is ignored only in the vendor namespace, and is an error exactly when it is faulty or stands for a variable that cannot be expanded |
| PresetMacros.PresetExpander.EnvironmentMacroExpander | cmake-3.22.1/Source/cmCMakePresetsFile.cxx:359-387 | A variable of the preset by its expanded value, otherwise the system's; an empty name is an error |
| PresetMacros.PresetExpander.VisitEnv | cmake-3.22.1/Source/cmCMakePresetsFile.cxx:424-442 | Expands a variable once, after all it mentions; succeeds exactly when nothing the variable reaches, itself included, is on a cycle, faulty or a vendor's; otherwise its verdict is that of its own text; it ends on cyclic references too |
| PresetMacros.PresetExpander.ExpandEnvironment | cmake-3.22.1/Source/cmCMakePresetsFile.cxx:393-406 | Succeeds exactly when references among the variables have no cycle, every text is well formed and none is a vendor's; the preset is ignored exactly when the first variable of the order that cannot be expanded is stopped by a vendor macro of its own text |
| PresetMacros.PresetExpander.ExpandPreset | cmake-3.22.1/Source/cmCMakePresetsFile.cxx:302-422 | After the environment the condition, then all other texts, under the expanded variables; there is a result exactly when all texts are free of faults, vendor macros and cycles and the condition has an answer, which the result records; the preset is ignored exactly when its environment is, or its condition has no answer, or the first other text that stops does so at a vendor macro |
| PresetMacros.PresetExpander.Evaluate | cmake-3.22.1/Source/cmCMakePresetsFile.cxx:544-633 | A condition of any depth comes to its meaning: an answer, none because of a vendor macro, or an error; only what is needed is expanded, and no variable changes |
| PresetConditions.DecidedByFirst | cmake-3.22.1/Source/cmCMakePresetsFile.cxx:595-619 | Any and all: the first condition to stop decides, even if it has no answer or is an error, whatever stands behind it; otherwise all of them have the other answer |
| PresetConditions.PlainConditions | cmake-3.22.1/Source/cmCMakePresetsFile.cxx:544-593 | Without macros texts are compared as they are written, and a search that cannot be made is an error |
| PresetConditions.NotAnyIsAllNot | cmake-3.22.1/Source/cmCMakePresetsFile.cxx:595-633 | Not any is all not, and not all is any not, errors and missing answers included |
| PresetConditions.InListIsAnyEqual | cmake-3.22.1/Source/cmCMakePresetsFile.cxx:544-575 | Being in a list means the same as being equal to any of it exactly when the list is not empty or the text can be expanded |
| PresetConditions.NoAnswerBecause | cmake-3.22.1/Source/cmCMakePresetsFile.cxx:544-633 | A condition without an answer has a text that is ignored, and one in error has a text in error or searches for an expression |
| PresetMacros.ExpandedIsSound | cmake-3.22.1/Source/cmCMakePresetsFile.cxx:424-442 | When every variable is expanded there is no reference cycle and no faulty text |
| PresetMacros.ExpansionIsUnique | cmake-3.22.1/Source/cmCMakePresetsFile.cxx:393-406 | Each expanded value is determined by the texts alone |
| PresetMacros.EnvironmentIsUnique | cmake-3.22.1/Source/cmCMakePresetsFile.cxx:393-406 | The expanded environment does not depend on the order of the map |
| PresetMacros.NothingLeft | cmake-3.22.1/Source/cmCMakePresetsFile.cxx:424-432 | Once all variables are expanded nothing is expanded again |
| PresetReferences.VendorByReference | cmake-3.22.1/Source/cmCMakePresetsFile.cxx:523-541 | A file whose two variables come to an error in one order and to an ignored preset in the other: a vendor macro behind a reference does not make the preset be ignored |
| PresetReferences.VerdictIs | cmake-3.22.1/Source/cmCMakePresetsFile.cxx:444-541 | A text is expanded exactly when it is closed and no piece stops; it is ignored exactly when some vendor macro comes before every other piece that stops |
| PresetReferences.ExpandableIsOk | cmake-3.22.1/Source/cmCMakePresetsFile.cxx:359-387 | A variable of which nothing it reaches is in the way is one whose own text does not stop, and conversely |
| PresetReferences.NotExpandable | cmake-3.22.1/Source/cmCMakePresetsFile.cxx:424-442 | A variable that cannot be expanded shows a reference cycle, a faulty text or a vendor's |
| PresetReferences.StoppedFirst | cmake-3.22.1/Source/cmCMakePresetsFile.cxx:393-406 | The first variable that stops decides between error and ignored, whatever stands behind it |
| Algorithms.CmRotate | cmake-3.22.1/Source/cmAlgorithms.h:19-28 | The two parts of the range change places in the array, and the end of the first is returned |
| Algorithms.RemoveN | cmake-3.22.1/Source/cmAlgorithms.h:32-38 | The first n elements of a range move behind the others |
| Algorithms.CmRemoveIndices | cmake-3.22.1/Source/cmAlgorithms.h:73-95 | For ascending indices: in front exactly the other elements in their order, behind them the removed ones in theirs, and n minus the number of indices is returned |
| Algorithms.RemovedIsPermutation | cmake-3.22.1/Source/cmAlgorithms.h:73-95 | What is kept and what is removed make up the original range, and as many are kept as are not removed |
| Algorithms.Rotated | cmake-3.22.1/Source/cmAlgorithms.h:85-94 | Each rotation carries the removed elements past exactly one run of kept ones |
| Algorithms.KeptInPlace | cmake-3.22.1/Source/cmAlgorithms.h:73-95 | Each element that is not removed stands where those before it leave it |
| Algorithms.RotationAt | cmake-3.22.1/Source/cmAlgorithms.h:19-28 | Where each element of a rotated range goes |
| Base32.Base32Encode5 | cmake-3.22.1/Source/cmBase32.cxx:15-33 | The eight characters are the base-32 digits of the number that the five bytes spell |
| Base32.EncodeString | cmake-3.22.1/Source/cmBase32.cxx:39-93 | The text is the numeral of all bits of the bytes, filled up with zeros to whole digits, with the padding asked for |
| Base32.LastBlock | cmake-3.22.1/Source/cmBase32.cxx:56-84 | Cutting the text of a last block filled up with zeros continues the numeral |
| Base32.RoundTrip | cmake-3.22.1/Source/cmBase32.cxx:39-93 | Decoding the bits gives back the bytes, for every length, padded or not |
| Base32.EncodedLength | cmake-3.22.1/Source/cmBase32.cxx:39-93 | The length is 8 ceil(n/5) with padding and ceil(8n/5) without |
| Base32.EncodedIsInjective | cmake-3.22.1/Source/cmBase32.cxx:39-93 | In either mode different bytes have different texts |
| Base32.AlphabetIs | cmake-3.22.1/Source/cmBase32.cxx:7-13 | The digits are written as capital letters and then the digits from 2 to 7 |
| Base32.PaddedWithEquals | cmake-3.22.1/Source/cmBase32.cxx:78-90 | The unpadded text is filled up with equals signs, fewer than eight, to whole blocks of eight |
| Base32.LetterF | cmake-3.22.1/Source/cmBase32.cxx:39-93 | A test vector of RFC 4648 |
| CacheHelp.OutputHelpString | cmake-3.22.1/Source/cmCacheManager.cxx:407-429 | Writes the chunks of the text as comment lines; a text that begins with a newline is written twice |
| CacheHelp.LoadHelpString | cmake-3.22.1/Source/cmCacheManager.cxx:71-84 | Reads comment lines up to the first line that is none |
| CacheHelp.ChunksAre | cmake-3.22.1/Source/cmCacheManager.cxx:413-428 | The chunks make up the text; newlines only begin them; all but the first begin with a newline or a space |
| CacheHelp.ChunksAreFull | cmake-3.22.1/Source/cmCacheManager.cxx:413-428 | A line is divided at a space only when sixty characters are full, and then at the first |
| CacheHelp.OneLine | cmake-3.22.1/Source/cmCacheManager.cxx:407-429 | A short text of one line is one comment |
| CacheHelp.TwoLines | cmake-3.22.1/Source/cmCacheManager.cxx:407-429 | A newline inside begins the next comment, written as a backslash and n |
| CacheHelp.HelpRoundTrip | cmake-3.22.1/Source/cmCacheManager.cxx:407-429 | What was written is read back exactly when the text survives: it is empty, or begins neither with a newline nor with a backslash and n, and no chunk contains a null character or ends with a carriage return |
| CacheHelp.PlainHelpRoundTrip | cmake-3.22.1/Source/cmCacheManager.cxx:407-429 | For texts without carriage returns that condition is about the beginning and null characters alone |
| CacheHelp.NewlineFirst | cmake-3.22.1/Source/cmCacheManager.cxx:418-424 | A text that begins with a newline comes back with another number of newlines |

## Left out

- Collecting targets, link items and their closures from generators (`CollectTargets`, `CollectTargetDepends`, `AddTargetDepend`, `FollowLinkEntry`, `AddVarLinkEntries`, shared-library handling): they depend on classes that are not part of this model, so graphs, lists and target records are inputs.
- LinkDepends.ComputeLinkDepends.AddLinkEntry: an item is its name or target and its cross flag; the backtrace is no part of its identity in the original either, and is left out of items and entries.
- LinkDepends.ComputeLinkDepends.ComputeComponentCount: multiplicities are natural numbers; the conversion of an unsigned multiplicity of 2^31 or more to `int` is not modelled.
- LinkInference.CleanedEdges: which of several edges with equal destinations comes first after sorting is fixed here, and is not in the original, whose comparison looks at destinations only.
- TargetDepends.ComputeTargetDepends.OptimizeLinkDependencies: sets of targets are iterated by index; the original's order by address affects only the order of the weak edges pushed.
- ComponentGraph.ComputeComponentGraph.Compute: is called once on each object, as in the original; components are not cleared for a second call.
- PresetInheritance.PresetsFile.ComputePresetInheritance: models configure presets; the nested output, filter and execution options that test presets merge, and the inherited lists of build presets, follow the same pattern and are left out.
- PresetMacros.PresetExpander.ExpandPreset: the collapsing of the expanded directories into full paths is a library call, and so is the search for regular expressions in conditions, which is a parameter.
- PresetMacros.PresetExpander.ExpandEnvironment: requires that no variable has an empty name, which reading a preset has rejected by then. The order in which the map lists its variables is a parameter, and so is part of the condition for an ignored preset.
- PathNames.PartsMakeWhole: paths are taken with forward slashes, without a double slash and without a tilde at the beginning, as the conversion that comes first leaves them.
- CacheHelp.LoadHelpString: begins at the first comment line of an entry; skipping blanks and `#` lines before it and parsing the entry after it are left out.
- Algorithms.CmRemoveIndices: requires ascending indices inside the range, as the original's callers provide.
- JSON reading, printing, debug output, messages and policy warnings: output only.
- `cmComputeLinkInformation`, the rest of `cmCacheManager`, and all other commands and tools: outside the dependency engine, or thin wrappers over libraries.
