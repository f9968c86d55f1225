/** Inheritance between presets (VisitPreset and ComputePresetInheritance in
    cmCMakePresetsFile): cycle check, and values that bubble up first come first. */
module PresetInheritance {
  import opened Wrappers
  import opened CycleStatuses
  import opened PresetConditions

  datatype ReadFileResult = READ_OK | INVALID_PRESET | CYCLIC_PRESET_INHERITANCE | USER_PRESET_INHERITANCE

  /** The fields of a configure preset that can be inherited. A text that is empty,
      or an optional value that is not set, is simply absent. */
  datatype Field =
    | Generator | Architecture | Toolset | ArchitectureStrategy | ToolsetStrategy
    | BinaryDir | InstallDir | ToolchainFile
    | WarnDev | ErrorDev | WarnDeprecated | ErrorDeprecated
    | WarnUninitialized | WarnUnusedCli | WarnSystemVars
    | CacheVariable(name: string)

  datatype Value = Text(text: string) | Flag(flag: bool) | SetByGenerator | SetExternally
    | Variable(kind: string, value: string) | NoVariable

  /** What a preset passes on. An environment variable may be present without a value. */
  datatype Values = Values(environment: map<string, Option<string>>, fields: map<Field, Value>)

  datatype Preset = Preset(
    inherits: seq<string>,
    hidden: bool,
    user: bool,
    condition: Option<Condition>,
    values: Values)

  /** Insertion keeps what is there already. */
  function FirstWins(own: Values, parent: Values): Values {
    Values(parent.environment + own.environment, parent.fields + own.fields)
  }

  predicate IsFlag(v: Values, f: Field, b: bool) {
    f in v.fields && v.fields[f] == Flag(b)
  }

  /** The required fields are present and consistent. */
  predicate FieldsValid(p: Preset, version: int) {
    p.hidden ||
    (&& (version < 3 ==> Generator in p.values.fields && BinaryDir in p.values.fields)
     && !(IsFlag(p.values, WarnDev, false) && IsFlag(p.values, ErrorDev, true))
     && !(IsFlag(p.values, WarnDeprecated, false) && IsFlag(p.values, ErrorDeprecated, true))
     && CacheVariable("") !in p.values.fields)
  }

  type Presets = map<string, Preset>

  // ----- inheritance as a graph

  ghost predicate InheritsIn(ps: Presets, x: string, y: string, n: nat)
    decreases n
  {
    if n == 0 then x == y
    else x in ps && exists z :: z in ps[x].inherits && InheritsIn(ps, z, y, n - 1)
  }

  ghost predicate InheritanceCycle(ps: Presets) {
    exists x, n: nat :: 0 < n && InheritsIn(ps, x, x, n)
  }

  ghost predicate HasChild(ps: Presets, x: string) {
    exists z :: z in ps && x in ps[z].inherits
  }

  ghost predicate ParentMissing(ps: Presets) {
    exists x, y :: x in ps && y in ps[x].inherits && y !in ps
  }

  ghost predicate UserInherited(ps: Presets) {
    exists x, y :: x in ps && y in ps[x].inherits && y in ps && !ps[x].user && ps[y].user
  }

  ghost predicate UnnamedVariable(ps: Presets) {
    exists x :: x in ps && "" in ps[x].values.environment
  }

  lemma {:induction false} InheritsOn(ps: Presets, x: string, y: string, z: string, n: nat)
    requires InheritsIn(ps, x, y, n) && y in ps && z in ps[y].inherits
    ensures InheritsIn(ps, x, z, n + 1)
    decreases n
  {
    if n == 0 {
      assert InheritsIn(ps, z, z, 0);
    } else {
      var w :| w in ps[x].inherits && InheritsIn(ps, w, y, n - 1);
      InheritsOn(ps, w, y, z, n - 1);
    }
  }

  // ----- the resolved values

  /** The values of x merged with those of its first k parents, in order. */
  ghost function Merged(orig: Presets, ps: Presets, x: string, k: nat): Values
    requires x in orig && k <= |orig[x].inherits|
    requires forall j :: 0 <= j < k ==> orig[x].inherits[j] in ps
  {
    if k == 0 then orig[x].values
    else FirstWins(Merged(orig, ps, x, k - 1), ps[orig[x].inherits[k - 1]].values)
  }

  /** x has all parents among the presets before it, may inherit from them, and has
      the first-wins merge of its own values and theirs. */
  ghost predicate ResolvedAt(orig: Presets, ps: Presets, done: seq<string>, a: int)
    requires 0 <= a < |done|
  {
    var x := done[a];
    && x in orig && x in ps
    && (forall j :: 0 <= j < |orig[x].inherits| ==>
          orig[x].inherits[j] in done[..a] && orig[x].inherits[j] in ps && orig[x].inherits[j] in orig
          && (!orig[x].user ==> !orig[orig[x].inherits[j]].user))
    && ps[x].values == Merged(orig, ps, x, |orig[x].inherits|)
  }

  ghost predicate Resolved(orig: Presets, ps: Presets, done: seq<string>) {
    forall a :: 0 <= a < |done| ==> ResolvedAt(orig, ps, done, a)
  }

  lemma {:induction false} MergedFrame(orig: Presets, ps: Presets, qs: Presets, x: string, k: nat)
    requires x in orig && k <= |orig[x].inherits|
    requires forall j :: 0 <= j < k ==>
      orig[x].inherits[j] in ps && orig[x].inherits[j] in qs
        && ps[orig[x].inherits[j]].values == qs[orig[x].inherits[j]].values
    ensures Merged(orig, ps, x, k) == Merged(orig, qs, x, k)
  {
    if k > 0 { MergedFrame(orig, ps, qs, x, k - 1); }
  }

  /** An environment variable is the preset's own, or that of the first parent that
      has it. */
  lemma {:induction false} MergedIsFirst(orig: Presets, ps: Presets, x: string, k: nat, e: string)
    requires x in orig && k <= |orig[x].inherits|
    requires forall j :: 0 <= j < k ==> orig[x].inherits[j] in ps
    ensures var all, own := Merged(orig, ps, x, k).environment, orig[x].values.environment;
      && (e in own ==> e in all && all[e] == own[e])
      && (forall j :: (0 <= j < k && e !in own && e in ps[orig[x].inherits[j]].values.environment &&
                       forall i :: 0 <= i < j ==> e !in ps[orig[x].inherits[i]].values.environment) ==>
            e in all && all[e] == ps[orig[x].inherits[j]].values.environment[e])
      && (e in all && e !in own ==> exists j :: 0 <= j < k && e in ps[orig[x].inherits[j]].values.environment)
  {
    if k > 0 { MergedIsFirst(orig, ps, x, k - 1, e); }
  }

  /** The same for the other fields. */
  lemma {:induction false} MergedFieldIsFirst(orig: Presets, ps: Presets, x: string, k: nat, f: Field)
    requires x in orig && k <= |orig[x].inherits|
    requires forall j :: 0 <= j < k ==> orig[x].inherits[j] in ps
    ensures var all, own := Merged(orig, ps, x, k).fields, orig[x].values.fields;
      && (f in own ==> f in all && all[f] == own[f])
      && (forall j :: (0 <= j < k && f !in own && f in ps[orig[x].inherits[j]].values.fields &&
                       forall i :: 0 <= i < j ==> f !in ps[orig[x].inherits[i]].values.fields) ==>
            f in all && all[f] == ps[orig[x].inherits[j]].values.fields[f])
      && (f in all && f !in own ==> exists j :: 0 <= j < k && f in ps[orig[x].inherits[j]].values.fields)
  {
    if k > 0 { MergedFieldIsFirst(orig, ps, x, k - 1, f); }
  }

  /** Merging a parent again changes nothing. */
  lemma {:induction false} MergedContains(orig: Presets, ps: Presets, x: string, k: nat, j: nat)
    requires x in orig && k <= |orig[x].inherits| && j < k
    requires forall i :: 0 <= i < k ==> orig[x].inherits[i] in ps
    ensures FirstWins(Merged(orig, ps, x, k), ps[orig[x].inherits[j]].values) == Merged(orig, ps, x, k)
  {
    hide FirstWins;
    var front, last := Merged(orig, ps, x, k - 1), ps[orig[x].inherits[k - 1]].values;
    if j < k - 1 {
      MergedContains(orig, ps, x, k - 1, j);
      StaysContained(front, last, ps[orig[x].inherits[j]].values);
    } else {
      MergedTwice(front, last);
    }
  }

  lemma MergedTwice(own: Values, parent: Values)
    ensures FirstWins(FirstWins(own, parent), parent) == FirstWins(own, parent)
  {
    assert parent.environment + (parent.environment + own.environment) == parent.environment + own.environment;
    assert parent.fields + (parent.fields + own.fields) == parent.fields + own.fields;
  }

  lemma StaysContained(own: Values, more: Values, parent: Values)
    requires FirstWins(own, parent) == own
    ensures FirstWins(FirstWins(own, more), parent) == FirstWins(own, more)
  {
    var e, f := more.environment + own.environment, more.fields + own.fields;
    assert forall x :: x in parent.environment ==> x in own.environment;
    assert forall x :: x in parent.fields ==> x in own.fields;
    assert parent.environment + e == e && parent.fields + f == f;
  }

  /** The resolved values do not depend on how they were found: whatever satisfies
      the first-wins equations gives the same values. */
  lemma {:induction false} ResolvedIsUnique(orig: Presets, ps: Presets, qs: Presets, done: seq<string>,
      other: seq<string>, a: nat)
    requires Resolved(orig, ps, done) && Resolved(orig, qs, other) && a < |done|
    requires forall x :: x in done ==> x in other
    ensures done[a] in ps && done[a] in qs && ps[done[a]].values == qs[done[a]].values
    decreases a
  {
    var x := done[a];
    assert ResolvedAt(orig, ps, done, a);
    assert x in other;
    var b :| 0 <= b < |other| && other[b] == x;
    assert ResolvedAt(orig, qs, other, b);
    forall j | 0 <= j < |orig[x].inherits|
      ensures orig[x].inherits[j] in ps && orig[x].inherits[j] in qs
      ensures ps[orig[x].inherits[j]].values == qs[orig[x].inherits[j]].values
    {
      var y := orig[x].inherits[j];
      assert y in done[..a];
      var i :| 0 <= i < a && done[..a][i] == y;
      ResolvedIsUnique(orig, ps, qs, done, other, i);
    }
    MergedFrame(orig, ps, qs, x, |orig[x].inherits|);
  }

  /** Presets in which every parent comes before its children have no cycle. */
  lemma {:induction false} ResolvedWalk(orig: Presets, ps: Presets, done: seq<string>, a: nat, y: string, n: nat)
    returns (b: nat)
    requires Resolved(orig, ps, done) && a < |done| && InheritsIn(orig, done[a], y, n)
    ensures b < |done| && done[b] == y && b + n <= a
    decreases n
  {
    if n == 0 {
      b := a;
    } else {
      var x := done[a];
      assert ResolvedAt(orig, ps, done, a);
      var z :| z in orig[x].inherits && InheritsIn(orig, z, y, n - 1);
      var j :| 0 <= j < |orig[x].inherits| && orig[x].inherits[j] == z;
      assert z in done[..a];
      var i :| 0 <= i < a && done[..a][i] == z;
      b := ResolvedWalk(orig, ps, done, i, y, n - 1);
    }
  }

  lemma ResolvedIsAcyclic(orig: Presets, ps: Presets, done: seq<string>)
    requires Resolved(orig, ps, done) && forall x :: x in orig ==> x in done
    requires forall a, b :: 0 <= a < b < |done| ==> done[a] != done[b]
    ensures !InheritanceCycle(orig) && !ParentMissing(orig) && !UserInherited(orig)
  {
    if InheritanceCycle(orig) {
      var x, n: nat :| 0 < n && InheritsIn(orig, x, x, n);
      var a :| 0 <= a < |done| && done[a] == x;
      var b := ResolvedWalk(orig, ps, done, a, x, n);
      assert false;
    }
    forall x, y | x in orig && y in orig[x].inherits
      ensures y in orig && (!orig[x].user ==> !orig[y].user)
    {
      var a :| 0 <= a < |done| && done[a] == x;
      assert ResolvedAt(orig, ps, done, a);
      var j :| 0 <= j < |orig[x].inherits| && orig[x].inherits[j] == y;
    }
  }

  // ----- conditions

  /** The first condition among those of some presets. */
  ghost function FirstOf(wanted: map<string, Option<Condition>>, names: seq<string>, k: nat): Option<Condition>
    requires k <= |names|
  {
    if k == 0 then None
    else
      var first := FirstOf(wanted, names, k - 1);
      if first.Some? then first else if names[k - 1] in wanted then wanted[names[k - 1]] else None
  }

  /** The condition a preset is meant to have: its own, or else the first that a
      parent is meant to have; a null condition of its own means none. */
  ghost function WantedCondition(orig: Presets, wanted: map<string, Option<Condition>>, x: string): Option<Condition>
    requires x in orig
  {
    var own := orig[x].condition;
    var c := if own.Some? then own else FirstOf(wanted, orig[x].inherits, |orig[x].inherits|);
    if c == Some(NullCondition) then None else c
  }

  /** x has a child, its own condition is null, and a parent is meant to have one. */
  ghost predicate NullOverridden(orig: Presets, wanted: map<string, Option<Condition>>, x: string) {
    && x in orig && orig[x].condition == Some(NullCondition) && HasChild(orig, x)
    && exists y :: y in orig[x].inherits && y in wanted && wanted[y].Some?
  }

  ghost predicate SomeNullOverridden(orig: Presets, wanted: map<string, Option<Condition>>, done: seq<string>) {
    exists x :: x in done && NullOverridden(orig, wanted, x)
  }

  /** A preset with a condition, one that inherits from it and sets a null condition,
      and one that inherits from that: the null condition is overridden. */
  lemma NullConditionLost(orig: Presets, wanted: map<string, Option<Condition>>)
    requires orig == map[
      "a" := Preset([], true, false, Some(Constant(true)), Values(map[], map[])),
      "b" := Preset(["a"], true, false, Some(NullCondition), Values(map[], map[])),
      "c" := Preset(["b"], true, false, None, Values(map[], map[]))]
    requires forall x :: x in orig ==> x in wanted && wanted[x] == WantedCondition(orig, wanted, x)
    ensures wanted["b"] == None && wanted["c"] == None && NullOverridden(orig, wanted, "b")
  {
    assert "a" in orig["b"].inherits && wanted["a"] == Some(Constant(true));
    assert "b" in orig["c"].inherits;
    assert FirstOf(wanted, ["b"], 0) == None;
  }

  lemma {:induction false} FirstOfSome(wanted: map<string, Option<Condition>>, names: seq<string>, k: nat)
    requires k <= |names|
    ensures FirstOf(wanted, names, k).Some? <==> exists j :: 0 <= j < k && names[j] in wanted && wanted[names[j]].Some?
  {
    if k > 0 { FirstOfSome(wanted, names, k - 1); }
  }

  /** It is that of the first parent that is to have one. */
  lemma {:induction false} FirstOfIs(wanted: map<string, Option<Condition>>, names: seq<string>, k: nat, j: nat)
    requires j < k <= |names| && names[j] in wanted && wanted[names[j]].Some?
    requires forall i :: 0 <= i < j ==> names[i] in wanted ==> wanted[names[i]].None?
    ensures FirstOf(wanted, names, k) == wanted[names[j]]
  {
    FirstOfSome(wanted, names, j);
    if j < k - 1 { FirstOfIs(wanted, names, k - 1, j); }
  }

  lemma {:induction false} FirstOfFrame(wanted: map<string, Option<Condition>>, more: map<string, Option<Condition>>,
      names: seq<string>, k: nat)
    requires k <= |names|
    requires forall j :: 0 <= j < k ==> names[j] in wanted && names[j] in more && wanted[names[j]] == more[names[j]]
    ensures FirstOf(wanted, names, k) == FirstOf(more, names, k)
  {
    if k > 0 { FirstOfFrame(wanted, more, names, k - 1); }
  }

  /** What the visits have achieved: presets resolved, parents first; the conditions
      they are meant to have; and those visited more than once. */
  datatype Progress = Progress(done: seq<string>, wanted: map<string, Option<Condition>>, twice: set<string>)

  ghost predicate Alike(p: Preset, q: Preset) {
    p.inherits == q.inherits && p.hidden == q.hidden && p.user == q.user
  }

  ghost predicate ConditionKnown(orig: Presets, ps: Presets, r: Progress, x: string) {
    && x in orig && x in ps && x in r.wanted
    && r.wanted[x] == WantedCondition(orig, r.wanted, x)
    && ps[x].condition != Some(NullCondition)
    && (r.wanted[x].Some? ==> ps[x].condition.Some?)
    && (ps[x].condition == r.wanted[x] || SomeNullOverridden(orig, r.wanted, r.done))
    && (x in r.twice && NullOverridden(orig, r.wanted, x) ==> ps[x].condition.Some?)
  }

  ghost predicate ListsAgree(r: Progress) {
    && (forall a, b :: 0 <= a < b < |r.done| ==> r.done[a] != r.done[b])
    && (forall x :: x in r.wanted <==> x in r.done)
    && (forall x :: x in r.twice ==> x in r.done)
  }

  lemma ListsAgreeMore(r: Progress, x: string, c: Option<Condition>)
    requires ListsAgree(r) && x !in r.done
    ensures var s := Progress(r.done + [x], r.wanted[x := c], r.twice);
      ListsAgree(s) && (forall z :: z in s.done <==> z == x || z in r.done) && x !in r.wanted
  {
  }

  /** Presets resolved so far are final but for their conditions; presets neither
      resolved nor being visited are untouched. */
  ghost predicate Inheriting(orig: Presets, versions: (int, int), ps: Presets, r: Progress, active: set<string>) {
    && ps.Keys == orig.Keys && active <= orig.Keys
    && (forall x :: x in orig ==> Alike(ps[x], orig[x]))
    && ListsAgree(r) && Resolved(orig, ps, r.done)
    && (forall x :: x in orig && x !in r.done && x !in active ==> ps[x] == orig[x])
    && (forall x {:trigger ConditionKnown(orig, ps, r, x)} :: x in r.done ==> ConditionKnown(orig, ps, r, x))
    && (forall x :: x in r.done ==>
        x in ps && FieldsValid(ps[x], VersionOf(versions, ps[x])) && "" !in ps[x].values.environment)
  }

  function VersionOf(versions: (int, int), p: Preset): int {
    if p.user then versions.1 else versions.0
  }

  /** Visiting x, with its first k parents merged. */
  ghost predicate Visiting(orig: Presets, ps: Presets, r: Progress, x: string, k: nat)
    requires x in orig && x in ps && k <= |orig[x].inherits|
  {
    && (forall j :: 0 <= j < k ==>
          orig[x].inherits[j] in r.done && orig[x].inherits[j] in ps && orig[x].inherits[j] in orig
          && (!orig[x].user ==> !orig[orig[x].inherits[j]].user))
    && (x !in r.done ==> ps[x].values == Merged(orig, ps, x, k))
    && (FirstOf(r.wanted, orig[x].inherits, k).Some? ==> ps[x].condition.Some?)
    && (x !in r.done && orig[x].condition.Some? ==> ps[x].condition == orig[x].condition)
    && (x !in r.done && orig[x].condition.None? ==>
          && ps[x].condition != Some(NullCondition)
          && (ps[x].condition == FirstOf(r.wanted, orig[x].inherits, k) || SomeNullOverridden(orig, r.wanted, r.done)))
  }

  /** What a visit may change, seen from outside. */
  ghost predicate Grows(orig: Presets, ps: Presets, qs: Presets, r: Progress, s: Progress, active: set<string>) {
    && qs.Keys == ps.Keys == orig.Keys
    && r.done <= s.done && r.twice <= s.twice
    && (forall x :: x in r.wanted ==> x in s.wanted && s.wanted[x] == r.wanted[x])
    && (forall x :: x in active && x in ps ==> qs[x] == ps[x])
    && (forall x :: x in r.done && x in ps ==> qs[x].values == ps[x].values)
  }

  function Inherited(child: Preset, parent: Preset): Preset {
    child.(values := FirstWins(child.values, parent.values),
           condition := if child.condition.None? then parent.condition else child.condition)
  }

  function Normalized(p: Preset): Preset {
    if p.condition == Some(NullCondition) then p.(condition := None) else p
  }

  lemma InDone(r: Progress, s: Progress, x: string)
    requires r.done <= s.done && x in r.done
    ensures x in s.done
  {
    var a :| 0 <= a < |r.done| && r.done[a] == x;
    assert s.done[a] == x;
  }

  lemma OverriddenStays(orig: Presets, r: Progress, s: Progress)
    requires SomeNullOverridden(orig, r.wanted, r.done) && r.done <= s.done
    requires forall x :: x in r.wanted ==> x in s.wanted && s.wanted[x] == r.wanted[x]
    ensures SomeNullOverridden(orig, s.wanted, s.done)
  {
    var x :| x in r.done && NullOverridden(orig, r.wanted, x);
    InDone(r, s, x);
    assert NullOverridden(orig, s.wanted, x);
  }

  /** A visit below x leaves the state of the visit of x standing. */
  lemma VisitingFrame(orig: Presets, ps: Presets, qs: Presets, r: Progress, s: Progress, active: set<string>,
      x: string, k: nat)
    requires x in orig && x in ps && k <= |orig[x].inherits| && Visiting(orig, ps, r, x, k)
    requires Grows(orig, ps, qs, r, s, active) && x in active
    requires forall y :: y in r.done ==> y in r.wanted
    requires x in r.done <==> x in s.done
    ensures x in qs && Visiting(orig, qs, s, x, k)
  {
    hide SomeNullOverridden;
    forall j | 0 <= j < k
      ensures orig[x].inherits[j] in s.done
    {
      InDone(r, s, orig[x].inherits[j]);
    }
    MergedFrame(orig, ps, qs, x, k);
    FirstOfFrame(r.wanted, s.wanted, orig[x].inherits, k);
    if SomeNullOverridden(orig, r.wanted, r.done) { OverriddenStays(orig, r, s); }
  }

  /** Merging the next parent into x. */
  lemma MergeKeepsVisiting(orig: Presets, versions: (int, int), ps: Presets, r: Progress, active: set<string>,
      x: string, k: nat)
    requires x in orig && x in ps && k < |orig[x].inherits| && Inheriting(orig, versions, ps, r, active)
    requires Visiting(orig, ps, r, x, k)
    requires var y := orig[x].inherits[k];
      y in r.done && y in ps && y in orig && (!orig[x].user ==> !orig[y].user) && y != x
    requires forall j :: 0 <= j < k ==> orig[x].inherits[j] != x
    ensures var qs := ps[x := Inherited(ps[x], ps[orig[x].inherits[k]])]; Visiting(orig, qs, r, x, k + 1)
  {
    hide SomeNullOverridden, Resolved;
    var y := orig[x].inherits[k];
    var qs := ps[x := Inherited(ps[x], ps[y])];
    assert ConditionKnown(orig, ps, r, y);
    MergedFrame(orig, ps, qs, x, k);
  }

  /** Merging the next parent into a preset not resolved before. */
  lemma MergeFirstTime(orig: Presets, versions: (int, int), ps: Presets, r: Progress, active: set<string>, x: string,
      y: string)
    requires Inheriting(orig, versions, ps, r, active) && x in orig && x in active && x !in r.done && y in ps
    ensures Inheriting(orig, versions, ps[x := Inherited(ps[x], ps[y])], r, active)
  {
    var qs := ps[x := Inherited(ps[x], ps[y])];
    ResolvedFrame(orig, ps, qs, r.done);
    forall z | z in r.done
      ensures ConditionKnown(orig, qs, r, z)
    {
      assert ConditionKnown(orig, ps, r, z);
    }
  }

  lemma ResolvedFrame(orig: Presets, ps: Presets, qs: Presets, done: seq<string>)
    requires Resolved(orig, ps, done) && qs.Keys == ps.Keys
    requires forall z :: z in done && z in ps ==> qs[z].values == ps[z].values
    ensures Resolved(orig, qs, done)
  {
    forall a | 0 <= a < |done|
      ensures ResolvedAt(orig, qs, done, a)
    {
      assert ResolvedAt(orig, ps, done, a);
      var x := done[a];
      forall j | 0 <= j < |orig[x].inherits|
        ensures orig[x].inherits[j] in done
      {
        assert orig[x].inherits[j] in done[..a];
      }
      MergedFrame(orig, ps, qs, x, |orig[x].inherits|);
    }
  }

  lemma MergeAgainValues(orig: Presets, ps: Presets, done: seq<string>, x: string, k: nat)
    requires Resolved(orig, ps, done) && x in orig && x in done
    requires x in ps && k < |orig[x].inherits| && orig[x].inherits[k] in ps
    ensures FirstWins(ps[x].values, ps[orig[x].inherits[k]].values) == ps[x].values
    ensures forall j :: 0 <= j < |orig[x].inherits| ==> orig[x].inherits[j] in done
  {
    var a :| 0 <= a < |done| && done[a] == x;
    assert ResolvedAt(orig, ps, done, a);
    MergedContains(orig, ps, x, |orig[x].inherits|, k);
  }

  lemma MergeAgainCondition(orig: Presets, ps: Presets, r: Progress, x: string, y: string)
    requires forall z {:trigger ConditionKnown(orig, ps, r, z)} :: z in r.done ==> ConditionKnown(orig, ps, r, z)
    requires x in r.done && x in orig && HasChild(orig, x) && y in orig[x].inherits && x in ps && y in ps
    requires forall j :: 0 <= j < |orig[x].inherits| ==> orig[x].inherits[j] in r.done
    ensures var qs := ps[x := Inherited(ps[x], ps[y])];
      forall z {:trigger ConditionKnown(orig, qs, r, z)} :: z in r.done ==> ConditionKnown(orig, qs, r, z)
  {
    hide SomeNullOverridden, NullOverridden, WantedCondition;
    if ps[x].condition.None? && ps[y].condition.Some? {
      OverrideFound(orig, ps, r, x, y);
    }
    assert ConditionKnown(orig, ps, r, y);
    var qs := ps[x := Inherited(ps[x], ps[y])];
    forall z | z in r.done
      ensures ConditionKnown(orig, qs, r, z)
    {
      assert ConditionKnown(orig, ps, r, z);
    }
  }

  /** What is resolved and known stays so when a parent is merged again. */
  lemma MergeAgainKnown(orig: Presets, ps: Presets, r: Progress, x: string, k: nat)
    requires forall z {:trigger ConditionKnown(orig, ps, r, z)} :: z in r.done ==> ConditionKnown(orig, ps, r, z)
    requires Resolved(orig, ps, r.done) && x in r.done && x in orig && HasChild(orig, x) && x in ps
    requires k < |orig[x].inherits| && orig[x].inherits[k] in ps
    ensures var qs := ps[x := Inherited(ps[x], ps[orig[x].inherits[k]])];
      && qs[x].values == ps[x].values && Resolved(orig, qs, r.done)
      && forall z {:trigger ConditionKnown(orig, qs, r, z)} :: z in r.done ==> ConditionKnown(orig, qs, r, z)
  {
    hide ConditionKnown, Resolved, HasChild, FirstWins;
    var y := orig[x].inherits[k];
    MergeAgainValues(orig, ps, r.done, x, k);
    ResolvedFrame(orig, ps, ps[x := Inherited(ps[x], ps[y])], r.done);
    MergeAgainCondition(orig, ps, r, x, y);
  }

  /** Merging a parent again into a resolved preset: only the condition can change,
      and only when a null condition is overridden. */
  lemma MergeAgain(orig: Presets, versions: (int, int), ps: Presets, r: Progress, active: set<string>, x: string,
      k: nat)
    requires Inheriting(orig, versions, ps, r, active) && x in orig && x in r.done && HasChild(orig, x)
    requires k < |orig[x].inherits| && orig[x].inherits[k] in r.done && orig[x].inherits[k] in ps
    ensures var qs := ps[x := Inherited(ps[x], ps[orig[x].inherits[k]])];
      Inheriting(orig, versions, qs, r, active) && qs[x].values == ps[x].values
  {
    hide ConditionKnown, Resolved, HasChild, FirstWins, FieldsValid, ListsAgree;
    MergeAgainKnown(orig, ps, r, x, k);
    SameFieldsValid(ps[x], Inherited(ps[x], ps[orig[x].inherits[k]]), VersionOf(versions, ps[x]));
  }

  lemma SameFieldsValid(p: Preset, q: Preset, version: int)
    requires p.hidden == q.hidden && p.values == q.values
    ensures FieldsValid(p, version) <==> FieldsValid(q, version)
  {
  }

  lemma {:induction false} FirstOfNotNull(wanted: map<string, Option<Condition>>, names: seq<string>, k: nat)
    requires k <= |names| && forall j :: 0 <= j < k && names[j] in wanted ==> wanted[names[j]] != Some(NullCondition)
    ensures FirstOf(wanted, names, k) != Some(NullCondition)
  {
    if k > 0 { FirstOfNotNull(wanted, names, k - 1); }
  }

  /** A resolved preset that has no condition inherits one only when its own null
      condition, or one further up, is overridden. */
  lemma OverrideFound(orig: Presets, ps: Presets, r: Progress, x: string, y: string)
    requires forall z {:trigger ConditionKnown(orig, ps, r, z)} :: z in r.done ==> ConditionKnown(orig, ps, r, z)
    requires x in r.done && x in orig && HasChild(orig, x) && y in orig[x].inherits
    requires forall j :: 0 <= j < |orig[x].inherits| ==> orig[x].inherits[j] in r.done
    requires x in ps && y in ps && ps[x].condition.None? && ps[y].condition.Some?
    ensures SomeNullOverridden(orig, r.wanted, r.done)
  {
    assert y in r.done;
    assert ConditionKnown(orig, ps, r, x) && ConditionKnown(orig, ps, r, y);
    if ps[y].condition == r.wanted[y] {
      FirstOfSome(r.wanted, orig[x].inherits, |orig[x].inherits|);
      forall j | 0 <= j < |orig[x].inherits|
        ensures orig[x].inherits[j] in r.wanted && r.wanted[orig[x].inherits[j]] != Some(NullCondition)
      {
        assert ConditionKnown(orig, ps, r, orig[x].inherits[j]);
      }
      FirstOfNotNull(r.wanted, orig[x].inherits, |orig[x].inherits|);
      assert NullOverridden(orig, r.wanted, x);
    }
  }

  /** A first visit of x is over: x is resolved. */
  lemma FinishFirst(orig: Presets, versions: (int, int), ps: Presets, r: Progress, active: set<string>, x: string)
    returns (s: Progress)
    requires Inheriting(orig, versions, ps, r, active + {x}) && x in orig && x !in active && x !in r.done
    requires Visiting(orig, ps, r, x, |orig[x].inherits|)
    requires FieldsValid(ps[x], VersionOf(versions, ps[x])) && "" !in ps[x].values.environment
    ensures s == Progress(r.done + [x], r.wanted[x := WantedCondition(orig, r.wanted, x)], r.twice)
    ensures Inheriting(orig, versions, ps[x := Normalized(ps[x])], s, active)
    ensures Grows(orig, ps, ps[x := Normalized(ps[x])], r, s, active)
  {
    hide NullOverridden, FieldsValid, Resolved, ConditionKnown, Merged, WantedCondition, Grows, Visiting, ParentsDone,
      ListsAgree;
    s := Progress(r.done + [x], r.wanted[x := WantedCondition(orig, r.wanted, x)], r.twice);
    var qs := ps[x := Normalized(ps[x])];
    FinishResolved(orig, ps, r, x);
    ResolvedFrame(orig, ps, qs, s.done);
    ListsAgreeMore(r, x, WantedCondition(orig, r.wanted, x));
    NormalizedValid(ps[x], VersionOf(versions, ps[x]));
    ResolvedParents(orig, ps, r);
    FinishCondition(orig, ps, r, x, s);
    FinishGrows(orig, ps, r, active, x, WantedCondition(orig, r.wanted, x));
  }

  lemma FinishGrows(orig: Presets, ps: Presets, r: Progress, active: set<string>, x: string, c: Option<Condition>)
    requires ps.Keys == orig.Keys && x in orig && x !in active && x !in r.done && x !in r.wanted
    ensures Grows(orig, ps, ps[x := Normalized(ps[x])], r, Progress(r.done + [x], r.wanted[x := c], r.twice), active)
  {
  }

  lemma NormalizedValid(p: Preset, version: int)
    requires FieldsValid(p, version)
    ensures FieldsValid(Normalized(p), version)
  {
  }

  lemma ResolvedParents(orig: Presets, ps: Presets, r: Progress)
    requires Resolved(orig, ps, r.done)
    ensures forall z :: z in r.done ==> ParentsDone(orig, r, z)
  {
    forall z | z in r.done
      ensures ParentsDone(orig, r, z)
    {
      var a :| 0 <= a < |r.done| && r.done[a] == z;
      assert ResolvedAt(orig, ps, r.done, a);
      forall j | 0 <= j < |orig[z].inherits|
        ensures orig[z].inherits[j] in r.done
      {
        assert orig[z].inherits[j] in r.done[..a];
      }
    }
  }

  lemma FinishResolved(orig: Presets, ps: Presets, r: Progress, x: string)
    requires Resolved(orig, ps, r.done) && x in orig && x in ps && x !in r.done
    requires Visiting(orig, ps, r, x, |orig[x].inherits|)
    ensures Resolved(orig, ps, r.done + [x])
  {
    hide SomeNullOverridden, Merged, FirstOf;
    var done := r.done;
    var all := done + [x];
    forall a | 0 <= a < |all|
      ensures ResolvedAt(orig, ps, all, a)
    {
      assert all[..a] == done[..a];
      if a < |done| {
        assert ResolvedAt(orig, ps, done, a);
      } else {
        assert done[..a] == done;
      }
    }
  }

  lemma FinishCondition(orig: Presets, ps: Presets, r: Progress, x: string, s: Progress)
    requires forall z {:trigger ConditionKnown(orig, ps, r, z)} :: z in r.done ==> ConditionKnown(orig, ps, r, z)
    requires x in orig && x in ps && x !in r.done && Visiting(orig, ps, r, x, |orig[x].inherits|)
    requires s == Progress(r.done + [x], r.wanted[x := WantedCondition(orig, r.wanted, x)], r.twice)
    requires ListsAgree(r) && forall z :: z in r.done ==> ParentsDone(orig, r, z)
    ensures var qs := ps[x := Normalized(ps[x])];
      forall z {:trigger ConditionKnown(orig, qs, s, z)} :: z in s.done ==> ConditionKnown(orig, qs, s, z)
  {
    hide NullOverridden, SomeNullOverridden;
    var qs := ps[x := Normalized(ps[x])];
    if SomeNullOverridden(orig, r.wanted, r.done) { OverriddenStays(orig, r, s); }
    forall z | z in s.done
      ensures ConditionKnown(orig, qs, s, z)
    {
      if z == x {
        WantedFrame(orig, r, s, x);
      } else {
        assert z in r.done;
        assert ConditionKnown(orig, ps, r, z);
        WantedFrame(orig, r, s, z);
        assert ParentsDone(orig, r, z);
        OverriddenFrame(orig, r, s, z);
      }
    }
  }

  ghost predicate ParentsDone(orig: Presets, r: Progress, x: string) {
    x in orig && forall j :: 0 <= j < |orig[x].inherits| ==> orig[x].inherits[j] in r.done
  }

  lemma WantedFrame(orig: Presets, r: Progress, s: Progress, x: string)
    requires ParentsDone(orig, r, x)
    requires forall z :: z in r.done ==> z in r.wanted && z in s.wanted && s.wanted[z] == r.wanted[z]
    ensures WantedCondition(orig, s.wanted, x) == WantedCondition(orig, r.wanted, x)
  {
    FirstOfFrame(r.wanted, s.wanted, orig[x].inherits, |orig[x].inherits|);
  }

  lemma OverriddenFrame(orig: Presets, r: Progress, s: Progress, x: string)
    requires ParentsDone(orig, r, x)
    requires forall z :: z in r.done ==> z in r.wanted && z in s.wanted && s.wanted[z] == r.wanted[z]
    ensures NullOverridden(orig, s.wanted, x) <==> NullOverridden(orig, r.wanted, x)
  {
    forall y | y in orig[x].inherits
      ensures y in r.done
    {
      var j :| 0 <= j < |orig[x].inherits| && orig[x].inherits[j] == y;
    }
  }

  /** A further visit of x is over. */
  lemma FinishAgain(orig: Presets, versions: (int, int), ps: Presets, r: Progress, active: set<string>, x: string)
    returns (s: Progress)
    requires Inheriting(orig, versions, ps, r, active + {x}) && x in orig && x in r.done
    requires Visiting(orig, ps, r, x, |orig[x].inherits|)
    ensures s == Progress(r.done, r.wanted, r.twice + {x})
    ensures ps[x := Normalized(ps[x])] == ps && Inheriting(orig, versions, ps, s, active)
  {
    hide Resolved, FieldsValid, Visiting, ConditionKnown;
    s := Progress(r.done, r.wanted, r.twice + {x});
    FinishAgainCondition(orig, ps, r, x);
  }

  lemma FinishAgainCondition(orig: Presets, ps: Presets, r: Progress, x: string)
    requires forall z {:trigger ConditionKnown(orig, ps, r, z)} :: z in r.done ==> ConditionKnown(orig, ps, r, z)
    requires x in orig && x in ps && x in r.done && Visiting(orig, ps, r, x, |orig[x].inherits|)
    ensures ps[x := Normalized(ps[x])] == ps
    ensures var s := Progress(r.done, r.wanted, r.twice + {x});
      forall z {:trigger ConditionKnown(orig, ps, s, z)} :: z in r.done ==> ConditionKnown(orig, ps, s, z)
  {
    var s := Progress(r.done, r.wanted, r.twice + {x});
    assert ConditionKnown(orig, ps, r, x);
    if NullOverridden(orig, r.wanted, x) {
      var y :| y in orig[x].inherits && y in r.wanted && r.wanted[y].Some?;
      var j :| 0 <= j < |orig[x].inherits| && orig[x].inherits[j] == y;
      FirstOfSome(r.wanted, orig[x].inherits, |orig[x].inherits|);
    }
    forall z | z in s.done
      ensures ConditionKnown(orig, ps, s, z)
    {
      assert ConditionKnown(orig, ps, r, z);
    }
  }

  ghost predicate Below(orig: Presets, x: string, y: string) {
    exists n: nat :: 0 < n && InheritsIn(orig, x, y, n)
  }

  lemma BelowSelf(orig: Presets, x: string)
    requires Below(orig, x, x)
    ensures InheritanceCycle(orig)
  {
  }

  lemma BelowOn(orig: Presets, active: set<string>, x: string, y: string)
    requires x in orig && y in orig[x].inherits && forall a :: a in active ==> Below(orig, a, x)
    ensures forall a :: a in active + {x} ==> Below(orig, a, y)
  {
    assert InheritsIn(orig, x, x, 0);
    InheritsOn(orig, x, x, y, 0);
    forall a | a in active + {x}
      ensures Below(orig, a, y)
    {
      if a != x {
        var n: nat :| 0 < n && InheritsIn(orig, a, x, n);
        InheritsOn(orig, a, x, y, n);
      }
    }
  }

  lemma GrowsOn(orig: Presets, ps: Presets, qs: Presets, us: Presets, vs: Presets, r: Progress, s: Progress,
      u: Progress, active: set<string>, x: string)
    requires Grows(orig, ps, qs, r, s, active) && Grows(orig, qs, us, s, u, active + {x}) && x !in active
    requires x in us && x in vs && vs == us[x := vs[x]] && (x in r.done ==> vs[x].values == us[x].values)
    ensures Grows(orig, ps, vs, r, u, active)
  {
    forall y | y in r.done && y in ps
      ensures vs[y].values == ps[y].values
    {
      InDone(r, s, y);
    }
  }

  lemma GrowsEnd(orig: Presets, ps: Presets, qs: Presets, vs: Presets, r: Progress, s: Progress, u: Progress,
      active: set<string>)
    requires Grows(orig, ps, qs, r, s, active) && Grows(orig, qs, vs, s, u, active)
    ensures Grows(orig, ps, vs, r, u, active)
  {
    forall y | y in r.done && y in ps
      ensures vs[y].values == ps[y].values
    {
      InDone(r, s, y);
    }
  }

  /** The start of a visit. */
  lemma VisitStarts(orig: Presets, versions: (int, int), ps: Presets, r: Progress, active: set<string>, x: string)
    requires Inheriting(orig, versions, ps, r, active) && x in orig && x !in active
    ensures Inheriting(orig, versions, ps, r, active + {x}) && Visiting(orig, ps, r, x, 0)
    ensures Grows(orig, ps, ps, r, r, active)
    ensures x in ps && ps[x].inherits == orig[x].inherits && ps[x].user == orig[x].user
    ensures "" in ps[x].values.environment ==> UnnamedVariable(orig)
    ensures x !in r.done ==> ps[x] == orig[x]
  {
  }

  lemma IsChild(orig: Presets, x: string, y: string)
    requires x in orig && y in orig[x].inherits
    ensures HasChild(orig, y)
  {
  }

  lemma {:induction false} MergedNamed(orig: Presets, ps: Presets, x: string, k: nat)
    requires x in orig && k <= |orig[x].inherits| && "" !in orig[x].values.environment
    requires forall j :: 0 <= j < k ==> orig[x].inherits[j] in ps && "" !in ps[orig[x].inherits[j]].values.environment
    ensures "" !in Merged(orig, ps, x, k).environment
  {
    if k > 0 { MergedNamed(orig, ps, x, k - 1); }
  }

  lemma NoneUnnamed(orig: Presets, versions: (int, int), ps: Presets, r: Progress, active: set<string>, x: string)
    requires Inheriting(orig, versions, ps, r, active) && x in orig && x in ps && x !in r.done
    requires Visiting(orig, ps, r, x, |orig[x].inherits|) && "" !in orig[x].values.environment
    ensures "" !in ps[x].values.environment
  {
    MergedNamed(orig, ps, x, |orig[x].inherits|);
  }

  lemma NormalizedValidBack(versions: (int, int), p: Preset)
    requires FieldsValid(Normalized(p), VersionOf(versions, Normalized(p)))
    ensures FieldsValid(p, VersionOf(versions, p))
  {
  }

  lemma AgainGrows(orig: Presets, ps: Presets, r: Progress, s: Progress, active: set<string>, x: string)
    requires s == Progress(r.done, r.wanted, r.twice + {x}) && ps.Keys == orig.Keys
    ensures Grows(orig, ps, ps, r, s, active)
  {
  }

  lemma InheritingFacts(orig: Presets, versions: (int, int), ps: Presets, r: Progress, active: set<string>)
    requires Inheriting(orig, versions, ps, r, active)
    ensures ps.Keys == orig.Keys
    ensures forall x :: x in orig ==> x in ps && Alike(ps[x], orig[x])
    ensures forall x :: x in r.wanted <==> x in r.done
    ensures forall x :: x in r.done ==> x in orig
  {
  }

  lemma GrowsFacts(orig: Presets, ps: Presets, qs: Presets, r: Progress, s: Progress, active: set<string>)
    requires Grows(orig, ps, qs, r, s, active)
    ensures qs.Keys == orig.Keys
    ensures forall x :: x in r.done ==> x in s.done
    ensures forall x :: x in r.twice ==> x in s.twice
  {
    forall x | x in r.done
      ensures x in s.done
    {
      InDone(r, s, x);
    }
  }

  /** The next parent has been visited and is merged. */
  lemma ParentMerged(orig: Presets, versions: (int, int), ps: Presets, qs: Presets, r: Progress, s: Progress,
      active: set<string>, x: string, k: nat)
    requires x in orig && x !in active && k < |orig[x].inherits|
    requires x in ps && Visiting(orig, ps, r, x, k) && (forall y :: y in r.done ==> y in r.wanted)
    requires Inheriting(orig, versions, qs, s, active + {x}) && Grows(orig, ps, qs, r, s, active + {x})
    requires (x in r.done <==> x in s.done) && (x in s.done ==> HasChild(orig, x))
    requires var y := orig[x].inherits[k]; y in s.done && y in orig && (!orig[x].user ==> !orig[y].user) && y != x
    requires NotAmong(orig[x].inherits, x, k)
    ensures x in qs && orig[x].inherits[k] in qs
    ensures var vs := qs[x := Inherited(qs[x], qs[orig[x].inherits[k]])];
      && Inheriting(orig, versions, vs, s, active + {x}) && Visiting(orig, vs, s, x, k + 1)
      && (x in s.done ==> vs[x].values == qs[x].values)
  {
    hide Resolved, ConditionKnown, Visiting, SomeNullOverridden;
    VisitingFrame(orig, ps, qs, r, s, active + {x}, x, k);
    MergeKeepsVisiting(orig, versions, qs, s, active + {x}, x, k);
    if x in s.done {
      MergeAgain(orig, versions, qs, s, active + {x}, x, k);
    } else {
      MergeFirstTime(orig, versions, qs, s, active + {x}, x, orig[x].inherits[k]);
    }
  }

  /** x is not one of the first k names. */
  ghost predicate NotAmong(names: seq<string>, x: string, k: nat)
    requires k <= |names|
  {
    forall j :: 0 <= j < k ==> names[j] != x
  }

  lemma NotAmongNext(names: seq<string>, x: string, k: nat)
    requires k < |names| && NotAmong(names, x, k) && names[k] != x
    ensures NotAmong(names, x, k + 1)
  {
  }

  ghost predicate Marked(status: map<string, CycleStatus>, x: string, mark: CycleStatus) {
    x in status && status[x] == mark
  }

  /** The first k parents of x have been visited, those resolved before once more. */
  ghost predicate ParentsVisited(orig: Presets, status: map<string, CycleStatus>, r: Progress, s: Progress, x: string,
      k: nat)
    requires x in orig && k <= |orig[x].inherits|
  {
    forall j :: 0 <= j < k ==>
      && orig[x].inherits[j] in s.done
      && (orig[x].inherits[j] in r.done && !Marked(status, orig[x].inherits[j], Verified) ==>
          orig[x].inherits[j] in s.twice)
  }

  lemma ParentsVisitedNext(orig: Presets, status: map<string, CycleStatus>, r: Progress, s: Progress, u: Progress,
      x: string, k: nat)
    requires x in orig && k < |orig[x].inherits| && ParentsVisited(orig, status, r, s, x, k)
    requires forall y :: y in r.done ==> y in s.done
    requires (forall y :: y in s.done ==> y in u.done) && (forall y :: y in s.twice ==> y in u.twice)
    requires var y := orig[x].inherits[k];
      y in u.done && (y in s.done && !Marked(status, y, Verified) ==> y in u.twice)
    ensures ParentsVisited(orig, status, r, u, x, k + 1)
  {
  }

  /** Presets resolved lately are not being visited, and have children or are x. */
  ghost predicate NewlyDone(orig: Presets, r: Progress, s: Progress, active: set<string>, x: string) {
    forall y :: y in s.done && y !in r.done ==> y !in active && (y == x || HasChild(orig, y))
  }

  /** The visit of parent k of x has returned. */
  lemma AfterParent(orig: Presets, status: map<string, CycleStatus>, ps: Presets, qs: Presets, us: Presets,
      r: Progress, s: Progress, u: Progress, active: set<string>, x: string, k: nat)
    requires x in orig && k < |orig[x].inherits|
    requires Grows(orig, ps, qs, r, s, active) && Grows(orig, qs, us, s, u, active + {x})
    requires ParentsVisited(orig, status, r, s, x, k) && (x in r.done <==> x in s.done)
    requires var y := orig[x].inherits[k];
      && y in u.done && (y in s.done && !Marked(status, y, Verified) ==> y in u.twice)
      && NewlyDone(orig, r, s, active, x) && NewlyDone(orig, s, u, active + {x}, y)
    ensures ParentsVisited(orig, status, r, u, x, k + 1)
    ensures NewlyDone(orig, r, u, active, x)
    ensures (x in r.done <==> x in u.done) && (x in s.done <==> x in u.done) && r.done <= u.done
    ensures us.Keys == orig.Keys
  {
    var y := orig[x].inherits[k];
    IsChild(orig, x, y);
    GrowsFacts(orig, ps, qs, r, s, active);
    GrowsFacts(orig, qs, us, s, u, active + {x});
    ParentsVisitedNext(orig, status, r, s, u, x, k);
  }

  /** The visit of parent k of x has returned, and the parent is merged. */
  lemma ParentDone(orig: Presets, versions: (int, int), status: map<string, CycleStatus>, ps: Presets, qs: Presets,
      us: Presets,
                   r: Progress, s: Progress, u: Progress, active: set<string>, x: string, k: nat)
    requires x in orig && x !in active && k < |orig[x].inherits| && x in qs && orig[x].inherits[k] in orig
    requires Grows(orig, ps, qs, r, s, active) && Grows(orig, qs, us, s, u, active + {x})
    requires Visiting(orig, qs, s, x, k) && NotAmong(orig[x].inherits, x, k)
    requires (forall y :: y in s.done ==> y in s.wanted)
    requires Inheriting(orig, versions, us, u, active + {x}) && (x in r.done ==> HasChild(orig, x))
    requires ParentsVisited(orig, status, r, s, x, k) && (x in r.done <==> x in s.done)
    requires NewlyDone(orig, r, s, active, x)
    requires var y := orig[x].inherits[k];
      && y in u.done && y !in active + {x} && (y in s.done && !Marked(status, y, Verified) ==> y in u.twice)
      && NewlyDone(orig, s, u, active + {x}, y) && (!orig[x].user ==> !orig[y].user)
    ensures us.Keys == orig.Keys && x in us
    ensures var vs := us[x := Inherited(us[x], us[orig[x].inherits[k]])];
      && Inheriting(orig, versions, vs, u, active + {x}) && Visiting(orig, vs, u, x, k + 1)
         && Grows(orig, ps, vs, r, u, active)
    ensures (x in r.done <==> x in u.done) && r.done <= u.done && NotAmong(orig[x].inherits, x, k + 1)
    ensures ParentsVisited(orig, status, r, u, x, k + 1) && NewlyDone(orig, r, u, active, x)
  {
    hide Inheriting, Visiting, Grows, HasChild, Inherited, ParentsVisited, NewlyDone, NotAmong;
    var y := orig[x].inherits[k];
    NotAmongNext(orig[x].inherits, x, k);
    AfterParent(orig, status, ps, qs, us, r, s, u, active, x, k);
    ParentMerged(orig, versions, qs, us, s, u, active, x, k);
    GrowsOn(orig, ps, qs, us, us[x := Inherited(us[x], us[y])], r, s, u, active, x);
  }

  /** A generator or a build directory is missing, which a file may leave out from version
      3 on; or a kind of warning is off although its errors are on; or a cache variable has
      no name. */
  ghost predicate FieldFault(fields: map<Field, Value>, version: int) {
    || (version <= 2 && (Generator !in fields || BinaryDir !in fields))
    || (WarnDev in fields && fields[WarnDev] == Flag(false) && ErrorDev in fields && fields[ErrorDev] == Flag(true))
    || (WarnDeprecated in fields && fields[WarnDeprecated] == Flag(false)
        && ErrorDeprecated in fields && fields[ErrorDeprecated] == Flag(true))
    || CacheVariable("") in fields
  }

  /** A preset that is not hidden has a fault, by the version of its file: that of the
      user's presets, or of the project's. */
  ghost predicate Faulty(p: Preset, fields: map<Field, Value>, versions: (int, int)) {
    !p.hidden && FieldFault(fields, if p.user then versions.1 else versions.0)
  }

  lemma FaultyIsInvalid(p: Preset, versions: (int, int))
    ensures Faulty(p, p.values.fields, versions) <==> !FieldsValid(p, VersionOf(versions, p))
  {
  }

  /** The values x resolves to, its parents before it, have a fault. */
  ghost predicate InvalidAt(orig: Presets, versions: (int, int), ps: Presets, done: seq<string>, x: string) {
    Resolved(orig, ps, done) && x in done && x in orig && x in ps && Faulty(orig[x], ps[x].values.fields, versions)
  }

  /** Some preset lacks a field, or has contradictory ones, when everything is inherited. */
  ghost predicate FieldsInvalid(orig: Presets, versions: (int, int)) {
    exists ps, done, x :: InvalidAt(orig, versions, ps, done, x)
  }

  /** A visit that finds invalid fields has found the values the preset resolves to. */
  lemma IsInvalid(orig: Presets, versions: (int, int), ps: Presets, r: Progress, active: set<string>, x: string)
    requires x in orig && x in ps && Inheriting(orig, versions, ps, r, active + {x})
    requires Visiting(orig, ps, r, x, |orig[x].inherits|)
    requires !FieldsValid(Normalized(ps[x]), VersionOf(versions, Normalized(ps[x])))
    ensures FieldsInvalid(orig, versions)
  {
    hide Resolved, ConditionKnown, Visiting;
    if x in r.done {
      NormalizedValid(ps[x], VersionOf(versions, ps[x]));
      assert false;
    }
    FinishResolved(orig, ps, r, x);
    var p := orig[x].(values := ps[x].values);
    SameFieldsValid(Normalized(ps[x]), p, VersionOf(versions, p));
    FaultyIsInvalid(p, versions);
    assert InvalidAt(orig, versions, ps, r.done + [x], x);
  }

  /** When all presets are resolved and valid, no way of resolving them is invalid. */
  lemma NoneInvalid(orig: Presets, versions: (int, int), ps: Presets, r: Progress)
    requires Inheriting(orig, versions, ps, r, {}) && forall x :: x in orig ==> x in r.done
    ensures !FieldsInvalid(orig, versions)
  {
    hide ConditionKnown, FieldsValid;
    forall qs: Presets, done: seq<string>, x: string
      ensures !InvalidAt(orig, versions, qs, done, x)
    {
      if InvalidAt(orig, versions, qs, done, x) {
        forall y | y in done
          ensures y in r.done
        {
          var b :| 0 <= b < |done| && done[b] == y;
          assert ResolvedAt(orig, qs, done, b);
        }
        var a :| 0 <= a < |done| && done[a] == x;
        ResolvedIsUnique(orig, qs, ps, done, r.done, a);
        var p := orig[x].(values := qs[x].values);
        SameFieldsValid(ps[x], p, VersionOf(versions, p));
        FaultyIsInvalid(p, versions);
        assert false;
      }
    }
  }

  lemma IsMissing(orig: Presets, x: string, y: string)
    requires x in orig && y in orig[x].inherits && y !in orig
    ensures ParentMissing(orig)
  {
  }

  lemma IsUserInherited(orig: Presets, p: Preset, q: Preset, x: string, y: string)
    requires x in orig && y in orig[x].inherits && y in orig && Alike(p, orig[x]) && Alike(q, orig[y])
    requires !p.user && q.user
    ensures UserInherited(orig)
  {
  }

  /** All parents of x have been visited and merged: the visit ends. */
  lemma VisitFinishes(orig: Presets, versions: (int, int), status: map<string, CycleStatus>, ps: Presets, qs: Presets,
                      r: Progress, s: Progress, active: set<string>, x: string) returns (u: Progress)
    requires x in orig && x !in active && x in qs && Inheriting(orig, versions, qs, s, active + {x})
    requires Grows(orig, ps, qs, r, s, active)
    requires Visiting(orig, qs, s, x, |orig[x].inherits|) && (x in r.done <==> x in s.done)
    requires (x !in r.done ==> "" !in orig[x].values.environment)
    requires FieldsValid(Normalized(qs[x]), VersionOf(versions, Normalized(qs[x])))
    requires ParentsVisited(orig, status, r, s, x, |orig[x].inherits|) && NewlyDone(orig, r, s, active, x)
    ensures var vs := qs[x := Normalized(qs[x])];
      Inheriting(orig, versions, vs, u, active) && Grows(orig, ps, vs, r, u, active)
    ensures x in u.done && (x in r.done ==> x in u.twice)
    ensures ParentsVisited(orig, status, r, u, x, |orig[x].inherits|) && NewlyDone(orig, r, u, active, x)
  {
    hide Inheriting, Visiting, Grows, HasChild, FieldsValid, Normalized, ParentsVisited, NewlyDone;
    InheritingFacts(orig, versions, qs, s, active + {x});
    if x in s.done {
      u := FinishAgain(orig, versions, qs, s, active, x);
      AgainGrows(orig, qs, s, u, active, x);
    } else {
      NormalizedValidBack(versions, qs[x]);
      NoneUnnamed(orig, versions, qs, s, active + {x}, x);
      u := FinishFirst(orig, versions, qs, s, active, x);
    }
    FinishedDone(orig, r, s, u, active, x);
    GrowsFacts(orig, qs, qs[x := Normalized(qs[x])], s, u, active);
    ParentsVisitedStay(orig, status, r, s, u, x, |orig[x].inherits|);
    GrowsEnd(orig, ps, qs, qs[x := Normalized(qs[x])], r, s, u, active);
  }

  lemma NoneVisited(orig: Presets, status: map<string, CycleStatus>, r: Progress, active: set<string>, x: string)
    requires x in orig
    ensures ParentsVisited(orig, status, r, r, x, 0) && NewlyDone(orig, r, r, active, x)
    ensures NotAmong(orig[x].inherits, x, 0)
  {
  }

  lemma FinishedDone(orig: Presets, r: Progress, s: Progress, u: Progress, active: set<string>, x: string)
    requires NewlyDone(orig, r, s, active, x) && x !in active && (u.done == s.done || u.done == s.done + [x])
    ensures NewlyDone(orig, r, u, active, x)
  {
  }

  lemma ParentsVisitedStay(orig: Presets, status: map<string, CycleStatus>, r: Progress, s: Progress, u: Progress,
      x: string, k: nat)
    requires x in orig && k <= |orig[x].inherits| && ParentsVisited(orig, status, r, s, x, k)
    requires (s.done <= u.done) && (forall y :: y in s.twice ==> y in u.twice)
    ensures ParentsVisited(orig, status, r, u, x, k)
  {
    forall y | y in s.done
      ensures y in u.done
    {
      InDone(s, u, y);
    }
  }

  lemma StatusBelow(orig: Presets, ps: Presets, r: Progress, s: Progress, active: set<string>, status: map<string,
      CycleStatus>, next: map<string, CycleStatus>, x: string)
    requires next == status[x := InProgress] && forall y :: y in active <==> Marked(status, y, InProgress)
    requires forall y :: Marked(status, y, Verified) ==> y in r.done
    requires r.done <= s.done
    ensures forall y :: y in active + {x} <==> Marked(next, y, InProgress)
    ensures forall y :: Marked(next, y, Verified) ==> y in s.done
  {
    forall y | Marked(next, y, Verified)
      ensures y in s.done
    {
      assert Marked(status, y, Verified);
      InDone(r, s, y);
    }
  }

  /** What a visit reports first: that it is under way already, a variable without a name,
      and then of the first parent that it is missing or the user's. */
  ghost predicate Reported(orig: Presets, active: set<string>, name: string, result: ReadFileResult)
    requires name in orig
  {
    && (name in active ==> result == CYCLIC_PRESET_INHERITANCE)
    && (name !in active && "" in orig[name].values.environment ==> result == INVALID_PRESET)
    && (name !in active && "" !in orig[name].values.environment && orig[name].inherits != [] ==>
        var y := orig[name].inherits[0];
        && (y !in orig ==> result == INVALID_PRESET)
        && (y in orig && orig[y].user && !orig[name].user ==> result == USER_PRESET_INHERITANCE))
  }

  lemma CycleReports(orig: Presets, active: set<string>, name: string)
    requires name in orig && name in active
    ensures Reported(orig, active, name, CYCLIC_PRESET_INHERITANCE)
  {
  }

  lemma UnnamedReports(orig: Presets, active: set<string>, name: string)
    requires name in orig && name !in active && "" in orig[name].values.environment
    ensures Reported(orig, active, name, INVALID_PRESET)
  {
  }

  /** The first parent is there and may be inherited from. */
  ghost predicate FirstParentFine(orig: Presets, name: string)
    requires name in orig
  {
    orig[name].inherits != [] ==>
      orig[name].inherits[0] in orig && (orig[orig[name].inherits[0]].user ==> orig[name].user)
  }

  lemma FineReports(orig: Presets, active: set<string>, name: string)
    requires name in orig && name !in active && "" !in orig[name].values.environment && FirstParentFine(orig, name)
    ensures forall result :: Reported(orig, active, name, result)
  {
  }

  lemma ParentReports(orig: Presets, active: set<string>, name: string, k: nat)
    requires name in orig && name !in active && "" !in orig[name].values.environment && k < |orig[name].inherits|
    requires k > 0 ==> FirstParentFine(orig, name)
    ensures var y := orig[name].inherits[k];
      && (y !in orig ==> Reported(orig, active, name, INVALID_PRESET))
      && (y in orig && orig[y].user && !orig[name].user ==> Reported(orig, active, name, USER_PRESET_INHERITANCE))
      && (y in orig && (orig[y].user ==> orig[name].user) ==> FirstParentFine(orig, name))
  {
  }

  lemma NoParentIsFine(orig: Presets, name: string)
    requires name in orig && orig[name].inherits == []
    ensures FirstParentFine(orig, name)
  {
  }

  /** A resolved preset has nothing of that kind. */
  lemma ResolvedReports(orig: Presets, versions: (int, int), ps: Presets, r: Progress, active: set<string>, x: string)
    requires Inheriting(orig, versions, ps, r, active) && x in r.done && x !in active
    ensures x in orig && "" !in orig[x].values.environment && FirstParentFine(orig, x)
  {
    hide ConditionKnown, FieldsValid, Merged;
    var a :| 0 <= a < |r.done| && r.done[a] == x;
    assert ResolvedAt(orig, ps, r.done, a);
    MergedIsFirst(orig, ps, x, |orig[x].inherits|, "");
  }

  lemma StillReports(orig: Presets, name: string, result: ReadFileResult)
    requires name in orig && Reported(orig, {}, name, READ_OK)
    ensures Reported(orig, {}, name, result)
  {
  }

  class PresetsFile {
    var presets: Presets
    const versions: (int, int)   // of the project file and of the user file

    constructor (ps: Presets, projectVersion: int, userVersion: int)
      ensures presets == ps && versions == (projectVersion, userVersion)
    {
      presets := ps;
      versions := (projectVersion, userVersion);
    }

    /** Check the inheritance of one preset and bubble up what it inherits. The
        statuses are passed by value, so a preset may be visited more than once. */
    method VisitPreset(name: string, cycleStatus: map<string, CycleStatus>, ghost orig: Presets, ghost r: Progress,
        ghost active: set<string>)
      returns (result: ReadFileResult, ghost s: Progress)
      requires name in orig && Inheriting(orig, versions, presets, r, active)
      requires forall x :: x in active <==> Marked(cycleStatus, x, InProgress)
      requires forall x :: Marked(cycleStatus, x, Verified) ==> x in r.done
      requires name in r.done ==> HasChild(orig, name)
      requires forall a :: a in active ==> Below(orig, a, name)
      modifies this
      ensures result == READ_OK ==>
        Inheriting(orig, versions, presets, s, active) && Grows(orig, old(presets), presets, r, s, active)
      ensures result == READ_OK ==> name in s.done && name !in active
      ensures result == READ_OK && !Marked(cycleStatus, name, Verified) && name in r.done ==> name in s.twice
      ensures result == READ_OK && !Marked(cycleStatus, name, Verified) ==>
        ParentsVisited(orig, cycleStatus, r, s, name, |orig[name].inherits|)
      ensures result == READ_OK ==> NewlyDone(orig, r, s, active, name)
      ensures result == CYCLIC_PRESET_INHERITANCE ==> InheritanceCycle(orig)
      ensures result == USER_PRESET_INHERITANCE ==> UserInherited(orig)
      ensures result == INVALID_PRESET ==> UnnamedVariable(orig) || ParentMissing(orig) || FieldsInvalid(orig, versions)
      ensures Reported(orig, active, name, result)
      decreases orig.Keys - active
    {
      hide Inheriting, Visiting, Grows, HasChild, FieldsValid, Normalized, Inherited, ParentsVisited, NewlyDone,
        UnnamedVariable, FieldsInvalid, Below, NotAmong, ParentMissing, UserInherited, InheritanceCycle, Reported,
        FirstParentFine;
      NoneVisited(orig, cycleStatus, r, active, name);
      s := r;
      if name in cycleStatus && cycleStatus[name] == InProgress {
        BelowSelf(orig, name);
        CycleReports(orig, active, name);
        return CYCLIC_PRESET_INHERITANCE, s;
      }
      InheritingFacts(orig, versions, presets, r, active);
      VisitStarts(orig, versions, presets, r, active, name);
      if name in r.done { ResolvedReports(orig, versions, presets, r, active, name); }
      if name in cycleStatus && cycleStatus[name] == Verified {
        FineReports(orig, active, name);
        return READ_OK, s;
      }

      var status := cycleStatus[name := InProgress];

      if "" in presets[name].values.environment {
        UnnamedReports(orig, active, name);
        return INVALID_PRESET, s;
      }

      var inherits := presets[name].inherits;
      if inherits == [] { NoParentIsFine(orig, name); }
      for k := 0 to |inherits|
        invariant Inheriting(orig, versions, presets, s, active + {name})
        invariant Grows(orig, old(presets), presets, r, s, active)
        invariant presets.Keys == orig.Keys && name in presets && Visiting(orig, presets, s, name, k)
        invariant (name in r.done <==> name in s.done) && r.done <= s.done
        invariant NotAmong(inherits, name, k)
        invariant ParentsVisited(orig, cycleStatus, r, s, name, k)
        invariant NewlyDone(orig, r, s, active, name)
        invariant k > 0 ==> FirstParentFine(orig, name)
      {
        var i := inherits[k];
        InheritingFacts(orig, versions, presets, s, active + {name});
        ParentReports(orig, active, name, k);
        if i !in presets {
          IsMissing(orig, name, i);
          return INVALID_PRESET, s;
        }
        if !presets[name].user && presets[i].user {
          IsUserInherited(orig, presets[name], presets[i], name, i);
          return USER_PRESET_INHERITANCE, s;
        }

        FineReports(orig, active, name);
        ghost var before, r1 := presets, s;
        IsChild(orig, name, i);
        BelowOn(orig, active, name, i);
        StatusBelow(orig, before, r, s, active, cycleStatus, status, name);
        result, s := VisitPreset(i, status, orig, s, active + {name});
        if result != READ_OK {
          return;
        }

        ParentDone(orig, versions, cycleStatus, old(presets), before, presets, r, r1, s, active, name, k);
        presets := presets[name := Inherited(presets[name], presets[i])];
      }

      FineReports(orig, active, name);
      // A null condition has done its work.
      ghost var before, r1 := presets, s;
      InheritingFacts(orig, versions, presets, s, active + {name});
      presets := presets[name := Normalized(presets[name])];
      if !FieldsValid(presets[name], VersionOf(versions, presets[name])) {
        IsInvalid(orig, versions, before, s, active, name);
        return INVALID_PRESET, s;
      }
      s := VisitFinishes(orig, versions, cycleStatus, old(presets), before, r, r1, active, name);
      result := READ_OK;
    }

    /** Resolve every preset, in the order in which the map lists them. */
    method ComputePresetInheritance(order: seq<string>) returns (result: ReadFileResult, ghost r: Progress)
      requires forall x :: x in order <==> x in presets
      requires forall a, b :: 0 <= a < b < |order| ==> order[a] != order[b]
      modifies this
      ensures result == READ_OK ==> AllResolved(old(presets), versions, presets, r)
      ensures result == READ_OK <==>
        && !InheritanceCycle(old(presets)) && !ParentMissing(old(presets)) && !UserInherited(old(presets))
        && !UnnamedVariable(old(presets)) && !FieldsInvalid(old(presets), versions)
      ensures result == READ_OK ==> forall x :: x in presets ==>
        !Faulty(presets[x], presets[x].values.fields, versions)
      ensures result == READ_OK ==>
        ((forall x :: x in presets ==> x in r.wanted && presets[x].condition == r.wanted[x])
          <==> !exists x :: NullOverridden(old(presets), r.wanted, x))
      ensures result == CYCLIC_PRESET_INHERITANCE ==> InheritanceCycle(old(presets))
      ensures result == USER_PRESET_INHERITANCE ==> UserInherited(old(presets))
      ensures result == INVALID_PRESET ==>
        UnnamedVariable(old(presets)) || ParentMissing(old(presets)) || FieldsInvalid(old(presets), versions)
      ensures order != [] ==> Reported(old(presets), {}, order[0], result)
    {
      hide Inheriting, Grows, RoundsDone, HasChild, ParentsVisited, NewlyDone, AllResolved, NullOverridden,
        InheritanceCycle, ParentMissing, UserInherited, UnnamedVariable, FieldsInvalid, Faulty, Reported;
      ghost var orig := presets;
      var cycleStatus := map x | x in presets :: Unvisited;
      r := Progress([], map[], {});
      NothingResolved(orig, versions, order);

      for i := 0 to |order|
        invariant Inheriting(orig, versions, presets, r, {})
        invariant RoundsDone(orig, order, i, r)
        invariant i > 0 ==> Reported(orig, {}, order[0], READ_OK)
      {
        ghost var before, r1 := presets, r;
        RoundStarts(orig, order, i, r);
        result, r := VisitPreset(order[i], cycleStatus, orig, r, {});
        if result != READ_OK {
          if i > 0 { StillReports(orig, order[0], result); }
          return;
        }
        RoundReturns(orig, versions, cycleStatus, before, presets, order, i, r1, r);
      }
      result := READ_OK;
      RoundsOver(orig, versions, presets, order, r);
    }
  }

  /** Every preset is resolved, parents first, and keeps what it said itself. */
  ghost predicate AllResolved(orig: Presets, versions: (int, int), ps: Presets, r: Progress) {
    && ps.Keys == orig.Keys
    && (forall x :: x in orig ==> Alike(ps[x], orig[x]))
    && (forall x :: x in r.done <==> x in orig)
    && (forall a, b :: 0 <= a < b < |r.done| ==> r.done[a] != r.done[b])
    && Resolved(orig, ps, r.done)
    && (forall x :: x in orig ==> x in r.wanted && r.wanted[x] == WantedCondition(orig, r.wanted, x))
  }

  /** The first i presets of the order have been visited. */
  ghost predicate RoundsDone(orig: Presets, order: seq<string>, i: nat, r: Progress)
    requires i <= |order|
  {
    && (forall j :: 0 <= j < i ==> order[j] in r.done)
    && (forall x :: x in r.done ==> x in order[..i] || HasChild(orig, x))
    && (forall z, y :: z in order[..i] && z in orig && y in orig[z].inherits ==>
          y in r.done && (y in order[..i] ==> y in r.twice))
  }

  lemma NothingResolved(orig: Presets, versions: (int, int), order: seq<string>)
    ensures Inheriting(orig, versions, orig, Progress([], map[], {}), {})
    ensures RoundsDone(orig, order, 0, Progress([], map[], {}))
  {
  }

  lemma RoundStarts(orig: Presets, order: seq<string>, i: nat, r: Progress)
    requires i < |order| && RoundsDone(orig, order, i, r) && forall a, b :: 0 <= a < b < |order| ==>
      order[a] != order[b]
    ensures order[i] in r.done ==> HasChild(orig, order[i])
  {
  }

  lemma RoundEnds(orig: Presets, status: map<string, CycleStatus>, order: seq<string>, i: nat, r: Progress, s: Progress)
    requires i < |order| && order[i] in orig && RoundsDone(orig, order, i, r)
    requires (forall a, b :: 0 <= a < b < |order| ==> order[a] != order[b]) && forall y :: !Marked(status, y, Verified)
    requires order[i] in s.done && (order[i] in r.done ==> order[i] in s.twice)
    requires ParentsVisited(orig, status, r, s, order[i], |orig[order[i]].inherits|)
    requires NewlyDone(orig, r, s, {}, order[i]) && order[i] !in orig[order[i]].inherits
    requires r.done <= s.done && r.twice <= s.twice
    ensures RoundsDone(orig, order, i + 1, s)
  {
    hide HasChild;
    assert order[..i + 1] == order[..i] + [order[i]];
    forall x | x in r.done
      ensures x in s.done
    {
      InDone(r, s, x);
    }
    forall z, y | z in order[..i + 1] && z in orig && y in orig[z].inherits
      ensures y in s.done && (y in order[..i + 1] ==> y in s.twice)
    {
      if z == order[i] {
        var j :| 0 <= j < |orig[z].inherits| && orig[z].inherits[j] == y;
        if y in order[..i] {
          var k :| 0 <= k < i && order[..i][k] == y;
          assert order[k] in r.done;
        }
      } else {
        assert z in order[..i];
      }
    }
  }

  lemma RoundReturns(orig: Presets, versions: (int, int), status: map<string, CycleStatus>, ps: Presets, qs: Presets,
      order: seq<string>, i: nat, r: Progress, s: Progress)
    requires i < |order| && order[i] in orig && RoundsDone(orig, order, i, r)
    requires (forall a, b :: 0 <= a < b < |order| ==> order[a] != order[b]) && forall y :: !Marked(status, y, Verified)
    requires Inheriting(orig, versions, qs, s, {}) && Grows(orig, ps, qs, r, s, {})
    requires order[i] in s.done && (order[i] in r.done ==> order[i] in s.twice)
    requires ParentsVisited(orig, status, r, s, order[i], |orig[order[i]].inherits|)
    requires NewlyDone(orig, r, s, {}, order[i])
    ensures RoundsDone(orig, order, i + 1, s)
  {
    hide RoundsDone, ParentsVisited, NewlyDone, ConditionKnown, FieldsValid;
    var x := order[i];
    var a :| 0 <= a < |s.done| && s.done[a] == x;
    assert ResolvedAt(orig, qs, s.done, a);
    RoundEnds(orig, status, order, i, r, s);
  }

  lemma NoneWasUnnamed(orig: Presets, versions: (int, int), ps: Presets, r: Progress)
    requires Inheriting(orig, versions, ps, r, {}) && forall x :: x in orig ==> x in r.done
    ensures !UnnamedVariable(orig)
  {
    hide ConditionKnown, FieldsValid, Merged;
    forall x | x in orig
      ensures "" !in orig[x].values.environment
    {
      var a :| 0 <= a < |r.done| && r.done[a] == x;
      assert ResolvedAt(orig, ps, r.done, a);
      MergedIsFirst(orig, ps, x, |orig[x].inherits|, "");
    }
  }

  lemma NoneFaulty(orig: Presets, versions: (int, int), ps: Presets, r: Progress)
    requires Inheriting(orig, versions, ps, r, {}) && forall x :: x in orig ==> x in r.done
    ensures forall x :: x in ps ==> !Faulty(ps[x], ps[x].values.fields, versions)
  {
    hide Resolved, ConditionKnown, FieldsValid, Faulty, ListsAgree;
    forall x | x in ps
      ensures !Faulty(ps[x], ps[x].values.fields, versions)
    {
      FaultyIsInvalid(ps[x], versions);
    }
  }

  lemma RoundsOver(orig: Presets, versions: (int, int), ps: Presets, order: seq<string>, r: Progress)
    requires Inheriting(orig, versions, ps, r, {}) && RoundsDone(orig, order, |order|, r)
    requires forall x :: x in order <==> x in orig
    ensures AllResolved(orig, versions, ps, r) && !FieldsInvalid(orig, versions)
    ensures forall x :: x in ps ==> !Faulty(ps[x], ps[x].values.fields, versions)
    ensures !InheritanceCycle(orig) && !ParentMissing(orig) && !UserInherited(orig) && !UnnamedVariable(orig)
    ensures (forall x :: x in ps ==> x in r.wanted && ps[x].condition == r.wanted[x])
      <==> !exists x :: NullOverridden(orig, r.wanted, x)
  {
    hide InheritanceCycle, ParentMissing, UserInherited, UnnamedVariable, FieldsInvalid, Resolved,
      Faulty;
    assert order[..|order|] == order;
    forall x | x in orig
      ensures x in r.done && x in r.wanted && r.wanted[x] == WantedCondition(orig, r.wanted, x)
    {
      var j :| 0 <= j < |order| && order[j] == x;
      assert ConditionKnown(orig, ps, r, x);
    }
    NoneFaulty(orig, versions, ps, r);
    ResolvedIsAcyclic(orig, ps, r.done);
    NoneWasUnnamed(orig, versions, ps, r);
    NoneInvalid(orig, versions, ps, r);
    forall x | NullOverridden(orig, r.wanted, x)
      ensures x in r.twice && ps[x].condition != r.wanted[x]
    {
      var z :| z in orig && x in orig[z].inherits;
      assert z in order[..|order|] && x in order[..|order|];
      assert ConditionKnown(orig, ps, r, x);
    }
    if !exists x :: NullOverridden(orig, r.wanted, x) {
      forall x | x in ps
        ensures ps[x].condition == r.wanted[x]
      {
        assert ConditionKnown(orig, ps, r, x);
      }
    }
  }
}
