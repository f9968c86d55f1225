/** Side effects of building a target, collected over everything it depends on, and
    the link dependencies that may be dropped because of them (CollectSideEffects and
    OptimizeLinkDependencies in cmComputeTargetDepends). */
module SideEffects {
  import opened Wrappers
  import opened TargetTypes
  import opened Graphs

  /** Targets whose custom commands, or whose sources of a language, must be built first. */
  datatype TargetSideEffects = TargetSideEffects(custom: set<nat>, language: map<string, set<nat>>)

  /** A target, as far as its dependencies depend on it. */
  datatype GeneratorTarget = GeneratorTarget(
    kind: TargetType,
    own: TargetSideEffects,                    // its own side effects
    optimizeDependencies: Option<bool>,        // OPTIMIZE_DEPENDENCIES, if set
    languages: seq<string>)                    // languages it compiles

  const NO_EFFECTS := TargetSideEffects({}, map[])

  function Merge(a: TargetSideEffects, b: TargetSideEffects): TargetSideEffects {
    TargetSideEffects(a.custom + b.custom,
      map lang | lang in a.language.Keys + b.language.Keys ::
        (if lang in a.language then a.language[lang] else {}) + (if lang in b.language then b.language[lang] else {}))
  }

  /** What kind of effect: a custom command, or a language. */
  datatype Kind = Custom | Language(name: string)

  ghost predicate Has(e: TargetSideEffects, kind: Kind, t: nat) {
    match kind
    case Custom => t in e.custom
    case Language(name) => name in e.language && t in e.language[name]
  }

  lemma MergeHas(a: TargetSideEffects, b: TargetSideEffects, kind: Kind, t: nat)
    ensures Has(Merge(a, b), kind, t) <==> Has(a, kind, t) || Has(b, kind, t)
  {
  }

  ghost predicate Includes(e: TargetSideEffects, d: TargetSideEffects) {
    forall kind, t: nat :: Has(d, kind, t) ==> Has(e, kind, t)
  }

  /** Some target that v reaches has the effect itself. */
  ghost predicate ReachesEffect(g: Graph, targets: seq<GeneratorTarget>, v: nat, kind: Kind, t: nat) {
    exists w: nat :: w < |targets| && Reach(g, v, w) && Has(targets[w].own, kind, t)
  }

  /** Nothing is recorded for v that no target it reaches has. */
  ghost predicate Sound(g: Graph, targets: seq<GeneratorTarget>, e: TargetSideEffects, v: nat) {
    forall kind, t: nat :: Has(e, kind, t) ==> ReachesEffect(g, targets, v, kind, t)
  }

  /** Everything that a target v reaches has is recorded for v. */
  ghost predicate Complete(g: Graph, targets: seq<GeneratorTarget>, e: TargetSideEffects, v: nat) {
    forall kind, t: nat :: ReachesEffect(g, targets, v, kind, t) ==> Has(e, kind, t)
  }

  /** v reaches no cycle. */
  ghost predicate CycleFree(g: Graph, v: nat) {
    forall w: nat, n: nat :: 0 < n && Reach(g, v, w) ==> !ReachIn(g, w, w, n)
  }

  // ----- dropping link dependencies

  /** The targets a compile with these languages must wait for, given the effects of
      a link dependency. */
  function WantedFor(languages: seq<string>, e: TargetSideEffects): set<nat> {
    if languages == [] then e.custom
    else
      var lang := languages[|languages| - 1];
      WantedFor(languages[..|languages| - 1], e) + (if lang in e.language then e.language[lang] else {})
  }

  lemma {:induction false} WantedForIs(languages: seq<string>, e: TargetSideEffects, t: nat)
    ensures t in WantedFor(languages, e) <==>
      Has(e, Custom, t) || exists lang :: lang in languages && Has(e, Language(lang), t)
  {
    if languages != [] {
      var front, last := languages[..|languages| - 1], languages[|languages| - 1];
      WantedForIs(front, e, t);
      assert languages == front + [last];
      if lang :| lang in front && Has(e, Language(lang), t) { assert lang in languages; }
      if lang :| lang in languages && Has(e, Language(lang), t) { assert lang in front || lang == last; }
      assert last in languages && (Has(e, Language(last), t) <==> last in e.language && t in e.language[last]);
    }
  }

  /** The same over all weak edges of a list. */
  ghost function WantedByAll(languages: seq<string>, record: seq<TargetSideEffects>, es: seq<Edge>): set<nat>
    requires forall k :: 0 <= k < |es| ==> es[k].dest < |record|
  {
    if es == [] then {}
    else
      var last := es[|es| - 1];
      var wanted := if last.strong then {} else WantedFor(languages, record[last.dest]);
      WantedByAll(languages, record, es[..|es| - 1]) + wanted
  }

  /** t is wanted because of a weak edge, whose flags are given. */
  ghost predicate WantedBy(languages: seq<string>, record: seq<TargetSideEffects>, es: seq<Edge>, t: nat, k: nat) {
    k < |es| && !es[k].strong && es[k].dest < |record| && t in WantedFor(languages, record[es[k].dest])
  }

  lemma {:induction false} WantedByAllIs(languages: seq<string>, record: seq<TargetSideEffects>, es: seq<Edge>, t: nat)
    requires forall k :: 0 <= k < |es| ==> es[k].dest < |record|
    ensures t in WantedByAll(languages, record, es) <==> exists k: nat :: WantedBy(languages, record, es, t, k)
  {
    if es != [] {
      var front := es[..|es| - 1];
      WantedByAllIs(languages, record, front, t);
      if k: nat :| WantedBy(languages, record, front, t, k) { assert WantedBy(languages, record, es, t, k); }
      if k: nat :| WantedBy(languages, record, es, t, k) {
        if k < |front| { assert WantedBy(languages, record, front, t, k); }
      }
      if !es[|es| - 1].strong && t in WantedFor(languages, record[es[|es| - 1].dest]) {
        assert WantedBy(languages, record, es, t, |es| - 1);
      }
    }
  }

  ghost function StrongOnly(es: seq<Edge>): seq<Edge> {
    if es == [] then []
    else StrongOnly(es[..|es| - 1]) + (if es[|es| - 1].strong then [es[|es| - 1]] else [])
  }

  ghost predicate WeakTo(es: seq<Edge>, t: nat) {
    exists k :: 0 <= k < |es| && !es[k].strong && es[k].dest == t
  }

  /** Weak edges have different destinations, exactly those in emitted. */
  ghost predicate WeakExactly(es: seq<Edge>, emitted: set<nat>) {
    && (forall t: nat :: WeakTo(es, t) <==> t in emitted)
    && (forall a, b :: 0 <= a < b < |es| && !es[a].strong && !es[b].strong ==> es[a].dest != es[b].dest)
  }

  /** Each weak edge takes its flags from a weak edge it is wanted by. */
  ghost predicate WeakExplained(languages: seq<string>, record: seq<TargetSideEffects>, es: seq<Edge>, out: seq<Edge>) {
    forall a :: 0 <= a < |out| && !out[a].strong ==>
      exists k: nat :: WantedBy(languages, record, es, out[a].dest, k) && out[a].cross == es[k].cross
        && out[a].trace == es[k].trace
  }

  // ----- the order in which edges are pushed

  /** t is wanted because of edge k: as a custom command when l is 0, and otherwise for
      language l, counted from 1. */
  ghost predicate WantedAt(languages: seq<string>, record: seq<TargetSideEffects>, es: seq<Edge>, t: nat, k: nat,
      l: nat) {
    && k < |es| && !es[k].strong && es[k].dest < |record| && l <= |languages|
    && Has(record[es[k].dest], if l == 0 then Custom else Language(languages[l - 1]), t)
  }

  ghost predicate Earlier(k: nat, l: nat, m: nat, n: nat) {
    k < m || (k == m && l < n)
  }

  /** The edge is edge k itself, if that is strong, and else leads to a target that k and
      l are the first to ask for, with the flags of edge k. */
  ghost predicate PushedAt(languages: seq<string>, record: seq<TargetSideEffects>, es: seq<Edge>, e: Edge, k: nat,
      l: nat) {
    && k < |es|
    && if e.strong then e == es[k] && l == 0
       else && WantedAt(languages, record, es, e.dest, k, l) && e.cross == es[k].cross && e.trace == es[k].trace
            && forall m: nat, n: nat :: WantedAt(languages, record, es, e.dest, m, n) ==> !Earlier(m, n, k, l)
  }

  /** Edges come in the order of what they are pushed for, and strong ones one by one;
      ks and ls say what that is. */
  ghost predicate Staged(languages: seq<string>, record: seq<TargetSideEffects>, es: seq<Edge>, out: seq<Edge>,
      ks: seq<nat>, ls: seq<nat>) {
    && |ks| == |ls| == |out|
    && (forall a :: 0 <= a < |out| ==> PushedAt(languages, record, es, out[a], ks[a], ls[a]))
    && (forall a, b :: 0 <= a < b < |out| ==> !Earlier(ks[b], ls[b], ks[a], ls[a]))
    && (forall a, b :: 0 <= a < b < |out| && (out[a].strong || out[b].strong) ==> ks[a] < ks[b])
  }

  ghost predicate InStages(languages: seq<string>, record: seq<TargetSideEffects>, es: seq<Edge>, out: seq<Edge>) {
    exists ks, ls :: Staged(languages, record, es, out, ks, ls)
  }

  /** What came before edge k and stage l has been pushed, and is in emitted. */
  ghost predicate StagedTo(languages: seq<string>, record: seq<TargetSideEffects>, es: seq<Edge>, out: seq<Edge>,
      ks: seq<nat>, ls: seq<nat>, emitted: set<nat>, k: nat, l: nat) {
    && Staged(languages, record, es, out, ks, ls)
    && (forall a :: 0 <= a < |out| ==> Earlier(ks[a], ls[a], k, l))
    && (forall t: nat, m: nat, n: nat :: WantedAt(languages, record, es, t, m, n) && Earlier(m, n, k, l) ==>
          t in emitted)
  }

  lemma NothingStaged(languages: seq<string>, record: seq<TargetSideEffects>, es: seq<Edge>)
    ensures StagedTo(languages, record, es, [], [], [], {}, 0, 0)
  {
  }

  lemma StrongStaged(languages: seq<string>, record: seq<TargetSideEffects>, es: seq<Edge>, out: seq<Edge>,
      ks: seq<nat>, ls: seq<nat>, emitted: set<nat>, k: nat)
    requires StagedTo(languages, record, es, out, ks, ls, emitted, k, 0) && k < |es| && es[k].strong
    ensures StagedTo(languages, record, es, out + [es[k]], ks + [k], ls + [0], emitted, k + 1, 0)
  {
    hide WantedAt;
    StrongWantsNothing(languages, record, es, k);
  }

  lemma StrongWantsNothing(languages: seq<string>, record: seq<TargetSideEffects>, es: seq<Edge>, k: nat)
    requires k < |es| && es[k].strong
    ensures forall t: nat, n: nat :: !WantedAt(languages, record, es, t, k, n)
  {
  }

  /** The targets wanted at one stage have been pushed. */
  lemma StagePushed(languages: seq<string>, record: seq<TargetSideEffects>, es: seq<Edge>, out: seq<Edge>,
      next: seq<Edge>, ks: seq<nat>, ls: seq<nat>, emitted: set<nat>, k: nat, l: nat, deps: set<nat>)
    requires StagedTo(languages, record, es, out, ks, ls, emitted, k, l) && k < |es| && !es[k].strong
    requires Pushed(out, next, es[k], deps)
    requires forall a :: |out| <= a < |next| ==> next[a].dest !in emitted
    requires forall t: nat :: t in deps <==> WantedAt(languages, record, es, t, k, l)
    ensures var d := |next| - |out|;
      d >= 0
      && StagedTo(languages, record, es, next, ks + seq(d, _ => k), ls + seq(d, _ => l), emitted + deps, k, l + 1)
  {
    hide WantedAt;
    var d := |next| - |out|;
    var ms, ns := ks + seq(d, _ => k), ls + seq(d, _ => l);
    forall a | 0 <= a < |next|
      ensures PushedAt(languages, record, es, next[a], ms[a], ns[a]) && Earlier(ms[a], ns[a], k, l + 1)
    {
      if a < |out| {
        assert next[a] == out[a] && PushedAt(languages, record, es, out[a], ks[a], ls[a]);
      } else {
        assert ms[a] == k && ns[a] == l;
      }
    }
    forall a, b | 0 <= a < b < |next|
      ensures !Earlier(ms[b], ns[b], ms[a], ns[a])
      ensures next[a].strong || next[b].strong ==> ms[a] < ms[b]
    {
      if b < |out| {
        assert next[a] == out[a] && next[b] == out[b];
      } else if a < |out| {
        assert next[a] == out[a] && PushedAt(languages, record, es, out[a], ks[a], ls[a]);
        if next[a].strong { StrongIsOther(languages, record, es, out, ks, ls, emitted, k, l, a); }
      }
    }
  }

  /** A strong edge that has been pushed is not the weak edge k. */
  lemma StrongIsOther(languages: seq<string>, record: seq<TargetSideEffects>, es: seq<Edge>, out: seq<Edge>,
      ks: seq<nat>, ls: seq<nat>, emitted: set<nat>, k: nat, l: nat, a: nat)
    requires StagedTo(languages, record, es, out, ks, ls, emitted, k, l) && k < |es| && !es[k].strong
    requires a < |out| && out[a].strong
    ensures ks[a] < k
  {
    hide WantedAt;
    assert PushedAt(languages, record, es, out[a], ks[a], ls[a]);
  }

  /** All stages of edge k are done. */
  lemma EdgeStaged(languages: seq<string>, record: seq<TargetSideEffects>, es: seq<Edge>, out: seq<Edge>,
      ks: seq<nat>, ls: seq<nat>, emitted: set<nat>, k: nat)
    requires StagedTo(languages, record, es, out, ks, ls, emitted, k, |languages| + 1)
    ensures StagedTo(languages, record, es, out, ks, ls, emitted, k + 1, 0)
  {
  }

  lemma AllStaged(languages: seq<string>, record: seq<TargetSideEffects>, es: seq<Edge>, out: seq<Edge>,
      ks: seq<nat>, ls: seq<nat>, emitted: set<nat>)
    requires StagedTo(languages, record, es, out, ks, ls, emitted, |es|, 0)
    ensures InStages(languages, record, es, out)
  {
  }

  /** What is wanted at one stage. */
  lemma WantedHere(languages: seq<string>, record: seq<TargetSideEffects>, es: seq<Edge>, k: nat, l: nat)
    requires k < |es| && !es[k].strong && es[k].dest < |record| && l <= |languages|
    ensures var e := record[es[k].dest];
      forall t: nat :: WantedAt(languages, record, es, t, k, l) <==>
        t in (if l == 0 then e.custom
              else if languages[l - 1] in e.language then e.language[languages[l - 1]] else {})
  {
  }

  /** The reduced edges of a target whose link dependencies are optimized: its strong
      edges, and one weak edge to each target it must still wait for, in the order in
      which they are asked for. */
  ghost predicate Optimized(languages: seq<string>, record: seq<TargetSideEffects>, es: seq<Edge>, out: seq<Edge>) {
    && (forall k :: 0 <= k < |es| ==> es[k].dest < |record|)
    && StrongOnly(out) == StrongOnly(es)
    && WeakExactly(out, WantedByAll(languages, record, es))
    && WeakExplained(languages, record, es, out)
    && InStages(languages, record, es, out)
  }

  /** The edges pushed for one weak edge and one set of targets. */
  ghost predicate Pushed(before: seq<Edge>, after: seq<Edge>, e: Edge, deps: set<nat>) {
    && before <= after
    && (forall a :: |before| <= a < |after| ==>
        !after[a].strong && after[a].dest in deps && after[a].cross == e.cross && after[a].trace == e.trace)
  }

  lemma NoLanguages(languages: seq<string>, e: TargetSideEffects)
    ensures WantedFor(languages[..0], e) == e.custom
  {
  }

  lemma WantedForNext(languages: seq<string>, e: TargetSideEffects, l: nat)
    requires l < |languages|
    ensures WantedFor(languages[..l + 1], e) ==
      WantedFor(languages[..l], e) + (if languages[l] in e.language then e.language[languages[l]] else {})
  {
    assert languages[..l + 1][..l] == languages[..l];
  }

  /** One more input edge. */
  lemma InputNext(languages: seq<string>, record: seq<TargetSideEffects>, es: seq<Edge>, k: nat)
    requires k < |es| && forall j :: 0 <= j < |es| ==> es[j].dest < |record|
    ensures WantedByAll(languages, record, es[..k + 1]) ==
      WantedByAll(languages, record, es[..k]) + (if es[k].strong then {} else WantedFor(languages, record[es[k].dest]))
    ensures StrongOnly(es[..k + 1]) == StrongOnly(es[..k]) + (if es[k].strong then [es[k]] else [])
  {
    assert es[..k + 1][..k] == es[..k];
  }

  lemma PushedNothing(a: seq<Edge>, b: seq<Edge>, e: Edge, deps: set<nat>)
    requires Pushed(a, b, e, deps)
    ensures Pushed(a, b, e, deps + {}) && Pushed(b, b, e, {})
  {
    assert deps + {} == deps;
  }

  lemma PushedOn(a: seq<Edge>, b: seq<Edge>, c: seq<Edge>, e: Edge, deps: set<nat>, more: set<nat>)
    requires Pushed(a, b, e, deps) && Pushed(b, c, e, more)
    ensures Pushed(a, c, e, deps + more)
  {
  }

  lemma {:induction false} StrongOnlyPush(es: seq<Edge>, more: seq<Edge>)
    requires forall a :: 0 <= a < |more| ==> !more[a].strong
    ensures StrongOnly(es + more) == StrongOnly(es)
  {
    if more == [] {
      assert es + more == es;
    } else {
      var front := more[..|more| - 1];
      assert (es + more)[..|es + more| - 1] == es + front;
      StrongOnlyPush(es, front);
    }
  }

  lemma WeakExactlyPush(es: seq<Edge>, emitted: set<nat>, e: Edge)
    requires WeakExactly(es, emitted) && !e.strong && e.dest !in emitted
    ensures WeakExactly(es + [e], emitted + {e.dest})
  {
    var out := es + [e];
    forall t: nat
      ensures WeakTo(out, t) <==> t in emitted + {e.dest}
    {
      if WeakTo(out, t) {
        var k :| 0 <= k < |out| && !out[k].strong && out[k].dest == t;
        if k < |es| { assert es[k].dest == t; assert WeakTo(es, t); }
      }
      if t in emitted {
        assert WeakTo(es, t);
        var k :| 0 <= k < |es| && !es[k].strong && es[k].dest == t;
        assert out[k].dest == t;
      }
      if t == e.dest { assert out[|es|].dest == t; }
    }
    forall a, b | 0 <= a < b < |out| && !out[a].strong && !out[b].strong
      ensures out[a].dest != out[b].dest
    {
      if b == |es| { assert WeakTo(es, es[a].dest); }
    }
  }

  lemma WeakExactlyStrong(es: seq<Edge>, emitted: set<nat>, e: Edge)
    requires WeakExactly(es, emitted) && e.strong
    ensures WeakExactly(es + [e], emitted) && StrongOnly(es + [e]) == StrongOnly(es) + [e]
  {
    assert (es + [e])[..|es|] == es;
    var out := es + [e];
    forall t: nat
      ensures WeakTo(out, t) <==> WeakTo(es, t)
    {
      if k :| 0 <= k < |es| && !es[k].strong && es[k].dest == t { assert out[k].dest == t; }
      if k :| 0 <= k < |out| && !out[k].strong && out[k].dest == t { assert k < |es| && es[k].dest == t; }
    }
  }

  /** One more input edge: what was explained stays so, and what was pushed is. */
  lemma ExplainedNext(languages: seq<string>, record: seq<TargetSideEffects>, es: seq<Edge>, k: nat, out: seq<Edge>,
      next: seq<Edge>)
    requires k < |es| && WeakExplained(languages, record, es[..k], out)
    requires es[k].dest < |record|
    requires if es[k].strong then next == out + [es[k]]
      else Pushed(out, next, es[k], WantedFor(languages, record[es[k].dest]))
    ensures WeakExplained(languages, record, es[..k + 1], next)
  {
    var upto := es[..k + 1];
    forall a | 0 <= a < |next| && !next[a].strong
      ensures exists j: nat ::
        WantedBy(languages, record, upto, next[a].dest, j) && next[a].cross == upto[j].cross
          && next[a].trace == upto[j].trace
    {
      if a < |out| {
        assert next[a] == out[a];
        var j: nat :| WantedBy(languages, record, es[..k], out[a].dest, j) && out[a].cross == es[..k][j].cross
          && out[a].trace == es[..k][j].trace;
        assert WantedBy(languages, record, upto, next[a].dest, j);
      } else {
        assert WantedBy(languages, record, upto, next[a].dest, k);
      }
    }
  }

  /** The intermediate edges of a target. */
  ghost predicate IntermediateEdges(target: GeneratorTarget, record: seq<TargetSideEffects>, es: seq<Edge>,
      out: seq<Edge>) {
    if (target.kind == StaticLibrary || target.kind == ObjectLibrary) && target.optimizeDependencies == Some(true)
    then Optimized(target.languages, record, es, out)
    else out == es
  }

  lemma {:induction false} StrongOnlyHas(es: seq<Edge>, e: Edge)
    ensures e in StrongOnly(es) <==> e in es && e.strong
  {
    if es != [] {
      var front, last := es[..|es| - 1], es[|es| - 1];
      StrongOnlyHas(front, e);
      assert es == front + [last];
    }
  }

  /** Every strong edge survives. */
  lemma IntermediateKeepsStrong(target: GeneratorTarget, record: seq<TargetSideEffects>, es: seq<Edge>,
      out: seq<Edge>, e: Edge)
    requires IntermediateEdges(target, record, es, out) && e.strong
    ensures e in out <==> e in es
  {
    StrongOnlyHas(es, e);
    StrongOnlyHas(out, e);
  }

  /** Of a weak edge to a target that reaches no cycle there remains a direct edge to
      every target with a custom-command side effect of its own behind it. */
  lemma IntermediateKeepsCustom(g: Graph, targets: seq<GeneratorTarget>, record: seq<TargetSideEffects>, i: nat,
      out: seq<Edge>, k: nat, t: nat)
    requires i < |g| == |targets| == |record| && k < |g[i]| && !g[i][k].strong && g[i][k].dest < |g|
    requires targets[i].kind == StaticLibrary || targets[i].kind == ObjectLibrary
    requires targets[i].optimizeDependencies == Some(true) && IntermediateEdges(targets[i], record, g[i], out)
    requires Complete(g, targets, record[g[i][k].dest], g[i][k].dest)
    requires t < |g| && t in targets[t].own.custom && Reach(g, g[i][k].dest, t)
    ensures WeakTo(out, t)
  {
    var j := g[i][k].dest;
    assert Has(targets[t].own, Custom, t);
    assert ReachesEffect(g, targets, j, Custom, t);
    assert Has(record[j], Custom, t);
    WantedForIs(targets[i].languages, record[j], t);
    assert WantedBy(targets[i].languages, record, g[i], t, k);
    WantedByAllIs(targets[i].languages, record, g[i], t);
  }

  /** A weak edge that remains leads to a target with a side effect behind one of the
      weak edges there were. */
  lemma IntermediateAddsNoOther(g: Graph, targets: seq<GeneratorTarget>, record: seq<TargetSideEffects>, i: nat,
      out: seq<Edge>, t: nat) returns (k: nat, kind: Kind)
    requires i < |g| == |targets| == |record| && WellFormed(g)
    requires targets[i].kind == StaticLibrary || targets[i].kind == ObjectLibrary
    requires targets[i].optimizeDependencies == Some(true) && IntermediateEdges(targets[i], record, g[i], out)
    requires forall j: nat :: j < |g| ==> Sound(g, targets, record[j], j)
    requires WeakTo(out, t)
    ensures k < |g[i]| && !g[i][k].strong && ReachesEffect(g, targets, g[i][k].dest, kind, t)
  {
    WantedByAllIs(targets[i].languages, record, g[i], t);
    k :| WantedBy(targets[i].languages, record, g[i], t, k);
    var j := g[i][k].dest;
    WantedForIs(targets[i].languages, record[j], t);
    if Has(record[j], Custom, t) {
      kind := Custom;
    } else {
      var lang :| lang in targets[i].languages && Has(record[j], Language(lang), t);
      kind := Language(lang);
    }
  }
}
