/** Macro expansion in presets (cmCMakePresetsFile): the two macro expanders, and
    VisitEnv, which expands an environment variable when it is first needed. */
module PresetMacros {
  import opened PresetText
  import opened PresetReferences
  import opened PresetConditions
  import opened Wrappers
  import opened PathNames
  import opened CycleStatuses

  // ----- the state of the expansion

  /** Variable a of the finished ones has the meaning of its text, which mentions only
      variables finished before it. */
  ghost predicate ExpandedAt(c: Context, orig: Environment, env: Environment, done: seq<string>, a: int)
    requires 0 <= a < |done|
  {
    var x := done[a];
    && IsVariable(orig, x) && IsVariable(env, x)
    && (forall y :: Mentions(orig, orig[x].value, y) ==> y in done[..a])
    && Expand(c, env, orig[x].value) == Text(env[x].value)
  }

  ghost predicate Expanded(c: Context, orig: Environment, env: Environment, done: seq<string>) {
    && (forall x :: x in orig <==> x in env)
    && (forall a, b :: 0 <= a < b < |done| ==> done[a] != done[b])
    && (forall x :: x in orig && x !in done ==> env[x] == orig[x])
    && (forall a :: 0 <= a < |done| ==> ExpandedAt(c, orig, env, done, a))
  }

  /** Later in the expansion: what was finished has not changed. */
  ghost predicate Extends(env: Environment, done: seq<string>, later: Environment, more: seq<string>) {
    done <= more && forall x :: x in done && x in env ==> x in later && later[x] == env[x]
  }

  lemma {:induction false} RenderFrame(c: Context, env: Environment, later: Environment, pieces: seq<Piece>)
    requires forall x :: x in env <==> x in later
    requires forall x :: x in env ==> (env[x].Some? <==> later[x].Some?)
    requires forall y :: Macro("env", y) in pieces && IsVariable(env, y) ==> later[y] == env[y]
    ensures Render(c, env, pieces) == Render(c, later, pieces)
  {
    if pieces != [] {
      var front, last := pieces[..|pieces| - 1], pieces[|pieces| - 1];
      RenderFrame(c, env, later, front);
    }
  }

  lemma ExpandFrame(c: Context, env: Environment, later: Environment, text: string)
    requires forall x :: x in env <==> x in later
    requires forall x :: x in env ==> (env[x].Some? <==> later[x].Some?)
    requires forall y :: Mentions(env, text, y) ==> later[y] == env[y]
    ensures Expand(c, env, text) == Expand(c, later, text)
  {
    RenderFrame(c, env, later, Parse(text).pieces);
  }

  lemma ExpandedKinds(c: Context, orig: Environment, env: Environment, done: seq<string>)
    requires Expanded(c, orig, env, done)
    ensures forall x :: x in orig ==> x in env && (env[x].Some? <==> orig[x].Some?)
    ensures forall y :: IsVariable(env, y) <==> IsVariable(orig, y)
  {
    forall x | x in orig && x in done
      ensures env[x].Some? && orig[x].Some?
    {
      var a :| 0 <= a < |done| && done[a] == x;
      assert ExpandedAt(c, orig, env, done, a);
    }
  }

  /** The values do not depend on the order in which variables are visited, nor on how
      they are found: only one environment satisfies the equations. */
  lemma {:induction false} ExpansionIsUnique(c: Context, orig: Environment, env: Environment, done: seq<string>,
      env': Environment, done': seq<string>, a: nat)
    requires Expanded(c, orig, env, done) && Expanded(c, orig, env', done')
    requires (forall x :: x in done ==> x in done') && a < |done|
    ensures done[a] in env && done[a] in env' && env[done[a]] == env'[done[a]]
    decreases a
  {
    var x := done[a];
    assert ExpandedAt(c, orig, env, done, a);
    assert x in done';
    var b :| 0 <= b < |done'| && done'[b] == x;
    assert ExpandedAt(c, orig, env', done', b);
    ExpandedKinds(c, orig, env, done);
    ExpandedKinds(c, orig, env', done');
    forall y | Mentions(env, orig[x].value, y)
      ensures env'[y] == env[y]
    {
      assert Mentions(orig, orig[x].value, y);
      var i :| 0 <= i < a && done[..a][i] == y;
      ExpansionIsUnique(c, orig, env, done, env', done', i);
    }
    ExpandFrame(c, env, env', orig[x].value);
  }

  lemma {:induction false} ExpandedWalk(c: Context, orig: Environment, env: Environment, done: seq<string>, a: nat,
      y: string, n: nat) returns (b: nat)
    requires Expanded(c, orig, env, done) && a < |done| && ReachesIn(orig, done[a], y, n)
    ensures b < |done| && done[b] == y && b + n <= a
    decreases n
  {
    hide Expand, Mentions;
    if n == 0 {
      b := a;
    } else {
      var x := done[a];
      assert ExpandedAt(c, orig, env, done, a);
      var z :| Mentions(orig, orig[x].value, z) && ReachesIn(orig, z, y, n - 1);
      var i :| 0 <= i < a && done[..a][i] == z;
      b := ExpandedWalk(c, orig, env, done, i, y, n - 1);
    }
  }

  lemma {:induction false} RenderGood(c: Context, env: Environment, pieces: seq<Piece>, p: Piece)
    requires Render(c, env, pieces).Text? && p in pieces
    ensures !IsBad(c, p) && (p.Macro? ==> p.space != "vendor")
  {
    var front, last := pieces[..|pieces| - 1], pieces[|pieces| - 1];
    if p != last {
      assert p in front by { var i :| 0 <= i < |pieces| && pieces[i] == p; assert front[i] == p; }
      RenderGood(c, env, front, p);
    }
  }

  lemma ExpandGood(c: Context, env: Environment, text: string)
    requires Expand(c, env, text).Text?
    ensures !BadText(c, text) && !VendorText(text)
  {
    forall p | p in Parse(text).pieces
      ensures !IsBad(c, p) && (p.Macro? ==> p.space != "vendor")
    {
      RenderGood(c, env, Parse(text).pieces, p);
    }
  }

  /** When every variable is expanded there is no cycle, and no text is in error. */
  lemma ExpandedIsSound(c: Context, orig: Environment, env: Environment, done: seq<string>)
    requires Expanded(c, orig, env, done) && forall x :: IsVariable(orig, x) ==> x in done
    ensures !ReferenceCycle(orig) && !SomeBadText(c, orig) && !SomeVendorText(orig)
  {
    forall x | IsVariable(orig, x)
      ensures !Reaches(orig, x, x) && !BadText(c, orig[x].value) && !VendorText(orig[x].value)
    {
      var a :| 0 <= a < |done| && done[a] == x;
      assert ExpandedAt(c, orig, env, done, a);
      ExpandGood(c, env, orig[x].value);
      if Reaches(orig, x, x) {
        var n: nat :| 0 < n && ReachesIn(orig, x, x, n);
        var b := ExpandedWalk(c, orig, env, done, a, x, n);
        assert false;
      }
    }
  }

  // ----- expanding the variables of a preset

  ghost predicate Expanding(c: Context, orig: Environment, env: Environment, status: map<string, CycleStatus>,
      done: seq<string>, active: set<string>) {
    && Expanded(c, orig, env, done) && active <= orig.Keys && status.Keys == orig.Keys
    && (forall x :: x in orig ==> (x in active <==> status[x] == InProgress))
    && (forall x :: x in orig ==> (x in done <==> status[x] == Verified))
  }

  /** Everything being expanded needs the variables that the text mentions. */
  ghost predicate AllBelow(orig: Environment, active: set<string>, text: string) {
    forall a, y :: a in active && Mentions(orig, text, y) ==> Reaches(orig, a, y)
  }

  ghost predicate AllDone(env: Environment, done: seq<string>) {
    forall x :: IsVariable(env, x) ==> x in done
  }

  lemma EnvironmentIsUnique(c: Context, orig: Environment, env: Environment, done: seq<string>, env': Environment,
      done': seq<string>)
    requires Expanded(c, orig, env, done) && AllDone(orig, done)
    requires Expanded(c, orig, env', done') && AllDone(orig, done')
    ensures env == env'
  {
    DoneAreVariables(c, orig, env, done);
    DoneAreVariables(c, orig, env', done');
    forall x | x in orig
      ensures env[x] == env'[x]
    {
      if x in done {
        var a :| 0 <= a < |done| && done[a] == x;
        ExpansionIsUnique(c, orig, env, done, env', done', a);
      }
    }
  }

  lemma DoneAreVariables(c: Context, orig: Environment, env: Environment, done: seq<string>)
    requires Expanded(c, orig, env, done)
    ensures forall x :: x in done ==> IsVariable(orig, x)
  {
    forall x | x in done
      ensures IsVariable(orig, x)
    {
      var a :| 0 <= a < |done| && done[a] == x;
      assert ExpandedAt(c, orig, env, done, a);
    }
  }

  function Outcome(e: MacroResult, text: string): Expansion {
    match e
    case Ok => Text(text)
    case Ignore => Ignored
    case Error => Failed
  }

  lemma VisitBegins(c: Context, orig: Environment, env: Environment, status: map<string, CycleStatus>,
      done: seq<string>, active: set<string>, x: string)
    requires Expanding(c, orig, env, status, done, active) && IsVariable(orig, x) && x in status
    requires status[x] == Unvisited
    requires forall a :: a in active ==> Reaches(orig, a, x)
    ensures Expanding(c, orig, env, status[x := InProgress], done, active + {x})
    ensures x in env && env[x] == orig[x] && AllBelow(orig, active + {x}, orig[x].value)
  {
    hide Mentions, Expanded;
    assert x in env && env[x] == orig[x] by { StillOriginal(c, orig, env, done, x); }
    forall a, y | a in active + {x} && Mentions(orig, orig[x].value, y)
      ensures Reaches(orig, a, y)
    {
      if a == x {
        assert ReachesIn(orig, y, y, 0);
        assert ReachesIn(orig, x, y, 1);
      } else {
        var n: nat :| 0 < n && ReachesIn(orig, a, x, n);
        ReachesOn(orig, a, x, y, n);
      }
    }
  }

  lemma StillOriginal(c: Context, orig: Environment, env: Environment, done: seq<string>, x: string)
    requires Expanded(c, orig, env, done) && x in orig && x !in done
    ensures x in env && env[x] == orig[x]
  {
  }

  /** The text of x has been expanded. */
  lemma VisitEnds(c: Context, orig: Environment, env: Environment, status: map<string, CycleStatus>,
      done: seq<string>, active: set<string>, x: string, text: string)
    requires Expanding(c, orig, env, status, done, active + {x}) && x !in active && IsVariable(orig, x)
    requires Expand(c, env, orig[x].value) == Text(text)
    requires forall y :: Mentions(orig, orig[x].value, y) ==> y in done
    ensures Expanding(c, orig, env[x := Some(text)], status[x := Verified], done + [x], active)
  {
    var later, all := env[x := Some(text)], done + [x];
    ExpandedKinds(c, orig, env, done);
    assert x !in done && forall y :: y in all <==> y == x || y in done;
    forall a | 0 <= a < |all|
      ensures ExpandedAt(c, orig, later, all, a)
    {
      if a < |done| {
        assert ExpandedAt(c, orig, env, done, a) && all[..a] == done[..a];
        ValueStays(c, orig, env, later, done[a], done[..a], x);
      } else {
        assert all[..a] == done;
        ValueStays(c, orig, env, later, x, done, x);
      }
    }
  }

  lemma ValueStays(c: Context, orig: Environment, env: Environment, later: Environment, z: string,
      before: seq<string>, x: string)
    requires x in env && env[x].Some? && x in later && later == env[x := later[x]] && later[x].Some? && x !in before
    requires forall y :: IsVariable(env, y) <==> IsVariable(orig, y)
    requires IsVariable(orig, z) && forall y :: Mentions(orig, orig[z].value, y) ==> y in before
    ensures Expand(c, later, orig[z].value) == Expand(c, env, orig[z].value)
  {
    hide Expand, Parse;
    forall y | Mentions(env, orig[z].value, y)
      ensures later[y] == env[y]
    {
      assert Mentions(orig, orig[z].value, y);
    }
    ExpandFrame(c, env, later, orig[z].value);
  }

  lemma ExtendsOn(c: Context, orig: Environment, env: Environment, done: seq<string>, mid: Environment,
      more: seq<string>, later: Environment, most: seq<string>)
    requires Extends(env, done, mid, more) && Extends(mid, more, later, most)
    ensures Extends(env, done, later, most)
  {
    forall x | x in done
      ensures x in more
    {
      var i :| 0 <= i < |done| && done[i] == x;
      assert more[i] == x;
    }
  }

  /** When every variable is expanded already, nothing changes any more. */
  lemma NothingLeft(c: Context, orig: Environment, env: Environment, done: seq<string>, later: Environment,
      more: seq<string>)
    requires Expanded(c, orig, env, done) && Expanded(c, orig, later, more)
    requires Extends(env, done, later, more) && AllDone(orig, done)
    ensures later == env
  {
    forall x | x in more
      ensures x in done
    {
      var a :| 0 <= a < |more| && more[a] == x;
      assert ExpandedAt(c, orig, later, more, a);
    }
  }

  /** What was rendered stays rendered while further variables are expanded. */
  lemma RenderedStays(c: Context, orig: Environment, env: Environment, done: seq<string>, later: Environment,
      more: seq<string>, pieces: seq<Piece>)
    requires Expanded(c, orig, env, done) && Expanded(c, orig, later, more) && Extends(env, done, later, more)
    requires forall y :: Macro("env", y) in pieces && IsVariable(orig, y) ==> y in done
    ensures Render(c, later, pieces) == Render(c, env, pieces)
    ensures forall y :: y in done ==> y in more
  {
    hide Render, ExpandedAt;
    ExpandedKinds(c, orig, env, done);
    ExpandedKinds(c, orig, later, more);
    RenderFrame(c, env, later, pieces);
    forall y | y in done
      ensures y in more
    {
      var i :| 0 <= i < |done| && done[i] == y;
      assert more[i] == y;
    }
  }

  lemma ReadStarts(c: Context, orig: Environment, env: Environment, done: seq<string>, value: string)
    ensures Reading(value, [], 0, 0, Default, "", "")
    ensures Rendered(c, orig, env, done, [], "") && Extends(env, done, env, done)
  {
    assert value[0..] == value;
    assert [] + Parse(value).pieces == Parse(value).pieces;
  }

  /** The result so far is what the pieces stand for, with all variables they mention
      expanded. */
  ghost predicate Rendered(c: Context, orig: Environment, env: Environment, done: seq<string>, pieces: seq<Piece>,
      result: string) {
    && Render(c, env, pieces) == Text(result) && PiecesVerdict(c, orig, pieces) == Ok
    && forall y :: Macro("env", y) in pieces && IsVariable(orig, y) ==> y in done
  }

  lemma RenderedMore(c: Context, orig: Environment, env: Environment, done: seq<string>, pieces: seq<Piece>,
      result: string, text: string)
    requires Rendered(c, orig, env, done, pieces, result)
    ensures Rendered(c, orig, env, done, pieces + [Literal(text)], result + text)
  {
    RenderMore(c, env, pieces, Literal(text));
    VerdictMore(c, orig, pieces, Literal(text));
  }

  lemma MacroRendered(c: Context, orig: Environment, first: Environment, done: seq<string>, env: Environment,
                      more: seq<string>, later: Environment, most: seq<string>, pieces: seq<Piece>,
                      result: string, space: string, name: string, text: string)
    requires Rendered(c, orig, env, more, pieces, result)
    requires Expanded(c, orig, env, more) && Expanded(c, orig, later, most)
    requires Extends(first, done, env, more) && Extends(env, more, later, most)
    requires MacroValue(c, later, space, name) == Text(text) && PieceVerdict(c, orig, Macro(space, name)) == Ok
    requires space == "env" && IsVariable(orig, name) ==> name in most
    ensures Rendered(c, orig, later, most, pieces + [Macro(space, name)], result + text)
    ensures Extends(first, done, later, most) && (AllDone(orig, more) ==> AllDone(orig, most))
  {
    hide MacroValue, Render, Expanded, PieceVerdict;
    VerdictMore(c, orig, pieces, Macro(space, name));
    ExtendsOn(c, orig, first, done, env, more, later, most);
    RenderedStays(c, orig, env, more, later, most, pieces);
    RenderMore(c, later, pieces, Macro(space, name));
  }

  lemma NeededBelow(orig: Environment, active: set<string>, value: string, space: string, name: string)
    requires AllBelow(orig, active, value) && Macro(space, name) in Parse(value).pieces
    ensures space == "env" && IsVariable(orig, name) ==> forall a :: a in active ==> Reaches(orig, a, name)
  {
    if space == "env" && IsVariable(orig, name) { assert Mentions(orig, value, name); }
  }

  lemma ExpandStuck(c: Context, orig: Environment, env: Environment, done: seq<string>, value: string,
      pieces: seq<Piece>, i: nat, p: Piece, result: string)
    requires Reading(value, pieces + [p], i, i, Default, "", "") && Rendered(c, orig, env, done, pieces, result)
    requires !PieceValue(c, env, p).Text?
    ensures Expand(c, env, value) == PieceValue(c, env, p)
  {
    hide Parse, PieceValue;
    RenderMore(c, env, pieces, p);
    RenderStuck(c, env, pieces + [p], Parse(value[i..]).pieces);
  }

  /** The text stops at the piece just read. */
  lemma VerdictStuck(c: Context, orig: Environment, env: Environment, done: seq<string>, value: string,
      pieces: seq<Piece>, i: nat, p: Piece, result: string)
    requires Reading(value, pieces + [p], i, i, Default, "", "") && Rendered(c, orig, env, done, pieces, result)
    requires PieceVerdict(c, orig, p) != Ok
    ensures Verdict(c, orig, value) == PieceVerdict(c, orig, p)
  {
    hide Parse, PieceVerdict, Render;
    VerdictMore(c, orig, pieces, p);
    VerdictStays(c, orig, pieces + [p], Parse(value[i..]).pieces);
  }

  lemma NotClosed(c: Context, orig: Environment, env: Environment, done: seq<string>, value: string,
      pieces: seq<Piece>, result: string)
    requires Parse(value) == Parsed(pieces, false) && Rendered(c, orig, env, done, pieces, result)
    ensures Verdict(c, orig, value) == Error && Expand(c, env, value) == Failed
  {
  }

  lemma TextRendered(c: Context, orig: Environment, env: Environment, done: seq<string>, value: string, result: string)
    requires Rendered(c, orig, env, done, Parse(value).pieces, result) && Parse(value).closed
    ensures Expand(c, env, value) == Text(result) && Verdict(c, orig, value) == Ok
    ensures forall y :: Mentions(orig, value, y) ==> y in done
  {
  }

  lemma ExtendsSelf(env: Environment, done: seq<string>)
    ensures Extends(env, done, env, done)
  {
  }

  lemma VariablesStay(c: Context, orig: Environment, env: Environment, status: map<string, CycleStatus>,
      done: seq<string>, active: set<string>)
    requires Expanding(c, orig, env, status, done, active)
    ensures forall y :: IsVariable(env, y) <==> IsVariable(orig, y)
    ensures (forall x :: x in orig <==> x in env) && Extends(env, done, env, done)
  {
    ExpandedKinds(c, orig, env, done);
    if x :| IsVariable(env, x) && !IsVariable(orig, x) { assert false; }
  }

  lemma VisitExtends(first: Environment, done: seq<string>, env: Environment, more: seq<string>, x: string,
      text: string)
    requires Extends(first, done, env, more) && x !in more
    ensures Extends(first, done, env[x := Some(text)], more + [x])
  {
    forall y | y in done
      ensures y in more
    {
      var i :| 0 <= i < |done| && done[i] == y;
      assert more[i] == y;
    }
  }

  lemma DoneStays(env: Environment, done: seq<string>, later: Environment, more: seq<string>)
    requires Extends(env, done, later, more)
    ensures forall x :: x in done ==> x in more
  {
    forall x | x in done
      ensures x in more
    {
      var i :| 0 <= i < |done| && done[i] == x;
      assert more[i] == x;
    }
  }

  /** All variables among the first i of the order are expanded. */
  ghost predicate FirstDone(c: Context, orig: Environment, done: seq<string>, order: seq<string>, i: int) {
    0 <= i <= |order| && forall j :: 0 <= j < i && IsVariable(orig, order[j]) ==>
      order[j] in done && Expandable(c, orig, order[j])
  }

  lemma FirstDoneNone(c: Context, orig: Environment, order: seq<string>)
    ensures FirstDone(c, orig, [], order, 0)
  {
  }

  lemma FirstNotDone(c: Context, orig: Environment, done: seq<string>, order: seq<string>, i: nat)
    requires FirstDone(c, orig, done, order, i) && i < |order|
    requires IsVariable(orig, order[i]) && !Expandable(c, orig, order[i])
    ensures VendorFirst(c, orig, order) <==> Verdict(c, orig, orig[order[i]].value) == Ignore
    ensures !AllExpandable(c, orig)
  {
    hide Expandable, VendorFirst, Verdict;
    StoppedFirst(c, orig, order, i);
  }

  lemma FirstDoneNext(c: Context, orig: Environment, done: seq<string>, more: seq<string>, order: seq<string>, i: nat)
    requires FirstDone(c, orig, done, order, i) && i < |order| && forall x :: x in done ==> x in more
    requires IsVariable(orig, order[i]) ==> order[i] in more && Expandable(c, orig, order[i])
    ensures FirstDone(c, orig, more, order, i + 1)
  {
    hide Expandable;
  }

  lemma FirstDoneAll(c: Context, orig: Environment, done: seq<string>, order: seq<string>)
    requires FirstDone(c, orig, done, order, |order|) && forall x :: x in orig ==> x in order
    ensures (forall x :: IsVariable(orig, x) ==> x in done) && AllDone(orig, done)
    ensures AllExpandable(c, orig) && !VendorFirst(c, orig, order)
  {
    hide Expandable, VendorFirst;
    NoneStopped(c, orig, order);
    forall x | IsVariable(orig, x)
      ensures x in done
    {
      var j :| 0 <= j < |order| && order[j] == x;
    }
  }

  lemma NoneActive(orig: Environment, text: string)
    ensures AllBelow(orig, {}, text)
  {
  }

  /** A finished variable is one that can be expanded. */
  lemma DoneIsExpandable(c: Context, orig: Environment, env: Environment, done: seq<string>, x: string)
    requires Expanded(c, orig, env, done) && x in done
    ensures Expandable(c, orig, x) && Verdict(c, orig, orig[x].value) == Ok
  {
    hide Expand, Mentions, BadText, VendorText, Verdict;
    var a :| 0 <= a < |done| && done[a] == x;
    assert ExpandedAt(c, orig, env, done, a);
    forall y, n: nat | ReachesIn(orig, x, y, n)
      ensures Harmless(c, orig, y)
    {
      var b := ExpandedWalk(c, orig, env, done, a, y, n);
      assert ExpandedAt(c, orig, env, done, b);
      ExpandGood(c, env, orig[y].value);
      if Reaches(orig, y, y) {
        var m: nat :| 0 < m && ReachesIn(orig, y, y, m);
        var d := ExpandedWalk(c, orig, env, done, b, y, m);
        assert false;
      }
    }
    ExpandableIsOk(c, orig, x);
  }

  /** A preset with all its texts expanded. */
  datatype ExpandedPreset = ExpandedPreset(texts: seq<string>, conditionResult: bool)

  class PresetExpander {
    const context: Context
    const find: Search
    var environment: Environment
    var envCycles: map<string, CycleStatus>

    constructor (c: Context, search: Search, env: Environment)
      ensures context == c && find == search && environment == env
      ensures Expanding(c, env, environment, envCycles, [], {})
    {
      context := c;
      find := search;
      environment := env;
      envCycles := map x | x in env :: Unvisited;
    }

    /** Expand the variable when that has not been done yet; one that is being expanded
        is needed by its own text. */
    method VisitEnv(name: string, ghost orig: Environment, ghost done: seq<string>, ghost active: set<string>)
      returns (e: MacroResult, ghost more: seq<string>)
      requires Expanding(context, orig, environment, envCycles, done, active) && IsVariable(orig, name)
      requires forall a :: a in active ==> Reaches(orig, a, name)
      modifies this
      ensures e == Ok ==> Expanding(context, orig, environment, envCycles, more, active) && name in more
      ensures e == Ok ==> Extends(old(environment), done, environment, more)
      ensures e == Ok <==> Expandable(context, orig, name)
      ensures name !in active ==> e == Verdict(context, orig, orig[name].value)
      ensures name in done ==> e == Ok && environment == old(environment)
      decreases orig.Keys - active, 0
    {
      hide Expanded, Reaches, Expand, Mentions, AllBelow, Expandable, Verdict;
      more := done;
      ExpandableIsOk(context, orig, name);
      if envCycles[name] == Verified {
        DoneIsExpandable(context, orig, environment, done, name);
        return Ok, more;
      }
      if envCycles[name] == InProgress {
        assert name in active;
        CycleIsNotExpandable(context, orig, name);
        return Error, more;
      }

      VisitBegins(context, orig, environment, envCycles, done, active, name);
      envCycles := envCycles[name := InProgress];
      var text;
      e, text, more := ExpandMacros(environment[name].value, orig, done, active + {name});
      if e != Ok {
        return;
      }
      VisitEnds(context, orig, environment, envCycles, more, active, name, text);
      VisitExtends(old(environment), done, environment, more, name, text);
      environment := environment[name := Some(text)];
      envCycles := envCycles[name := Verified];
      more := more + [name];
    }

    /** Expand the macros of a text. */
    method ExpandMacros(value: string, ghost orig: Environment, ghost done: seq<string>, ghost active: set<string>)
      returns (e: MacroResult, out: string, ghost more: seq<string>)
      requires Expanding(context, orig, environment, envCycles, done, active) && AllBelow(orig, active, value)
      modifies this
      ensures e == Ok ==> Expanding(context, orig, environment, envCycles, more, active)
      ensures e == Ok ==> Extends(old(environment), done, environment, more)
      ensures e == Ok ==> Expand(context, environment, value) == Text(out) && forall y :: Mentions(orig, value, y) ==>
        y in more
      ensures e == Verdict(context, orig, value)
      ensures AllDone(orig, done) ==>
        environment == old(environment) && Outcome(e, out) == Expand(context, environment, value)
      decreases orig.Keys - active, 3
    {
      hide Expanded, Reaches, Parse, Reading, Render, Rendered, Extends, MacroValue, Mentions, IsVariable,
        PieceVerdict, Verdict, PrefixesValidMacroNamespace, IsValidMacroNamespace;
      out := "";
      more := done;
      var result, macroNamespace, macroName := "", "", "";
      var state := Default;
      ghost var pieces, start := [], 0;
      ReadStarts(context, orig, environment, done, value);

      for i := 0 to |value|
        invariant Reading(value, pieces, start, i, state, macroNamespace, macroName)
        invariant state == Default ==> start == i && macroNamespace == "" && macroName == ""
        invariant state == MacroNamespace ==> macroName == ""
        invariant Expanding(context, orig, environment, envCycles, more, active)
        invariant Extends(old(environment), done, environment, more)
        invariant Rendered(context, orig, environment, more, pieces, result)
        invariant AllDone(orig, done) ==> AllDone(orig, more) && environment == old(environment)
      {
        var c := value[i];
        match state {
          case Default =>
            if c == '$' {
              ReadDollar(value, pieces, i);
              start := i;
              state := MacroNamespace;
            } else {
              ReadCharacter(value, pieces, i);
              RenderedMore(context, orig, environment, more, pieces, result, [c]);
              pieces, start := pieces + [Literal([c])], i + 1;
              result := result + [c];
            }
          case MacroNamespace =>
            ReadNamespace(value, pieces, start, i, macroNamespace);
            if c == '{' {
              if IsValidMacroNamespace(macroNamespace) {
                state := MacroName;
              } else {
                ReadNoMacro(value, pieces, start, i, macroNamespace);
                assert "$" + macroNamespace + [c] == "$" + macroNamespace + "{";
                assert result + ("$" + macroNamespace + "{") == result + "$" + macroNamespace + "{";
                RenderedMore(context, orig, environment, more, pieces, result, "$" + macroNamespace + "{");
                pieces, start := pieces + [Literal("$" + macroNamespace + "{")], i + 1;
                result := result + "$";
                result := result + macroNamespace;
                result := result + "{";
                macroNamespace := "";
                state := Default;
              }
            } else {
              if !PrefixesValidMacroNamespace(macroNamespace + [c]) {
                ReadNoMacro(value, pieces, start, i, macroNamespace);
              }
              macroNamespace := macroNamespace + [c];
              if !PrefixesValidMacroNamespace(macroNamespace) {
                assert "$" + macroNamespace == "$" + macroNamespace[..|macroNamespace| - 1] + [c];
                assert result + ("$" + macroNamespace) == result + "$" + macroNamespace;
                RenderedMore(context, orig, environment, more, pieces, result, "$" + macroNamespace);
                pieces, start := pieces + [Literal("$" + macroNamespace)], i + 1;
                result := result + "$";
                result := result + macroNamespace;
                macroNamespace := "";
                state := Default;
              }
            }
          case MacroName =>
            if c == '}' {
              ReadMacro(value, pieces, start, i, macroNamespace, macroName);
              ghost var before, r := environment, more;
              var text;
              NeededBelow(orig, active, value, macroNamespace, macroName);
              e, text, more := ExpandMacro(macroNamespace, macroName, orig, more, active);
              if e != Ok {
                VerdictStuck(context, orig, before, r, value, pieces, i + 1, Macro(macroNamespace, macroName), result);
                if AllDone(orig, done) {
                  ExpandStuck(context, orig, environment, r, value, pieces, i + 1,
                              Macro(macroNamespace, macroName), result);
                }
                return;
              }
              MacroRendered(context, orig, old(environment), done, before, r, environment, more, pieces, result,
                macroNamespace, macroName, text);
              pieces, start := pieces + [Macro(macroNamespace, macroName)], i + 1;
              result := result + text;
              macroNamespace, macroName := "", "";
              state := Default;
            } else {
              ReadName(value, pieces, start, i, macroNamespace, macroName);
              macroName := macroName + [c];
            }
        }
      }

      ReadEnd(value, pieces, start, state, macroNamespace, macroName);
      match state {
        case Default =>
        case MacroNamespace =>
          RenderedMore(context, orig, environment, more, pieces, result, "$" + macroNamespace);
          assert result + ("$" + macroNamespace) == result + "$" + macroNamespace;
          result := result + "$";
          result := result + macroNamespace;
        case MacroName =>
          NotClosed(context, orig, environment, more, value, pieces, result);
          return Error, out, more;
      }
      TextRendered(context, orig, environment, more, value, result);
      e, out := Ok, result;
    }

    method ExpandMacro(space: string, name: string, ghost orig: Environment, ghost done: seq<string>,
        ghost active: set<string>)
      returns (e: MacroResult, out: string, ghost more: seq<string>)
      requires Expanding(context, orig, environment, envCycles, done, active)
      requires space == "env" && IsVariable(orig, name) ==> forall a :: a in active ==> Reaches(orig, a, name)
      modifies this
      ensures e == Ok ==> Expanding(context, orig, environment, envCycles, more, active)
      ensures e == Ok ==> Extends(old(environment), done, environment, more)
      ensures e == Ok ==> MacroValue(context, environment, space, name) == Text(out)
      ensures e == Ok && space == "env" && IsVariable(orig, name) ==> name in more
      ensures e == PieceVerdict(context, orig, Macro(space, name))
      ensures AllDone(orig, done) ==>
        environment == old(environment) && Outcome(e, out) == MacroValue(context, environment, space, name)
      decreases orig.Keys - active, 2
    {
      hide Expanded, Reaches, Expandable, Extends;
      more := done;
      ExtendsSelf(environment, done);
      ExpandedKinds(context, orig, environment, done);
      e, out := DefaultMacroExpander(space, name);
      if e != Ignore {
        return;
      }
      e, out, more := EnvironmentMacroExpander(space, name, orig, done, active);
      if e != Ignore {
        return;
      }
      if space == "vendor" {
        return Ignore, "", more;
      }
      e := Error;
    }

    method DefaultMacroExpander(space: string, name: string) returns (e: MacroResult, out: string)
      ensures e == Ok ==> space == "" && Predefined(context, name) == Text(out)
      ensures e == Error ==> space == "" && Predefined(context, name) == Failed
      ensures e == Ignore ==> space != "" || Predefined(context, name) == Failed
    {
      out := "";
      e := Ok;
      if space == "" {
        if name == "sourceDir" {
          out := context.sourceDir;
        } else if name == "sourceParentDir" {
          out := ParentDirectory(context.sourceDir);
        } else if name == "sourceDirName" {
          out := FilenameName(context.sourceDir);
        } else if name == "presetName" {
          out := context.presetName;
        } else if name == "generator" {
          if !context.hidden {
            out := context.generator;
          }
        } else if name == "dollar" {
          out := "$";
        } else if name == "hostSystemName" {
          if context.version < 3 {
            return Error, out;
          }
          out := context.hostSystemName;
        } else {
          e := Ignore;
        }
      } else {
        e := Ignore;
      }
    }

    method EnvironmentMacroExpander(space: string, name: string, ghost orig: Environment, ghost done: seq<string>,
        ghost active: set<string>)
      returns (e: MacroResult, out: string, ghost more: seq<string>)
      requires Expanding(context, orig, environment, envCycles, done, active)
      requires space == "env" && IsVariable(orig, name) ==> forall a :: a in active ==> Reaches(orig, a, name)
      modifies this
      ensures e == Ok ==> Expanding(context, orig, environment, envCycles, more, active)
      ensures e == Ok ==> Extends(old(environment), done, environment, more)
      ensures e == Ok ==> MacroValue(context, environment, space, name) == Text(out)
      ensures e == Ok && space == "env" && IsVariable(orig, name) ==> name in more
      ensures space == "env" || space == "penv" ==> (e == Ok <==> PieceVerdict(context, orig, Macro(space, name)) == Ok)
      ensures space != "env" && space != "penv" ==> e == Ignore
      ensures AllDone(orig, done) ==> environment == old(environment)
      ensures AllDone(orig, done) && (space == "env" || space == "penv") ==>
        Outcome(e, out) == MacroValue(context, environment, space, name)
      decreases orig.Keys - active, 1
    {
      hide Expanded, Reaches, Expandable, Verdict;
      out := "";
      more := done;
      VariablesStay(context, orig, environment, envCycles, done, active);
      if space == "env" && name != "" {
        if name in environment && environment[name].Some? {
          e, more := VisitEnv(name, orig, done, active);
          if e != Ok {
            return;
          }
          VariablesStay(context, orig, environment, envCycles, more, active);
          return Ok, environment[name].value, more;
        }
      }

      if space == "env" || space == "penv" {
        if name == "" {
          return Error, out, more;
        }
        if name in context.getenv {
          out := context.getenv[name];
        }
        return Ok, out, more;
      }
      e := Ignore;
    }

    /** Expand the variables, in the order in which the map lists them. */
    method ExpandEnvironment(order: seq<string>) returns (e: MacroResult, ghost done: seq<string>)
      requires Expanding(context, environment, environment, envCycles, [], {}) && "" !in environment
      requires forall x :: x in order <==> x in environment
      modifies this
      ensures e == Ok ==>
        Expanding(context, old(environment), environment, envCycles, done, {}) && AllDone(old(environment), done)
      ensures e == Ok <==>
        !ReferenceCycle(old(environment)) && !SomeBadText(context, old(environment))
          && !SomeVendorText(old(environment))
      ensures e == Ok <==> AllExpandable(context, old(environment))
      ensures e == Ignore <==> VendorFirst(context, old(environment), order)
    {
      hide Expanded, Reaches, ReferenceCycle, SomeBadText, SomeVendorText, VendorFirst, Extends, Expandable, Verdict,
        FirstDone, AllDone, AllExpandable;
      ghost var orig := environment;
      done := [];
      FirstDoneNone(context, orig, order);
      for i := 0 to |order|
        invariant Expanding(context, orig, environment, envCycles, done, {})
        invariant FirstDone(context, orig, done, order, i)
      {
        var name := order[i];
        VariablesStay(context, orig, environment, envCycles, done, {});
        ghost var before, env := done, environment;
        if environment[name].Some? {
          e, done := VisitEnv(name, orig, done, {});
          if e != Ok {
            FirstNotDone(context, orig, before, order, i);
            NotExpandable(context, orig, name);
            return;
          }
          DoneStays(env, before, environment, done);
        }
        FirstDoneNext(context, orig, before, done, order, i);
      }
      FirstDoneAll(context, orig, done, order);
      ExpandedIsSound(context, orig, environment, done);
      e := Ok;
    }

    /** Expand a text when all variables are expanded. */
    method ExpandText(value: string, ghost orig: Environment, ghost done: seq<string>)
      returns (e: MacroResult, out: string, ghost more: seq<string>)
      requires Expanding(context, orig, environment, envCycles, done, {}) && AllDone(orig, done)
      modifies this
      ensures environment == old(environment) && Outcome(e, out) == Expand(context, environment, value)
      ensures e == Ok ==> Expanding(context, orig, environment, envCycles, more, {}) && AllDone(orig, more)
      ensures e == Verdict(context, orig, value)
    {
      hide Expanded, Expand, Verdict, Mentions;
      NoneActive(orig, value);
      e, out, more := ExpandMacros(value, orig, done, {});
      if e == Ok { DoneStays(environment, done, environment, more); }
    }

    /** What the condition comes to; what is not needed for that is not expanded. */
    method Evaluate(cond: Condition, ghost orig: Environment, ghost done: seq<string>)
      returns (valid: bool, result: Option<bool>, ghost more: seq<string>)
      requires Expanding(context, orig, environment, envCycles, done, {}) && AllDone(orig, done)
      modifies this
      ensures environment == old(environment)
      ensures Given(valid, result) == Meaning(context, environment, find, cond)
      ensures valid && result.Some? ==>
        Expanding(context, orig, environment, envCycles, more, {}) && AllDone(orig, more)
      decreases cond
    {
      hide Expanding, AllDone, Expand, Verdict;
      more := done;
      match cond
      case NullCondition =>
        return true, Some(true), more;
      case Constant(value) =>
        return true, Some(value), more;
      case Equals(lhs, rhs) =>
        var e, l;
        e, l, more := ExpandText(lhs, orig, more);
        if e != Ok {
          return e == Ignore, None, more;
        }
        var r;
        e, r, more := ExpandText(rhs, orig, more);
        if e != Ok {
          return e == Ignore, None, more;
        }
        return true, Some(l == r), more;
      case InList(text, list) =>
        var e, str;
        e, str, more := ExpandText(text, orig, more);
        if e != Ok {
          return e == Ignore, None, more;
        }
        for k := 0 to |list|
          invariant environment == old(environment)
          invariant Expanding(context, orig, environment, envCycles, more, {}) && AllDone(orig, more)
          invariant Found(context, environment, str, list[k..]) == Found(context, environment, str, list)
        {
          assert list[k..][1..] == list[k + 1..];
          var item;
          e, item, more := ExpandText(list[k], orig, more);
          if e != Ok {
            return e == Ignore, None, more;
          }
          if str == item {
            return true, Some(true), more;
          }
        }
        return true, Some(false), more;
      case Matches(text, regex) =>
        var e, str;
        e, str, more := ExpandText(text, orig, more);
        if e != Ok {
          return e == Ignore, None, more;
        }
        var regexStr;
        e, regexStr, more := ExpandText(regex, orig, more);
        if e != Ok {
          return e == Ignore, None, more;
        }
        if find(regexStr, str).None? {
          return false, None, more;
        }
        return true, find(regexStr, str), more;
      case AnyAllOf(conditions, stop) =>
        for k := 0 to |conditions|
          invariant environment == old(environment)
          invariant Expanding(context, orig, environment, envCycles, more, {}) && AllDone(orig, more)
          invariant From(context, environment, find, cond, k) == Meaning(context, environment, find, cond)
        {
          valid, result, more := Evaluate(conditions[k], orig, more);
          if !valid || result.None? || result == Some(stop) {
            return valid, result, more;
          }
        }
        return true, Some(!stop), more;
      case Not(sub) =>
        valid, result, more := Evaluate(sub, orig, more);
        if valid && result.Some? {
          result := Some(!result.value);
        }
    }

    /** Expand the variables, evaluate the condition, and expand the other texts of a
        preset. There is no result when the preset is for a vendor. */
    method ExpandPreset(order: seq<string>, condition: Option<Condition>, fields: seq<string>)
      returns (valid: bool, out: Option<ExpandedPreset>, ghost done: seq<string>)
      requires Expanding(context, environment, environment, envCycles, [], {}) && "" !in environment
      requires forall x :: x in order <==> x in environment
      modifies this
      ensures AllExpandable(context, old(environment)) ==>
        Expanded(context, old(environment), environment, done) && AllDone(old(environment), done)
      ensures valid && out.Some? ==> AllExpandable(context, old(environment))
      ensures valid && out.Some? ==>
        |out.value.texts| == |fields| && forall k :: 0 <= k < |fields| ==>
          Expand(context, environment, fields[k]) == Text(out.value.texts[k])
      ensures valid && out.Some? ==>
        AnswerOf(context, environment, find, condition) == Answered(out.value.conditionResult)
      ensures valid && out.Some? && condition.None? ==> out.value.conditionResult
      ensures valid && out.None? <==>
        || VendorFirst(context, old(environment), order)
        || (AllExpandable(context, old(environment)) && AnswerOf(context, environment, find, condition) == Unanswered)
        || (AllExpandable(context, old(environment)) && AnswerOf(context, environment, find, condition).Answered?
            && exists k :: IgnoredFirst(context, old(environment), fields, k))
      ensures valid && out.Some? <==>
        && !ReferenceCycle(old(environment)) && !SomeBadText(context, old(environment))
        && !SomeVendorText(old(environment)) && AnswerOf(context, environment, find, condition).Answered?
        && forall k :: 0 <= k < |fields| ==> !BadText(context, fields[k]) && !VendorText(fields[k])
    {
      hide Expanded, Reaches, ReferenceCycle, SomeBadText, SomeVendorText, VendorFirst, VendorText, BadText, Expand,
        Extends, Expandable, Verdict, Meaning;
      ghost var orig := environment;
      var e;
      e, done := ExpandEnvironment(order);
      if e != Ok {
        return e == Ignore, None, done;
      }
      ghost var env, more := environment, done;
      var conditionResult := true;
      if condition.Some? {
        var answered, result;
        answered, result, more := Evaluate(condition.value, orig, more);
        if !answered || result.None? {
          return answered, None, done;
        }
        conditionResult := result.value;
      }
      var texts := [];
      for k := 0 to |fields|
        invariant environment == env && Expanding(context, orig, env, envCycles, more, {}) && AllDone(orig, more)
        invariant |texts| == k && forall j :: 0 <= j < k ==> Expand(context, env, fields[j]) == Text(texts[j])
        invariant forall j :: 0 <= j < k ==> !BadText(context, fields[j]) && !VendorText(fields[j])
        invariant forall j :: 0 <= j < k ==> Verdict(context, orig, fields[j]) == Ok
      {
        var text;
        e, text, more := ExpandText(fields[k], orig, more);
        if e != Ok {
          TextNotOk(context, orig, fields[k]);
          assert e == Ignore ==> IgnoredFirst(context, orig, fields, k);
          return e == Ignore, None, done;
        }
        ExpandGood(context, env, fields[k]);
        texts := texts + [text];
      }
      return true, Some(ExpandedPreset(texts, conditionResult)), done;
    }
  }
}
