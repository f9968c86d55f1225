/** References between the environment variables of a preset, and what becomes of a
    text because of them (VisitEnv and ExpandMacro in cmCMakePresetsFile). */
module PresetReferences {
  import opened PresetText
  import opened Wrappers

  /** The text has the macro $env{y}, and y is a variable of the preset. */
  ghost predicate Mentions(env: Environment, text: string, y: string) {
    IsVariable(env, y) && Macro("env", y) in Parse(text).pieces
  }

  ghost predicate ReachesIn(env: Environment, x: string, y: string, n: nat)
    decreases n
  {
    if n == 0 then x == y
    else IsVariable(env, x) && exists z :: Mentions(env, env[x].value, z) && ReachesIn(env, z, y, n - 1)
  }

  ghost predicate Reaches(env: Environment, x: string, y: string) {
    exists n: nat :: 0 < n && ReachesIn(env, x, y, n)
  }

  /** A variable whose text needs the text itself. */
  ghost predicate ReferenceCycle(env: Environment) {
    exists x :: Reaches(env, x, x)
  }

  /** Macros that stand for nothing, whatever the variables are. */
  predicate IsBad(c: Context, p: Piece) {
    && p.Macro? && p.space != "vendor"
    && (p.space == "" ==> Predefined(c, p.name).Failed?)
    && (p.space == "env" || p.space == "penv" ==> p.name == "")
  }

  ghost predicate BadText(c: Context, text: string) {
    !Parse(text).closed || exists p :: p in Parse(text).pieces && IsBad(c, p)
  }

  ghost predicate VendorText(text: string) {
    exists p: Piece :: p in Parse(text).pieces && p.Macro? && p.space == "vendor"
  }

  ghost predicate SomeBadText(c: Context, env: Environment) {
    exists x :: IsVariable(env, x) && BadText(c, env[x].value)
  }

  ghost predicate SomeVendorText(env: Environment) {
    exists x :: IsVariable(env, x) && VendorText(env[x].value)
  }

  lemma {:induction false} ReachesOn(env: Environment, x: string, y: string, z: string, n: nat)
    requires ReachesIn(env, x, y, n) && IsVariable(env, y) && Mentions(env, env[y].value, z)
    ensures ReachesIn(env, x, z, n + 1)
    decreases n
  {
    hide Mentions;
    if n == 0 {
      assert ReachesIn(env, z, z, 0);
    } else {
      var w :| Mentions(env, env[x].value, w) && ReachesIn(env, w, y, n - 1);
      ReachesOn(env, w, y, z, n - 1);
    }
  }

  lemma {:induction false} ReachesThrough(env: Environment, x: string, y: string, z: string, m: nat, n: nat)
    requires ReachesIn(env, x, y, m) && ReachesIn(env, y, z, n)
    ensures ReachesIn(env, x, z, m + n)
    decreases m
  {
    hide Mentions;
    if m > 0 {
      var w :| Mentions(env, env[x].value, w) && ReachesIn(env, w, y, m - 1);
      ReachesThrough(env, w, y, z, m - 1, n);
    }
  }

  // ----- what can be expanded

  /** The variable is on no cycle, and its own text is neither faulty nor a vendor's. */
  ghost predicate Harmless(c: Context, env: Environment, y: string) {
    IsVariable(env, y) && !Reaches(env, y, y) && !BadText(c, env[y].value) && !VendorText(env[y].value)
  }

  /** Nothing that x needs, x included, is in the way. */
  ghost predicate Expandable(c: Context, env: Environment, x: string) {
    IsVariable(env, x) && forall y, n: nat :: ReachesIn(env, x, y, n) ==> Harmless(c, env, y)
  }

  ghost predicate AllExpandable(c: Context, env: Environment) {
    forall x :: IsVariable(env, x) ==> Expandable(c, env, x)
  }

  predicate IsVendor(p: Piece) {
    p.Macro? && p.space == "vendor"
  }

  /** A piece at which the expansion of a text stops. */
  ghost predicate Stops(c: Context, env: Environment, p: Piece) {
    || IsBad(c, p) || IsVendor(p)
    || (p.Macro? && p.space == "env" && IsVariable(env, p.name) && !Expandable(c, env, p.name))
  }

  /** Only a vendor macro of the text itself makes the preset be ignored. */
  ghost function PieceVerdict(c: Context, env: Environment, p: Piece): MacroResult {
    if !Stops(c, env, p) then Ok else if IsVendor(p) then Ignore else Error
  }

  ghost function PiecesVerdict(c: Context, env: Environment, pieces: seq<Piece>): MacroResult {
    if pieces == [] then Ok
    else
      var front := PiecesVerdict(c, env, pieces[..|pieces| - 1]);
      if front != Ok then front else PieceVerdict(c, env, pieces[|pieces| - 1])
  }

  /** What expanding a text comes to: the first piece that stops it decides. */
  ghost function Verdict(c: Context, env: Environment, text: string): MacroResult {
    var v := PiecesVerdict(c, env, Parse(text).pieces);
    if v == Ok && !Parse(text).closed then Error else v
  }

  lemma VerdictMore(c: Context, env: Environment, pieces: seq<Piece>, p: Piece)
    ensures PiecesVerdict(c, env, pieces + [p]) ==
      if PiecesVerdict(c, env, pieces) != Ok then PiecesVerdict(c, env, pieces) else PieceVerdict(c, env, p)
    ensures p.Literal? ==> PieceVerdict(c, env, p) == Ok
  {
    assert (pieces + [p])[..|pieces|] == pieces;
  }

  lemma {:induction false} VerdictStays(c: Context, env: Environment, pieces: seq<Piece>, more: seq<Piece>)
    requires PiecesVerdict(c, env, pieces) != Ok
    ensures PiecesVerdict(c, env, pieces + more) == PiecesVerdict(c, env, pieces)
  {
    if more == [] {
      assert pieces + more == pieces;
    } else {
      VerdictStays(c, env, pieces, more[..|more| - 1]);
      assert pieces + more == (pieces + more[..|more| - 1]) + [more[|more| - 1]];
      VerdictMore(c, env, pieces + more[..|more| - 1], more[|more| - 1]);
    }
  }

  /** The text is stopped first by piece k, a vendor macro. */
  ghost predicate VendorStops(c: Context, env: Environment, pieces: seq<Piece>, k: int) {
    0 <= k < |pieces| && IsVendor(pieces[k]) && forall j :: 0 <= j < k ==> !Stops(c, env, pieces[j])
  }

  lemma {:induction false} PiecesVerdictIs(c: Context, env: Environment, pieces: seq<Piece>)
    ensures PiecesVerdict(c, env, pieces) == Ok <==> forall j :: 0 <= j < |pieces| ==> !Stops(c, env, pieces[j])
    ensures PiecesVerdict(c, env, pieces) == Ignore <==> exists k :: VendorStops(c, env, pieces, k)
  {
    hide Stops, IsVendor;
    if pieces != [] {
      var front, last := pieces[..|pieces| - 1], pieces[|pieces| - 1];
      PiecesVerdictIs(c, env, front);
      VendorStop(c, env, last);
      if k :| VendorStops(c, env, front, k) { assert VendorStops(c, env, pieces, k); }
      if k :| VendorStops(c, env, pieces, k) {
        if k < |front| { assert VendorStops(c, env, front, k); }
      }
      if PiecesVerdict(c, env, front) == Ok && IsVendor(last) { assert VendorStops(c, env, pieces, |front|); }
    }
  }

  lemma VendorStop(c: Context, env: Environment, p: Piece)
    ensures IsVendor(p) ==> Stops(c, env, p)
  {
  }

  /** A preset is ignored because of a text exactly when a vendor macro is the first of
      its pieces to stop the expansion. */
  lemma VerdictIs(c: Context, env: Environment, text: string)
    ensures Verdict(c, env, text) == Ok <==>
      Parse(text).closed && forall j :: 0 <= j < |Parse(text).pieces| ==> !Stops(c, env, Parse(text).pieces[j])
    ensures Verdict(c, env, text) == Ignore <==> exists k :: VendorStops(c, env, Parse(text).pieces, k)
  {
    hide Parse, Stops;
    PiecesVerdictIs(c, env, Parse(text).pieces);
  }

  /** A variable can be expanded exactly when nothing in its own text stops. */
  lemma ExpandableIsOk(c: Context, env: Environment, x: string)
    requires IsVariable(env, x)
    ensures Expandable(c, env, x) <==> Verdict(c, env, env[x].value) == Ok
  {
    hide Verdict, Parse, IsBad;
    var pieces := Parse(env[x].value).pieces;
    VerdictIs(c, env, env[x].value);
    if Expandable(c, env, x) {
      assert ReachesIn(env, x, x, 0);
      assert Harmless(c, env, x);
      forall j | 0 <= j < |pieces|
        ensures !Stops(c, env, pieces[j])
      {
        var p := pieces[j];
        assert p in pieces;
        if p.Macro? && p.space == "env" && IsVariable(env, p.name) {
          assert Mentions(env, env[x].value, p.name);
          MentionedIsExpandable(c, env, x, p.name);
        }
      }
    }
    if Verdict(c, env, env[x].value) == Ok {
      forall p | p in pieces
        ensures !Stops(c, env, p)
      {
        var j :| 0 <= j < |pieces| && pieces[j] == p;
      }
      OkIsExpandable(c, env, x);
    }
  }

  lemma MentionedIsExpandable(c: Context, env: Environment, x: string, y: string)
    requires Expandable(c, env, x) && Mentions(env, env[x].value, y)
    ensures Expandable(c, env, y)
  {
    hide Mentions, Harmless;
    forall z, n: nat | ReachesIn(env, y, z, n)
      ensures Harmless(c, env, z)
    {
      assert ReachesIn(env, x, z, n + 1);
    }
    assert IsVariable(env, y) by { MentionedIsVariable(env, env[x].value, y); }
  }

  lemma MentionedIsVariable(env: Environment, text: string, y: string)
    requires Mentions(env, text, y)
    ensures IsVariable(env, y) && Macro("env", y) in Parse(text).pieces
  {
  }

  lemma OkIsExpandable(c: Context, env: Environment, x: string)
    requires IsVariable(env, x) && Parse(env[x].value).closed
    requires forall p :: p in Parse(env[x].value).pieces ==> !Stops(c, env, p)
    ensures Expandable(c, env, x)
  {
    hide Parse, Mentions, IsBad;
    var text := env[x].value;
    forall y | Mentions(env, text, y)
      ensures Expandable(c, env, y)
    {
      MentionedIsVariable(env, text, y);
      assert !Stops(c, env, Macro("env", y));
    }
    if Reaches(env, x, x) {
      var n: nat :| 0 < n && ReachesIn(env, x, x, n);
      var y :| Mentions(env, text, y) && ReachesIn(env, y, x, n - 1);
      BackAround(env, x, y, n);
      CycleIsNotExpandable(c, env, y);
      assert false;
    }
    forall z, n: nat | ReachesIn(env, x, z, n)
      ensures Harmless(c, env, z)
    {
      if n > 0 {
        var y :| Mentions(env, text, y) && ReachesIn(env, y, z, n - 1);
        assert Expandable(c, env, y);
      }
    }
  }

  lemma BackAround(env: Environment, x: string, y: string, n: nat)
    requires 0 < n && IsVariable(env, x) && Mentions(env, env[x].value, y) && ReachesIn(env, y, x, n - 1)
    ensures Reaches(env, y, y)
  {
    ReachesOn(env, y, x, y, n - 1);
  }

  lemma CycleIsNotExpandable(c: Context, env: Environment, x: string)
    requires Reaches(env, x, x)
    ensures !Expandable(c, env, x)
  {
    assert ReachesIn(env, x, x, 0);
    assert !Harmless(c, env, x);
  }

  /** Something is wrong somewhere when a variable cannot be expanded. */
  lemma NotExpandable(c: Context, env: Environment, x: string)
    requires IsVariable(env, x) && !Expandable(c, env, x)
    ensures ReferenceCycle(env) || SomeBadText(c, env) || SomeVendorText(env)
  {
    hide Mentions, BadText, VendorText, Reaches;
    var y, n: nat :| ReachesIn(env, x, y, n) && !Harmless(c, env, y);
    ReachedIsVariable(env, x, y, n);
  }

  lemma {:induction false} ReachedIsVariable(env: Environment, x: string, y: string, n: nat)
    requires IsVariable(env, x) && ReachesIn(env, x, y, n)
    ensures IsVariable(env, y)
    decreases n
  {
    hide Parse;
    if n > 0 {
      var z :| Mentions(env, env[x].value, z) && ReachesIn(env, z, y, n - 1);
      ReachedIsVariable(env, z, y, n - 1);
    }
  }

  /** The same for a text that mentions variables. */
  lemma TextNotOk(c: Context, env: Environment, text: string)
    ensures Verdict(c, env, text) != Ok ==>
      ReferenceCycle(env) || SomeBadText(c, env) || SomeVendorText(env) || BadText(c, text) || VendorText(text)
  {
    hide Verdict, Parse, Expandable, IsBad;
    VerdictIs(c, env, text);
    if Verdict(c, env, text) != Ok && Parse(text).closed {
      var j :| 0 <= j < |Parse(text).pieces| && Stops(c, env, Parse(text).pieces[j]);
      var p := Parse(text).pieces[j];
      assert p in Parse(text).pieces;
      if !IsBad(c, p) && !IsVendor(p) { NotExpandable(c, env, p.name); }
    }
  }

  // ----- the order of the variables

  /** Variable i of the order is the first that cannot be expanded. */
  ghost predicate FirstStopped(c: Context, env: Environment, order: seq<string>, i: int) {
    && 0 <= i < |order| && IsVariable(env, order[i]) && !Expandable(c, env, order[i])
    && forall j :: 0 <= j < i && IsVariable(env, order[j]) ==> Expandable(c, env, order[j])
  }

  /** The first variable that cannot be expanded is stopped by a vendor macro of its
      own. */
  ghost predicate VendorFirst(c: Context, env: Environment, order: seq<string>) {
    exists i :: FirstStopped(c, env, order, i) && Verdict(c, env, env[order[i]].value) == Ignore
  }

  lemma StoppedFirst(c: Context, env: Environment, order: seq<string>, i: int)
    requires FirstStopped(c, env, order, i)
    ensures VendorFirst(c, env, order) <==> Verdict(c, env, env[order[i]].value) == Ignore
    ensures !AllExpandable(c, env)
  {
    hide Expandable, Verdict;
    forall j | FirstStopped(c, env, order, j)
      ensures j == i
    {
    }
  }

  lemma NoneStopped(c: Context, env: Environment, order: seq<string>)
    requires forall x :: x in env ==> x in order
    requires forall j :: 0 <= j < |order| && IsVariable(env, order[j]) ==> Expandable(c, env, order[j])
    ensures AllExpandable(c, env) && !VendorFirst(c, env, order)
  {
    hide Expandable, Verdict;
    forall x | IsVariable(env, x)
      ensures Expandable(c, env, x)
    {
      var j :| 0 <= j < |order| && order[j] == x;
    }
  }

  /** Text k is the first that is not expanded, and makes the preset be ignored. */
  ghost predicate IgnoredFirst(c: Context, env: Environment, fields: seq<string>, k: int) {
    && 0 <= k < |fields| && Verdict(c, env, fields[k]) == Ignore
    && forall j :: 0 <= j < k ==> Verdict(c, env, fields[j]) == Ok
  }

  /** A vendor macro met through another variable is an error when the other variable
      comes first; by itself it makes the preset be ignored. */
  lemma VendorByReference(c: Context, env: Environment)
    requires env == map["A" := Some("$env{B}"), "B" := Some("$vendor{x}")]
    ensures !AllExpandable(c, env)
    ensures !VendorFirst(c, env, ["A", "B"]) && VendorFirst(c, env, ["B", "A"])
  {
    hide Parse, Expandable, Verdict;
    var a, b := "$env{B}", "$vendor{x}";
    TwoTexts();
    VerdictIs(c, env, a);
    VerdictIs(c, env, b);
    assert VendorStops(c, env, Parse(b).pieces, 0);
    ExpandableIsOk(c, env, "B");
    assert Stops(c, env, Parse(a).pieces[0]);
    assert !exists k :: VendorStops(c, env, Parse(a).pieces, k);
    ExpandableIsOk(c, env, "A");
    StoppedFirst(c, env, ["A", "B"], 0);
    StoppedFirst(c, env, ["B", "A"], 0);
  }

  lemma TwoTexts()
    ensures Parse("$env{B}") == Parsed([Macro("env", "B")], true)
    ensures Parse("$vendor{x}") == Parsed([Macro("vendor", "x")], true)
  {
    hide Parse;
    var a, b := "$env{B}", "$vendor{x}";
    assert IsValidMacroNamespace("env") && IsValidMacroNamespace("vendor");
    assert a == "$" + "env" + "{" + "B" + "}" && b == "$" + "vendor" + "{" + "x" + "}";
    ParseMacro(a, "env", "B");
    ParseMacro(b, "vendor", "x");
    EmptyParse();
    assert a[7..] == "" && b[10..] == "";
    assert [Macro("env", "B")] + [] == [Macro("env", "B")];
    assert [Macro("vendor", "x")] + [] == [Macro("vendor", "x")];
  }

  lemma EmptyParse()
    ensures Parse("") == Parsed([], true)
  {
  }
}
