/** The texts of presets (cmCMakePresetsFile): how they divide into macros and other
    pieces, what they stand for, and the reading of them one character at a time. */
module PresetText {
  import opened Wrappers
  import opened PathNames

  datatype MacroResult = Ok | Ignore | Error

  /** What a text or a macro stands for. */
  datatype Expansion = Text(text: string) | Ignored | Failed

  datatype Piece = Literal(text: string) | Macro(space: string, name: string)

  /** The pieces of a text; it is closed when its last macro is. */
  datatype Parsed = Parsed(pieces: seq<Piece>, closed: bool)

  /** What the predefined macros stand for. */
  datatype Context = Context(
    sourceDir: string,
    presetName: string, hidden: bool, generator: string,
    hostSystemName: string, version: int, getenv: map<string, string>)

  type Environment = map<string, Option<string>>

  // ----- reading a text

  const VALID_PREFIXES: seq<string> := ["", "env", "penv", "vendor"]

  predicate PrefixesValidMacroNamespace(str: string) {
    exists p :: p in VALID_PREFIXES && str <= p
  }

  predicate IsValidMacroNamespace(str: string) {
    str in VALID_PREFIXES
  }

  /** The longest start of a text that a namespace starts with. */
  function NamespaceLength(s: string, k: nat): (n: nat)
    requires k <= |s| && PrefixesValidMacroNamespace(s[..k])
    ensures k <= n <= |s| && PrefixesValidMacroNamespace(s[..n])
    ensures n < |s| ==> !PrefixesValidMacroNamespace(s[..n + 1])
    decreases |s| - k
  {
    if k < |s| && PrefixesValidMacroNamespace(s[..k + 1]) then NamespaceLength(s, k + 1) else k
  }

  function NameLength(s: string): (n: nat)
    ensures n <= |s| && '}' !in s[..n] && (n < |s| ==> s[n] == '}')
  {
    if s == "" || s[0] == '}' then 0
    else
      var n := NameLength(s[1..]);
      assert s[..n + 1] == [s[0]] + s[1..][..n];
      n + 1
  }

  function Then(p: Piece, rest: Parsed): Parsed {
    Parsed([p] + rest.pieces, rest.closed)
  }

  /** The first piece and its length. A dollar sign and the longest start of a namespace
      after it open a macro when that is a whole namespace and a brace follows.
      Otherwise they stand for themselves, and so does the character after them. */
  function FirstPiece(s: string): (r: Option<(Piece, nat)>)
    requires s != ""
    ensures r.Some? ==> 0 < r.value.1 <= |s|
  {
    if s[0] != '$' then Some((Literal(s[..1]), 1))
    else
      assert "" in VALID_PREFIXES && s[1..][..0] <= "";
      var k := NamespaceLength(s[1..], 0);
      if 1 + k == |s| then Some((Literal(s), |s|))
      else if s[1 + k] == '{' && IsValidMacroNamespace(s[1..1 + k]) then
        var n := NameLength(s[2 + k..]);
        if 2 + k + n == |s| then None
        else Some((Macro(s[1..1 + k], s[2 + k..2 + k + n]), 3 + k + n))
      else Some((Literal(s[..2 + k]), 2 + k))
  }

  function Parse(s: string): Parsed {
    if s == "" then Parsed([], true)
    else
      var first := FirstPiece(s);
      if first.None? then Parsed([], false)
      else Then(first.value.0, Parse(s[first.value.1..]))
  }

  lemma PrefixIsValid(s: string, t: string)
    requires PrefixesValidMacroNamespace(t) && s <= t
    ensures PrefixesValidMacroNamespace(s)
  {
    var p :| p in VALID_PREFIXES && t <= p;
    assert s <= p;
  }

  lemma ValidIsPrefix(s: string)
    requires IsValidMacroNamespace(s)
    ensures PrefixesValidMacroNamespace(s)
  {
    assert s <= s;
  }

  lemma NoBrace(s: string)
    ensures !PrefixesValidMacroNamespace(s + "{")
  {
    forall p | p in VALID_PREFIXES && s + "{" <= p
      ensures '{' in p
    {
      assert p[|s|] == (s + "{")[|s|];
    }
  }

  lemma NamespaceLengthIs(s: string, j: nat, k: nat)
    requires j <= k <= |s| && PrefixesValidMacroNamespace(s[..k])
    requires k < |s| ==> !PrefixesValidMacroNamespace(s[..k + 1])
    ensures PrefixesValidMacroNamespace(s[..j]) && NamespaceLength(s, j) == k
    decreases k - j
  {
    assert s[..j] <= s[..k];
    PrefixIsValid(s[..j], s[..k]);
    if j < k {
      NamespaceLengthIs(s, j + 1, k);
    }
  }

  lemma NameLengthIs(s: string, n: nat)
    requires n <= |s| && '}' !in s[..n] && (n < |s| ==> s[n] == '}')
    ensures NameLength(s) == n
  {
    var m := NameLength(s);
    forall q | 0 <= q < n
      ensures s[q] != '}'
    {
      assert s[..n][q] in s[..n];
    }
    forall q | 0 <= q < m
      ensures s[q] != '}'
    {
      assert s[..m][q] in s[..m];
    }
  }

  // ----- one piece of a text

  lemma ParseCharacter(s: string)
    requires s != "" && s[0] != '$'
    ensures Parse(s) == Then(Literal(s[..1]), Parse(s[1..]))
  {
  }

  lemma ParseFirst(s: string)
    requires s != ""
    ensures var first := FirstPiece(s);
      && (first.None? ==> Parse(s) == Parsed([], false))
      && (first.Some? ==> Parse(s) == Then(first.value.0, Parse(s[first.value.1..])))
  {
    hide FirstPiece;
  }

  /** What follows the dollar sign and namespace is neither more of a namespace nor the
      brace of a macro. */
  lemma ParseNoMacro(s: string, space: string)
    requires "$" + space <= s && PrefixesValidMacroNamespace(space) && 1 + |space| < |s|
    requires var c := s[1 + |space|];
      if c == '{' then !IsValidMacroNamespace(space) else !PrefixesValidMacroNamespace(space + [c])
    ensures Parse(s) == Then(Literal(s[..2 + |space|]), Parse(s[2 + |space|..]))
  {
    hide PrefixesValidMacroNamespace, IsValidMacroNamespace, NamespaceLength, NameLength, Parse;
    SpaceOf(s, space);
    ParseFirst(s);
  }

  lemma SpaceOf(s: string, space: string)
    requires "$" + space <= s && PrefixesValidMacroNamespace(space)
    requires 1 + |space| < |s| ==> s[1 + |space|] == '{' || !PrefixesValidMacroNamespace(space + [s[1 + |space|]])
    ensures "" in VALID_PREFIXES && s[0] == '$' && s[1..][..0] == ""
    ensures PrefixesValidMacroNamespace("") && NamespaceLength(s[1..], 0) == |space| && s[1..1 + |space|] == space
  {
    var t := s[1..];
    assert t[..|space|] == space;
    assert "" <= space;
    PrefixIsValid("", space);
    if |space| < |t| {
      assert t[..|space| + 1] == space + [t[|space|]];
      if t[|space|] == '{' { NoBrace(space); }
    }
    NamespaceLengthIs(t, 0, |space|);
  }

  lemma ParseOpenNamespace(space: string)
    requires PrefixesValidMacroNamespace(space)
    ensures Parse("$" + space) == Parsed([Literal("$" + space)], true)
  {
    SpaceOf("$" + space, space);
  }

  lemma ParseMacro(s: string, space: string, name: string)
    requires "$" + space + "{" + name <= s && IsValidMacroNamespace(space) && '}' !in name
    ensures var n := 2 + |space| + |name|;
      && (n == |s| ==> Parse(s) == Parsed([], false))
      && (n < |s| && s[n] == '}' ==> Parse(s) == Then(Macro(space, name), Parse(s[n + 1..])))
  {
    hide PrefixesValidMacroNamespace, IsValidMacroNamespace, NamespaceLength, NameLength, Parse;
    var n := 2 + |space| + |name|;
    assert s[..n] == "$" + space + "{" + name;
    ValidIsPrefix(space);
    assert "$" + space <= s;
    assert s[1 + |space|] == '{';
    SpaceOf(s, space);
    var t := s[2 + |space|..];
    assert t[..|name|] == name;
    if n == |s| || s[n] == '}' {
      NameLengthIs(t, |name|);
    }
    ParseFirst(s);
  }

  // ----- what pieces stand for

  function Predefined(c: Context, name: string): Expansion {
    match name
    case "sourceDir" => Text(c.sourceDir)
    case "sourceParentDir" => Text(ParentDirectory(c.sourceDir))
    case "sourceDirName" => Text(FilenameName(c.sourceDir))
    case "presetName" => Text(c.presetName)
    case "generator" => Text(if c.hidden then "" else c.generator)
    case "dollar" => Text("$")
    case "hostSystemName" => if c.version < 3 then Failed else Text(c.hostSystemName)
    case _ => Failed
  }

  predicate IsVariable(env: Environment, name: string) {
    name != "" && name in env && env[name].Some?
  }

  function FromSystem(c: Context, name: string): string {
    if name in c.getenv then c.getenv[name] else ""
  }

  /** The meaning of a macro when the variables of the preset have the given values. */
  function MacroValue(c: Context, env: Environment, space: string, name: string): Expansion {
    match space
    case "" => Predefined(c, name)
    case "vendor" => Ignored
    case "env" =>
      if name == "" then Failed
      else if IsVariable(env, name) then Text(env[name].value)
      else Text(FromSystem(c, name))
    case "penv" => if name == "" then Failed else Text(FromSystem(c, name))
    case _ => Failed
  }

  function PieceValue(c: Context, env: Environment, p: Piece): Expansion {
    match p
    case Literal(text) => Text(text)
    case Macro(space, name) => MacroValue(c, env, space, name)
  }

  function Append(x: Expansion, y: Expansion): Expansion {
    if !x.Text? then x else if !y.Text? then y else Text(x.text + y.text)
  }

  /** The values of the pieces one after the other, or else the first failure. */
  function Render(c: Context, env: Environment, pieces: seq<Piece>): Expansion {
    if pieces == [] then Text("")
    else Append(Render(c, env, pieces[..|pieces| - 1]), PieceValue(c, env, pieces[|pieces| - 1]))
  }

  /** The meaning of a text. */
  function Expand(c: Context, env: Environment, text: string): Expansion {
    var p := Parse(text);
    Append(Render(c, env, p.pieces), if p.closed then Text("") else Failed)
  }

  lemma RenderMore(c: Context, env: Environment, pieces: seq<Piece>, p: Piece)
    ensures Render(c, env, pieces + [p]) == Append(Render(c, env, pieces), PieceValue(c, env, p))
  {
    assert (pieces + [p])[..|pieces|] == pieces;
  }

  lemma {:induction false} RenderThen(c: Context, env: Environment, p: Piece, pieces: seq<Piece>)
    ensures Render(c, env, [p] + pieces) == Append(PieceValue(c, env, p), Render(c, env, pieces))
  {
    if pieces == [] {
      assert [p] + pieces == [p] && [p][..0] == [];
    } else {
      var front, last := pieces[..|pieces| - 1], pieces[|pieces| - 1];
      RenderThen(c, env, p, front);
      assert [p] + pieces == ([p] + front) + [last];
      RenderMore(c, env, [p] + front, last);
    }
  }

  lemma ExpandThen(c: Context, env: Environment, text: string, p: Piece, rest: string)
    requires Parse(text) == Then(p, Parse(rest))
    ensures Expand(c, env, text) == Append(PieceValue(c, env, p), Expand(c, env, rest))
  {
    RenderThen(c, env, p, Parse(rest).pieces);
  }

  // ----- escaping

  function Escape(s: string): string {
    if s == "" then ""
    else (if s[0] == '$' then "${dollar}" else [s[0]]) + Escape(s[1..])
  }

  lemma EmptyText(c: Context, env: Environment)
    ensures Expand(c, env, "") == Text("")
  {
  }

  /** Every text can be written down: escaped dollar signs expand to it. */
  lemma {:induction false} EscapeRoundTrip(c: Context, env: Environment, s: string)
    ensures Expand(c, env, Escape(s)) == Text(s)
  {
    hide Parse, Expand;
    if s == "" {
      EmptyText(c, env);
    } else {
      var e, rest := Escape(s), Escape(s[1..]);
      EscapeRoundTrip(c, env, s[1..]);
      if s[0] == '$' {
        assert e == "${dollar}" + rest;
        assert e[9..] == rest && e[8] == '}';
        assert "$" + "" + "{" + "dollar" <= e;
        ParseMacro(e, "", "dollar");
        assert PieceValue(c, env, Macro("", "dollar")) == Text("$");
        ExpandThen(c, env, e, Macro("", "dollar"), rest);
        assert s == "$" + s[1..];
      } else {
        assert e[..1] == [s[0]] && e[1..] == rest;
        ParseCharacter(e);
        ExpandThen(c, env, e, Literal([s[0]]), rest);
        assert s == [s[0]] + s[1..];
      }
    }
  }

  /** A text without a dollar sign stands for itself. */
  lemma {:induction false} PlainText(c: Context, env: Environment, s: string)
    requires '$' !in s
    ensures Expand(c, env, s) == Text(s)
  {
    if s != "" {
      PlainText(c, env, s[1..]);
      ExpandThen(c, env, s, Literal(s[..1]), s[1..]);
      assert s == s[..1] + s[1..];
    }
  }

  /** Two dollar signs stand for themselves, and the second opens no macro. */
  lemma DoubledDollar(c: Context, env: Environment, s: string)
    ensures Expand(c, env, "$$" + s) == Append(Text("$$"), Expand(c, env, s))
  {
    var t := "$$" + s;
    assert "" in VALID_PREFIXES && "" <= "";
    assert PrefixesValidMacroNamespace("");
    assert !PrefixesValidMacroNamespace("" + "$") by {
      forall p | p in VALID_PREFIXES && "$" <= p
        ensures '$' in p
      {
        assert p[0] == '$';
      }
    }
    assert "$" + "" <= t && t[..2] == "$$" && t[2..] == s;
    ParseNoMacro(t, "");
    ExpandThen(c, env, t, Literal("$$"), s);
  }

  // ----- the character loop

  datatype State = Default | MacroNamespace | MacroName

  /** The loop has read i characters: the given pieces, and the open one that begins at
      start. */
  ghost predicate Reading(value: string, pieces: seq<Piece>, start: nat, i: nat, state: State, space: string,
      name: string) {
    && start <= i <= |value|
    && Parse(value) == Parsed(pieces + Parse(value[start..]).pieces, Parse(value[start..]).closed)
    && match state
       case Default => start == i && space == "" && name == ""
       case MacroNamespace => name == "" && value[start..i] == "$" + space && PrefixesValidMacroNamespace(space)
       case MacroName => value[start..i] == "$" + space + "{" + name && IsValidMacroNamespace(space) && '}' !in name
  }

  lemma ReadPiece(value: string, pieces: seq<Piece>, start: nat, i: nat, p: Piece)
    requires start < i <= |value|
    requires Parse(value) == Parsed(pieces + Parse(value[start..]).pieces, Parse(value[start..]).closed)
    requires Parse(value[start..]) == Then(p, Parse(value[start..][i - start..]))
    ensures Reading(value, pieces + [p], i, i, Default, "", "")
  {
    hide Parse;
    assert value[start..][i - start..] == value[i..];
    assert pieces + ([p] + Parse(value[i..]).pieces) == (pieces + [p]) + Parse(value[i..]).pieces;
  }

  lemma ReadCharacter(value: string, pieces: seq<Piece>, i: nat)
    requires Reading(value, pieces, i, i, Default, "", "") && i < |value| && value[i] != '$'
    ensures Reading(value, pieces + [Literal([value[i]])], i + 1, i + 1, Default, "", "")
  {
    hide Parse;
    var rest := value[i..];
    ParseCharacter(rest);
    assert rest[..1] == [value[i]];
    ReadPiece(value, pieces, i, i + 1, Literal([value[i]]));
  }

  lemma ReadDollar(value: string, pieces: seq<Piece>, i: nat)
    requires Reading(value, pieces, i, i, Default, "", "") && i < |value| && value[i] == '$'
    ensures Reading(value, pieces, i, i + 1, MacroNamespace, "", "")
  {
    hide Parse;
    assert "" in VALID_PREFIXES && "" <= "";
    assert value[i..i + 1] == "$" + "";
  }

  lemma ReadNoMacro(value: string, pieces: seq<Piece>, start: nat, i: nat, space: string)
    requires Reading(value, pieces, start, i, MacroNamespace, space, "") && i < |value|
    requires var c := value[i];
      if c == '{' then !IsValidMacroNamespace(space) else !PrefixesValidMacroNamespace(space + [c])
    ensures Reading(value, pieces + [Literal("$" + space + [value[i]])], i + 1, i + 1, Default, "", "")
  {
    hide Parse, PrefixesValidMacroNamespace, IsValidMacroNamespace;
    var rest := value[start..];
    assert rest[..1 + |space|] == "$" + space;
    ParseNoMacro(rest, space);
    assert rest[..2 + |space|] == "$" + space + [value[i]];
    ReadPiece(value, pieces, start, i + 1, Literal("$" + space + [value[i]]));
  }

  lemma ReadNamespace(value: string, pieces: seq<Piece>, start: nat, i: nat, space: string)
    requires Reading(value, pieces, start, i, MacroNamespace, space, "") && i < |value|
    ensures PrefixesValidMacroNamespace(space + [value[i]]) ==>
      Reading(value, pieces, start, i + 1, MacroNamespace, space + [value[i]], "")
    ensures value[i] == '{' && IsValidMacroNamespace(space) ==>
      Reading(value, pieces, start, i + 1, MacroName, space, "")
  {
    hide Parse, PrefixesValidMacroNamespace, IsValidMacroNamespace;
    assert value[start..i + 1] == value[start..i] + [value[i]];
    assert "$" + space + [value[i]] == "$" + (space + [value[i]]);
    assert "$" + space + "{" + "" == "$" + space + "{";
  }

  lemma ReadName(value: string, pieces: seq<Piece>, start: nat, i: nat, space: string, name: string)
    requires Reading(value, pieces, start, i, MacroName, space, name) && i < |value| && value[i] != '}'
    ensures Reading(value, pieces, start, i + 1, MacroName, space, name + [value[i]])
  {
    hide Parse, PrefixesValidMacroNamespace, IsValidMacroNamespace;
    assert value[start..i + 1] == value[start..i] + [value[i]];
    assert "$" + space + "{" + name + [value[i]] == "$" + space + "{" + (name + [value[i]]);
  }

  lemma ReadMacro(value: string, pieces: seq<Piece>, start: nat, i: nat, space: string, name: string)
    requires Reading(value, pieces, start, i, MacroName, space, name) && i < |value| && value[i] == '}'
    ensures Reading(value, pieces + [Macro(space, name)], i + 1, i + 1, Default, "", "")
    ensures Macro(space, name) in Parse(value).pieces
  {
    hide Parse, PrefixesValidMacroNamespace, IsValidMacroNamespace;
    var rest := value[start..];
    assert rest[..i - start] == "$" + space + "{" + name;
    ParseMacro(rest, space, name);
    ReadPiece(value, pieces, start, i + 1, Macro(space, name));
  }

  /** The end of the text: what was read, and a dollar sign and namespace at the end. */
  lemma ReadEnd(value: string, pieces: seq<Piece>, start: nat, state: State, space: string, name: string)
    requires Reading(value, pieces, start, |value|, state, space, name)
    ensures state == Default ==> Parse(value) == Parsed(pieces, true)
    ensures state == MacroNamespace ==> Parse(value) == Parsed(pieces + [Literal("$" + space)], true)
    ensures state == MacroName ==> Parse(value) == Parsed(pieces, false)
  {
    var rest := value[start..];
    if state == MacroNamespace {
      assert rest == "$" + space;
      ParseOpenNamespace(space);
    } else if state == MacroName {
      assert rest == "$" + space + "{" + name;
      ParseMacro(rest, space, name);
    }
  }

  lemma {:induction false} RenderStuck(c: Context, env: Environment, pieces: seq<Piece>, more: seq<Piece>)
    requires !Render(c, env, pieces).Text?
    ensures Render(c, env, pieces + more) == Render(c, env, pieces)
  {
    if more == [] {
      assert pieces + more == pieces;
    } else {
      RenderStuck(c, env, pieces, more[..|more| - 1]);
      assert pieces + more == (pieces + more[..|more| - 1]) + [more[|more| - 1]];
      RenderMore(c, env, pieces + more[..|more| - 1], more[|more| - 1]);
    }
  }
}
