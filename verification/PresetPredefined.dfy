/** What each macro stands for, written as in a file (ExpandMacros and its expanders in
    cmCMakePresetsFile). */
module PresetPredefined {
  import opened Wrappers
  import opened PathNames
  import opened PresetText

  /** A text that is nothing but one macro has its value. */
  lemma OneMacro(c: Context, env: Environment, s: string, space: string, name: string)
    requires IsValidMacroNamespace(space) && '}' !in name && s == "$" + space + "{" + name + "}"
    ensures Expand(c, env, s) == MacroValue(c, env, space, name)
  {
    hide Parse, Expand, MacroValue;
    MacroThen(c, env, s, space, name, "");
    EmptyText(c, env);
  }

  lemma MacroThen(c: Context, env: Environment, s: string, space: string, name: string, rest: string)
    requires IsValidMacroNamespace(space) && '}' !in name && s == "$" + space + "{" + name + "}" + rest
    ensures Expand(c, env, s) == Append(MacroValue(c, env, space, name), Expand(c, env, rest))
  {
    hide Parse, Expand, MacroValue, IsValidMacroNamespace;
    var n := 2 + |space| + |name|;
    assert s[..n] == "$" + space + "{" + name && s[n] == '}' && s[n + 1..] == rest;
    ParseMacro(s, space, name);
    ExpandThen(c, env, s, Macro(space, name), rest);
  }

  lemma SourceDir(c: Context, env: Environment)
    ensures Expand(c, env, "${sourceDir}") == Text(c.sourceDir)
  {
    hide Parse, Expand;
    OneMacro(c, env, "${sourceDir}", "", "sourceDir");
  }

  lemma SourceParentDir(c: Context, env: Environment)
    ensures Expand(c, env, "${sourceParentDir}") == Text(ParentDirectory(c.sourceDir))
  {
    hide Parse, Expand;
    OneMacro(c, env, "${sourceParentDir}", "", "sourceParentDir");
  }

  lemma SourceDirName(c: Context, env: Environment)
    ensures Expand(c, env, "${sourceDirName}") == Text(FilenameName(c.sourceDir))
  {
    hide Parse, Expand;
    OneMacro(c, env, "${sourceDirName}", "", "sourceDirName");
  }

  lemma SlashThenName(c: Context, env: Environment)
    ensures Expand(c, env, "/${sourceDirName}") == Text("/" + FilenameName(c.sourceDir))
  {
    hide Parse, Expand, FilenameName;
    var rest := "/${sourceDirName}";
    assert rest[..1] == "/" && rest[1..] == "${sourceDirName}";
    ParseCharacter(rest);
    ExpandThen(c, env, rest, Literal("/"), "${sourceDirName}");
    SourceDirName(c, env);
  }

  lemma ParentThenName(c: Context, env: Environment)
    ensures Expand(c, env, "${sourceParentDir}/${sourceDirName}") ==
      Text(ParentDirectory(c.sourceDir) + ("/" + FilenameName(c.sourceDir)))
  {
    hide Parse, Expand, FilenameName, ParentDirectory;
    var s, rest := "${sourceParentDir}/${sourceDirName}", "/${sourceDirName}";
    assert s == "$" + "" + "{" + "sourceParentDir" + "}" + rest;
    assert IsValidMacroNamespace("");
    MacroThen(c, env, s, "", "sourceParentDir", rest);
    SlashThenName(c, env);
  }

  /** The parent and the name make up the directory, unless it is directly below a root. */
  lemma SourceParts(c: Context, env: Environment)
    ensures Expand(c, env, "${sourceParentDir}/${sourceDirName}") == Expand(c, env, "${sourceDir}")
      <==> HasParent(c.sourceDir)
  {
    hide Parse, Expand, ParentDirectory, FilenameName, HasParent;
    ParentThenName(c, env);
    SourceDir(c, env);
    PartsMakeWhole(c.sourceDir);
    var dir, name := ParentDirectory(c.sourceDir), FilenameName(c.sourceDir);
    assert dir + ("/" + name) == dir + "/" + name;
  }

  lemma PresetName(c: Context, env: Environment)
    ensures Expand(c, env, "${presetName}") == Text(c.presetName)
  {
    hide Parse, Expand;
    OneMacro(c, env, "${presetName}", "", "presetName");
  }

  /** The generator of a preset that is not hidden. */
  lemma GeneratorName(c: Context, env: Environment)
    ensures Expand(c, env, "${generator}") == Text(if c.hidden then "" else c.generator)
  {
    hide Parse, Expand;
    OneMacro(c, env, "${generator}", "", "generator");
  }

  lemma DollarSign(c: Context, env: Environment)
    ensures Expand(c, env, "${dollar}") == Text("$")
  {
    hide Parse, Expand;
    OneMacro(c, env, "${dollar}", "", "dollar");
  }

  /** The host system, which files of the first two versions cannot name. */
  lemma HostSystemName(c: Context, env: Environment)
    ensures Expand(c, env, "${hostSystemName}") == if c.version <= 2 then Failed else Text(c.hostSystemName)
  {
    hide Parse, Expand;
    OneMacro(c, env, "${hostSystemName}", "", "hostSystemName");
  }

  /** No other name is predefined. */
  lemma UnknownName(c: Context, env: Environment, name: string)
    requires '}' !in name && name !in ["sourceDir", "sourceParentDir", "sourceDirName", "presetName", "generator",
      "dollar", "hostSystemName"]
    ensures Expand(c, env, "${" + name + "}") == Failed
  {
    hide Parse, Expand;
    assert "${" + name + "}" == "$" + "" + "{" + name + "}";
    OneMacro(c, env, "${" + name + "}", "", name);
  }

  /** A variable of the preset, where it has one of that name, and otherwise of the system's
      environment; what is in neither is empty. */
  lemma VariableOf(c: Context, env: Environment, name: string)
    requires '}' !in name && name != ""
    ensures name in env && env[name].Some? ==> Expand(c, env, "$env{" + name + "}") == Text(env[name].value)
    ensures !(name in env && env[name].Some?) && name in c.getenv ==>
      Expand(c, env, "$env{" + name + "}") == Text(c.getenv[name])
    ensures !(name in env && env[name].Some?) && name !in c.getenv ==> Expand(c, env, "$env{" + name + "}") == Text("")
  {
    hide Parse, Expand;
    assert "$env{" + name + "}" == "$" + "env" + "{" + name + "}";
    OneMacro(c, env, "$env{" + name + "}", "env", name);
  }

  /** A variable of the system's environment, whatever the preset's are. */
  lemma ParentVariable(c: Context, env: Environment, name: string)
    requires '}' !in name && name != ""
    ensures name in c.getenv ==> Expand(c, env, "$penv{" + name + "}") == Text(c.getenv[name])
    ensures name !in c.getenv ==> Expand(c, env, "$penv{" + name + "}") == Text("")
  {
    hide Parse, Expand;
    assert "$penv{" + name + "}" == "$" + "penv" + "{" + name + "}";
    OneMacro(c, env, "$penv{" + name + "}", "penv", name);
  }

  lemma NamelessVariable(c: Context, env: Environment)
    ensures Expand(c, env, "$env{}") == Failed && Expand(c, env, "$penv{}") == Failed
  {
    hide Parse, Expand;
    assert "$env{}" == "$" + "env" + "{" + "" + "}" && "$penv{}" == "$" + "penv" + "{" + "" + "}";
    OneMacro(c, env, "$env{}", "env", "");
    OneMacro(c, env, "$penv{}", "penv", "");
  }

  /** Macros of vendors make the preset be ignored. */
  lemma VendorMacro(c: Context, env: Environment, name: string)
    requires '}' !in name
    ensures Expand(c, env, "$vendor{" + name + "}") == Ignored
  {
    hide Parse, Expand;
    assert "$vendor{" + name + "}" == "$" + "vendor" + "{" + name + "}";
    OneMacro(c, env, "$vendor{" + name + "}", "vendor", name);
  }
}
