/** The two parts of a path that presets can name (GetFilenamePath and GetFilenameName in
    SystemTools). Paths are given with forward slashes, as they are after conversion. */
module PathNames {

  /** Where the last slash is, or -1. */
  function LastSlash(s: string): (p: int)
    ensures -1 <= p < |s| && (p >= 0 ==> s[p] == '/')
    ensures forall q :: p < q < |s| ==> s[q] != '/'
  {
    if s == "" then -1
    else if s[|s| - 1] == '/' then |s| - 1
    else LastSlash(s[..|s| - 1])
  }

  function ParentDirectory(s: string): string {
    var p := LastSlash(s);
    if p == 0 then "/"
    else if p == 2 && s[1] == ':' then s[..3]
    else if p < 0 then ""
    else s[..p]
  }

  function FilenameName(s: string): string {
    s[LastSlash(s) + 1..]
  }

  /** The path has a slash inside that is neither its first character nor part of the
      root of a drive. */
  predicate HasParent(s: string) {
    var p := LastSlash(s);
    0 < p && !(p == 2 && s[1] == ':')
  }

  /** The last name has no slash, and is the end of the path. */
  lemma NameIsLast(s: string)
    ensures '/' !in FilenameName(s) && |FilenameName(s)| <= |s| && s[|s| - |FilenameName(s)|..] == FilenameName(s)
  {
    hide LastSlash;
    var p := LastSlash(s);
    assert |s| - |FilenameName(s)| == p + 1;
    forall k | 0 <= k < |FilenameName(s)|
      ensures FilenameName(s)[k] != '/'
    {
      assert FilenameName(s)[k] == s[p + 1 + k];
    }
  }

  /** With the last name the path is whole again exactly when it is not directly below a
      root. */
  lemma PartsMakeWhole(s: string)
    ensures ParentDirectory(s) + "/" + FilenameName(s) == s <==> HasParent(s)
  {
    hide LastSlash;
    var p, dir, name := LastSlash(s), ParentDirectory(s), FilenameName(s);
    assert |dir + "/" + name| == |dir| + 1 + |name| && |name| == |s| - 1 - p;
    if HasParent(s) {
      assert s == s[..p] + [s[p]] + s[p + 1..];
    } else {
      assert |dir| != p;
    }
  }

  /** Directly below a root the parent is the root, and a single name has none. */
  lemma ParentsAtRoots(name: string, drive: char)
    requires '/' !in name
    ensures ParentDirectory("/" + name) == "/"
    ensures drive != '/' ==> ParentDirectory([drive] + ":/" + name) == [drive] + ":/"
    ensures ParentDirectory(name) == ""
  {
    hide LastSlash;
    SlashAt("/" + name, 0);
    var s := [drive] + ":/" + name;
    assert s[2] == '/' && s[3..] == name && s[..3] == [drive] + ":/";
    SlashAt(s, 2);
  }

  lemma SlashAt(s: string, p: nat)
    requires p < |s| && s[p] == '/' && '/' !in s[p + 1..]
    ensures LastSlash(s) == p
  {
    hide LastSlash;
    forall k | p < k < |s|
      ensures s[k] != '/'
    {
      assert s[k] == s[p + 1..][k - p - 1];
    }
  }
}
