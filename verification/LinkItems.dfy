/** Which link items are flags, what entry an item gets, and which items of a list are
    linked (AddLinkEntry and AddLinkEntries in cmComputeLinkDepends). */
module LinkItems {
  import opened Wrappers
  import opened LinkDepends

  /** A dash makes a flag, except before the name of a library or of a framework. */
  lemma FlagsAre(s: string)
    ensures !LooksLikeFlag("-l" + s) && !LooksLikeFlag("-framework" + s)
    ensures s == "" || s[0] != '-' ==> !LooksLikeFlag(s)
    ensures !("l" <= s) && !("framework" <= s) ==> LooksLikeFlag("-" + s)
  {
    if "-framework" <= "-" + s {
      assert ("-" + s)[..10] == "-framework" && ("-" + s)[1..] == s;
      assert s[..9] == "-framework"[1..];
    }
    assert "-framework" + s == "-framework" + s && ("-framework" + s)[..10] == "-framework";
  }

  /** A target keeps its name and is never a flag; another item is a flag if it looks like
      one. Neither is an object. */
  lemma EntriesAre(target: Target, name: string, cross: bool)
    ensures EntryFor(TargetItem(target, cross)) == LinkEntry(target.name, Some(target), false, false)
    ensures EntryFor(NamedItem(name, cross)) == LinkEntry(name, None, LooksLikeFlag(name), false)
  {
  }

  /** Targets are followed, and items for which a list of dependencies is known. */
  lemma FollowedAre(libDepends: map<string, string>, target: Target, name: string, cross: bool, index: nat)
    ensures Queued(libDepends, TargetItem(target, cross), index) == [BFSEntry(index, None)]
    ensures name in libDepends ==>
      Queued(libDepends, NamedItem(name, cross), index) == [BFSEntry(index, Some(libDepends[name]))]
    ensures name !in libDepends ==> Queued(libDepends, NamedItem(name, cross), index) == []
  {
  }

  ghost predicate Skipped(item: LinkItem, targetName: string) {
    item.AsStr() == "" || item.AsStr() == targetName
  }

  /** Every item but the target itself and empty ones is linked, in the place that the
      items before it leave, and nothing else. */
  lemma {:induction false} LinkedInOrder(libs: seq<LinkItem>, targetName: string, k: nat)
    requires k < |libs|
    ensures |Linked(libs[..k], targetName)| <= |Linked(libs, targetName)|
    ensures !Skipped(libs[k], targetName) ==>
      && |Linked(libs[..k], targetName)| < |Linked(libs, targetName)|
      && Linked(libs, targetName)[|Linked(libs[..k], targetName)|] == libs[k]
    ensures Linked(libs[..k + 1], targetName) ==
      Linked(libs[..k], targetName) + (if Skipped(libs[k], targetName) then [] else [libs[k]])
    ensures Linked(libs[..k + 1], targetName) <= Linked(libs, targetName)
  {
    assert libs[..k + 1][..k] == libs[..k];
    if k + 1 < |libs| {
      var front := libs[..|libs| - 1];
      assert front[..k] == libs[..k] && front[..k + 1] == libs[..k + 1];
      LinkedInOrder(front, targetName, k);
    } else {
      assert libs[..k + 1] == libs;
    }
  }
}
