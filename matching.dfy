/** The first-match-wins name scans of the playlist collector: the group label
    of a channel name, the canonical target name, and the target and exclusion
    tests. Each scans an ordered list and stops at the first entry that occurs
    in the name. */
module Matching {
  import opened Wrappers
  import opened Strings

  /** `keys[i]` is the first key, in list order, that occurs in `name`. */
  ghost predicate IsFirstHit(keys: seq<string>, name: string, i: int) {
    && 0 <= i < |keys|
    && Contains(name, keys[i])
    && forall j :: 0 <= j < i ==> !Contains(name, keys[j])
  }

  /** Some key of `keys` occurs in `name`. */
  ghost predicate AnyOccurs(keys: seq<string>, name: string) {
    exists i :: 0 <= i < |keys| && Contains(name, keys[i])
  }

  /** The position of the first key, in list order, occurring in `name`. */
  function FirstContained(keys: seq<string>, name: string): (r: Option<nat>)
    ensures r.Some? ==> IsFirstHit(keys, name, r.value)
    ensures r.None? <==> !AnyOccurs(keys, name)
  {
    if keys == [] then None
    else if Contains(name, keys[0]) then Some(0)
    else match FirstContained(keys[1..], name)
      case None => None
      case Some(i) =>
        assert keys[1..][i] == keys[i + 1];
        Some(i + 1)
  }

  /** The aliases of a group mapper `[group, alias1, alias2, ...]`: Python's
      `mapper[1:]`, which is empty for an empty mapper. */
  function Aliases(mapper: seq<string>): seq<string> {
    if |mapper| == 0 then [] else mapper[1..]
  }

  /** Some alias of `mapper` occurs in `name`. */
  ghost predicate HasAlias(mapper: seq<string>, name: string) {
    exists a :: 1 <= a < |mapper| && Contains(name, mapper[a])
  }

  /** `mappers[k]` is the first mapper, in list order, with an alias in
      `name`. */
  ghost predicate IsFirstGroupHit(mappers: seq<seq<string>>, name: string, k: int) {
    && 0 <= k < |mappers|
    && HasAlias(mappers[k], name)
    && forall j :: 0 <= j < k ==> !HasAlias(mappers[j], name)
  }

  lemma AliasesOccur(mapper: seq<string>, name: string)
    ensures AnyOccurs(Aliases(mapper), name) <==> HasAlias(mapper, name)
  {
    if AnyOccurs(Aliases(mapper), name) {
      var i :| 0 <= i < |Aliases(mapper)| && Contains(name, Aliases(mapper)[i]);
      assert mapper[i + 1] == Aliases(mapper)[i];
    }
    if HasAlias(mapper, name) {
      var a :| 1 <= a < |mapper| && Contains(name, mapper[a]);
      assert Aliases(mapper)[a - 1] == mapper[a];
    }
  }

  /** The position of the first mapper with an alias in `name`. */
  function FirstGroupIndex(mappers: seq<seq<string>>, name: string): (r: Option<nat>)
    ensures r.Some? ==> IsFirstGroupHit(mappers, name, r.value)
    ensures r.None? <==> forall k :: 0 <= k < |mappers| ==> !HasAlias(mappers[k], name)
  {
    if mappers == [] then None
    else
      AliasesOccur(mappers[0], name);
      if FirstContained(Aliases(mappers[0]), name).Some? then Some(0)
      else match FirstGroupIndex(mappers[1..], name)
        case None => None
        case Some(k) =>
          assert mappers[1..][k] == mappers[k + 1];
          Some(k + 1)
  }

  /** `find_channel_group`: the group label `mapper[0]` of the first mapper
      having an alias that occurs in `name`, or `name` itself when none has. */
  function FindChannelGroup(mappers: seq<seq<string>>, name: string): (r: string)
    ensures (exists k :: 0 <= k < |mappers| && HasAlias(mappers[k], name)) ==>
              exists k :: IsFirstGroupHit(mappers, name, k) && r == mappers[k][0]
    ensures (forall k :: 0 <= k < |mappers| ==> !HasAlias(mappers[k], name)) ==> r == name
  {
    match FirstGroupIndex(mappers, name)
    case None => name
    case Some(k) => mappers[k][0]
  }

  /** `get_standard_channel_name`: the first target, in list order, that
      occurs in `name`, or `name` itself when none does. */
  function GetStandardChannelName(targets: seq<string>, name: string): (r: string)
    ensures AnyOccurs(targets, name) ==> exists i :: IsFirstHit(targets, name, i) && r == targets[i]
    ensures !AnyOccurs(targets, name) ==> r == name
  {
    match FirstContained(targets, name)
    case None => name
    case Some(i) => targets[i]
  }

  /** `is_target_channel`: some target occurs in `name`. */
  function IsTargetChannel(targets: seq<string>, name: string): (r: bool)
    ensures r <==> exists i :: 0 <= i < |targets| && Contains(name, targets[i])
  {
    FirstContained(targets, name).Some?
  }

  /** `is_black_channel`: some exclusion keyword occurs in `name`. */
  function IsBlackChannel(keywords: seq<string>, name: string): (r: bool)
    ensures r <==> exists i :: 0 <= i < |keywords| && Contains(name, keywords[i])
  {
    FirstContained(keywords, name).Some?
  }

  /** The first target occurring in `name` is what `name` is renamed to. */
  lemma StandardNameAt(targets: seq<string>, name: string, i: int)
    requires IsFirstHit(targets, name, i)
    ensures GetStandardChannelName(targets, name) == targets[i]
  {
    assert Contains(name, targets[i]);
    var j := FirstContained(targets, name).value;
    assert Contains(name, targets[j]);
    assert !(j < i) && !(i < j);
  }

  /** The first mapper with an alias in `name` supplies its group label. */
  lemma GroupAt(mappers: seq<seq<string>>, name: string, k: int)
    requires IsFirstGroupHit(mappers, name, k)
    ensures FindChannelGroup(mappers, name) == mappers[k][0]
  {
    assert HasAlias(mappers[k], name);
    var j := FirstGroupIndex(mappers, name).value;
    assert HasAlias(mappers[j], name);
    assert !(j < k) && !(k < j);
  }

  /** A name that passes the target test is renamed to one of the targets,
      and that target occurs in the name; otherwise it keeps its name. */
  lemma StandardNameOfTarget(targets: seq<string>, name: string)
    ensures IsTargetChannel(targets, name) ==>
              GetStandardChannelName(targets, name) in targets
              && Contains(name, GetStandardChannelName(targets, name))
    ensures !IsTargetChannel(targets, name) ==> GetStandardChannelName(targets, name) == name
  {
  }
}
