/** The collector's configuration constants and what they make of a few
    concrete channel names. */
module Settings {
  import opened Strings
  import opened Channels
  import opened Matching
  import opened Targets
  import opened Statics

  /** `[group, alias, ...]`: the labels and the names that map to them. */
  const ChannelGroupMapper: seq<seq<string>> := [
    ["CCTV5+", "CCTV5PLUS", "CCTV5p"],
    ["Sky Sports F1", "SkySportsF1"]
  ]

  /** The two provincial sports channels, every entry of both mappers, then
      plain `CCTV5` last, so that the more specific names are tried first. */
  const TargetChannelNames: seq<string> :=
    ["五星体育", "广东体育"] + ChannelGroupMapper[0] + ChannelGroupMapper[1] + ["CCTV5"]

  /** Radio and audio-only variants of the targets. */
  const BlackKeywords: seq<string> := ["广播", "伴音"]

  const StaticMedias: seq<StaticMedia> := [Pair("五星体育", "https://cdn3.163189.xyz/163189/wxty")]

  const Collector: Config := Config(ChannelGroupMapper, TargetChannelNames, BlackKeywords)

  /** A decoded record with only a name and no attributes. */
  function Bare(name: string): Channel {
    Channel(name, "http://example.invalid/stream", "-1", map[])
  }

  /** The target list written out, in its order. `TargetsListed` proves it
      equal to `TargetChannelNames`; the lemmas on concrete names use this
      literal form, which the verifier indexes without first evaluating the
      concatenation. */
  const TargetList: seq<string> :=
    ["五星体育", "广东体育", "CCTV5+", "CCTV5PLUS", "CCTV5p", "Sky Sports F1", "SkySportsF1", "CCTV5"]

  lemma TargetsListed()
    ensures TargetChannelNames == TargetList
  {
  }

  /** A name without surrounding whitespace is judged as it is. */
  lemma BareEffective(name: string)
    requires name != [] && !IsSpace(name[0]) && !IsSpace(name[|name| - 1])
    ensures EffectiveName(Bare(name)) == name
  {
    assert SpaceAround(name, name, 0);
    StripUnique(name, name, 0);
  }

  /** A record whose effective name first hits `TargetChannelNames[i]`, and
      which holds no exclusion keyword, is kept, renamed to that target and
      labelled with the target's group. */
  lemma KeptAs(c: Channel, i: int, target: string, group: string)
    requires IsFirstHit(TargetChannelNames, EffectiveName(c), i) && TargetChannelNames[i] == target
    requires '广' !in EffectiveName(c) && '伴' !in EffectiveName(c)
    requires FindChannelGroup(ChannelGroupMapper, target) == group
    ensures IsSelected(Collector, c)
    ensures Retarget(Collector, c).name == target
    ensures Retarget(Collector, c).attributes[GroupTitle] == group
  {
    StandardNameAt(TargetChannelNames, EffectiveName(c), i);
    NotBlack(EffectiveName(c));
  }

  /** A name in which no exclusion keyword occurs. */
  lemma NotBlack(name: string)
    requires '广' !in name && '伴' !in name
    ensures !IsBlackChannel(BlackKeywords, name)
  {
    MissingChar(name, "广播", '广');
    MissingChar(name, "伴音", '伴');
  }

  /** `keys[i]` is the first key occurring in `name` when each earlier key
      has a character, `miss[j]`, that `name` lacks. */
  lemma FirstHitBy(keys: seq<string>, name: string, i: int, miss: string)
    requires 0 <= i < |keys| && |miss| == i && Contains(name, keys[i])
    requires forall j :: 0 <= j < i ==> miss[j] in keys[j] && miss[j] !in name
    ensures IsFirstHit(keys, name, i)
  {
    forall j | 0 <= j < i ensures !Contains(name, keys[j]) {
      MissingChar(name, keys[j], miss[j]);
    }
  }

  lemma Cctv5PlusHit(name: string)
    requires name == "CCTV5PLUS"
    ensures IsFirstHit(TargetChannelNames, name, 3)
    ensures TargetChannelNames[3] == "CCTV5PLUS"
    ensures '广' !in name && '伴' !in name
  {
    FirstHitBy(TargetList, "CCTV5PLUS", 3, "五广+");
    TargetsListed();
  }

  /** `CCTV5PLUS` is an alias of the first mapper, the `CCTV5+` group. */
  lemma Cctv5PlusGroup()
    ensures FindChannelGroup(ChannelGroupMapper, "CCTV5PLUS") == "CCTV5+"
  {
    assert Contains("CCTV5PLUS", ChannelGroupMapper[0][1]);
    assert HasAlias(ChannelGroupMapper[0], "CCTV5PLUS");
    GroupAt(ChannelGroupMapper, "CCTV5PLUS", 0);
  }

  /** So is `CCTV5p`. */
  lemma Cctv5pGroup()
    ensures FindChannelGroup(ChannelGroupMapper, "CCTV5p") == "CCTV5+"
  {
    assert Contains("CCTV5p", ChannelGroupMapper[0][2]);
    assert HasAlias(ChannelGroupMapper[0], "CCTV5p");
    GroupAt(ChannelGroupMapper, "CCTV5p", 0);
  }

  /** A record judged by the name `CCTV5PLUS` is kept under that name
      (`CCTV5+`, listed earlier, does not occur in it) and labelled with the
      group `CCTV5+`. */
  lemma Cctv5PlusKept(c: Channel)
    requires EffectiveName(c) == "CCTV5PLUS"
    ensures IsSelected(Collector, c)
    ensures Retarget(Collector, c).name == "CCTV5PLUS"
    ensures Retarget(Collector, c).attributes[GroupTitle] == "CCTV5+"
  {
    Cctv5PlusHit(EffectiveName(c));
    Cctv5PlusGroup();
    KeptAs(c, 3, "CCTV5PLUS", "CCTV5+");
  }

  lemma Cctv5pHit(name: string)
    requires name == "CCTV5p"
    ensures IsFirstHit(TargetChannelNames, name, 4)
    ensures TargetChannelNames[4] == "CCTV5p"
    ensures '广' !in name && '伴' !in name
  {
    FirstHitBy(TargetList, "CCTV5p", 4, "五广+P");
    TargetsListed();
  }

  /** A record judged by the name `CCTV5p` is kept under that name and
      labelled `CCTV5+`. */
  lemma Cctv5pKept(c: Channel)
    requires EffectiveName(c) == "CCTV5p"
    ensures IsSelected(Collector, c)
    ensures Retarget(Collector, c).name == "CCTV5p"
    ensures Retarget(Collector, c).attributes[GroupTitle] == "CCTV5+"
  {
    Cctv5pHit(EffectiveName(c));
    Cctv5pGroup();
    KeptAs(c, 4, "CCTV5p", "CCTV5+");
  }

  /** No alias of either mapper occurs in plain `CCTV5`. */
  lemma Cctv5NoGroup()
    ensures FindChannelGroup(ChannelGroupMapper, "CCTV5") == "CCTV5"
  {
    MissingChar("CCTV5", "CCTV5PLUS", 'P');
    MissingChar("CCTV5", "CCTV5p", 'p');
    MissingChar("CCTV5", "SkySportsF1", 'k');
    assert !HasAlias(ChannelGroupMapper[0], "CCTV5");
    assert !HasAlias(ChannelGroupMapper[1], "CCTV5");
  }

  lemma Cctv5Hit(name: string)
    requires name == "CCTV5-体育"
    ensures IsFirstHit(TargetChannelNames, name, 7)
    ensures TargetChannelNames[7] == "CCTV5"
    ensures '广' !in name && '伴' !in name
  {
    FirstHitBy(TargetList, "CCTV5-体育", 7, "五广+Ppkk");
    TargetsListed();
  }

  /** A display name containing `CCTV5` and nothing more specific is renamed
      to `CCTV5`, which no mapper covers, so that is its group as well. */
  lemma Cctv5Renamed(c: Channel)
    requires EffectiveName(c) == "CCTV5-体育"
    ensures IsSelected(Collector, c)
    ensures Retarget(Collector, c).name == "CCTV5"
    ensures Retarget(Collector, c).attributes[GroupTitle] == "CCTV5"
  {
    Cctv5Hit(EffectiveName(c));
    Cctv5NoGroup();
    KeptAs(c, 7, "CCTV5", "CCTV5");
  }

  /** The radio variant of a target is dropped. */
  lemma RadioDropped(c: Channel)
    requires EffectiveName(c) == "五星体育广播"
    ensures !IsSelected(Collector, c)
  {
    assert OccursAt("五星体育广播", "广播", 4);
    ContainsIffOccurs("五星体育广播", "广播");
    assert Contains("五星体育广播", BlackKeywords[0]);
  }

  /** The names above are the effective names of records that carry them as
      their name and have no attributes, whatever the surrounding
      whitespace. */
  lemma PaddedEffective(name: string)
    requires name == " CCTV5-体育\t"
    ensures EffectiveName(Bare(name)) == "CCTV5-体育"
  {
    assert SpaceAround(name, "CCTV5-体育", 1);
    StripUnique(name, "CCTV5-体育", 1);
  }

  /** When the `tvg-name` attribute is present, the record's own name plays
      no part in the selection. */
  lemma TvgNameDecides(cfg: Config, c: Channel, other: string)
    requires TvgName in c.attributes
    ensures IsSelected(cfg, c) == IsSelected(cfg, c.(name := other))
  {
  }

  /** The static entry gets its own name as group label. */
  lemma StaticGroup()
    ensures FindChannelGroup(ChannelGroupMapper, StaticMedias[0].name) == "五星体育"
  {
  }
}
