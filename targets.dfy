/** `find_target_channels`: from one downloaded playlist, keep the channels
    whose display name names a target and no excluded keyword, and give each
    kept channel its canonical name and group label. */
module Targets {
  import opened Wrappers
  import opened Strings
  import opened Channels
  import opened Matching
  import opened Repair
  import opened Filters

  /** The configuration lists the pipeline consults: the group mappers
      `[group, alias, ...]`, the target names and the exclusion keywords. */
  datatype Config = Config(
    groupMapper: seq<seq<string>>,
    targetNames: seq<string>,
    blackKeywords: seq<string>)

  /** The name a record is judged by before stripping: its `tvg-name`
      attribute when the key is present, else its `tvg-id` attribute when
      present, else the record's own name. */
  function DisplayName(c: Channel): string {
    if TvgName in c.attributes then c.attributes[TvgName]
    else if TvgId in c.attributes then c.attributes[TvgId]
    else c.name
  }

  /** The effective name: the display name with surrounding whitespace
      stripped. */
  function EffectiveName(c: Channel): (r: string)
    ensures TvgName in c.attributes ==> r == Strip(c.attributes[TvgName])
    ensures TvgName !in c.attributes && TvgId in c.attributes ==> r == Strip(c.attributes[TvgId])
    ensures TvgName !in c.attributes && TvgId !in c.attributes ==> r == Strip(c.name)
  {
    Strip(DisplayName(c))
  }

  /** The filter of the loop: a target occurs in the effective name and no
      exclusion keyword does. */
  predicate IsSelected(cfg: Config, c: Channel) {
    var n := EffectiveName(c);
    IsTargetChannel(cfg.targetNames, n) && !IsBlackChannel(cfg.blackKeywords, n)
  }

  /** The rewrite of a kept record: its name becomes the canonical target
      name, its `group-title` the group of that new name; nothing else
      changes. */
  function Retarget(cfg: Config, c: Channel): (r: Channel)
    ensures r.name == GetStandardChannelName(cfg.targetNames, EffectiveName(c))
    ensures r.url == c.url && r.duration == c.duration
    ensures forall k :: k in r.attributes <==> k in c.attributes || k == GroupTitle
    ensures r.attributes[GroupTitle] == FindChannelGroup(cfg.groupMapper, r.name)
    ensures forall k :: k in c.attributes && k != GroupTitle ==> r.attributes[k] == c.attributes[k]
  {
    var name := GetStandardChannelName(cfg.targetNames, EffectiveName(c));
    c.(name := name, attributes := c.attributes[GroupTitle := FindChannelGroup(cfg.groupMapper, name)])
  }

  /** The records the loop keeps from the decoded playlist `rs`, rewritten,
      in their original order. It is the instance of `FilterMap` with the
      loop's filter and rewrite (`SelectIsFilterMap`), written out as its own
      recursion: the loop proof over the lambda form costs the verifier far
      more than over this one. */
  function Select(cfg: Config, rs: seq<Channel>): (r: seq<Channel>)
    ensures |r| <= |rs|
  {
    if rs == [] then []
    else
      var last := rs[|rs| - 1];
      Select(cfg, rs[..|rs| - 1]) + (if IsSelected(cfg, last) then [Retarget(cfg, last)] else [])
  }

  /** `Select` is `FilterMap` with the loop's filter and rewrite. */
  lemma {:induction false} SelectIsFilterMap(cfg: Config, rs: seq<Channel>)
    ensures Select(cfg, rs) == FilterMap(c => IsSelected(cfg, c), c => Retarget(cfg, c), rs)
  {
    if rs != [] {
      SelectIsFilterMap(cfg, rs[..|rs| - 1]);
    }
  }

  /** One more record of the playlist: it is appended, rewritten, when it is
      selected. */
  lemma SelectStep(cfg: Config, rs: seq<Channel>, i: int)
    requires 0 <= i < |rs|
    ensures Select(cfg, rs[..i + 1])
            == Select(cfg, rs[..i]) + (if IsSelected(cfg, rs[i]) then [Retarget(cfg, rs[i])] else [])
  {
    assert rs[..i + 1][..i] == rs[..i];
  }

  /** The loop's two in-place updates of a record, the renaming and then the
      relabelling, produce the record `Retarget` describes. */
  lemma RenamedRetargets(cfg: Config, c: Channel, media: Channel)
    requires var name := GetStandardChannelName(cfg.targetNames, EffectiveName(c));
             media == c.(name := name).(attributes := c.attributes[GroupTitle := FindChannelGroup(cfg.groupMapper, name)])
    ensures media == Retarget(cfg, c)
  {
  }

  /** What a kept record looks like: its effective name holds a target and no
      exclusion keyword, it is renamed to the first target occurring in that
      name, and its group label is that of the new name. */
  lemma KeptRecord(cfg: Config, c: Channel)
    requires IsSelected(cfg, c)
    ensures var n := EffectiveName(c);
            && (exists i :: IsFirstHit(cfg.targetNames, n, i) && Retarget(cfg, c).name == cfg.targetNames[i])
            && (forall i :: 0 <= i < |cfg.blackKeywords| ==> !Contains(n, cfg.blackKeywords[i]))
  {
  }

  /** `Select` is a filter followed by a rewrite that keeps the order: its
      results come, rewritten, from strictly increasing positions of `rs`
      holding selected records, and every selected record of `rs` is one of
      them. */
  lemma {:induction false} SelectOrigins(cfg: Config, rs: seq<Channel>) returns (idx: seq<nat>)
    ensures |idx| == |Select(cfg, rs)|
    ensures forall k :: 0 <= k < |idx| ==>
              idx[k] < |rs| && IsSelected(cfg, rs[idx[k]]) && Select(cfg, rs)[k] == Retarget(cfg, rs[idx[k]])
    ensures forall k, l :: 0 <= k < l < |idx| ==> idx[k] < idx[l]
    ensures forall j :: 0 <= j < |rs| && IsSelected(cfg, rs[j]) ==> j in idx
  {
    SelectIsFilterMap(cfg, rs);
    idx := FilterMapOrigins(c => IsSelected(cfg, c), c => Retarget(cfg, c), rs);
  }

  /** `find_target_channels`: repair the text, decode it, and keep and
      rewrite the target records. A text that does not decode yields no
      channel. */
  method FindTargetChannels(cfg: Config, decode: string -> Option<seq<Channel>>, raw: string)
    returns (channels: seq<Channel>)
    ensures decode(RepairExtInf(raw)).None? ==> channels == []
    ensures decode(RepairExtInf(raw)).Some? ==> channels == Select(cfg, decode(RepairExtInf(raw)).value)
  {
    var fixed := RepairExtInf(raw);
    channels := [];
    var parsed := decode(fixed);
    if parsed.None? {
      return;
    }
    var pl := parsed.value;
    for i := 0 to |pl|
      invariant channels == Select(cfg, pl[..i])
    {
      SelectStep(cfg, pl, i);
      var media := pl[i];
      var name := EffectiveName(media);
      if IsTargetChannel(cfg.targetNames, name) && !IsBlackChannel(cfg.blackKeywords, name) {
        name := GetStandardChannelName(cfg.targetNames, name);
        media := media.(name := name);
        media := media.(attributes := media.attributes[GroupTitle := FindChannelGroup(cfg.groupMapper, name)]);
        RenamedRetargets(cfg, pl[i], media);
        channels := channels + [media];
      }
    }
    assert pl[..|pl|] == pl;
  }
}
