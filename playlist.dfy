/** The body of `main`: gather the target channels of every source that
    could be downloaded, append the static channels, collapse duplicates and
    sort by group and name. */
module Playlist {
  import opened Wrappers
  import opened Channels
  import opened Matching
  import opened Repair
  import opened Targets
  import opened Statics
  import opened Merge
  import opened Sorting

  /** What `find_target_channels` returns for one downloaded text. */
  function FoundIn(cfg: Config, decode: string -> Option<seq<Channel>>, raw: string): seq<Channel> {
    match decode(RepairExtInf(raw))
    case None => []
    case Some(pl) => Select(cfg, pl)
  }

  /** The channel list after the download loop: the results of the sources
      in order; a source whose download failed (`None`) adds nothing. */
  function Collected(cfg: Config, decode: string -> Option<seq<Channel>>, fetched: seq<Option<string>>)
    : seq<Channel>
  {
    if fetched == [] then []
    else
      var n := |fetched| - 1;
      Collected(cfg, decode, fetched[..n])
        + match fetched[n] case None => [] case Some(raw) => FoundIn(cfg, decode, raw)
  }

  /** One more source: its results, if its download succeeded, are added at
      the end. */
  lemma CollectedStep(cfg: Config, decode: string -> Option<seq<Channel>>, fetched: seq<Option<string>>, i: nat)
    requires i < |fetched|
    ensures fetched[i].None? ==> Collected(cfg, decode, fetched[..i + 1]) == Collected(cfg, decode, fetched[..i])
    ensures fetched[i].Some? ==>
              Collected(cfg, decode, fetched[..i + 1])
              == Collected(cfg, decode, fetched[..i]) + FoundIn(cfg, decode, fetched[i].value)
  {
    assert fetched[..i + 1][..i] == fetched[..i];
  }

  /** Every record `Select` keeps carries a target name and the group label
      of that name. */
  lemma SelectNamed(cfg: Config, rs: seq<Channel>)
    ensures forall c :: c in Select(cfg, rs) ==>
              && c.name in cfg.targetNames
              && GroupTitle in c.attributes
              && c.attributes[GroupTitle] == FindChannelGroup(cfg.groupMapper, c.name)
  {
    var idx := SelectOrigins(cfg, rs);
    forall c | c in Select(cfg, rs)
      ensures c.name in cfg.targetNames
      ensures GroupTitle in c.attributes && c.attributes[GroupTitle] == FindChannelGroup(cfg.groupMapper, c.name)
    {
      var m :| 0 <= m < |Select(cfg, rs)| && Select(cfg, rs)[m] == c;
      KeptRecord(cfg, rs[idx[m]]);
    }
  }

  /** Every channel gathered from the sources carries a target name and the
      group label of that name. */
  lemma {:induction false} CollectedNamed(cfg: Config, decode: string -> Option<seq<Channel>>,
                                          fetched: seq<Option<string>>)
    ensures forall c :: c in Collected(cfg, decode, fetched) ==>
              && c.name in cfg.targetNames
              && GroupTitle in c.attributes
              && c.attributes[GroupTitle] == FindChannelGroup(cfg.groupMapper, c.name)
  {
    if fetched != [] {
      var n := |fetched| - 1;
      CollectedNamed(cfg, decode, fetched[..n]);
      match fetched[n]
      case None =>
      case Some(raw) =>
        match decode(RepairExtInf(raw))
        case None =>
        case Some(pl) => SelectNamed(cfg, pl);
    }
  }

  /** Lines 140-153 of `main`: the loop over the sources, then the static
      channels. `fetched` holds the outcome of each download in source
      order. */
  method CollectChannels(cfg: Config, decode: string -> Option<seq<Channel>>,
                         fetched: seq<Option<string>>, medias: seq<StaticMedia>)
    returns (channelList: seq<Channel>)
    ensures var found := Collected(cfg, decode, fetched);
            && |channelList| == |found| + |medias|
            && channelList[..|found|] == found
            && forall n :: 0 <= n < |medias| ==>
                 IsStaticChannelOf(cfg.groupMapper, medias[n], channelList[|found| + n])
  {
    channelList := [];
    for i := 0 to |fetched|
      invariant channelList == Collected(cfg, decode, fetched[..i])
    {
      CollectedStep(cfg, decode, fetched, i);
      var m3uRaw := fetched[i];
      if m3uRaw.None? {
        continue;
      }
      var result := FindTargetChannels(cfg, decode, m3uRaw.value);
      channelList := channelList + result;
    }
    assert fetched[..|fetched|] == fetched;
    assert channelList == Collected(cfg, decode, fetched);
    ghost var found := channelList;
    var statics := GetStaticChannels(cfg.groupMapper, medias);
    channelList := channelList + statics;
    assert channelList[..|found|] == found;
    assert forall n :: 0 <= n < |medias| ==> channelList[|found| + n] == statics[n];
  }

  /** Sorting a duplicate-free list keeps every property of the dictionary's
      values except their order. */
  lemma PermutedValues(xs: seq<Channel>, unique: seq<Channel>, out: seq<Channel>)
    requires multiset(out) == multiset(unique)
    requires CoversKeys(unique, xs, KeyOf) && LastWritesWin(unique, xs, KeyOf)
    ensures CoversKeys(out, xs, KeyOf) && LastWritesWin(out, xs, KeyOf)
  {
    forall j | 0 <= j < |xs| ensures HasKey(out, KeyOf, KeyOf(xs[j])) {
      assert HasKey(unique, KeyOf, KeyOf(xs[j]));
      var i :| 0 <= i < |unique| && KeyOf(unique[i]) == KeyOf(xs[j]);
      assert unique[i] in multiset(out);
      var i' :| 0 <= i' < |out| && out[i'] == unique[i];
    }
    forall i | 0 <= i < |out| ensures IsLastWrite(xs, KeyOf, out[i]) {
      assert out[i] in multiset(unique);
      var i' :| 0 <= i' < |unique| && unique[i'] == out[i];
      assert IsLastWrite(xs, KeyOf, unique[i']);
    }
  }

  /** After the stable sort, two channels with equal sort keys are in the
      order in which their identities first appeared. */
  lemma SortedTies(xs: seq<Channel>, unique: seq<Channel>, i: int, i': int)
    requires InFirstSeenOrder(unique, xs, KeyOf)
    requires 0 <= i < i' < |SortByKey(unique)|
    requires SortKeyOf(SortByKey(unique)[i]) == SortKeyOf(SortByKey(unique)[i'])
    ensures FirstSeenBefore(xs, KeyOf, KeyOf(SortByKey(unique)[i]), KeyOf(SortByKey(unique)[i']))
  {
    var out := SortByKey(unique);
    var k := SortKeyOf(out[i]);
    SortByKeyStable(unique, k);
    var p, p' := WithSortKeyRank(out, k, i, i');
    var u, u' := WithSortKeyPlace(unique, k, p, p');
    assert unique[u] == out[i] && unique[u'] == out[i'];
  }

  /** Lines 155-162 of `main`: collapse the list through the dictionary
      keyed by identity, then sort it stably by `(group-title or name,
      name)`. The result has one channel per identity of the input, the last
      one written; it is sorted; and channels with equal sort keys keep the
      order in which their identities first appeared. */
  method MergeAndSort(channelList: seq<Channel>) returns (out: seq<Channel>)
    ensures DistinctBy(out, KeyOf)
    ensures CoversKeys(out, channelList, KeyOf)
    ensures LastWritesWin(out, channelList, KeyOf)
    ensures Sorted(out)
    ensures forall i, i' :: 0 <= i < i' < |out| && SortKeyOf(out[i]) == SortKeyOf(out[i']) ==>
              FirstSeenBefore(channelList, KeyOf, KeyOf(out[i]), KeyOf(out[i']))
  {
    var unique := Dedup(channelList);
    out := SortByKey(unique);
    SortByKeySorted(unique);
    SortByKeyDistinct(unique, KeyOf);
    PermutedValues(channelList, unique, out);
    forall i, i' | 0 <= i < i' < |out| && SortKeyOf(out[i]) == SortKeyOf(out[i'])
      ensures FirstSeenBefore(channelList, KeyOf, KeyOf(out[i]), KeyOf(out[i']))
    {
      SortedTies(channelList, unique, i, i');
    }
  }
}
