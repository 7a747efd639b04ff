/** The hard-coded channels that no remote source provides:
    `create_iptv_channel` and `get_static_channels`. */
module Statics {
  import opened Channels
  import opened Matching

  /** An entry of the static list: a `(name, url)` or a
      `(name, url, attributes)` tuple. */
  datatype StaticMedia =
    | Pair(name: string, url: string)
    | Triple(name: string, url: string, attrs: map<string, string>)

  /** The attributes a tuple brings; a 2-tuple brings none. */
  function Overrides(m: StaticMedia): map<string, string> {
    if m.Triple? then m.attrs else map[]
  }

  /** `c` is the channel built for `m`: live duration `-1`, a default
      `group-title` from the group mapper, and the tuple's own attributes on
      top, winning on conflict. */
  ghost predicate IsStaticChannelOf(mappers: seq<seq<string>>, m: StaticMedia, c: Channel) {
    && c.name == m.name && c.url == m.url && c.duration == "-1"
    && c.attributes.Keys == Overrides(m).Keys + {GroupTitle}
    && (forall k :: k in Overrides(m) ==> c.attributes[k] == Overrides(m)[k])
    && (GroupTitle !in Overrides(m) ==> c.attributes[GroupTitle] == FindChannelGroup(mappers, m.name))
  }

  /** `create_iptv_channel`: a channel with the default group, then
      `attributes.update(attrs)`. */
  method CreateIptvChannel(mappers: seq<seq<string>>, media: StaticMedia) returns (c: Channel)
    ensures IsStaticChannelOf(mappers, media, c)
  {
    var attrs := Overrides(media);
    var attributes := map[GroupTitle := FindChannelGroup(mappers, media.name)];
    attributes := attributes + attrs;
    c := Channel(media.name, media.url, "-1", attributes);
  }

  /** `get_static_channels`: one channel per static entry, in list order. */
  method GetStaticChannels(mappers: seq<seq<string>>, medias: seq<StaticMedia>) returns (cs: seq<Channel>)
    ensures |cs| == |medias|
    ensures forall n :: 0 <= n < |medias| ==> IsStaticChannelOf(mappers, medias[n], cs[n])
  {
    cs := [];
    for n := 0 to |medias|
      invariant |cs| == n
      invariant forall j :: 0 <= j < n ==> IsStaticChannelOf(mappers, medias[j], cs[j])
    {
      var c := CreateIptvChannel(mappers, medias[n]);
      cs := cs + [c];
    }
  }
}
