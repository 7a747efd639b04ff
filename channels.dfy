/** The channel record the pipeline works on, as the playlist library hands it
    over: a display name, a stream url, a duration marker and the `#EXTINF`
    attributes. */
module Channels {

  datatype Channel = Channel(
    name: string,
    url: string,
    duration: string,
    attributes: map<string, string>)

  /** The attribute keys of the playlist library's `IPTVAttr` that the
      pipeline reads or writes. */
  const GroupTitle: string := "group-title"
  const TvgName: string := "tvg-name"
  const TvgId: string := "tvg-id"
  const TvgLogo: string := "tvg-logo"

  /** The "normal" attributes, which do not take part in a channel's
      identity. */
  const NormalAttrKeys: set<string> := {GroupTitle, TvgName, TvgId, TvgLogo}
}
