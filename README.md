# Sports-channel playlist collector, modelled in Dafny

`collection_playlist.py` downloads M3U playlists from a fixed list of
sources. From each it keeps the few channels whose display name names a
target (the provincial sports channels, CCTV5, CCTV5+, Sky Sports F1). It
renames each kept channel to its canonical name and labels it with its
group. It then appends a hard-coded static channel, collapses duplicates
keyed by url and "extended" attributes, sorts by `(group-title or name,
name)`, and writes one playlist.

The model covers the selection and merging logic of that script:

- `Strings`: Python's substring test `in`, `str.strip()` with the
  `str.isspace` whitespace set, and `<` on `str`.
- `Matching`: the four first-match-wins scans (`find_channel_group`,
  `get_standard_channel_name`, `is_target_channel`, `is_black_channel`).
- `Repair`: the `re.sub` that rewrites `#EXTINF:-1` followed by `,`, `:`
  or `;` before decoding.
- `Targets`: `find_target_channels`, an imperative loop proved against
  the reference function `Select`.
- `Statics`: `create_iptv_channel` and `get_static_channels`.
- `Merge`: `get_channel_extend_attributes`, the identity key, and the
  insertion-ordered dictionary comprehension as a loop (`Dedup`). It
  carries ghost maps of the first and last position of each key.
- `Sorting`: the stable `list.sort` with the tuple key, modelled by a
  reference stable insertion sort on sequences.
- `Playlist`: the body of `main`, as the download loop (`CollectChannels`)
  and the merge-and-sort step (`MergeAndSort`).
- `Settings`: the script's configuration lists, and what they do to
  `CCTV5PLUS`, `CCTV5p`, `CCTV5-体育` and `五星体育广播`.
- `Filters`: a generic filter-and-map over sequences, with the lemmas that
  the sort's stability proof needs.

A channel is a value, `Channel(name, url, duration, attributes)`. The
downloads are a parameter (`seq<Option<string>>`, one entry per source in
order, `None` for a failed download). The M3U decoder is also a parameter
(`string -> Option<seq<Channel>>`, `None` when decoding raises).

Three details of the code that the model keeps as written:

- A static entry gets only a `group-title` default, from the group
  mapper, and then the tuple's own attributes. It gets no `tvg-id`.
- The exclusion test sees the same name the target test sees: the
  stripped effective name, before any renaming (lines 118-122).
- The guide URLs are joined in their fixed order, with no deduplication or
  sorting (line 165). That join is not modelled (see "Left out").

## Model

| member | source | states |
|---|---|---|
| Strings.ContainsIffOccurs | collection_playlist.py:81 | `Contains(s, sub)` (Python's `sub in s`) holds exactly when `sub` occurs at some index of `s`; the empty string occurs in every string |
| Strings.ContainedChars | collection_playlist.py:88 | every character of a contained string is a character of the string it is contained in |
| Strings.MissingChar | collection_playlist.py:102 | a string lacking one of `sub`'s characters does not contain `sub` |
| Strings.Strip | collection_playlist.py:118-120 | `strip()` returns a slice of its input with only whitespace around it, and the slice neither starts nor ends with whitespace |
| Strings.StripUnique | collection_playlist.py:118-120 | any non-empty slice with whitespace-free ends and only whitespace around it is the stripped string, so `strip()` is determined by those properties |
| Strings.StripIdempotent | collection_playlist.py:118-120 | stripping twice is stripping once |
| Strings.StrLessIrreflexive | collection_playlist.py:161-162 | `str` `<` is irreflexive |
| Strings.StrLessTransitive | collection_playlist.py:161-162 | `str` `<` is transitive |
| Strings.StrLessTotal | collection_playlist.py:161-162 | any two distinct strings are ordered one way or the other |
| Matching.FirstContained | collection_playlist.py:87-89 | the index returned is the first key in list order that occurs in the name; `None` exactly when no key occurs |
| Matching.AliasesOccur | collection_playlist.py:80-81 | an entry of `mapper[1:]` occurs in the name exactly when some alias at index 1 or later does |
| Matching.FirstGroupIndex | collection_playlist.py:79-82 | the index returned is the first mapper with an alias occurring in the name; `None` exactly when no mapper has one |
| Matching.FindChannelGroup | collection_playlist.py:78-83 | when some mapper's alias occurs in the name, the label of the first such mapper; otherwise the name itself |
| Matching.GroupAt | collection_playlist.py:78-83 | if mapper `k` is the first with an alias in the name, the result is exactly `mappers[k][0]` |
| Matching.GetStandardChannelName | collection_playlist.py:86-90 | when some target occurs in the name, the first such target in list order; otherwise the name itself |
| Matching.StandardNameAt | collection_playlist.py:86-90 | if target `i` is the first occurring in the name, the result is exactly `targets[i]` |
| Matching.StandardNameOfTarget | collection_playlist.py:86-97 | a name passing `is_target_channel` is renamed to a member of the target list that occurs in it; any other name is left as it is |
| Matching.IsTargetChannel | collection_playlist.py:93-97 | true exactly when some target occurs in the name |
| Matching.IsBlackChannel | collection_playlist.py:100-104 | true exactly when some exclusion keyword occurs in the name |
| Repair.RepairExtInf | collection_playlist.py:109 | the repair keeps the length of the text |
| Repair.NoOverlap | collection_playlist.py:109 | no match of the pattern starts inside another match |
| Repair.RepairExtInfAt | collection_playlist.py:109 | character by character: a match's separator becomes a space and every other character is kept |
| Repair.RepairWithoutMatch | collection_playlist.py:109 | text without a match is returned unchanged |
| Repair.RepairLeavesNoMatch | collection_playlist.py:109 | the repaired text has no match left, so repairing twice equals repairing once |
| Targets.EffectiveName | collection_playlist.py:118-120 | the stripped `tvg-name` if that key is present, else the stripped `tvg-id` if present, else the stripped name |
| Targets.Retarget | collection_playlist.py:123-125 | a kept record gets the canonical target name and the group of that new name as `group-title`; url, duration and every other attribute are unchanged |
| Targets.RenamedRetargets | collection_playlist.py:123-125 | the loop's two in-place updates, first the rename and then the `group-title` write, yield the record `Retarget` describes |
| Targets.KeptRecord | collection_playlist.py:122-123 | a kept record's effective name holds no exclusion keyword; the record is renamed to the first target occurring in that name |
| Targets.SelectOrigins | collection_playlist.py:117-129 | the kept records keep their relative order; each result is the rewrite of a selected record; every selected record appears |
| Targets.FindTargetChannels | collection_playlist.py:107-129 | repair, decode, then loop: the result is `[]` when decoding fails, otherwise exactly `Select` of the decoded playlist |
| Statics.CreateIptvChannel | collection_playlist.py:53-62 | the channel has the tuple's name and url, duration `-1`, and keys = tuple attributes plus `group-title`; tuple attributes win, and otherwise `group-title` is the name's group |
| Statics.GetStaticChannels | collection_playlist.py:65-66 | one channel per static entry, in list order, each built as `create_iptv_channel` builds it |
| Merge.ExtendAttributes | collection_playlist.py:132-136 | the attributes minus the four normal keys, with their values unchanged |
| Merge.SameKeyIff | collection_playlist.py:156-157 | two channels share a dictionary key exactly when they share a url and agree on every attribute outside the four normal ones |
| Merge.Dedup | collection_playlist.py:156-159 | the values are: distinct by key; one for every key of the input; each the last input written under its key; ordered by first insertion |
| Sorting.SortByKey | collection_playlist.py:161-162 | the sort is a permutation of its input (same multiset) |
| Sorting.SortByKeySorted | collection_playlist.py:161-162 | the result is ordered by the key `(group-title or name, name)` under tuple `<` |
| Sorting.SortByKeyStable | collection_playlist.py:161-162 | for every key, the elements with that key appear in the same relative order as in the input (stability) |
| Sorting.SortedUnchanged | collection_playlist.py:161-162 | an already sorted list is left as it is |
| Sorting.SortByKeyIdempotent | collection_playlist.py:161-162 | sorting twice is sorting once |
| Sorting.SortByKeyDistinct | collection_playlist.py:161-162 | sorting keeps a duplicate-free list duplicate-free under any key |
| Playlist.CollectedStep | collection_playlist.py:143-148 | a failed download adds nothing; a successful one appends what `find_target_channels` returns for it |
| Playlist.CollectedNamed | collection_playlist.py:141-148 | every channel gathered from the sources carries a target name and `group-title` equal to that name's group |
| Playlist.CollectChannels | collection_playlist.py:140-153 | the channel list is the gathered channels of the sources in order, followed by one static channel per static entry |
| Playlist.SortedTies | collection_playlist.py:155-162 | after dedup and sort, two channels with equal sort keys are in the order in which their identities first appeared |
| Playlist.MergeAndSort | collection_playlist.py:155-162 | the output is distinct by identity, covers every identity of the input, holds the last write of each, is sorted, and breaks ties by first appearance |
| Settings.TargetsListed | collection_playlist.py:36-39 | the target list is the two provincial channels, then both mappers' entries, then `CCTV5` |
| Settings.BareEffective | collection_playlist.py:118-120 | a record with no attributes and a name without surrounding whitespace is judged by that name |
| Settings.KeptAs | collection_playlist.py:117-126 | a record whose first target hit is `i` and which lacks the keyword characters is kept, renamed to target `i` and given that target's group |
| Settings.NotBlack | collection_playlist.py:41 | a name without `广` and without `伴` holds no exclusion keyword |
| Settings.Cctv5PlusHit | collection_playlist.py:36-39 | `CCTV5PLUS` first hits target 3, which is `CCTV5PLUS` itself (`CCTV5+` does not occur in it) |
| Settings.Cctv5PlusGroup | collection_playlist.py:30-34 | the group of `CCTV5PLUS` is `CCTV5+` |
| Settings.Cctv5PlusKept | collection_playlist.py:117-126 | a record judged by `CCTV5PLUS` is kept as `CCTV5PLUS` with group `CCTV5+` |
| Settings.Cctv5pHit | collection_playlist.py:36-39 | `CCTV5p` first hits target 4, which is `CCTV5p` |
| Settings.Cctv5pGroup | collection_playlist.py:30-34 | the group of `CCTV5p` is `CCTV5+` |
| Settings.Cctv5pKept | collection_playlist.py:117-126 | a record judged by `CCTV5p` is kept as `CCTV5p` with group `CCTV5+` |
| Settings.Cctv5NoGroup | collection_playlist.py:78-83 | no mapper alias occurs in `CCTV5`, so its group is `CCTV5` |
| Settings.Cctv5Hit | collection_playlist.py:36-39 | `CCTV5-体育` first hits the last target, `CCTV5` |
| Settings.Cctv5Renamed | collection_playlist.py:117-126 | a record judged by `CCTV5-体育` is kept, renamed `CCTV5`, with group `CCTV5` |
| Settings.RadioDropped | collection_playlist.py:122 | a record judged by `五星体育广播` is dropped, being the radio variant |
| Settings.PaddedEffective | collection_playlist.py:118-120 | a record without attributes named `" CCTV5-体育\t"` (a leading space and a trailing tab) is judged by `CCTV5-体育` |
| Settings.TvgNameDecides | collection_playlist.py:118-120 | when `tvg-name` is present, the record's own name plays no part in selection |
| Settings.StaticGroup | collection_playlist.py:25-28 | the static `五星体育` entry gets its own name as group label |

## Left out

- Downloading (`get_m3u_raw_from_url`, lines 69-75) is network I/O. It is a parameter: one `Option<string>` per source, in source order. The model does not tell an HTTP error page from a playlist; the code returns `response.text` for both.
- The source URL list (lines 9-18) only feeds the downloads, so it is not modelled.
- The M3U codec (`playlist.loads`, `M3UPlaylist`, `IPTVChannel`; lines 5-7, 112, 164-166) is an external library. Decoding is a parameter `decode`; building and serialising the output playlist is not modelled.
- The `x-tvg-url` attribute built from the guide URL list (lines 20-23 and 165) is output metadata created after the last step modelled.
- Writing `f1tv.m3u` (lines 168-170) is file I/O.
- The `print` calls, the unused `difflib` import (line 3) and `sys.argv` (lines 173-174) have no effect on the result.
- `find_target_channels` mutates the decoded `IPTVChannel` objects in place (lines 124-125). The model updates values; no other reference to those objects exists in the script, so no aliasing is lost.
- `channel_list.sort` (lines 161-162) sorts in place. The model is a stable insertion sort on sequences. It is proved sorted, a permutation and stable, but it is not Python's Timsort.
- `create_iptv_channel` (line 54) treats a tuple of length 3 as `(name, url, attributes)`. Every other tuple of length 2 or more is read as `(name, url)`, and its elements after the second are ignored. `StaticMedia.Pair` stands for all of those lengths. Tuples of length 0 or 1 raise `IndexError`, and the model does not represent them.
- The identity key's `frozenset(attrs.items())` (line 136) is a map. A frozen set of a dictionary's items determines that dictionary.
- The model does not represent exceptions raised inside the selection loop or by the codec's channel objects.
- `Channel` has no field for the auxiliary `extras` lines that the library's channel objects carry. In the script they travel with each record through the merge, and those of the last write survive. The model does not represent them.
