/** Duplicate removal in `main`: every channel is keyed by its url and its
    attributes other than the four normal ones, and the channels are
    collapsed through an insertion-ordered dictionary keyed that way. */
module Merge {
  import opened Channels

  /** The identity of a channel: `(c.url, frozenset(extended attribute
      items))`. A frozen set of the items of a dictionary is that dictionary,
      so it is a map here. */
  datatype IdentityKey = IdentityKey(url: string, extended: map<string, string>)

  /** `get_channel_extend_attributes`: the attributes without `group-title`,
      `tvg-name`, `tvg-id` and `tvg-logo`. */
  function ExtendAttributes(c: Channel): (r: map<string, string>)
    ensures r.Keys == c.attributes.Keys - NormalAttrKeys
    ensures forall k :: k in r ==> r[k] == c.attributes[k]
  {
    c.attributes - NormalAttrKeys
  }

  function KeyOf(c: Channel): IdentityKey {
    IdentityKey(c.url, ExtendAttributes(c))
  }

  /** Two attribute maps agree on every key outside the normal ones. */
  ghost predicate AgreeOutsideNormal(a: map<string, string>, b: map<string, string>) {
    forall k :: k !in NormalAttrKeys ==> (k in a <==> k in b) && (k in a ==> a[k] == b[k])
  }

  /** Two channels share an identity exactly when they share a url and differ
      at most in the four normal attributes. */
  lemma SameKeyIff(a: Channel, b: Channel)
    ensures KeyOf(a) == KeyOf(b) <==> a.url == b.url && AgreeOutsideNormal(a.attributes, b.attributes)
  {
    if a.url == b.url && AgreeOutsideNormal(a.attributes, b.attributes) {
      var ea, eb := ExtendAttributes(a), ExtendAttributes(b);
      assert ea.Keys == eb.Keys;
      assert ea == eb;
    }
    if KeyOf(a) == KeyOf(b) {
      forall k | k !in NormalAttrKeys
        ensures (k in a.attributes <==> k in b.attributes)
        ensures k in a.attributes ==> a.attributes[k] == b.attributes[k]
      {
        assert k in a.attributes <==> k in ExtendAttributes(a);
        assert k in b.attributes <==> k in ExtendAttributes(b);
      }
    }
  }

  /** No two elements of `s` share a key. */
  ghost predicate DistinctBy<T, K>(s: seq<T>, key: T -> K) {
    forall i, j :: 0 <= i < j < |s| ==> key(s[i]) != key(s[j])
  }

  /** `s[j]` is the last element of `s` with its key. */
  ghost predicate IsLastBy<T, K>(s: seq<T>, key: T -> K, j: int) {
    0 <= j < |s| && forall j' :: j < j' < |s| ==> key(s[j']) != key(s[j])
  }

  /** Identity `k1` first appears in `s` before key `k2` does (`k2` may
      not appear at all). */
  ghost predicate FirstSeenBefore<T, K>(s: seq<T>, key: T -> K, k1: K, k2: K) {
    exists j :: 0 <= j < |s| && key(s[j]) == k1 && forall j' :: 0 <= j' <= j ==> key(s[j']) != k2
  }

  /** Some element of `s` has key `k`. */
  ghost predicate HasKey<T, K>(s: seq<T>, key: T -> K, k: K) {
    exists i :: 0 <= i < |s| && key(s[i]) == k
  }

  /** `c` is the last element of `xs` with its key. */
  ghost predicate IsLastWrite<T, K>(xs: seq<T>, key: T -> K, c: T) {
    exists j :: IsLastBy(xs, key, j) && c == xs[j]
  }

  /** Every key of `xs` is the key of some element of `unique`. */
  ghost predicate CoversKeys<T, K>(unique: seq<T>, xs: seq<T>, key: T -> K) {
    forall j :: 0 <= j < |xs| ==> HasKey(unique, key, key(xs[j]))
  }

  /** Every element of `unique` is the last element of `xs` with its
      key. */
  ghost predicate LastWritesWin<T, K>(unique: seq<T>, xs: seq<T>, key: T -> K) {
    forall i :: 0 <= i < |unique| ==> IsLastWrite(xs, key, unique[i])
  }

  /** The elements of `unique` are ordered by where their keys first
      appear in `xs`. */
  ghost predicate InFirstSeenOrder<T, K>(unique: seq<T>, xs: seq<T>, key: T -> K) {
    forall i, i' :: 0 <= i < i' < |unique| ==> FirstSeenBefore(xs, key, key(unique[i]), key(unique[i']))
  }

  /** The dictionary's keys are those of `order`, listed once each, and
      `first` and `last` have an entry for each. */
  ghost predicate KeysListed<K(!new), T>(order: seq<K>, table: map<K, T>, first: map<K, nat>, last: map<K, nat>) {
    && (forall k :: k in table <==> k in order)
    && first.Keys == table.Keys && last.Keys == table.Keys
    && (forall a, b :: 0 <= a < b < |order| ==> order[a] != order[b])
  }

  /** Every key among the first `n` elements is in the dictionary. */
  ghost predicate Covered<T, K>(xs: seq<T>, key: T -> K, n: nat, table: map<K, T>)
    requires n <= |xs|
  {
    forall j :: 0 <= j < n ==> key(xs[j]) in table
  }

  /** `last[k]` is the last of the first `n` positions with key `k`, and the
      dictionary holds the element there. */
  ghost predicate LastWritten<T, K(!new)>(xs: seq<T>, key: T -> K, n: nat, table: map<K, T>, last: map<K, nat>)
    requires n <= |xs| && last.Keys <= table.Keys
  {
    forall k :: k in last ==>
      && last[k] < n && table[k] == xs[last[k]] && key(xs[last[k]]) == k
      && forall j :: last[k] < j < n ==> key(xs[j]) != k
  }

  /** `first[k]` is the first position with key `k`, among the first `n`. */
  ghost predicate FirstInserted<T, K(!new)>(xs: seq<T>, key: T -> K, n: nat, first: map<K, nat>)
    requires n <= |xs|
  {
    forall k :: k in first ==>
      && first[k] < n && key(xs[first[k]]) == k
      && forall j :: 0 <= j < first[k] ==> key(xs[j]) != k
  }

  /** `order` lists the keys by their first insertion. */
  ghost predicate OrderedByFirst<K>(order: seq<K>, first: map<K, nat>)
    requires forall a :: 0 <= a < |order| ==> order[a] in first
  {
    forall a, b :: 0 <= a < b < |order| ==> first[order[a]] < first[order[b]]
  }

  /** The state of the dictionary after the first `n` elements of `xs`:
      `order` lists its keys in insertion order, `table` holds the value of
      each, and `first` and `last` say where each key was first inserted and
      last written. */
  ghost predicate DictState<T, K(!new)>(xs: seq<T>, key: T -> K, n: nat, order: seq<K>, table: map<K, T>,
                                        first: map<K, nat>, last: map<K, nat>)
  {
    && n <= |xs|
    && KeysListed(order, table, first, last)
    && Covered(xs, key, n, table)
    && LastWritten(xs, key, n, table, last)
    && FirstInserted(xs, key, n, first)
    && OrderedByFirst(order, first)
  }

  lemma KeysListedStep<K(!new), T>(order: seq<K>, table: map<K, T>, first: map<K, nat>, last: map<K, nat>,
                             k: K, v: T, n: nat)
    requires KeysListed(order, table, first, last)
    ensures var isNew := k !in table;
            KeysListed(if isNew then order + [k] else order, table[k := v],
                       if isNew then first[k := n] else first, last[k := n])
  {
  }

  lemma CoveredStep<T, K>(xs: seq<T>, key: T -> K, n: nat, table: map<K, T>)
    requires n < |xs| && Covered(xs, key, n, table)
    ensures Covered(xs, key, n + 1, table[key(xs[n]) := xs[n]])
  {
    forall j | 0 <= j <= n ensures key(xs[j]) in table[key(xs[n]) := xs[n]] {
      if j < n {
        assert key(xs[j]) in table;
      }
    }
  }

  lemma LastWrittenStep<T, K(!new)>(xs: seq<T>, key: T -> K, n: nat, table: map<K, T>, last: map<K, nat>)
    requires n < |xs| && last.Keys <= table.Keys && LastWritten(xs, key, n, table, last)
    ensures LastWritten(xs, key, n + 1, table[key(xs[n]) := xs[n]], last[key(xs[n]) := n])
  {
    var k := key(xs[n]);
    var table', last' := table[k := xs[n]], last[k := n];
    forall k' | k' in last'
      ensures last'[k'] <= n && table'[k'] == xs[last'[k']] && key(xs[last'[k']]) == k'
      ensures forall j :: last'[k'] < j <= n ==> key(xs[j]) != k'
    {
      if k' != k {
        assert last'[k'] == last[k'] && table'[k'] == table[k'];
      }
    }
  }

  lemma FirstInsertedStep<T, K(!new)>(xs: seq<T>, key: T -> K, n: nat, table: map<K, T>, first: map<K, nat>)
    requires n < |xs| && first.Keys == table.Keys && Covered(xs, key, n, table)
    requires FirstInserted(xs, key, n, first)
    ensures var k := key(xs[n]);
            FirstInserted(xs, key, n + 1, if k !in table then first[k := n] else first)
  {
    var k := key(xs[n]);
    var isNew := k !in table;
    var first' := if isNew then first[k := n] else first;
    forall k' | k' in first'
      ensures first'[k'] <= n && key(xs[first'[k']]) == k'
      ensures forall j :: 0 <= j < first'[k'] ==> key(xs[j]) != k'
    {
      if k' != k || !isNew {
        assert first'[k'] == first[k'];
      } else {
        forall j | 0 <= j < n ensures key(xs[j]) != k {
          assert key(xs[j]) in table;
        }
      }
    }
  }

  lemma OrderedByFirstStep<T, K(!new)>(xs: seq<T>, key: T -> K, n: nat, order: seq<K>, table: map<K, T>,
                                 first: map<K, nat>)
    requires n < |xs| && (forall k :: k in table <==> k in order) && first.Keys == table.Keys
    requires FirstInserted(xs, key, n, first) && OrderedByFirst(order, first)
    ensures var k := key(xs[n]);
            var isNew := k !in table;
            var order' := if isNew then order + [k] else order;
            var first' := if isNew then first[k := n] else first;
            (forall a :: 0 <= a < |order'| ==> order'[a] in first') && OrderedByFirst(order', first')
  {
    var k := key(xs[n]);
    if k !in table {
      var order', first' := order + [k], first[k := n];
      forall a, b | 0 <= a < b < |order'| ensures first'[order'[a]] < first'[order'[b]] {
        assert order'[a] == order[a] && order[a] in table && order[a] != k;
        assert first'[order'[a]] == first[order[a]] < n;
        if b < |order| {
          assert order'[b] == order[b] && order[b] in table && order[b] != k;
        }
      }
    }
  }

  /** One assignment `d[key] = c` keeps the dictionary state. */
  lemma DictStep<T, K(!new)>(xs: seq<T>, key: T -> K, n: nat, order: seq<K>, table: map<K, T>,
                             first: map<K, nat>, last: map<K, nat>)
    requires n < |xs| && DictState(xs, key, n, order, table, first, last)
    ensures var k := key(xs[n]);
            var isNew := k !in table;
            DictState(xs, key, n + 1,
                      if isNew then order + [k] else order,
                      table[k := xs[n]],
                      if isNew then first[k := n] else first,
                      last[k := n])
  {
    KeysListedStep(order, table, first, last, key(xs[n]), xs[n], n);
    CoveredStep(xs, key, n, table);
    LastWrittenStep(xs, key, n, table, last);
    FirstInsertedStep(xs, key, n, table, first);
    OrderedByFirstStep(xs, key, n, order, table, first);
  }

  /** Once every element is in, the dictionary's values listed in key order
      have the properties of `Dedup`. */
  lemma DictValues<T, K(!new)>(xs: seq<T>, key: T -> K, order: seq<K>, table: map<K, T>,
                         first: map<K, nat>, last: map<K, nat>, unique: seq<T>)
    requires DictState(xs, key, |xs|, order, table, first, last)
    requires |unique| == |order| && forall i :: 0 <= i < |order| ==> unique[i] == table[order[i]]
    ensures DistinctBy(unique, key)
    ensures CoversKeys(unique, xs, key)
    ensures LastWritesWin(unique, xs, key)
    ensures InFirstSeenOrder(unique, xs, key)
  {
    forall i | 0 <= i < |unique|
      ensures key(unique[i]) == order[i]
      ensures IsLastWrite(xs, key, unique[i])
    {
      var j := last[order[i]];
      assert IsLastBy(xs, key, j) && unique[i] == xs[j];
    }
    forall j | 0 <= j < |xs|
      ensures HasKey(unique, key, key(xs[j]))
    {
      var k := key(xs[j]);
      var i :| 0 <= i < |order| && order[i] == k;
      assert key(unique[i]) == k;
    }
    forall i, i' | 0 <= i < i' < |unique|
      ensures FirstSeenBefore(xs, key, key(unique[i]), key(unique[i']))
    {
      var w := first[order[i]];
      assert key(xs[w]) == order[i];
      assert forall j' :: 0 <= j' <= w ==> key(xs[j']) != order[i'];
    }
  }

  /** `list({(c.url, get_channel_extend_attributes(c)): c for c in
      channels}.values())`: one channel per identity. No two results share an
      identity, every identity of the input has a result, each result is the
      last input channel with its identity (the last write wins), and results
      are in the order in which their identities first appeared (the first
      insertion fixes the position). */
  method Dedup(channels: seq<Channel>) returns (unique: seq<Channel>)
    ensures DistinctBy(unique, KeyOf)
    ensures CoversKeys(unique, channels, KeyOf)
    ensures LastWritesWin(unique, channels, KeyOf)
    ensures InFirstSeenOrder(unique, channels, KeyOf)
  {
    // The dictionary: its keys in insertion order and the value of each.
    var order: seq<IdentityKey> := [];
    var table: map<IdentityKey, Channel> := map[];
    // Where each key was first inserted and last written.
    ghost var first: map<IdentityKey, nat> := map[];
    ghost var last: map<IdentityKey, nat> := map[];
    for n := 0 to |channels|
      invariant DictState(channels, KeyOf, n, order, table, first, last)
    {
      DictStep(channels, KeyOf, n, order, table, first, last);
      var c := channels[n];
      var k := KeyOf(c);
      if k !in table {
        order := order + [k];
        first := first[k := n];
      }
      table := table[k := c];
      last := last[k := n];
    }
    unique := seq(|order|, i requires 0 <= i < |order| => table[order[i]]);
    DictValues(channels, KeyOf, order, table, first, last, unique);
  }
}
