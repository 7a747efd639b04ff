/** The final ordering in `main`: `channel_list.sort` with the key
    `(group-title or name, name)`. Python's list sort is stable, so it is
    modelled by a stable insertion sort used as the reference definition. */
module Sorting {
  import opened Channels
  import opened Strings
  import opened Filters
  import opened Merge

  /** The sort key, a pair of strings compared as a Python tuple. */
  datatype SortKey = SortKey(group: string, name: string)

  /** The key of `main`'s sort: the `group-title` attribute when the key is
      present, else the name; then the name. */
  function SortKeyOf(c: Channel): SortKey {
    SortKey(if GroupTitle in c.attributes then c.attributes[GroupTitle] else c.name, c.name)
  }

  /** Tuple `<` on two string pairs: the first fields decide unless they are
      equal, then the second fields do. */
  predicate KeyLess(a: SortKey, b: SortKey) {
    StrLess(a.group, b.group) || (a.group == b.group && StrLess(a.name, b.name))
  }

  lemma KeyLessIrreflexive(a: SortKey)
    ensures !KeyLess(a, a)
  {
    StrLessIrreflexive(a.group);
    StrLessIrreflexive(a.name);
  }

  lemma KeyLessTransitive(a: SortKey, b: SortKey, c: SortKey)
    requires KeyLess(a, b) && KeyLess(b, c)
    ensures KeyLess(a, c)
  {
    if StrLess(a.group, b.group) && StrLess(b.group, c.group) {
      StrLessTransitive(a.group, b.group, c.group);
    } else if a.group == b.group && b.group == c.group {
      StrLessTransitive(a.name, b.name, c.name);
    }
  }

  lemma KeyLessTotal(a: SortKey, b: SortKey)
    ensures a == b || KeyLess(a, b) || KeyLess(b, a)
  {
    StrLessTotal(a.group, b.group);
    StrLessTotal(a.name, b.name);
  }

  /** No later element has a strictly smaller key than an earlier one. */
  ghost predicate Sorted(s: seq<Channel>) {
    forall i, j :: 0 <= i < j < |s| ==> !KeyLess(SortKeyOf(s[j]), SortKeyOf(s[i]))
  }

  /** Where an insertion sort puts `x` into `t`: before the first element
      whose key is strictly greater, so after every element with an equal
      key. */
  function InsertPos(t: seq<Channel>, x: Channel): (p: nat)
    ensures p <= |t|
    ensures forall j :: 0 <= j < p ==> !KeyLess(SortKeyOf(x), SortKeyOf(t[j]))
    ensures p < |t| ==> KeyLess(SortKeyOf(x), SortKeyOf(t[p]))
  {
    if t == [] then 0
    else if KeyLess(SortKeyOf(x), SortKeyOf(t[0])) then 0
    else 1 + InsertPos(t[1..], x)
  }

  function Insert(t: seq<Channel>, x: Channel): (r: seq<Channel>)
    ensures multiset(r) == multiset(t) + multiset{x}
  {
    var p := InsertPos(t, x);
    assert t == t[..p] + t[p..];
    t[..p] + [x] + t[p..]
  }

  /** The reference stable sort: each element in turn is inserted into the
      sorted result of the ones before it. */
  function SortByKey(s: seq<Channel>): (r: seq<Channel>)
    ensures multiset(r) == multiset(s)
  {
    if s == [] then []
    else
      var n := |s| - 1;
      assert s == s[..n] + [s[n]];
      Insert(SortByKey(s[..n]), s[n])
  }

  /** A strictly smaller key is a different key and not a greater one. */
  lemma KeyLessAsymmetric(a: SortKey, b: SortKey)
    requires KeyLess(a, b)
    ensures a != b && !KeyLess(b, a)
  {
    KeyLessIrreflexive(a);
    if KeyLess(b, a) {
      KeyLessTransitive(a, b, a);
    }
  }

  /** In a sorted sequence, every element from the insertion point of `x` on
      has a key strictly greater than `x`'s. */
  lemma AfterInsertPos(t: seq<Channel>, x: Channel, j: int)
    requires Sorted(t) && InsertPos(t, x) <= j < |t|
    ensures KeyLess(SortKeyOf(x), SortKeyOf(t[j]))
  {
    var p := InsertPos(t, x);
    if j > p {
      var kp, kj := SortKeyOf(t[p]), SortKeyOf(t[j]);
      assert !KeyLess(kj, kp);
      KeyLessTotal(kp, kj);
      if kp != kj {
        KeyLessTransitive(SortKeyOf(x), kp, kj);
      }
    }
  }

  /** Where each element of `Insert(t, x)` comes from. */
  lemma InsertIndex(t: seq<Channel>, x: Channel)
    ensures var p, r := InsertPos(t, x), Insert(t, x);
            && |r| == |t| + 1 && r[p] == x
            && (forall k :: 0 <= k < p ==> r[k] == t[k])
            && (forall k :: p < k < |r| ==> r[k] == t[k - 1])
  {
    var p, r := InsertPos(t, x), Insert(t, x);
    var front, back := t[..p], t[p..];
    assert r == front + [x] + back;
    forall k | 0 <= k < p ensures r[k] == t[k] {
      assert r[k] == front[k];
    }
    forall k | p < k < |r| ensures r[k] == t[k - 1] {
      assert r[k] == back[k - p - 1];
    }
  }

  /** Inserting into a sorted sequence keeps it sorted. */
  lemma InsertSorted(t: seq<Channel>, x: Channel)
    requires Sorted(t)
    ensures Sorted(Insert(t, x))
  {
    var p := InsertPos(t, x);
    var r := Insert(t, x);
    InsertIndex(t, x);
    forall i, j | 0 <= i < j < |r| ensures !KeyLess(SortKeyOf(r[j]), SortKeyOf(r[i])) {
      if i == p {
        AfterInsertPos(t, x, j - 1);
        KeyLessAsymmetric(SortKeyOf(x), SortKeyOf(t[j - 1]));
      } else if j != p {
        var i', j' := if i < p then i else i - 1, if j < p then j else j - 1;
        assert r[i] == t[i'] && r[j] == t[j'];
      }
    }
  }

  /** The reference sort yields a sorted sequence. */
  lemma {:induction false} SortByKeySorted(s: seq<Channel>)
    ensures Sorted(SortByKey(s))
  {
    if s != [] {
      var n := |s| - 1;
      SortByKeySorted(s[..n]);
      InsertSorted(SortByKey(s[..n]), s[n]);
    }
  }

  /** The elements of `s` with sort key `k`, in their order in `s`. */
  function WithSortKey(s: seq<Channel>, k: SortKey): (r: seq<Channel>)
    ensures |r| <= |s|
  {
    FilterMap(c => SortKeyOf(c) == k, c => c, s)
  }

  /** Inserting `x` into a sorted sequence puts it after every element with
      the same key. */
  lemma InsertWithSortKey(t: seq<Channel>, x: Channel, k: SortKey)
    requires Sorted(t)
    ensures WithSortKey(Insert(t, x), k) == WithSortKey(t, k) + (if SortKeyOf(x) == k then [x] else [])
  {
    var p := InsertPos(t, x);
    var front, back := t[..p], t[p..];
    assert t == front + back;
    if SortKeyOf(x) == k {
      forall j | 0 <= j < |back| ensures SortKeyOf(back[j]) != k {
        AfterInsertPos(t, x, p + j);
        KeyLessAsymmetric(SortKeyOf(x), SortKeyOf(t[p + j]));
      }
    }
    FilterMapInsert(c => SortKeyOf(c) == k, c => c, front, x, back);
  }

  /** The sort is stable: the elements sharing any one key come out in the
      order in which they went in. */
  lemma {:induction false} SortByKeyStable(s: seq<Channel>, k: SortKey)
    ensures WithSortKey(SortByKey(s), k) == WithSortKey(s, k)
  {
    if s != [] {
      var n := |s| - 1;
      SortByKeyStable(s[..n], k);
      SortByKeySorted(s[..n]);
      InsertWithSortKey(SortByKey(s[..n]), s[n], k);
    }
  }

  /** An element no earlier key exceeds is inserted at the end. */
  lemma InsertAtEnd(t: seq<Channel>, x: Channel)
    requires forall j :: 0 <= j < |t| ==> !KeyLess(SortKeyOf(x), SortKeyOf(t[j]))
    ensures Insert(t, x) == t + [x]
  {
    assert InsertPos(t, x) == |t|;
  }

  /** Dropping the last element of a sorted sequence leaves it sorted, and
      that element goes back at the end. */
  lemma SortedPrefix(s: seq<Channel>)
    requires Sorted(s) && s != []
    ensures Sorted(s[..|s| - 1])
    ensures Insert(s[..|s| - 1], s[|s| - 1]) == s
  {
    var n := |s| - 1;
    var t := s[..n];
    forall j | 0 <= j < |t| ensures !KeyLess(SortKeyOf(s[n]), SortKeyOf(t[j])) {
      assert t[j] == s[j];
    }
    InsertAtEnd(t, s[n]);
    assert s == t + [s[n]];
  }

  /** A sorted sequence is left as it is, so sorting twice is sorting once. */
  lemma {:induction false} SortedUnchanged(s: seq<Channel>)
    requires Sorted(s)
    ensures SortByKey(s) == s
  {
    if s != [] {
      var n := |s| - 1;
      var t := s[..n];
      SortedPrefix(s);
      SortedUnchanged(t);
    }
  }

  lemma SortByKeyIdempotent(s: seq<Channel>)
    ensures SortByKey(SortByKey(s)) == SortByKey(s)
  {
    SortByKeySorted(s);
    SortedUnchanged(SortByKey(s));
  }

  /** Where the elements with key `k` sit in `s`: strictly increasing
      positions of `s`, and every position holding such an element. This is
      `FilterMapOrigins` instantiated for `WithSortKey`, so that the lemmas
      below reason about `WithSortKey` without unfolding its lambdas. */
  lemma WithSortKeyOrigins(s: seq<Channel>, k: SortKey) returns (idx: seq<nat>)
    ensures |idx| == |WithSortKey(s, k)|
    ensures forall m :: 0 <= m < |idx| ==>
              idx[m] < |s| && SortKeyOf(s[idx[m]]) == k && WithSortKey(s, k)[m] == s[idx[m]]
    ensures forall m, l :: 0 <= m < l < |idx| ==> idx[m] < idx[l]
    ensures forall j :: 0 <= j < |s| && SortKeyOf(s[j]) == k ==> j in idx
  {
    idx := FilterMapOrigins(c => SortKeyOf(c) == k, c => c, s);
  }

  /** Two elements with key `k` at positions `i < i'` of `s` sit, in that
      order, in the elements of `s` with key `k`. */
  lemma WithSortKeyRank(s: seq<Channel>, k: SortKey, i: int, i': int) returns (p: nat, p': nat)
    requires 0 <= i < i' < |s| && SortKeyOf(s[i]) == k && SortKeyOf(s[i']) == k
    ensures p < p' < |WithSortKey(s, k)|
    ensures WithSortKey(s, k)[p] == s[i] && WithSortKey(s, k)[p'] == s[i']
  {
    var idx := WithSortKeyOrigins(s, k);
    assert forall m, l :: 0 <= m < |idx| && 0 <= l < |idx| && idx[m] < idx[l] ==> m < l;
    p :| 0 <= p < |idx| && idx[p] == i;
    p' :| 0 <= p' < |idx| && idx[p'] == i';
  }

  /** Two elements at positions `p < p'` of the elements of `s` with key `k`
      come, in that order, from `s`. */
  lemma WithSortKeyPlace(s: seq<Channel>, k: SortKey, p: int, p': int) returns (u: nat, u': nat)
    requires 0 <= p < p' < |WithSortKey(s, k)|
    ensures u < u' < |s|
    ensures s[u] == WithSortKey(s, k)[p] && s[u'] == WithSortKey(s, k)[p']
  {
    var idx := WithSortKeyOrigins(s, k);
    u, u' := idx[p], idx[p'];
  }

  /** Inserting an element whose key no element of `t` has keeps the keys
      distinct. */
  lemma InsertDistinct<K>(t: seq<Channel>, x: Channel, key: Channel -> K)
    requires DistinctBy(t, key)
    requires forall j :: 0 <= j < |t| ==> key(t[j]) != key(x)
    ensures DistinctBy(Insert(t, x), key)
  {
    var p := InsertPos(t, x);
    var r := Insert(t, x);
    forall i, j | 0 <= i < j < |r| ensures key(r[i]) != key(r[j]) {
      var i', j' := if i < p then i else i - 1, if j <= p then j else j - 1;
      if i != p && j != p {
        assert r[i] == t[i'] && r[j] == t[j'] && i' < j';
      } else if i == p {
        assert r[i] == x && r[j] == t[j'];
      } else {
        assert r[j] == x && r[i] == t[i'];
      }
    }
  }

  /** A key absent from a sequence is absent from any permutation of it. */
  lemma AbsentFromPermutation<K>(a: seq<Channel>, b: seq<Channel>, key: Channel -> K, k: K)
    requires multiset(a) == multiset(b)
    requires forall i :: 0 <= i < |a| ==> key(a[i]) != k
    ensures forall j :: 0 <= j < |b| ==> key(b[j]) != k
  {
    forall j | 0 <= j < |b| ensures key(b[j]) != k {
      assert b[j] in multiset(a);
    }
  }

  /** Sorting keeps any key distinct that was distinct before. */
  lemma {:induction false} SortByKeyDistinct<K>(s: seq<Channel>, key: Channel -> K)
    requires DistinctBy(s, key)
    ensures DistinctBy(SortByKey(s), key)
  {
    if s != [] {
      var n := |s| - 1;
      var prefix := s[..n];
      forall i | 0 <= i < |prefix| ensures key(prefix[i]) != key(s[n]) {
        assert prefix[i] == s[i];
      }
      assert DistinctBy(prefix, key) by {
        forall i, j | 0 <= i < j < |prefix| ensures key(prefix[i]) != key(prefix[j]) {
          assert prefix[i] == s[i] && prefix[j] == s[j];
        }
      }
      SortByKeyDistinct(prefix, key);
      AbsentFromPermutation(prefix, SortByKey(prefix), key, key(s[n]));
      InsertDistinct(SortByKey(prefix), s[n], key);
    }
  }
}
