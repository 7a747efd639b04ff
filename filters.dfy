/** Filtering a sequence while mapping the kept elements, as the list
    building loops of the collector do. */
module Filters {

  /** The elements of `s` that satisfy `keep`, each mapped through `f`, in
      their original order. */
  function FilterMap<T, U>(keep: T -> bool, f: T -> U, s: seq<T>): (r: seq<U>)
    ensures |r| <= |s|
  {
    if s == [] then []
    else
      var last := s[|s| - 1];
      FilterMap(keep, f, s[..|s| - 1]) + (if keep(last) then [f(last)] else [])
  }

  /** `FilterMap` keeps order: its results come, mapped, from strictly
      increasing positions of `s` whose elements satisfy `keep`, and every
      such position is one of them. */
  lemma {:induction false} FilterMapOrigins<T, U>(keep: T -> bool, f: T -> U, s: seq<T>) returns (idx: seq<nat>)
    ensures |idx| == |FilterMap(keep, f, s)|
    ensures forall k :: 0 <= k < |idx| ==>
              idx[k] < |s| && keep(s[idx[k]]) && FilterMap(keep, f, s)[k] == f(s[idx[k]])
    ensures forall k, l :: 0 <= k < l < |idx| ==> idx[k] < idx[l]
    ensures forall j :: 0 <= j < |s| && keep(s[j]) ==> j in idx
  {
    if s == [] {
      idx := [];
    } else {
      var n := |s| - 1;
      var prefix := s[..n];
      var pre := FilterMapOrigins(keep, f, prefix);
      var r := FilterMap(keep, f, s);
      var rp := FilterMap(keep, f, prefix);
      if keep(s[n]) {
        assert r == rp + [f(s[n])];
        idx := pre + [n];
      } else {
        assert r == rp;
        idx := pre;
      }
      forall k | 0 <= k < |pre|
        ensures idx[k] < |s| && keep(s[idx[k]]) && r[k] == f(s[idx[k]])
      {
        assert idx[k] == pre[k] && s[pre[k]] == prefix[pre[k]] && r[k] == rp[k];
      }
      forall j | 0 <= j < n && keep(s[j]) ensures j in idx {
        assert prefix[j] == s[j];
        assert j in pre;
      }
    }
  }

  /** Filtering distributes over concatenation. */
  lemma {:induction false} FilterMapConcat<T, U>(keep: T -> bool, f: T -> U, a: seq<T>, b: seq<T>)
    ensures FilterMap(keep, f, a + b) == FilterMap(keep, f, a) + FilterMap(keep, f, b)
    decreases |b|
  {
    if b == [] {
      assert a + b == a;
    } else {
      var n := |b| - 1;
      assert (a + b)[..|a + b| - 1] == a + b[..n];
      FilterMapConcat(keep, f, a, b[..n]);
    }
  }

  lemma {:induction false} NoneKept<T, U>(keep: T -> bool, f: T -> U, s: seq<T>)
    requires forall j :: 0 <= j < |s| ==> !keep(s[j])
    ensures FilterMap(keep, f, s) == []
  {
    if s != [] {
      NoneKept(keep, f, s[..|s| - 1]);
    }
  }

  /** Putting `x` between `front` and `back` adds it at the end of the
      filtered result when nothing kept follows it. */
  lemma FilterMapInsert<T, U>(keep: T -> bool, f: T -> U, front: seq<T>, x: T, back: seq<T>)
    requires keep(x) ==> forall j :: 0 <= j < |back| ==> !keep(back[j])
    ensures FilterMap(keep, f, front + [x] + back)
            == FilterMap(keep, f, front + back) + (if keep(x) then [f(x)] else [])
  {
    FilterMapConcat(keep, f, front, back);
    FilterMapConcat(keep, f, front + [x], back);
    FilterMapConcat(keep, f, front, [x]);
    assert [x][..0] == [];
    if keep(x) {
      NoneKept(keep, f, back);
    }
  }
}
