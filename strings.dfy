/** Python string primitives the playlist pipeline relies on: the `in` test on
    strings, `str.strip()` and the ordering `<` on `str`. */
module Strings {

  /** `sub` is a prefix of `s`. */
  predicate IsPrefix(sub: string, s: string) {
    |sub| <= |s| && s[..|sub|] == sub
  }

  /** Python's `sub in s` on strings: `sub` occurs somewhere in `s`.
      The empty string occurs in every string. */
  predicate Contains(s: string, sub: string)
    decreases |s|
  {
    IsPrefix(sub, s) || (|s| > 0 && Contains(s[1..], sub))
  }

  /** `sub` occurs in `s` starting at index `i`. */
  predicate OccursAt(s: string, sub: string, i: int) {
    0 <= i && i + |sub| <= |s| && s[i..i + |sub|] == sub
  }

  /** The scanning definition of `Contains` agrees with the index one. */
  lemma {:induction false} ContainsIffOccurs(s: string, sub: string)
    ensures Contains(s, sub) <==> exists i :: OccursAt(s, sub, i)
    decreases |s|
  {
    if IsPrefix(sub, s) {
      assert OccursAt(s, sub, 0);
    } else if |s| == 0 {
      assert forall i :: !OccursAt(s, sub, i);
    } else {
      ContainsIffOccurs(s[1..], sub);
      forall i | OccursAt(s[1..], sub, i) ensures OccursAt(s, sub, i + 1) {
        assert s[i + 1..i + 1 + |sub|] == s[1..][i..i + |sub|];
      }
      forall i | OccursAt(s, sub, i) ensures OccursAt(s[1..], sub, i - 1) {
        assert i != 0;
        assert s[1..][i - 1..i - 1 + |sub|] == s[i..i + |sub|];
      }
    }
  }

  /** Every character of an occurring string is a character of the string
      it occurs in. */
  lemma ContainedChars(s: string, sub: string)
    requires Contains(s, sub)
    ensures forall k :: 0 <= k < |sub| ==> sub[k] in s
  {
    ContainsIffOccurs(s, sub);
    var i :| OccursAt(s, sub, i);
    forall k | 0 <= k < |sub| ensures sub[k] in s {
      assert s[i..i + |sub|][k] == s[i + k];
    }
  }

  /** A string holding a character that `s` lacks does not occur in `s`. */
  lemma MissingChar(s: string, sub: string, c: char)
    requires c in sub && c !in s
    ensures !Contains(s, sub)
  {
    if Contains(s, sub) {
      ContainedChars(s, sub);
    }
  }

  /** Python's `str.isspace()` for one character: the characters that
      `str.strip()` with no argument removes. */
  predicate IsSpace(c: char) {
    || c == ' '
    || ('\t' <= c <= '\r')
    || ('\U{1c}' <= c <= '\U{1f}')
    || c == '\U{85}' || c == '\U{a0}' || c == '\U{1680}'
    || ('\U{2000}' <= c <= '\U{200a}')
    || c == '\U{2028}' || c == '\U{2029}' || c == '\U{202f}'
    || c == '\U{205f}' || c == '\U{3000}'
  }

  /** The first index at or after `i` that does not hold whitespace, or `|s|`. */
  function SkipSpace(s: string, i: nat): (n: nat)
    requires i <= |s|
    ensures i <= n <= |s|
    ensures forall k :: i <= k < n ==> IsSpace(s[k])
    ensures n < |s| ==> !IsSpace(s[n])
    decreases |s| - i
  {
    if i < |s| && IsSpace(s[i]) then SkipSpace(s, i + 1) else i
  }

  /** The end of `s[lo..j]` once its trailing whitespace is dropped. */
  function SkipSpaceBack(s: string, lo: nat, j: nat): (m: nat)
    requires lo <= j <= |s|
    ensures lo <= m <= j
    ensures forall k :: m <= k < j ==> IsSpace(s[k])
    ensures lo < m ==> !IsSpace(s[m - 1])
  {
    if lo < j && IsSpace(s[j - 1]) then SkipSpaceBack(s, lo, j - 1) else j
  }

  /** `r` is the slice of `s` at index `i` and everything of `s` around it is
      whitespace. */
  predicate SpaceAround(s: string, r: string, i: int) {
    && 0 <= i <= |s| - |r| && r == s[i..i + |r|]
    && (forall k :: 0 <= k < i ==> IsSpace(s[k]))
    && (forall k :: i + |r| <= k < |s| ==> IsSpace(s[k]))
  }

  /** Python's `s.strip()`: the result is the slice of `s` left after removing
      whitespace from both ends, and it neither starts nor ends with
      whitespace. */
  function Strip(s: string): (r: string)
    ensures exists i :: SpaceAround(s, r, i)
    ensures r == [] || (!IsSpace(r[0]) && !IsSpace(r[|r| - 1]))
  {
    var n := SkipSpace(s, 0);
    var m := SkipSpaceBack(s, n, |s|);
    assert SpaceAround(s, s[n..m], n);
    s[n..m]
  }

  /** A non-whitespace character at `e` bounds a whitespace prefix `s[..m]`
      and a whitespace suffix `s[m'..]`. */
  lemma SpaceBounds(s: string, e: int, m: int, m': int)
    requires 0 <= e < |s| && !IsSpace(s[e]) && m <= |s| && 0 <= m'
    requires forall k :: 0 <= k < m ==> IsSpace(s[k])
    requires forall k :: m' <= k < |s| ==> IsSpace(s[k])
    ensures m <= e < m'
  {
  }

  /** The stripped string is determined: a non-empty slice of `s` that
      starts and ends with non-whitespace and has only whitespace around it
      is `Strip(s)`. */
  lemma StripUnique(s: string, r: string, i: int)
    requires SpaceAround(s, r, i) && r != [] && !IsSpace(r[0]) && !IsSpace(r[|r| - 1])
    ensures Strip(s) == r
  {
    var r' := Strip(s);
    var j :| SpaceAround(s, r', j);
    var e := i + |r| - 1;
    assert s[i] == r[0] && s[e] == r[|r| - 1];
    SpaceBounds(s, i, j, j + |r'|);
    SpaceBounds(s, e, j, j + |r'|);
    var e' := j + |r'| - 1;
    assert s[j] == r'[0] && s[e'] == r'[|r'| - 1];
    SpaceBounds(s, j, i, i + |r|);
    SpaceBounds(s, e', i, i + |r|);
  }

  /** Stripping a string without surrounding whitespace leaves it as it is,
      so stripping twice is stripping once. */
  lemma StripIdempotent(s: string)
    ensures Strip(Strip(s)) == Strip(s)
  {
    var r := Strip(s);
    if r != [] {
      assert SpaceAround(r, r, 0);
      StripUnique(r, r, 0);
    }
  }

  /** Python's `a < b` on `str`: lexicographic comparison of code points, a
      proper prefix being smaller. */
  predicate StrLess(a: string, b: string)
    decreases |a|
  {
    |b| > 0 && (|a| == 0 || a[0] < b[0] || (a[0] == b[0] && StrLess(a[1..], b[1..])))
  }

  lemma {:induction false} StrLessIrreflexive(a: string)
    ensures !StrLess(a, a)
    decreases |a|
  {
    if |a| > 0 {
      StrLessIrreflexive(a[1..]);
    }
  }

  lemma {:induction false} StrLessTransitive(a: string, b: string, c: string)
    requires StrLess(a, b) && StrLess(b, c)
    ensures StrLess(a, c)
    decreases |a|
  {
    if |a| > 0 && a[0] == b[0] && b[0] == c[0] {
      StrLessTransitive(a[1..], b[1..], c[1..]);
    }
  }

  lemma {:induction false} StrLessTotal(a: string, b: string)
    ensures a == b || StrLess(a, b) || StrLess(b, a)
    decreases |a|
  {
    if |a| > 0 && |b| > 0 && a[0] == b[0] {
      StrLessTotal(a[1..], b[1..]);
      if a[1..] == b[1..] {
        assert a == [a[0]] + a[1..] && b == [b[0]] + b[1..];
      }
    }
  }
}
