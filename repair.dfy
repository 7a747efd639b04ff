/** The text repair applied to a downloaded playlist before it is decoded:
    the substitution of the regular expression `#EXTINF:-1([,:;])` by
    `#EXTINF:-1 ` (`re.sub` with `re.M`, which changes nothing here since the
    pattern has no anchors). Some sources put `,`, `:` or `;` right after the
    duration field; the repair turns that separator into a space. */
module Repair {

  const ExtInfMarker: string := "#EXTINF:-1"

  /** The characters the pattern's class `[,:;]` accepts. */
  predicate IsSeparator(c: char) {
    c == ',' || c == ':' || c == ';'
  }

  /** An 11-character match of the pattern starts at index `j` of `s`. */
  predicate MatchAt(s: string, j: int) {
    && 0 <= j && j + 11 <= |s|
    && s[j..j + 10] == ExtInfMarker
    && IsSeparator(s[j + 10])
  }

  /** The substitution, scanning left to right over non-overlapping matches as
      `re.sub` does. */
  function RepairExtInf(s: string): (r: string)
    ensures |r| == |s|
    decreases |s|
  {
    if MatchAt(s, 0) then ExtInfMarker + " " + RepairExtInf(s[11..])
    else if s == [] then []
    else [s[0]] + RepairExtInf(s[1..])
  }

  /** No match can start inside another one: the marker holds no second `#`
      and no separator. */
  lemma NoOverlap(s: string, j: int, d: int)
    requires MatchAt(s, j) && 1 <= d <= 10
    ensures !MatchAt(s, j + d)
  {
    if d < 10 {
      assert s[j + d] == s[j..j + 10][d] == ExtInfMarker[d];
    }
    assert s[j + d] != '#';
  }

  /** A match in a suffix is a match in the whole text, shifted. */
  lemma MatchShift(s: string, k: int, j: int)
    requires 0 <= k <= |s| && 0 <= j
    ensures MatchAt(s[k..], j) <==> MatchAt(s, j + k)
  {
    if j + 11 <= |s| - k {
      assert s[k..][j..j + 10] == s[j + k..j + k + 10];
    }
  }

  /** Within a match at the start, the marker is written back as it was and
      the separator becomes a space. */
  lemma RepairHead(s: string, i: int)
    requires MatchAt(s, 0) && 0 <= i <= 10
    ensures RepairExtInf(s)[i] == if MatchAt(s, i - 10) then ' ' else s[i]
  {
    var r := RepairExtInf(s);
    assert r == ExtInfMarker + " " + RepairExtInf(s[11..]);
    if i < 10 {
      assert r[i] == ExtInfMarker[i] == s[..10][i];
    }
  }

  /** Character by character, the repair writes a space over the separator of
      every match and leaves every other character untouched. */
  lemma {:induction false} RepairExtInfAt(s: string, i: int)
    requires 0 <= i < |s|
    ensures RepairExtInf(s)[i] == if MatchAt(s, i - 10) then ' ' else s[i]
    decreases |s|
  {
    var r := RepairExtInf(s);
    if MatchAt(s, 0) {
      if i <= 10 {
        RepairHead(s, i);
      } else {
        var rest := s[11..];
        assert r == ExtInfMarker + " " + RepairExtInf(rest);
        RepairExtInfAt(rest, i - 11);
        assert r[i] == RepairExtInf(rest)[i - 11];
        if i - 10 <= 10 {
          NoOverlap(s, 0, i - 10);
        } else {
          MatchShift(s, 11, i - 21);
        }
      }
    } else if i > 0 {
      var rest := s[1..];
      assert r == [s[0]] + RepairExtInf(rest);
      RepairExtInfAt(rest, i - 1);
      if i - 10 >= 1 {
        MatchShift(s, 1, i - 11);
      }
    }
  }

  /** Text with no match comes back unchanged. */
  lemma RepairWithoutMatch(s: string)
    requires forall j :: 0 <= j < |s| ==> !MatchAt(s, j)
    ensures RepairExtInf(s) == s
  {
    forall i | 0 <= i < |s| ensures RepairExtInf(s)[i] == s[i] {
      RepairExtInfAt(s, i);
    }
  }

  /** The repaired text holds no match any more, so repairing twice changes
      nothing more. */
  lemma RepairLeavesNoMatch(s: string)
    ensures forall j :: !MatchAt(RepairExtInf(s), j)
    ensures RepairExtInf(RepairExtInf(s)) == RepairExtInf(s)
  {
    var r := RepairExtInf(s);
    forall j | MatchAt(r, j) ensures false {
      forall t | 0 <= t < 10 ensures s[j + t] == ExtInfMarker[t] {
        RepairExtInfAt(s, j + t);
        assert r[j + t] == r[j..j + 10][t] == ExtInfMarker[t];
      }
      assert s[j..j + 10] == ExtInfMarker;
      RepairExtInfAt(s, j + 10);
    }
    RepairWithoutMatch(r);
  }
}
