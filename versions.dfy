/** Reading version strings: the pattern `.*(\d+)\.(\d+)\.(\d+)$` behind
    `get_first_second_third_values`, and the pattern `^(\d+.\d+).` that
    extracts a manifest version's `base_version`. */
module Versions {
  import opened Text

  // ---------------------------------------------------------------------------
  // `.*(\d+)\.(\d+)\.(\d+)$` under `re.match`.

  /** Where `$` may match: the end, or just before a final newline. */
  function MatchEnd(v: string): (c: nat)
    ensures c <= |v|
    ensures c == |v| || (c + 1 == |v| && v[c] == '\n')
    ensures c < |v| <==> |v| > 0 && v[|v| - 1] == '\n'
  {
    if |v| > 0 && v[|v| - 1] == '\n' then |v| - 1 else |v|
  }

  predicate NewlineFree(s: string) {
    forall i :: 0 <= i < |s| ==> s[i] != '\n'
  }

  predicate DigitsIn(s: string, lo: nat, hi: nat) {
    lo <= hi <= |s| && forall p :: lo <= p < hi ==> IsDigit(s[p])
  }

  /** The regular expression matches `v` with `.*` taking `v[..p]` and the three
      groups `v[p..a]`, `v[a+1..b]` and `v[b+1..c]`. */
  ghost predicate VersionMatch(v: string, p: nat, a: nat, b: nat, c: nat) {
    p < a && a + 1 < b && b + 1 < c && c <= |v|
    && (c == |v| || (c + 1 == |v| && v[c] == '\n'))
    && NewlineFree(v[..p])
    && DigitsIn(v, p, a) && v[a] == '.' && DigitsIn(v, a + 1, b) && v[b] == '.' && DigitsIn(v, b + 1, c)
  }

  /** The start of the run of digits that ends at `n`. */
  function DigitRunStart(s: string, n: nat): (i: nat)
    requires n <= |s|
    ensures i <= n && DigitsIn(s, i, n)
    ensures i == 0 || !IsDigit(s[i - 1])
    decreases n
  {
    if n == 0 || !IsDigit(s[n - 1]) then n else DigitRunStart(s, n - 1)
  }

  lemma {:induction false} DigitRunStartIs(s: string, n: nat, j: nat)
    requires DigitsIn(s, j, n) && (j == 0 || !IsDigit(s[j - 1]))
    ensures DigitRunStart(s, n) == j
    decreases n
  {
    if n > j {
      DigitRunStartIs(s, n - 1, j);
    }
  }

  datatype Split = Split(p: nat, a: nat, b: nat)

  /** The match the engine reports: groups two and three are forced by the
      end of the string, and the greedy `.*` leaves the first group only the
      digit just before the first dot. */
  function VersionSplit(v: string): (r: Option<Split>)
    ensures r.Some? ==> VersionMatch(v, r.value.p, r.value.a, r.value.b, MatchEnd(v))
  {
    var n := MatchEnd(v);
    var c3 := DigitRunStart(v, n);
    if c3 == n || c3 == 0 || v[c3 - 1] != '.' then None
    else
      var b := c3 - 1;
      var c2 := DigitRunStart(v, b);
      if c2 == b || c2 == 0 || v[c2 - 1] != '.' then None
      else
        var a := c2 - 1;
        if a == 0 || !IsDigit(v[a - 1]) || !NewlineFree(v[..a - 1]) then None
        else Some(Split(a - 1, a, b))
  }

  /** `VersionSplit` finds exactly the match the regular-expression engine
      reports: every match has the same second and third groups, and none
      gives `.*` more than the reported one. */
  lemma VersionSplitIsTheMatch(v: string, p: nat, a: nat, b: nat, c: nat)
    requires VersionMatch(v, p, a, b, c)
    ensures VersionSplit(v).Some?
    ensures c == MatchEnd(v) && a == VersionSplit(v).value.a && b == VersionSplit(v).value.b
    ensures p <= VersionSplit(v).value.p
  {
    assert c == MatchEnd(v) by {
      if c + 1 == |v| {
        assert v[c] == '\n';
      } else {
        assert IsDigit(v[c - 1]);
      }
    }
    DigitRunStartIs(v, c, b + 1);
    DigitRunStartIs(v, b, a + 1);
    assert IsDigit(v[a - 1]);
    assert NewlineFree(v[..a - 1]) by {
      forall i | 0 <= i < a - 1
        ensures v[i] != '\n'
      {
        if i < p {
          assert v[..p][i] == v[i];
        } else {
          assert IsDigit(v[i]);
        }
      }
    }
  }

  predicate VersionMatches(v: string) {
    VersionSplit(v).Some?
  }

  /** Without a positive split there is no match at all. */
  lemma NoSplitNoMatch(v: string, p: nat, a: nat, b: nat, c: nat)
    requires !VersionMatches(v)
    ensures !VersionMatch(v, p, a, b, c)
  {
    if VersionMatch(v, p, a, b, c) {
      VersionSplitIsTheMatch(v, p, a, b, c);
    }
  }

  datatype Triple = Triple(first: nat, second: nat, third: nat)

  /** `int` of each of the three groups. */
  function LastThree(v: string): (t: Triple)
    requires VersionMatches(v)
    ensures t.first < 10
  {
    var sp := VersionSplit(v).value;
    Triple(DigitValue(v[sp.p]), DigitsValue(v[sp.a + 1..sp.b]), DigitsValue(v[sp.b + 1..MatchEnd(v)]))
  }

  /** The last three values of every version, one after another. */
  method FirstSecondThirdValues(versions: seq<string>) returns (result: seq<nat>)
    requires forall i :: 0 <= i < |versions| ==> VersionMatches(versions[i])
    ensures |result| == 3 * |versions|
    ensures forall i :: 0 <= i < |versions| ==>
              result[3 * i] == LastThree(versions[i]).first
              && result[3 * i + 1] == LastThree(versions[i]).second
              && result[3 * i + 2] == LastThree(versions[i]).third
  {
    result := [];
    var k := 0;
    while k < |versions|
      invariant 0 <= k <= |versions|
      invariant |result| == 3 * k
      invariant forall i :: 0 <= i < k ==>
                  result[3 * i] == LastThree(versions[i]).first
                  && result[3 * i + 1] == LastThree(versions[i]).second
                  && result[3 * i + 2] == LastThree(versions[i]).third
    {
      var groups := LastThree(versions[k]);
      result := result + [groups.first, groups.second, groups.third];
      k := k + 1;
    }
  }

  /** `'{}.{}.{}'.format(x, y, z)` on integers. */
  function Dotted(x: nat, y: nat, z: nat): string {
    NatToString(x) + "." + NatToString(y) + "." + NatToString(z)
  }

  /** A version written as `prefix` followed by `x.y.z` yields `x % 10`, `y`
      and `z`: `10.2.3` reads as 0, 2, 3. */
  lemma LastThreeOfFormatted(prefix: string, x: nat, y: nat, z: nat)
    requires NewlineFree(prefix)
    ensures VersionMatches(prefix + Dotted(x, y, z))
    ensures LastThree(prefix + Dotted(x, y, z)) == Triple(x % 10, y, z)
  {
    NatToStringRoundTrip(x);
    NatToStringRoundTrip(y);
    NatToStringRoundTrip(z);
    LastDigit(x);
    var v := prefix + Dotted(x, y, z);
    assert v == prefix + NatToString(x) + "." + NatToString(y) + "." + NatToString(z);
    SplitOfFields(v, prefix, NatToString(x), NatToString(y), NatToString(z));
  }

  /** `x.y.z` on its own yields `x % 10`, `y` and `z`. */
  lemma LastThreeOfDotted(x: nat, y: nat, z: nat)
    ensures VersionMatches(Dotted(x, y, z))
    ensures LastThree(Dotted(x, y, z)) == Triple(x % 10, y, z)
    ensures x < 10 ==> LastThree(Dotted(x, y, z)) == Triple(x, y, z)
  {
    LastThreeOfFormatted("", x, y, z);
    assert "" + Dotted(x, y, z) == Dotted(x, y, z);
    if x < 10 {
      SmallModTen(x);
    }
  }

  lemma RollOverModTen(x: nat)
    requires x % 10 == 9
    ensures (x + 1) % 10 == 0
  {
  }

  lemma SmallModTen(x: nat)
    requires x < 10
    ensures x % 10 == x
  {
  }

  /** The split of `prefix` followed by three dotted digit strings. */
  lemma SplitOfFields(v: string, prefix: string, sx: string, sy: string, sz: string)
    requires v == prefix + sx + "." + sy + "." + sz
    requires NewlineFree(prefix)
    requires |sx| > 0 && |sy| > 0 && |sz| > 0 && AllDigits(sx) && AllDigits(sy) && AllDigits(sz)
    ensures VersionMatches(v)
    ensures LastThree(v) == Triple(DigitValue(sx[|sx| - 1]), DigitsValue(sy), DigitsValue(sz))
  {
    var a := |prefix| + |sx|;
    var b := a + 1 + |sy|;
    FieldsMatch(v, prefix, sx, sy, sz, a, b);
    LastThreeOfMatch(v, a - 1, a, b, sx[|sx| - 1], sy, sz);
  }

  /** A match whose first group is a single digit is the reported one, and
      its groups are the values read. */
  lemma LastThreeOfMatch(v: string, p: nat, a: nat, b: nat, d: char, sy: string, sz: string)
    requires VersionMatch(v, p, a, b, |v|) && p + 1 == a
    requires v[p] == d && v[a + 1..b] == sy && v[b + 1..|v|] == sz
    ensures VersionMatches(v) && IsDigit(d) && AllDigits(sy) && AllDigits(sz)
    ensures LastThree(v) == Triple(DigitValue(d), DigitsValue(sy), DigitsValue(sz))
  {
    VersionSplitIsTheMatch(v, p, a, b, |v|);
    assert VersionSplit(v) == Some(Split(p, a, b));
    forall i | 0 <= i < |sy|
      ensures IsDigit(sy[i])
    {
      assert sy[i] == v[a + 1 + i];
    }
    forall i | 0 <= i < |sz|
      ensures IsDigit(sz[i])
    {
      assert sz[i] == v[b + 1 + i];
    }
  }

  lemma FieldsMatch(v: string, prefix: string, sx: string, sy: string, sz: string, a: nat, b: nat)
    requires v == prefix + sx + "." + sy + "." + sz
    requires NewlineFree(prefix)
    requires |sx| > 0 && |sy| > 0 && |sz| > 0 && AllDigits(sx) && AllDigits(sy) && AllDigits(sz)
    requires a == |prefix| + |sx| && b == a + 1 + |sy|
    ensures VersionMatch(v, a - 1, a, b, |v|)
    ensures v[a - 1] == sx[|sx| - 1] && v[a + 1..b] == sy && v[b + 1..|v|] == sz
  {
    var c := |v|;
    var p := a - 1;
    assert v[a] == '.' && v[b] == '.';
    assert v[a + 1..b] == sy;
    assert v[b + 1..c] == sz;
    assert DigitsIn(v, p, a) by {
      assert v[p] == sx[|sx| - 1];
    }
    assert DigitsIn(v, a + 1, b) by {
      forall i | a + 1 <= i < b
        ensures IsDigit(v[i])
      {
        assert v[i] == sy[i - a - 1];
      }
    }
    assert DigitsIn(v, b + 1, c) by {
      forall i | b + 1 <= i < c
        ensures IsDigit(v[i])
      {
        assert v[i] == sz[i - b - 1];
      }
    }
    assert NewlineFree(v[..p]) by {
      forall i | 0 <= i < p
        ensures v[i] != '\n'
      {
        if i < |prefix| {
          assert v[i] == prefix[i];
        } else {
          assert v[i] == sx[i - |prefix|];
        }
      }
    }
  }

  lemma LastDigit(x: nat)
    ensures |NatToString(x)| > 0
    ensures NatToString(x)[|NatToString(x)| - 1] == DigitChar(x % 10)
  {
  }

  // ---------------------------------------------------------------------------
  // `^(\d+.\d+).` under `re.search`: the `.` stand for any character but a
  // newline, and both `\d+` backtrack.

  /** The first index at or after `i` that does not hold a digit, or `|s|`. */
  function DigitEnd(s: string, i: nat): (e: nat)
    requires i <= |s|
    ensures i <= e <= |s| && DigitsIn(s, i, e)
    ensures e < |s| ==> !IsDigit(s[e])
    decreases |s| - i
  {
    if i == |s| || !IsDigit(s[i]) then i else DigitEnd(s, i + 1)
  }

  /** The pattern matches at index 0 with `l1` digits, a separator, `l2`
      digits and one more character. */
  ghost predicate BaseMatch(s: string, l1: nat, l2: nat) {
    1 <= l1 && 1 <= l2 && l1 + 1 + l2 < |s|
    && DigitsIn(s, 0, l1) && s[l1] != '\n'
    && DigitsIn(s, l1 + 1, l1 + 1 + l2) && s[l1 + 1 + l2] != '\n'
  }

  /** The longest second group that completes a match with `l1` digits first. */
  function TryL2(s: string, l1: nat): (r: Option<nat>)
    requires 1 <= l1 <= |s|
    ensures r.Some? ==> BaseMatch(s, l1, r.value)
    ensures forall l2: nat :: BaseMatch(s, l1, l2) ==> r.Some? && l2 <= r.value
  {
    if l1 >= |s| || s[l1] == '\n' || !DigitsIn(s, 0, l1) then None
    else
      var e := DigitEnd(s, l1 + 1);
      if e == l1 + 1 then None
      else if e < |s| && s[e] != '\n' then Some(e - l1 - 1)
      else if e - l1 - 1 >= 2 then Some(e - l1 - 2)
      else None
  }

  /** Backtracking over the first group from `l1` digits down to one. */
  function TryL1(s: string, l1: nat): (r: Option<(nat, nat)>)
    requires 1 <= l1 <= |s|
    ensures r.Some? ==> BaseMatch(s, r.value.0, r.value.1) && r.value.0 <= l1
    ensures forall x: nat, y: nat :: BaseMatch(s, x, y) && x <= l1 ==>
              r.Some? && (x < r.value.0 || (x == r.value.0 && y <= r.value.1))
    decreases l1
  {
    match TryL2(s, l1)
    case Some(l2) => Some((l1, l2))
    case None => if l1 == 1 then None else TryL1(s, l1 - 1)
  }

  /** `re.search(r'^(\d+.\d+).', v).group(1)`: the engine tries the longest
      first group first and, for it, the longest second group. */
  function BaseVersion(v: string): (r: Option<string>)
    ensures r.Some? ==> exists l1: nat, l2: nat :: BaseMatch(v, l1, l2) && r.value == v[..l1 + 1 + l2]
    ensures r.None? <==> forall l1: nat, l2: nat :: !BaseMatch(v, l1, l2)
  {
    var d := DigitEnd(v, 0);
    if d == 0 then None
    else
      match TryL1(v, d)
      case Some((l1, l2)) => Some(v[..l1 + 1 + l2])
      case None => None
  }

  /** The base of a version `x.y.rest` is `x.y`: the first two fields. */
  lemma BaseOfFormatted(x: nat, y: nat, rest: string)
    requires |rest| > 0 && rest[0] != '\n'
    ensures BaseVersion(NatToString(x) + "." + NatToString(y) + "." + rest)
            == Some(NatToString(x) + "." + NatToString(y))
  {
    NatToStringRoundTrip(x);
    NatToStringRoundTrip(y);
    BaseOfFields(NatToString(x), NatToString(y), rest);
  }

  lemma BaseOfFields(sx: string, sy: string, rest: string)
    requires |sx| > 0 && |sy| > 0 && AllDigits(sx) && AllDigits(sy)
    requires |rest| > 0 && rest[0] != '\n'
    ensures BaseVersion(sx + "." + sy + "." + rest) == Some(sx + "." + sy)
  {
    var v := sx + "." + sy + "." + rest;
    var l1, l2 := |sx|, |sy|;
    assert v[l1] == '.' && v[l1 + 1 + l2] == '.';
    assert v[l1 + 1 + l2 + 1] == rest[0];
    assert DigitsIn(v, 0, l1) by {
      forall i | 0 <= i < l1
        ensures IsDigit(v[i])
      {
        assert v[i] == sx[i];
      }
    }
    assert DigitsIn(v, l1 + 1, l1 + 1 + l2) by {
      forall i | l1 + 1 <= i < l1 + 1 + l2
        ensures IsDigit(v[i])
      {
        assert v[i] == sy[i - l1 - 1];
      }
    }
    DigitEndIs(v, 0, l1);
    DigitEndIs(v, l1 + 1, l1 + 1 + l2);
    assert TryL2(v, l1) == Some(l2);
    assert v[..l1 + 1 + l2] == sx + "." + sy;
  }

  lemma {:induction false} DigitEndIs(s: string, i: nat, e: nat)
    requires i <= e < |s| && DigitsIn(s, i, e) && !IsDigit(s[e])
    ensures DigitEnd(s, i) == e
    decreases e - i
  {
    if i < e {
      DigitEndIs(s, i + 1, e);
    }
  }
}
