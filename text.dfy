/** Character classes, substring search, joining and decimal conversion, as the
    checker's Python code uses them (`in` on strings, `', '.join`, `int`, `str`). */
module Text {

  datatype Option<T> = None | Some(value: T)

  /** Python's `\s` on `str`: the characters for which `str.isspace()` holds. */
  predicate IsSpace(c: char) {
    var n := c as int;
    (9 <= n <= 13) || (0x1c <= n <= 0x20) || n == 0x85 || n == 0xa0 || n == 0x1680
    || (0x2000 <= n <= 0x200a) || n == 0x2028 || n == 0x2029 || n == 0x202f
    || n == 0x205f || n == 0x3000
  }

  /** `\w`, restricted to ASCII letters, digits and the underscore. */
  predicate IsWordChar(c: char) {
    ('a' <= c <= 'z') || ('A' <= c <= 'Z') || ('0' <= c <= '9') || c == '_'
  }

  /** `\d`, restricted to ASCII digits. */
  predicate IsDigit(c: char) {
    '0' <= c <= '9'
  }

  predicate AllDigits(s: string) {
    forall i :: 0 <= i < |s| ==> IsDigit(s[i])
  }

  predicate IsPrefix(p: string, s: string) {
    |p| <= |s| && s[..|p|] == p
  }

  /** `pat` occurs in `s` starting at index `i`. */
  ghost predicate OccursAt(s: string, pat: string, i: int) {
    0 <= i && i + |pat| <= |s| && s[i..i + |pat|] == pat
  }

  /** Python's `pat in s`. */
  predicate Contains(s: string, pat: string)
    decreases |s|
  {
    IsPrefix(pat, s) || (|s| > 0 && Contains(s[1..], pat))
  }

  lemma {:induction false} ContainsIff(s: string, pat: string)
    ensures Contains(s, pat) <==> exists i :: OccursAt(s, pat, i)
    decreases |s|
  {
    if IsPrefix(pat, s) {
      assert OccursAt(s, pat, 0);
    } else if |s| > 0 {
      ContainsIff(s[1..], pat);
      if Contains(s[1..], pat) {
        var i :| OccursAt(s[1..], pat, i);
        assert s[i + 1..i + 1 + |pat|] == s[1..][i..i + |pat|];
        assert OccursAt(s, pat, i + 1);
      }
      forall i | OccursAt(s, pat, i) && i > 0
        ensures OccursAt(s[1..], pat, i - 1)
      {
        assert s[1..][i - 1..i - 1 + |pat|] == s[i..i + |pat|];
      }
    }
  }

  /** An occurrence inside `a + sep + b` lies in `a`, in `b`, or shares the
      character at index `k` with `sep`. */
  lemma OccursInConcat(a: string, sep: string, b: string, pat: string, i: int) returns (k: int)
    requires OccursAt(a + sep + b, pat, i) && |pat| > 0 && |sep| > 0
    ensures OccursAt(a, pat, i) || OccursAt(b, pat, i - |a| - |sep|)
      || (i <= k < i + |pat| && |a| <= k < |a| + |sep| && pat[k - i] == sep[k - |a|])
  {
    var w := a + sep + b;
    k := 0;
    if i + |pat| <= |a| {
      assert w[i..i + |pat|] == a[i..i + |pat|];
    } else if i >= |a| + |sep| {
      assert w[i..i + |pat|] == b[i - |a| - |sep|..i - |a| - |sep| + |pat|];
    } else {
      k := if i <= |a| then |a| else i;
      assert pat[k - i] == w[i..i + |pat|][k - i] == w[k];
      assert w[k] == sep[k - |a|];
    }
  }

  lemma ContainsLeft(a: string, sep: string, b: string, pat: string)
    requires Contains(a, pat)
    ensures Contains(a + sep + b, pat)
  {
    ContainsIff(a, pat);
    ContainsIff(a + sep + b, pat);
    var i :| OccursAt(a, pat, i);
    assert (a + sep + b)[i..i + |pat|] == a[i..i + |pat|];
    assert OccursAt(a + sep + b, pat, i);
  }

  lemma ContainsRight(a: string, sep: string, b: string, pat: string)
    requires Contains(b, pat)
    ensures Contains(a + sep + b, pat)
  {
    ContainsIff(b, pat);
    ContainsIff(a + sep + b, pat);
    var i :| OccursAt(b, pat, i);
    var k := |a| + |sep| + i;
    assert (a + sep + b)[k..k + |pat|] == b[i..i + |pat|];
    assert OccursAt(a + sep + b, pat, k);
  }

  /** A non-empty pattern that can never overlap the separator `", "`. */
  predicate SeparatorFree(pat: string) {
    |pat| > 0 && forall i :: 0 <= i < |pat| ==> pat[i] != ',' && pat[i] != ' '
  }

  /** A separator-free pattern found in `a + ", " + b` is found in `a` or in `b`. */
  lemma ContainsSplit(a: string, b: string, pat: string)
    requires SeparatorFree(pat)
    requires Contains(a + ", " + b, pat)
    ensures Contains(a, pat) || Contains(b, pat)
  {
    var w := a + ", " + b;
    ContainsIff(w, pat);
    ContainsIff(a, pat);
    ContainsIff(b, pat);
    var i :| OccursAt(w, pat, i);
    var k := OccursInConcat(a, ", ", b, pat, i);
  }

  /** Python's `sep.join(xs)`. */
  function Join(xs: seq<string>, sep: string): string
    decreases |xs|
  {
    if |xs| == 0 then ""
    else if |xs| == 1 then xs[0]
    else xs[0] + sep + Join(xs[1..], sep)
  }

  /** Searching the joined names for a separator-free pattern is searching
      every name on its own: no occurrence can straddle the separator. */
  lemma {:induction false} ContainsJoin(xs: seq<string>, pat: string)
    requires SeparatorFree(pat)
    ensures Contains(Join(xs, ", "), pat) <==> exists i :: 0 <= i < |xs| && Contains(xs[i], pat)
    decreases |xs|
  {
    if |xs| == 0 {
      assert !Contains("", pat);
    } else if |xs| > 1 {
      var rest := Join(xs[1..], ", ");
      assert Join(xs, ", ") == xs[0] + ", " + rest;
      ContainsJoin(xs[1..], pat);
      if Contains(xs[0] + ", " + rest, pat) {
        ContainsSplit(xs[0], rest, pat);
        if Contains(rest, pat) {
          var j :| 0 <= j < |xs[1..]| && Contains(xs[1..][j], pat);
          assert Contains(xs[j + 1], pat);
        }
      }
      if j :| 0 <= j < |xs| && Contains(xs[j], pat) {
        if j == 0 {
          ContainsLeft(xs[0], ", ", rest, pat);
        } else {
          assert Contains(xs[1..][j - 1], pat);
          ContainsRight(xs[0], ", ", rest, pat);
        }
      }
    }
  }

  function DigitChar(d: nat): char
    requires d < 10
  {
    ('0' as int + d) as char
  }

  function DigitValue(c: char): nat
    requires IsDigit(c)
  {
    c as int - '0' as int
  }

  /** Python's `int(s)` on a string of ASCII digits. */
  function DigitsValue(s: string): nat
    requires AllDigits(s)
    decreases |s|
  {
    if |s| == 0 then 0 else 10 * DigitsValue(s[..|s| - 1]) + DigitValue(s[|s| - 1])
  }

  /** Python's `str(n)` on a non-negative integer. */
  function NatToString(n: nat): string
    decreases n
  {
    if n < 10 then [DigitChar(n)] else NatToString(n / 10) + [DigitChar(n % 10)]
  }

  lemma {:induction false} NatToStringRoundTrip(n: nat)
    ensures |NatToString(n)| > 0 && AllDigits(NatToString(n))
    ensures DigitsValue(NatToString(n)) == n
    decreases n
  {
    if n >= 10 {
      NatToStringRoundTrip(n / 10);
      var s := NatToString(n);
      assert s[..|s| - 1] == NatToString(n / 10);
    }
  }

  /** A run of `dict.update` calls starting from `{}`: a later map's entry
      replaces an earlier one under the same key. */
  function MergeAll(ms: seq<map<string, string>>): map<string, string>
    decreases |ms|
  {
    if |ms| == 0 then map[] else MergeAll(ms[..|ms| - 1]) + ms[|ms| - 1]
  }

  lemma MergeAllSnoc(ms: seq<map<string, string>>, m: map<string, string>)
    ensures MergeAll(ms + [m]) == MergeAll(ms) + m
  {
    assert (ms + [m])[..|ms|] == ms;
  }

  /** A key is in the merge exactly when some map has it, and it carries the
      value of the last map that does. */
  lemma {:induction false} MergeAllLastWins(ms: seq<map<string, string>>, key: string)
    ensures key in MergeAll(ms) <==> exists i :: 0 <= i < |ms| && key in ms[i]
    ensures key in MergeAll(ms) ==>
              exists i :: 0 <= i < |ms| && key in ms[i] && MergeAll(ms)[key] == ms[i][key]
                          && forall j :: i < j < |ms| ==> key !in ms[j]
    decreases |ms|
  {
    if |ms| > 0 {
      var n := |ms| - 1;
      var init := ms[..n];
      MergeAllLastWins(init, key);
      if key !in ms[n] {
        if i :| 0 <= i < |ms| && key in ms[i] {
          assert init[i] == ms[i];
        }
        if key in MergeAll(init) {
          var i :| 0 <= i < |init| && key in init[i] && MergeAll(init)[key] == init[i][key]
                   && forall j :: i < j < |init| ==> key !in init[j];
          assert ms[i] == init[i];
          forall j | i < j < |ms|
            ensures key !in ms[j]
          {
            if j < n {
              assert ms[j] == init[j];
            }
          }
        }
      }
    }
  }
}
