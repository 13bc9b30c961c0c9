/** The version-bump rules: `check_changelog_version` for the three-field
    versions of a changelog and `check_manifest_version` for the last three
    fields of a manifest version. */
module Bumps {
  import opened Text
  import opened Tags
  import opened Versions

  // ---------------------------------------------------------------------------
  // Changelog versions: every tag demands an increase by exactly one.

  /** The bump `old -> new` that `tag` demands of a changelog version. */
  predicate ChangelogOk(tag: string, o: Triple, n: Triple) {
    if tag == Sparkles then n.first - o.first == 1 && n.second == 0 && n.third == 0
    else if tag == Zap then n.second - o.second == 1 && n.third == 0
    else tag == Ambulance ==> n.third - o.third == 1
  }

  /** The version the changelog should have named instead. */
  function ChangelogExpected(tag: string, o: Triple): string {
    if tag == Sparkles then Dotted(o.first + 1, 0, 0)
    else if tag == Zap then Dotted(o.first, o.second + 1, 0)
    else Dotted(o.first, o.second, o.third + 1)
  }

  function ChangelogKey(commitMsg: string, v0: string, v1: string): string {
    "commit: " + commitMsg + "\nold version is " + v0 + " and new version is " + v1
  }

  function ChangelogMessage(tag: string, filename: string, expected: string): string {
    "If you use tag " + tag + " the version in the \"" + filename + "\" file must be updated to " + expected + "!"
  }

  /** The finding of one tag, present when the message mentions the tag and
      the bump breaks its rule. */
  function ChangelogRule(tag: string, filename: string, commitMsg: string, versions: seq<string>): (r: map<string, string>)
    requires |versions| == 2 && VersionMatches(versions[0]) && VersionMatches(versions[1])
    ensures r.Keys <= {ChangelogKey(commitMsg, versions[0], versions[1])}
  {
    var o, n := LastThree(versions[0]), LastThree(versions[1]);
    if Contains(commitMsg, tag) && !ChangelogOk(tag, o, n) then
      map[ChangelogKey(commitMsg, versions[0], versions[1]) := ChangelogMessage(tag, filename, ChangelogExpected(tag, o))]
    else map[]
  }

  /** `check_changelog_version`: the three rules in turn, all under one key,
      so a later failure replaces an earlier one. */
  function CheckChangelogVersion(filename: string, commitMsg: string, versions: seq<string>): (r: map<string, string>)
    requires |versions| == 2 && VersionMatches(versions[0]) && VersionMatches(versions[1])
    ensures r.Keys <= {ChangelogKey(commitMsg, versions[0], versions[1])}
  {
    ChangelogRule(Sparkles, filename, commitMsg, versions)
    + ChangelogRule(Zap, filename, commitMsg, versions)
    + ChangelogRule(Ambulance, filename, commitMsg, versions)
  }

  /** The changelog passes exactly when every tag the message mentions is
      matched by its exact bump. */
  lemma ChangelogPassesIff(filename: string, commitMsg: string, versions: seq<string>)
    requires |versions| == 2 && VersionMatches(versions[0]) && VersionMatches(versions[1])
    ensures var o, n := LastThree(versions[0]), LastThree(versions[1]);
            CheckChangelogVersion(filename, commitMsg, versions) == map[]
            <==> (Contains(commitMsg, Sparkles) ==> n.first == o.first + 1 && n.second == 0 && n.third == 0)
                 && (Contains(commitMsg, Zap) ==> n.second == o.second + 1 && n.third == 0)
                 && (Contains(commitMsg, Ambulance) ==> n.third == o.third + 1)
  {
    var key := ChangelogKey(commitMsg, versions[0], versions[1]);
    var s := ChangelogRule(Sparkles, filename, commitMsg, versions);
    var z := ChangelogRule(Zap, filename, commitMsg, versions);
    var a := ChangelogRule(Ambulance, filename, commitMsg, versions);
    assert key in s + z + a <==> key in s || key in z || key in a;
    if CheckChangelogVersion(filename, commitMsg, versions) == map[] {
      assert key !in s + z + a;
    }
  }

  /** The last failing rule names the expected version: with `:ambulance:`
      failing, the finding is the `:ambulance:` one whatever the other tags do. */
  lemma ChangelogLastFailureWins(filename: string, commitMsg: string, versions: seq<string>)
    requires |versions| == 2 && VersionMatches(versions[0]) && VersionMatches(versions[1])
    requires Contains(commitMsg, Ambulance) && !ChangelogOk(Ambulance, LastThree(versions[0]), LastThree(versions[1]))
    ensures CheckChangelogVersion(filename, commitMsg, versions)
            == map[ChangelogKey(commitMsg, versions[0], versions[1])
                   := ChangelogMessage(Ambulance, filename, ChangelogExpected(Ambulance, LastThree(versions[0])))]
  {
  }

  /** `:zap:` failing wins over `:sparkles:` when `:ambulance:` is satisfied or absent. */
  lemma ChangelogZapOverSparkles(filename: string, commitMsg: string, versions: seq<string>)
    requires |versions| == 2 && VersionMatches(versions[0]) && VersionMatches(versions[1])
    requires Contains(commitMsg, Zap) && !ChangelogOk(Zap, LastThree(versions[0]), LastThree(versions[1]))
    requires Contains(commitMsg, Ambulance) ==> ChangelogOk(Ambulance, LastThree(versions[0]), LastThree(versions[1]))
    ensures CheckChangelogVersion(filename, commitMsg, versions)
            == map[ChangelogKey(commitMsg, versions[0], versions[1])
                   := ChangelogMessage(Zap, filename, ChangelogExpected(Zap, LastThree(versions[0])))]
  {
    var s := ChangelogRule(Sparkles, filename, commitMsg, versions);
    var z := ChangelogRule(Zap, filename, commitMsg, versions);
    assert ChangelogRule(Ambulance, filename, commitMsg, versions) == map[];
    assert s + z == z;
  }

  /** A fix that skips a number, `x.y.z` to `x.y.(z+2)` under `:ambulance:`,
      is reported with `x.y.(z+1)` as the expected version. */
  lemma ChangelogSkippedFix(filename: string, commitMsg: string, x: nat, y: nat, z: nat)
    requires Contains(commitMsg, Ambulance) && x < 10
    ensures VersionMatches(Dotted(x, y, z)) && VersionMatches(Dotted(x, y, z + 2))
    ensures CheckChangelogVersion(filename, commitMsg, [Dotted(x, y, z), Dotted(x, y, z + 2)])
            == map[ChangelogKey(commitMsg, Dotted(x, y, z), Dotted(x, y, z + 2))
                   := ChangelogMessage(Ambulance, filename, Dotted(x, y, z + 1))]
  {
    LastThreeOfDotted(x, y, z);
    LastThreeOfDotted(x, y, z + 2);
    ChangelogLastFailureWins(filename, commitMsg, [Dotted(x, y, z), Dotted(x, y, z + 2)]);
  }

  /** With `:sparkles:` the only tag mentioned, its failure is the finding. */
  lemma ChangelogOnlySparkles(filename: string, commitMsg: string, versions: seq<string>)
    requires |versions| == 2 && VersionMatches(versions[0]) && VersionMatches(versions[1])
    requires Contains(commitMsg, Sparkles) && !Contains(commitMsg, Zap) && !Contains(commitMsg, Ambulance)
    requires !ChangelogOk(Sparkles, LastThree(versions[0]), LastThree(versions[1]))
    ensures CheckChangelogVersion(filename, commitMsg, versions)
            == map[ChangelogKey(commitMsg, versions[0], versions[1])
                   := ChangelogMessage(Sparkles, filename, ChangelogExpected(Sparkles, LastThree(versions[0])))]
  {
    assert ChangelogRule(Zap, filename, commitMsg, versions) == map[];
    assert ChangelogRule(Ambulance, filename, commitMsg, versions) == map[];
  }

  /** Only the last digit of the first field is read, so a feature release
      from `x.y.z` to `(x+1).0.0` with `x` ending in 9 (9 to 10, 19 to 20,
      ...) is rejected, and the finding asks for `(x % 10 + 1).0.0`, that is
      `10.0.0`. */
  lemma ChangelogNineToTenRejected(filename: string, commitMsg: string, x: nat, y: nat, z: nat)
    requires Contains(commitMsg, Sparkles) && !Contains(commitMsg, Zap) && !Contains(commitMsg, Ambulance)
    requires x % 10 == 9
    ensures VersionMatches(Dotted(x, y, z)) && VersionMatches(Dotted(x + 1, 0, 0))
    ensures CheckChangelogVersion(filename, commitMsg, [Dotted(x, y, z), Dotted(x + 1, 0, 0)])
            == map[ChangelogKey(commitMsg, Dotted(x, y, z), Dotted(x + 1, 0, 0))
                   := ChangelogMessage(Sparkles, filename, Dotted(x % 10 + 1, 0, 0))]
  {
    LastThreeOfDotted(x, y, z);
    LastThreeOfDotted(x + 1, 0, 0);
    RollOverModTen(x);
    ChangelogOnlySparkles(filename, commitMsg, [Dotted(x, y, z), Dotted(x + 1, 0, 0)]);
  }

  // ---------------------------------------------------------------------------
  // Manifest versions: every tag demands a strict increase.

  /** The bump `old -> new` breaks the rule of `tag`. */
  predicate ManifestFails(tag: string, o: Triple, n: Triple) {
    if tag == Sparkles then n.first <= o.first || n.second != 0 || n.third != 0
    else if tag == Zap then n.second <= o.second || n.third != 0
    else tag == Ambulance && n.third <= o.third
  }

  /** The expected version a failure names: the base is kept and the field the
      tag should raise is an expression in words. */
  function Placeholder(tag: string, base: string, o: Triple): string
    requires Recognised(tag)
  {
    base + "." + PlaceholderFields(tag, o)
  }

  /** The last three fields of the expected version. */
  function PlaceholderFields(tag: string, o: Triple): string
    requires Recognised(tag)
  {
    if tag == Sparkles then
      "(" + NatToString(o.first) + " + \\{NUMBER_OF_NEW_FEATURES\\})" + "." + "0" + "." + "0"
    else if tag == Zap then
      NatToString(o.first) + "." + "(" + NatToString(o.second) + " + \\{NUMBER_OF_IMPROVEMENTS\\})" + "." + "0"
    else
      NatToString(o.first) + "." + NatToString(o.second) + "." + "(" + NatToString(o.third) + " + \\{NUMBER_OF_FIXES\\})"
  }

  /** The first recognised tag whose rule the bump breaks. */
  function FirstFailure(toks: seq<string>, o: Triple, n: Triple): (r: Option<nat>)
    ensures r.Some? ==> r.value < |toks| && Recognised(toks[r.value]) && ManifestFails(toks[r.value], o, n)
    ensures r.Some? ==> forall j :: 0 <= j < r.value ==> !(Recognised(toks[j]) && ManifestFails(toks[j], o, n))
    ensures r.None? ==> forall j :: 0 <= j < |toks| ==> !(Recognised(toks[j]) && ManifestFails(toks[j], o, n))
    decreases |toks|
  {
    if |toks| == 0 then None
    else
      match FirstFailure(toks[..|toks| - 1], o, n)
      case Some(f) => Some(f)
      case None =>
        if Recognised(toks[|toks| - 1]) && ManifestFails(toks[|toks| - 1], o, n) then Some(|toks| - 1) else None
  }

  lemma FirstFailureStep(toks: seq<string>, i: nat, o: Triple, n: Triple)
    requires i < |toks|
    ensures FirstFailure(toks[..i + 1], o, n)
            == if FirstFailure(toks[..i], o, n).Some? then FirstFailure(toks[..i], o, n)
               else if Recognised(toks[i]) && ManifestFails(toks[i], o, n) then Some(i)
               else None
  {
    assert toks[..i + 1][..i] == toks[..i];
  }

  lemma NothingRecognisedAfterFailure(toks: seq<string>, i: nat, o: Triple, n: Triple)
    requires i < |toks| && NoTagAfterFailure(toks, o, n)
    ensures FirstFailure(toks[..i], o, n).Some? ==> !Recognised(toks[i])
  {
    if FirstFailure(toks[..i], o, n).Some? {
      var f := FirstFailure(toks[..i], o, n).value;
      assert toks[..i][f] == toks[f];
      forall j | 0 <= j < f
        ensures !(Recognised(toks[j]) && ManifestFails(toks[j], o, n))
      {
        assert toks[..i][j] == toks[j];
      }
      assert FirstFailure(toks, o, n) == Some(f);
    }
  }

  predicate HasRecognised(toks: seq<string>) {
    exists i :: 0 <= i < |toks| && Recognised(toks[i])
  }

  /** After the first failing tag no tag is recognised: a second recognised
      tag would make the source parse the placeholder, which fails
      (PlaceholdersDoNotParse). */
  predicate NoTagAfterFailure(toks: seq<string>, o: Triple, n: Triple) {
    match FirstFailure(toks, o, n)
    case None => true
    case Some(f) => forall j :: f < j < |toks| ==> !Recognised(toks[j])
  }

  /** What `check_manifest_version` needs of its arguments to run to the end. */
  predicate ManifestCallable(versions: seq<string>, toks: seq<string>) {
    |versions| >= 1 && BaseVersion(versions[0]).Some?
    && (HasRecognised(toks) ==>
          |versions| == 2 && VersionMatches(versions[0]) && VersionMatches(versions[1])
          && NoTagAfterFailure(toks, LastThree(versions[0]), LastThree(versions[1])))
  }

  function ManifestKey(strCommit: string, v0: string, v1: string): string {
    "commit(s): " + strCommit + "\nold version is " + v0 + " and new version is " + v1
  }

  function ManifestMessage(tags: string, manifest: string, expected: string): string {
    "If you use tag(s) " + tags + " the version in the \"" + manifest + "\" file must be updated to " + expected + "!"
  }

  /** Every finding key of the manifest check has `(` at index 6. */
  lemma ManifestKeyShape(strCommit: string, v0: string, v1: string)
    ensures |ManifestKey(strCommit, v0, v1)| > 6 && ManifestKey(strCommit, v0, v1)[6] == '('
  {
    assert ManifestKey(strCommit, v0, v1) == "commit(s): " + (strCommit + "\nold version is " + v0 + " and new version is " + v1);
  }

  /** The finding the manifest check reports: none unless a recognised tag
      fails, and then one entry naming the placeholder of the first failure. */
  function ManifestFindings(manifest: string, versions: seq<string>, strCommit: string, toks: seq<string>): (r: map<string, string>)
    requires ManifestCallable(versions, toks)
    ensures r != map[] ==> |versions| == 2 && r.Keys == {ManifestKey(strCommit, versions[0], versions[1])}
  {
    if !HasRecognised(toks) then map[]
    else
      var o := LastThree(versions[0]);
      match FirstFailure(toks, o, LastThree(versions[1]))
      case None => map[]
      case Some(f) =>
        map[ManifestKey(strCommit, versions[0], versions[1])
            := ManifestMessage(Join(toks, ", "), manifest, Placeholder(toks[f], BaseVersion(versions[0]).value, o))]
  }

  /** Every key of a manifest finding starts `commit(s): `. */
  lemma ManifestFindingKeyShape(manifest: string, versions: seq<string>, strCommit: string, toks: seq<string>,
                                key: string)
    requires ManifestCallable(versions, toks)
    requires key in ManifestFindings(manifest, versions, strCommit, toks)
    ensures |key| > 6 && key[6] == '('
  {
    ManifestKeyShape(strCommit, versions[0], versions[1]);
  }

  /** One `if tag == ...` block of `check_manifest_version`: reads the two
      versions and, when the bump breaks the rule of `tag`, names the
      expected version. */
  method CheckTagBump(tag: string, versionsNeed: seq<string>, baseVersion: string)
    returns (fails: bool, versionTrue: string)
    requires Recognised(tag)
    requires |versionsNeed| == 2 && VersionMatches(versionsNeed[0]) && VersionMatches(versionsNeed[1])
    ensures fails == ManifestFails(tag, LastThree(versionsNeed[0]), LastThree(versionsNeed[1]))
    ensures fails ==> versionTrue == Placeholder(tag, baseVersion, LastThree(versionsNeed[0]))
  {
    var values := FirstSecondThirdValues(versionsNeed);
    var old1, old2, old3, new1, new2, new3 := values[0], values[1], values[2], values[3], values[4], values[5];
    fails := false;
    versionTrue := versionsNeed[1];
    if tag == Sparkles && (new1 <= old1 || new2 != 0 || new3 != 0) {
      fails := true;
      versionTrue := Placeholder(Sparkles, baseVersion, Triple(old1, old2, old3));
    }
    if tag == Zap && (new2 <= old2 || new3 != 0) {
      fails := true;
      versionTrue := Placeholder(Zap, baseVersion, Triple(old1, old2, old3));
    }
    if tag == Ambulance && new3 <= old3 {
      fails := true;
      versionTrue := Placeholder(Ambulance, baseVersion, Triple(old1, old2, old3));
    }
  }

  /** The tag loop of `check_manifest_version`: `errorIndicator` is set by the
      first recognised tag whose rule fails, and `versionTrue` is then its
      placeholder. */
  method ScanTags(matchTagsCommit: seq<string>, versions: seq<string>, baseVersion: string)
    returns (errorIndicator: bool, versionTrue: string)
    requires |versions| >= 1
    requires HasRecognised(matchTagsCommit) ==>
               |versions| == 2 && VersionMatches(versions[0]) && VersionMatches(versions[1])
               && NoTagAfterFailure(matchTagsCommit, LastThree(versions[0]), LastThree(versions[1]))
    ensures errorIndicator <==>
              HasRecognised(matchTagsCommit)
              && FirstFailure(matchTagsCommit, LastThree(versions[0]), LastThree(versions[1])).Some?
    ensures errorIndicator ==>
              versionTrue == Placeholder(matchTagsCommit[FirstFailure(matchTagsCommit, LastThree(versions[0]), LastThree(versions[1])).value],
                                         baseVersion, LastThree(versions[0]))
  {
    var versionsNeed := versions;
    versionTrue := versions[|versions| - 1];
    errorIndicator := false;
    ghost var o, n := Triple(0, 0, 0), Triple(0, 0, 0);
    if HasRecognised(matchTagsCommit) {
      o, n := LastThree(versions[0]), LastThree(versions[1]);
    }
    ghost var failure: Option<nat> := None;
    var i := 0;
    while i < |matchTagsCommit|
      invariant 0 <= i <= |matchTagsCommit|
      invariant failure == FirstFailure(matchTagsCommit[..i], o, n)
      invariant !errorIndicator ==> versionsNeed == versions && failure.None?
      invariant errorIndicator ==>
                  failure.Some? && versionTrue == Placeholder(matchTagsCommit[failure.value], baseVersion, o)
                  && versionsNeed == [versionTrue, versionTrue]
      invariant errorIndicator ==> HasRecognised(matchTagsCommit)
    {
      var tag := matchTagsCommit[i];
      FirstFailureStep(matchTagsCommit, i, o, n);
      failure := if failure.Some? then failure else if Recognised(tag) && ManifestFails(tag, o, n) then Some(i) else None;
      if Recognised(tag) {
        // A recognised tag after a failure is excluded by NoTagAfterFailure.
        assert HasRecognised(matchTagsCommit);
        NothingRecognisedAfterFailure(matchTagsCommit, i, o, n);
        var fails, expected := CheckTagBump(tag, versionsNeed, baseVersion);
        if fails {
          versionTrue := expected;
          versionsNeed := [versionTrue, versionTrue];
          errorIndicator := true;
        }
      }
      assert failure == FirstFailure(matchTagsCommit[..i + 1], o, n);
      i := i + 1;
    }
    assert matchTagsCommit[..i] == matchTagsCommit;
  }

  /** `check_manifest_version`. */
  method CheckManifestVersion(manifest: string, versions: seq<string>, strCommit: string)
    returns (errorManifest: map<string, string>)
    requires ManifestCallable(versions, FindRuns(strCommit, 0))
    ensures errorManifest == ManifestFindings(manifest, versions, strCommit, FindRuns(strCommit, 0))
  {
    errorManifest := map[];
    var versionOld := versions[0];
    var baseVersion := BaseVersion(versionOld).value;
    var matchTagsCommit := FindRuns(strCommit, 0);
    var matchTagsCommitStr := Join(matchTagsCommit, ", ");
    var errorIndicator, versionTrue := ScanTags(matchTagsCommit, versions, baseVersion);
    if errorIndicator {
      errorManifest := errorManifest
        + map[ManifestKey(strCommit, versions[0], versions[1]) := ManifestMessage(matchTagsCommitStr, manifest, versionTrue)];
    }
  }

  // ---------------------------------------------------------------------------
  // Properties of the manifest rule.

  /** The manifest check is silent exactly when no recognised tag breaks its rule. */
  lemma ManifestEmptyIff(manifest: string, versions: seq<string>, strCommit: string, toks: seq<string>)
    requires ManifestCallable(versions, toks)
    ensures ManifestFindings(manifest, versions, strCommit, toks) == map[]
            <==> forall j :: 0 <= j < |toks| && Recognised(toks[j])
                   ==> !ManifestFails(toks[j], LastThree(versions[0]), LastThree(versions[1]))
  {
    if HasRecognised(toks) {
      var o, n := LastThree(versions[0]), LastThree(versions[1]);
      if FirstFailure(toks, o, n).Some? {
        assert ManifestKey(strCommit, versions[0], versions[1]) in ManifestFindings(manifest, versions, strCommit, toks);
      }
    } else {
      assert ManifestFindings(manifest, versions, strCommit, toks) == map[];
    }
  }

  /** A manifest finding is the single entry under the commits' key, and it
      names the placeholder of the first recognised tag whose rule fails. */
  lemma ManifestFindingNamesFirstFailure(manifest: string, versions: seq<string>, strCommit: string, toks: seq<string>)
    requires ManifestCallable(versions, toks)
    requires ManifestFindings(manifest, versions, strCommit, toks) != map[]
    ensures |versions| == 2 && VersionMatches(versions[0]) && VersionMatches(versions[1])
    ensures var o, n := LastThree(versions[0]), LastThree(versions[1]);
            exists f :: 0 <= f < |toks| && Recognised(toks[f]) && ManifestFails(toks[f], o, n)
              && (forall j :: 0 <= j < f ==> !(Recognised(toks[j]) && ManifestFails(toks[j], o, n)))
              && ManifestFindings(manifest, versions, strCommit, toks)
                 == map[ManifestKey(strCommit, versions[0], versions[1])
                        := ManifestMessage(Join(toks, ", "), manifest, Placeholder(toks[f], BaseVersion(versions[0]).value, o))]
  {
    assert HasRecognised(toks);
    var o, n := LastThree(versions[0]), LastThree(versions[1]);
    var f := FirstFailure(toks, o, n).value;
    var expected := Placeholder(toks[f], BaseVersion(versions[0]).value, o);
    assert ManifestFindings(manifest, versions, strCommit, toks)
           == map[ManifestKey(strCommit, versions[0], versions[1]) := ManifestMessage(Join(toks, ", "), manifest, expected)];
  }

  /** The expected version keeps the base, the first two fields, of the old one. */
  lemma PlaceholderKeepsBase(tag: string, base: string, o: Triple)
    requires Recognised(tag)
    ensures IsPrefix(base + ".", Placeholder(tag, base, o))
  {
    assert Placeholder(tag, base, o)[..|base + "."|] == base + ".";
  }

  /** Any strict increase passes, not only an increase by one: the manifest
      rule is implied by the changelog rule but not the other way round. */
  lemma ChangelogRuleImpliesManifestRule(tag: string, o: Triple, n: Triple)
    requires Recognised(tag) && ChangelogOk(tag, o, n)
    ensures !ManifestFails(tag, o, n)
  {
  }

  lemma ManifestAcceptsSkippedFix()
    ensures !ManifestFails(Ambulance, Triple(1, 2, 3), Triple(1, 2, 5))
    ensures !ChangelogOk(Ambulance, Triple(1, 2, 3), Triple(1, 2, 5))
  {
  }

  /** The placeholder of a failure never reads as a version: the source's
      parser would reject it if another recognised tag followed. */
  lemma PlaceholdersDoNotParse(tag: string, base: string, o: Triple)
    requires Recognised(tag)
    ensures !VersionMatches(Placeholder(tag, base, o))
  {
    var v := Placeholder(tag, base, o);
    var f := PlaceholderFields(tag, o);
    var y, tail;
    if tag == Sparkles {
      y, tail := "(" + NatToString(o.first) + " + \\{NUMBER_OF_NEW_FEATURES\\}", ".0.0";
    } else if tag == Zap {
      y, tail := NatToString(o.first) + "." + "(" + NatToString(o.second) + " + \\{NUMBER_OF_IMPROVEMENTS\\}", ".0";
    } else {
      y, tail := NatToString(o.first) + "." + NatToString(o.second) + "." + "(" + NatToString(o.third) + " + \\{NUMBER_OF_FIXES\\}", "";
    }
    assert f == y + ")" + tail;
    assert v == (base + "." + y) + ")" + tail;
    NoVersionAfterParen(v, base + "." + y, tail);
  }

  /** A string that ends in `)` followed by at most two dotted zeros does not
      read as a version. */
  lemma NoVersionAfterParen(v: string, x: string, tail: string)
    requires tail == ".0.0" || tail == ".0" || tail == ""
    requires v == x + ")" + tail
    ensures !VersionMatches(v)
  {
    var q := |x|;
    assert v[q] == ')';
    assert MatchEnd(v) == |v|;
    if tail == "" {
      DigitRunStartIs(v, |v|, |v|);
    } else if tail == ".0" {
      assert v[q + 1] == '.' && v[q + 2] == '0';
      DigitRunStartIs(v, |v|, q + 2);
      DigitRunStartIs(v, q + 1, q + 1);
    } else {
      assert v[q + 1] == '.' && v[q + 2] == '0' && v[q + 3] == '.' && v[q + 4] == '0';
      DigitRunStartIs(v, |v|, q + 4);
      DigitRunStartIs(v, q + 3, q + 2);
    }
  }
}

