/** The per-commit tag rules: `handler_commit` and the branch and version-tag
    checks it calls. Every finding is a one-entry map keyed by the commit
    message; `dict.update` is map union, in which the right operand wins. */
module Policy {
  import opened Text
  import opened Tags

  const NoTagsMsg := "There are no tags in the commit!"
  const ExtraTagsMsg := "There should not be such tags in the commit!"
  const ReleaseInDevMsg := "You cannot use release tags in development branch!"
  const MissingDevMsg := "There should be a Development tag in the dev branches!"
  const MultipleDevMsg := "You must use only one Development tag!"
  const DevInStableMsg := "You cannot use Development tag in stable branch!"
  const MissingReleaseMsg := "There should be a Release tag in the stable branches!"
  const MultipleReleaseMsg := "You must use only one Release tag (along with version tags when they are required)!"
  const MustBeVersionMsg := "Must be Version tags!"

  /** `re.search(r'-', str(travis_branch))`: a branch whose name holds a
      hyphen is a development branch, any other branch is stable. */
  predicate IsDevBranch(branch: string) {
    Contains(branch, "-")
  }

  lemma DevBranchIffHyphen(branch: string)
    ensures IsDevBranch(branch) <==> exists i :: 0 <= i < |branch| && branch[i] == '-'
  {
    ContainsIff(branch, "-");
    if i :| 0 <= i < |branch| && branch[i] == '-' {
      assert branch[i..i + 1] == "-";
      assert OccursAt(branch, "-", i);
    }
    if i :| OccursAt(branch, "-", i) {
      assert branch[i] == branch[i..i + 1][0];
    }
  }

  /** `check_dev_branch_tags`: the first failing rule only. */
  function CheckDevBranchTags(releaseTag: set<string>, devTag: set<string>, commit: string): (r: map<string, string>)
    ensures r.Keys <= {commit}
    ensures commit !in r <==> releaseTag == {} && |devTag| == 1
  {
    if releaseTag != {} then map[commit := ReleaseInDevMsg]
    else if devTag == {} then map[commit := MissingDevMsg]
    else if |devTag| > 1 then map[commit := MultipleDevMsg]
    else map[]
  }

  /** `check_stable_branch_tags`: the mirror image for stable branches. */
  function CheckStableBranchTags(devTag: set<string>, releaseTag: set<string>, commit: string): (r: map<string, string>)
    ensures r.Keys <= {commit}
    ensures commit !in r <==> devTag == {} && |releaseTag| == 1
  {
    if devTag != {} then map[commit := DevInStableMsg]
    else if releaseTag == {} then map[commit := MissingReleaseMsg]
    else if |releaseTag| > 1 then map[commit := MultipleReleaseMsg]
    else map[]
  }

  /** `check_version_tags`: only the "no digit tag at all" rule is active. */
  function CheckVersionTags(versionTags: set<string>, commit: string): (r: map<string, string>)
    ensures r.Keys <= {commit}
    ensures commit !in r <==> versionTags != {}
  {
    if versionTags == {} then map[commit := MustBeVersionMsg] else map[]
  }

  /** The findings for a commit whose run holds only known tags. */
  function TaggedFindings(tags: seq<string>, symbolInBranch: bool, commit: string): (r: map<string, string>)
    ensures r.Keys <= {commit}
  {
    var branch :=
      if symbolInBranch then CheckDevBranchTags(ReleaseTagsOf(tags), DevTagsOf(tags), commit)
      else CheckStableBranchTags(DevTagsOf(tags), ReleaseTagsOf(tags), commit);
    var version := if NeedsVersionTags(tags) then CheckVersionTags(VersionTagsOf(tags), commit) else map[];
    branch + version
  }

  /** What `handler_commit` returns, case by case. */
  function CommitFindings(commit: string, symbolInBranch: bool): (r: map<string, string>)
    ensures r.Keys <= {commit}
  {
    match LeadingRun(commit)
    case None => map[commit := NoTagsMsg]
    case Some(run) =>
      var tags := FindTags(run);
      if HasExtraTags(tags) then map[commit := ExtraTagsMsg]
      else TaggedFindings(tags, symbolInBranch, commit)
  }

  /** `handler_commit`: builds the findings of one commit with early returns. */
  method HandlerCommit(commit: string, symbolInBranch: bool) returns (errorsCommit: map<string, string>)
    ensures errorsCommit == CommitFindings(commit, symbolInBranch)
  {
    errorsCommit := map[];
    var matchTagsCommit := LeadingRun(commit);
    if matchTagsCommit.None? {
      errorsCommit := errorsCommit + map[commit := NoTagsMsg];
      return;
    }
    var listTags := FindTags(matchTagsCommit.value);
    if HasExtraTags(listTags) {
      errorsCommit := errorsCommit + map[commit := ExtraTagsMsg];
      return;
    }
    var errorsTagged := CheckKnownTags(listTags, symbolInBranch, commit);
    errorsCommit := errorsCommit + errorsTagged;
    assert errorsCommit == errorsTagged;
  }

  /** The second half of `handler_commit`, once every tag is known: the
      branch rule, then the version-tag rule when a tag demands it. */
  method CheckKnownTags(listTags: seq<string>, symbolInBranch: bool, commit: string)
    returns (errorsCommit: map<string, string>)
    ensures errorsCommit == TaggedFindings(listTags, symbolInBranch, commit)
  {
    errorsCommit := map[];
    var devTag := DevTagsOf(listTags);
    var releaseTag := ReleaseTagsOf(listTags);
    var versionTags := VersionTagsOf(listTags);
    if symbolInBranch {
      var errorsDev := CheckDevBranchTags(releaseTag, devTag, commit);
      assert map[] + errorsDev == errorsDev;
      errorsCommit := errorsCommit + errorsDev;
    } else {
      var errorsStable := CheckStableBranchTags(devTag, releaseTag, commit);
      assert map[] + errorsStable == errorsStable;
      errorsCommit := errorsCommit + errorsStable;
    }
    if NeedsVersionTags(listTags) {
      var errorsVersion := CheckVersionTags(versionTags, commit);
      errorsCommit := errorsCommit + errorsVersion;
    } else {
      assert errorsCommit + map[] == errorsCommit;
    }
  }

  // ---------------------------------------------------------------------------
  // Properties of the rules.

  /** Exactly one distinct tag of `vocab` occurs in `tags` (repetitions allowed). */
  ghost predicate ExactlyOneDistinct(tags: seq<string>, vocab: set<string>) {
    exists d :: d in tags && d in vocab && forall t :: t in tags && t in vocab ==> t == d
  }

  ghost predicate NoneOf(tags: seq<string>, vocab: set<string>) {
    forall t :: t in tags ==> t !in vocab
  }

  lemma SingletonIff(tags: seq<string>, vocab: set<string>)
    ensures |TagSet(tags) * vocab| == 1 <==> ExactlyOneDistinct(tags, vocab)
  {
    var s := TagSet(tags) * vocab;
    if |s| == 1 {
      var d :| d in s;
      assert |s - {d}| == 0;
      assert s == {d};
      assert forall t :: t in tags && t in vocab ==> t in s;
      assert d in tags && d in vocab;
    }
    if ExactlyOneDistinct(tags, vocab) {
      var d :| d in tags && d in vocab && forall t :: t in tags && t in vocab ==> t == d;
      forall x | x in s
        ensures x == d
      {
        assert x in tags;
      }
      assert d in TagSet(tags);
      assert d in s;
      assert s == {d};
      assert |s| == 1;
    }
  }

  lemma EmptyIff(tags: seq<string>, vocab: set<string>)
    ensures TagSet(tags) * vocab == {} <==> NoneOf(tags, vocab)
  {
    if !NoneOf(tags, vocab) {
      var t :| t in tags && t in vocab;
      assert t in TagSet(tags) * vocab;
    }
  }

  /** Every tag that demands version digits is itself a release tag. */
  lemma RequirementsAreRelease(tags: seq<string>)
    requires NeedsVersionTags(tags)
    ensures !NoneOf(tags, ReleaseTags)
  {
    var t :| t in tags && t in RequirementsTagsOfVersion;
    assert t in ReleaseTags;
  }

  /** A message that does not start with a run yields exactly the "no tags" finding. */
  lemma NoLeadingRunFinding(commit: string, symbolInBranch: bool)
    requires forall k: nat :: !RunMatch(commit, 0, k)
    ensures CommitFindings(commit, symbolInBranch) == map[commit := NoTagsMsg]
  {
  }

  /** A run with any tag outside the three vocabularies yields exactly the
      "no such tags" finding; no branch or version rule is consulted. */
  lemma UnknownTagFinding(commit: string, symbolInBranch: bool, run: string, t: string)
    requires LeadingRun(commit) == Some(run)
    requires t in FindTags(run) && t !in DevelopmentTags && t !in ReleaseTags && t !in VersionTags
    ensures CommitFindings(commit, symbolInBranch) == map[commit := ExtraTagsMsg]
  {
  }

  /** When both a branch rule and the version-digit rule fail, the version
      finding overwrites the branch one. */
  lemma VersionFindingOverwrites(tags: seq<string>, symbolInBranch: bool, commit: string)
    requires NeedsVersionTags(tags) && NoneOf(tags, VersionTags)
    ensures TaggedFindings(tags, symbolInBranch, commit) == map[commit := MustBeVersionMsg]
  {
    EmptyIff(tags, VersionTags);
  }

  /** With at least one digit tag the version rule adds nothing. */
  lemma DigitTagSilencesVersionRule(tags: seq<string>, commit: string, d: string)
    requires d in tags && d in VersionTags
    ensures TaggedFindings(tags, true, commit)
            == CheckDevBranchTags(ReleaseTagsOf(tags), DevTagsOf(tags), commit)
    ensures TaggedFindings(tags, false, commit)
            == CheckStableBranchTags(DevTagsOf(tags), ReleaseTagsOf(tags), commit)
  {
    assert d in VersionTagsOf(tags);
  }

  /** Development-branch policy: no release tag and exactly one distinct
      development tag is the only way to pass. */
  lemma {:induction false} DevBranchPasses(tags: seq<string>, commit: string)
    ensures commit !in TaggedFindings(tags, true, commit)
            <==> NoneOf(tags, ReleaseTags) && ExactlyOneDistinct(tags, DevelopmentTags)
  {
    EmptyIff(tags, ReleaseTags);
    SingletonIff(tags, DevelopmentTags);
    if NeedsVersionTags(tags) {
      RequirementsAreRelease(tags);
    }
  }

  /** On a development branch a release tag is reported first (unless the
      version finding overwrites it). */
  lemma ReleaseTagOnDevBranch(tags: seq<string>, commit: string)
    requires !NoneOf(tags, ReleaseTags)
    ensures TaggedFindings(tags, true, commit)[commit]
            == if NeedsVersionTags(tags) && NoneOf(tags, VersionTags) then MustBeVersionMsg else ReleaseInDevMsg
  {
    EmptyIff(tags, ReleaseTags);
    EmptyIff(tags, VersionTags);
  }

  /** On a development branch without release tags, a missing development tag
      is reported next. */
  lemma MissingDevTagOnDevBranch(tags: seq<string>, commit: string)
    requires NoneOf(tags, ReleaseTags) && NoneOf(tags, DevelopmentTags)
    ensures TaggedFindings(tags, true, commit) == map[commit := MissingDevMsg]
  {
    EmptyIff(tags, ReleaseTags);
    EmptyIff(tags, DevelopmentTags);
    if NeedsVersionTags(tags) {
      RequirementsAreRelease(tags);
    }
  }

  /** On a development branch, two distinct development tags are reported last. */
  lemma TwoDevTagsOnDevBranch(tags: seq<string>, commit: string, d1: string, d2: string)
    requires NoneOf(tags, ReleaseTags)
    requires d1 in tags && d2 in tags && d1 in DevelopmentTags && d2 in DevelopmentTags && d1 != d2
    ensures TaggedFindings(tags, true, commit) == map[commit := MultipleDevMsg]
  {
    EmptyIff(tags, ReleaseTags);
    var dev := DevTagsOf(tags);
    assert {d1, d2} <= dev;
    assert |{d1, d2}| == 2;
    SubsetCard({d1, d2}, dev);
    if NeedsVersionTags(tags) {
      RequirementsAreRelease(tags);
    }
  }

  lemma SubsetCard(a: set<string>, b: set<string>)
    requires a <= b
    ensures |a| <= |b|
  {
    if a != {} {
      var x :| x in a;
      SubsetCard(a - {x}, b - {x});
    }
  }

  /** Stable-branch policy: no development tag and exactly one distinct release
      tag, plus a digit tag when a tag demands one. */
  lemma {:induction false} StableBranchPasses(tags: seq<string>, commit: string)
    ensures commit !in TaggedFindings(tags, false, commit)
            <==> NoneOf(tags, DevelopmentTags) && ExactlyOneDistinct(tags, ReleaseTags)
                 && (NeedsVersionTags(tags) ==> !NoneOf(tags, VersionTags))
  {
    EmptyIff(tags, DevelopmentTags);
    EmptyIff(tags, VersionTags);
    SingletonIff(tags, ReleaseTags);
  }

  /** On a stable branch a development tag is reported first (unless the
      version finding overwrites it). */
  lemma DevTagOnStableBranch(tags: seq<string>, commit: string)
    requires !NoneOf(tags, DevelopmentTags)
    ensures TaggedFindings(tags, false, commit)[commit]
            == if NeedsVersionTags(tags) && NoneOf(tags, VersionTags) then MustBeVersionMsg else DevInStableMsg
  {
    EmptyIff(tags, DevelopmentTags);
    EmptyIff(tags, VersionTags);
  }

  /** On a stable branch without development tags, a missing release tag is
      reported next. */
  lemma MissingReleaseTagOnStableBranch(tags: seq<string>, commit: string)
    requires NoneOf(tags, DevelopmentTags) && NoneOf(tags, ReleaseTags)
    ensures TaggedFindings(tags, false, commit) == map[commit := MissingReleaseMsg]
  {
    EmptyIff(tags, ReleaseTags);
    EmptyIff(tags, DevelopmentTags);
    if NeedsVersionTags(tags) {
      RequirementsAreRelease(tags);
    }
  }

  /** On a stable branch, two distinct release tags are reported last (the
      version finding, when it arises, overwrites it: VersionFindingOverwrites). */
  lemma TwoReleaseTagsOnStableBranch(tags: seq<string>, commit: string, r1: string, r2: string)
    requires NoneOf(tags, DevelopmentTags)
    requires r1 in tags && r2 in tags && r1 in ReleaseTags && r2 in ReleaseTags && r1 != r2
    requires !NeedsVersionTags(tags) || !NoneOf(tags, VersionTags)
    ensures TaggedFindings(tags, false, commit) == map[commit := MultipleReleaseMsg]
  {
    EmptyIff(tags, DevelopmentTags);
    var rel := ReleaseTagsOf(tags);
    assert {r1, r2} <= rel;
    assert |{r1, r2}| == 2;
    SubsetCard({r1, r2}, rel);
    var branch := CheckStableBranchTags(DevTagsOf(tags), rel, commit);
    assert branch == map[commit := MultipleReleaseMsg];
    if NeedsVersionTags(tags) {
      EmptyIff(tags, VersionTags);
      assert CheckVersionTags(VersionTagsOf(tags), commit) == map[];
    }
  }

  /** The rules see the tags as a set: repeating or reordering tags changes nothing. */
  lemma {:induction false} OnlyTheSetMatters(tags: seq<string>, tags': seq<string>, symbolInBranch: bool, commit: string)
    requires TagSet(tags) == TagSet(tags')
    ensures TaggedFindings(tags, symbolInBranch, commit) == TaggedFindings(tags', symbolInBranch, commit)
  {
    assert forall t :: t in tags <==> t in TagSet(tags);
    assert forall t :: t in tags' <==> t in TagSet(tags');
    assert NeedsVersionTags(tags) == NeedsVersionTags(tags');
  }

  /** A message with no leading tag, on any branch. */
  lemma UntaggedMessage(symbolInBranch: bool)
    ensures CommitFindings("Fix typo", symbolInBranch) == map["Fix typo" := NoTagsMsg]
  {
    assert !RunMatch("Fix typo", 0, 0);
    assert forall k: nat :: !RunMatch("Fix typo", 0, k) by {
      assert "Fix typo"[0] != ':';
    }
  }
}
