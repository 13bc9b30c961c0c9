/** The driver `get_errors_msgs_commits`: it walks the commits of a pull
    request, checks the tags of each, and adds the version and documentation
    findings of `check_stable_branch_docs`. The data the driver fetches over
    the network are its inputs here. */
module Report {
  import opened Text
  import opened Tags
  import opened Policy
  import opened Bumps
  import opened Docs

  /** One entry of the pull request's commit list. */
  datatype CommitRecord = CommitRecord(message: string, parents: nat, url: string, sha: string)

  /** `s.split(' ', 1)[0]`: everything before the first space. */
  function FirstWord(s: string): (w: string)
    ensures IsPrefix(w, s)
    ensures forall i :: 0 <= i < |w| ==> w[i] != ' '
    ensures |w| < |s| ==> s[|w|] == ' '
    decreases |s|
  {
    if |s| == 0 || s[0] == ' ' then "" else [s[0]] + FirstWord(s[1..])
  }

  /** Merge commits are not checked at all. */
  predicate IsKept(c: CommitRecord) {
    c.parents <= 1
  }

  /** A kept commit goes through `handler_commit` unless its message is empty
      or starts with the word `Revert`. */
  predicate IsChecked(c: CommitRecord) {
    c.message != "" && FirstWord(c.message) != "Revert"
  }

  // ---------------------------------------------------------------------------
  // What the loop builds, commit by commit.

  function KeptMessages(commits: seq<CommitRecord>): seq<string>
    decreases |commits|
  {
    if |commits| == 0 then []
    else
      var c := commits[|commits| - 1];
      KeptMessages(commits[..|commits| - 1]) + (if IsKept(c) then [c.message] else [])
  }

  function KeptShas(commits: seq<CommitRecord>): seq<string>
    decreases |commits|
  {
    if |commits| == 0 then []
    else
      var c := commits[|commits| - 1];
      KeptShas(commits[..|commits| - 1]) + (if IsKept(c) then [c.sha] else [])
  }

  /** `commit_url`: a message seen again takes the later commit's URL. */
  function CommitUrls(commits: seq<CommitRecord>): map<string, string>
    decreases |commits|
  {
    if |commits| == 0 then map[]
    else
      var c := commits[|commits| - 1];
      var urls := CommitUrls(commits[..|commits| - 1]);
      if IsKept(c) then urls[c.message := c.url] else urls
  }

  /** What a commit adds to `real_errors`. */
  function CommitContribution(c: CommitRecord, symbolInBranch: bool): map<string, string> {
    if IsKept(c) && IsChecked(c) then CommitFindings(c.message, symbolInBranch) else map[]
  }

  function CommitMaps(commits: seq<CommitRecord>, symbolInBranch: bool): (ms: seq<map<string, string>>)
    ensures |ms| == |commits|
    ensures forall i :: 0 <= i < |commits| ==> ms[i] == CommitContribution(commits[i], symbolInBranch)
  {
    seq(|commits|, i requires 0 <= i < |commits| => CommitContribution(commits[i], symbolInBranch))
  }

  /** `real_errors` after the loop. */
  function CommitErrors(commits: seq<CommitRecord>, symbolInBranch: bool): map<string, string> {
    MergeAll(CommitMaps(commits, symbolInBranch))
  }

  /** The loop of `get_errors_msgs_commits` over the fetched commits. */
  method CollectCommits(commits: seq<CommitRecord>, symbolInBranch: bool)
    returns (commitUrl: map<string, string>, shaCommits: seq<string>, commitsOrder: seq<string>,
             realErrors: map<string, string>)
    ensures commitsOrder == KeptMessages(commits)
    ensures shaCommits == KeptShas(commits)
    ensures commitUrl == CommitUrls(commits)
    ensures realErrors == CommitErrors(commits, symbolInBranch)
  {
    commitUrl, shaCommits, commitsOrder, realErrors := map[], [], [], map[];
    var i := 0;
    while i < |commits|
      invariant 0 <= i <= |commits|
      invariant commitsOrder == KeptMessages(commits[..i])
      invariant shaCommits == KeptShas(commits[..i])
      invariant commitUrl == CommitUrls(commits[..i])
      invariant realErrors == CommitErrors(commits[..i], symbolInBranch)
    {
      var c := commits[i];
      CommitsStep(commits, i, symbolInBranch);
      i := i + 1;
      if c.parents > 1 {
        continue;
      }
      var commit := c.message;
      commitsOrder := commitsOrder + [commit];
      commitUrl := commitUrl[commit := c.url];
      shaCommits := shaCommits + [c.sha];
      if commit != "" {
        var firstWord := FirstWord(commit);
        if firstWord == "Revert" {
          continue;
        }
        var errorsCommit := HandlerCommit(commit, symbolInBranch);
        realErrors := realErrors + errorsCommit;
      }
    }
    assert commits[..i] == commits;
  }

  /** How each of the loop's results grows by one commit. */
  lemma CommitsStep(commits: seq<CommitRecord>, i: nat, symbolInBranch: bool)
    requires i < |commits|
    ensures var c := commits[i];
            && KeptMessages(commits[..i + 1]) == KeptMessages(commits[..i]) + (if IsKept(c) then [c.message] else [])
            && KeptShas(commits[..i + 1]) == KeptShas(commits[..i]) + (if IsKept(c) then [c.sha] else [])
            && CommitUrls(commits[..i + 1]) == (if IsKept(c) then CommitUrls(commits[..i])[c.message := c.url]
                                                else CommitUrls(commits[..i]))
            && CommitErrors(commits[..i + 1], symbolInBranch)
               == CommitErrors(commits[..i], symbolInBranch) + CommitContribution(c, symbolInBranch)
  {
    var c := commits[i];
    assert commits[..i + 1][..i] == commits[..i];
    assert CommitMaps(commits[..i + 1], symbolInBranch)
           == CommitMaps(commits[..i], symbolInBranch) + [CommitContribution(c, symbolInBranch)];
    MergeAllSnoc(CommitMaps(commits[..i], symbolInBranch), CommitContribution(c, symbolInBranch));
  }

  /** A message is reported exactly when some kept, checked commit carries it
      and its tags are at fault, and the finding is that of the message alone. */
  lemma CommitErrorsIff(commits: seq<CommitRecord>, symbolInBranch: bool, key: string)
    ensures key in CommitErrors(commits, symbolInBranch)
            <==> key in CommitFindings(key, symbolInBranch)
                 && exists i :: 0 <= i < |commits| && IsKept(commits[i]) && IsChecked(commits[i])
                                && commits[i].message == key
    ensures key in CommitErrors(commits, symbolInBranch) ==>
              CommitErrors(commits, symbolInBranch)[key] == CommitFindings(key, symbolInBranch)[key]
  {
    var ms := CommitMaps(commits, symbolInBranch);
    MergeAllLastWins(ms, key);
    if i :| 0 <= i < |commits| && key in ms[i] {
      assert key == commits[i].message;
    }
  }

  /** A commit whose message starts with the word `Revert`, or is empty, is
      never reported by the tag checks. */
  lemma RevertNeverReported(commits: seq<CommitRecord>, symbolInBranch: bool, key: string)
    requires key == "" || FirstWord(key) == "Revert"
    ensures key !in CommitErrors(commits, symbolInBranch)
  {
    CommitErrorsIff(commits, symbolInBranch, key);
  }

  /** A message that occurs only on merge commits is never reported, and
      neither listed nor given a URL. */
  lemma MergeCommitsIgnored(commits: seq<CommitRecord>, symbolInBranch: bool, key: string)
    requires forall i :: 0 <= i < |commits| && commits[i].message == key ==> !IsKept(commits[i])
    ensures key !in CommitErrors(commits, symbolInBranch)
    ensures key !in KeptMessages(commits) && key !in CommitUrls(commits)
  {
    CommitErrorsIff(commits, symbolInBranch, key);
    KeptMessagesIff(commits, key);
  }

  /** The listed messages and the URL map cover exactly the kept commits. */
  lemma {:induction false} KeptMessagesIff(commits: seq<CommitRecord>, key: string)
    ensures key in KeptMessages(commits)
            <==> exists i :: 0 <= i < |commits| && IsKept(commits[i]) && commits[i].message == key
    ensures key in CommitUrls(commits) <==> key in KeptMessages(commits)
    decreases |commits|
  {
    if |commits| > 0 {
      var n := |commits| - 1;
      KeptMessagesIff(commits[..n], key);
      forall i | 0 <= i < n
        ensures commits[..n][i] == commits[i]
      {
      }
    }
  }

  // ---------------------------------------------------------------------------
  // `check_stable_branch_docs`.

  /** What `check_manifest_version` needs for manifest `m`: `manifest_version`
      lists its versions and they suit the tags of its commits. */
  predicate ManifestReady(commitManifest: seq<(string, Option<string>)>, manifestVersion: map<string, seq<string>>, m: string) {
    m in manifestVersion
    && ManifestCallable(manifestVersion[m], FindRuns(Join(CommitsFor(commitManifest, m), ", "), 0))
  }

  predicate StableDocsReady(commitManifest: seq<(string, Option<string>)>, manifestVersion: map<string, seq<string>>) {
    manifestVersion != map[] ==>
      forall m :: m in ManifestOrder(commitManifest) ==> ManifestReady(commitManifest, manifestVersion, m)
  }

  /** The manifest findings of `order[..k]`, one map per manifest. */
  function ManifestMaps(commitManifest: seq<(string, Option<string>)>, manifestVersion: map<string, seq<string>>,
                        order: seq<string>): (ms: seq<map<string, string>>)
    requires forall i :: 0 <= i < |order| ==> ManifestReady(commitManifest, manifestVersion, order[i])
    ensures |ms| == |order|
    ensures forall i :: 0 <= i < |order| ==>
              ManifestReady(commitManifest, manifestVersion, order[i]) &&
              var strCommit := Join(CommitsFor(commitManifest, order[i]), ", ");
              ms[i] == ManifestFindings(order[i], manifestVersion[order[i]], strCommit, FindRuns(strCommit, 0))
    decreases |order|
  {
    if |order| == 0 then []
    else
      var m := order[|order| - 1];
      assert ManifestReady(commitManifest, manifestVersion, m);
      assert m in manifestVersion;
      var strCommit := Join(CommitsFor(commitManifest, m), ", ");
      ManifestMaps(commitManifest, manifestVersion, order[..|order| - 1])
      + [ManifestFindings(m, manifestVersion[m], strCommit, FindRuns(strCommit, 0))]
  }

  /** How the manifest findings grow by one manifest. */
  lemma ManifestMapsStep(commitManifest: seq<(string, Option<string>)>, manifestVersion: map<string, seq<string>>,
                         order: seq<string>, i: nat)
    requires i < |order|
    requires forall j :: 0 <= j < |order| ==> ManifestReady(commitManifest, manifestVersion, order[j])
    ensures ManifestReady(commitManifest, manifestVersion, order[i])
    ensures var strCommit := Join(CommitsFor(commitManifest, order[i]), ", ");
            ManifestMaps(commitManifest, manifestVersion, order[..i + 1])
            == ManifestMaps(commitManifest, manifestVersion, order[..i])
               + [ManifestFindings(order[i], manifestVersion[order[i]], strCommit, FindRuns(strCommit, 0))]
  {
    assert order[..i + 1][..i] == order[..i];
  }

  /** The order of the manifests meets what `ManifestMaps` needs. */
  lemma OrderReady(commitManifest: seq<(string, Option<string>)>, manifestVersion: map<string, seq<string>>)
    requires manifestVersion != map[]
    requires StableDocsReady(commitManifest, manifestVersion)
    ensures var order := ManifestOrder(commitManifest);
            forall j :: 0 <= j < |order| ==> ManifestReady(commitManifest, manifestVersion, order[j])
  {
    var order := ManifestOrder(commitManifest);
    forall j | 0 <= j < |order|
      ensures ManifestReady(commitManifest, manifestVersion, order[j])
    {
      assert order[j] in order;
    }
  }

  /** The manifest part of `error_version_docs`. */
  function ManifestPart(commitManifest: seq<(string, Option<string>)>, manifestVersion: map<string, seq<string>>)
    : map<string, string>
    requires StableDocsReady(commitManifest, manifestVersion)
  {
    if manifestVersion == map[] then map[]
    else MergeAll(ManifestMaps(commitManifest, manifestVersion, ManifestOrder(commitManifest)))
  }

  function StableDocsFindings(commitFilenameVersions: seq<(string, seq<(string, FileVersions)>)>,
                              commitManifest: seq<(string, Option<string>)>,
                              manifestVersion: map<string, seq<string>>): map<string, string>
    requires StableDocsReady(commitManifest, manifestVersion)
  {
    ManifestPart(commitManifest, manifestVersion) + DocFindings(commitFilenameVersions)
  }

  /** `check_stable_branch_docs`, given what `get_changed_version` and
      `get_manifest_version` fetched. */
  method CheckStableBranchDocs(commitFilenameVersions: seq<(string, seq<(string, FileVersions)>)>,
                               commitManifest: seq<(string, Option<string>)>,
                               manifestVersion: map<string, seq<string>>)
    returns (errorVersionDocs: map<string, string>)
    requires StableDocsReady(commitManifest, manifestVersion)
    ensures errorVersionDocs == StableDocsFindings(commitFilenameVersions, commitManifest, manifestVersion)
  {
    errorVersionDocs := map[];
    var order, manifestCommits := GroupByManifest(commitManifest);
    if manifestVersion != map[] {
      OrderReady(commitManifest, manifestVersion);
      var i := 0;
      while i < |order|
        invariant 0 <= i <= |order|
        invariant errorVersionDocs == MergeAll(ManifestMaps(commitManifest, manifestVersion, order[..i]))
      {
        var manifest := order[i];
        ManifestMapsStep(commitManifest, manifestVersion, order, i);
        var versions := manifestVersion[manifest];
        var strCommit := Join(manifestCommits[manifest], ", ");
        var errorManifest := CheckManifestVersion(manifest, versions, strCommit);
        MergeAllSnoc(ManifestMaps(commitManifest, manifestVersion, order[..i]), errorManifest);
        errorVersionDocs := errorVersionDocs + errorManifest;
        i := i + 1;
      }
      assert order[..i] == order;
    }
    var errorChangelogIndexReadme := CheckChangelogIndexReadme(commitFilenameVersions);
    errorVersionDocs := errorVersionDocs + errorChangelogIndexReadme;
  }

  lemma MissingKeyShape(commitMsg: string, files: string, missing: string)
    ensures |MissingKey(commitMsg, files, missing)| > 6 && MissingKey(commitMsg, files, missing)[6] == ':'
  {
    assert MissingKey(commitMsg, files, missing)
           == "commit: " + (commitMsg + "\nupdated files: " + files + "\nnot updated file: " + missing);
  }

  /** Every key of the documentation findings starts `commit: `. */
  lemma DocKeysShape(commitFilenameVersions: seq<(string, seq<(string, FileVersions)>)>, key: string)
    requires key in DocFindings(commitFilenameVersions)
    ensures |key| > 6 && key[6] == ':'
  {
    DocFindingsLastWins(commitFilenameVersions, key);
    var i :| 0 <= i < |commitFilenameVersions| && key in EntryFindings(commitFilenameVersions[i]);
    var (msg, fv) := commitFilenameVersions[i];
    var files := Join(FileNames(fv), ", ");
    EntryKeys(commitFilenameVersions[i], key);
    MissingKeyShape(msg, files, Changelog);
    MissingKeyShape(msg, files, ReadmeOrIndex);
  }

  /** Every key of the manifest findings starts `commit(s): `. */
  lemma ManifestKeysShape(commitManifest: seq<(string, Option<string>)>, manifestVersion: map<string, seq<string>>,
                          key: string)
    requires StableDocsReady(commitManifest, manifestVersion)
    requires key in ManifestPart(commitManifest, manifestVersion)
    ensures |key| > 6 && key[6] == '('
  {
    assert manifestVersion != map[];
    OrderReady(commitManifest, manifestVersion);
    var order := ManifestOrder(commitManifest);
    var ms := ManifestMaps(commitManifest, manifestVersion, order);
    MergeAllLastWins(ms, key);
    var i :| 0 <= i < |ms| && key in ms[i];
    var m := order[i];
    var strCommit := Join(CommitsFor(commitManifest, m), ", ");
    ManifestFindingKeyShape(m, manifestVersion[m], strCommit, FindRuns(strCommit, 0), key);
  }

  /** The documentation findings never overwrite a manifest finding: their
      keys start differently. */
  lemma ManifestFindingsSurvive(commitFilenameVersions: seq<(string, seq<(string, FileVersions)>)>,
                                commitManifest: seq<(string, Option<string>)>,
                                manifestVersion: map<string, seq<string>>, key: string)
    requires StableDocsReady(commitManifest, manifestVersion)
    requires key in ManifestPart(commitManifest, manifestVersion)
    ensures key in StableDocsFindings(commitFilenameVersions, commitManifest, manifestVersion)
    ensures StableDocsFindings(commitFilenameVersions, commitManifest, manifestVersion)[key]
            == ManifestPart(commitManifest, manifestVersion)[key]
  {
    ManifestKeysShape(commitManifest, manifestVersion, key);
    if key in DocFindings(commitFilenameVersions) {
      DocKeysShape(commitFilenameVersions, key);
    }
  }

  // ---------------------------------------------------------------------------
  // `get_errors_msgs_commits`.

  /** `not travis_pull_request_number or travis_pull_request_number == "false"`. */
  predicate NotAPullRequest(prNumber: Option<string>) {
    prNumber.None? || prNumber.value == "" || prNumber.value == "false"
  }

  /** `get_errors_msgs_commits`: nothing outside a pull request; otherwise the
      tag findings of the commits, then the version and documentation
      findings, which replace a tag finding under the same key. */
  method GetErrorsMsgsCommits(prNumber: Option<string>, branch: string, commits: seq<CommitRecord>,
                              commitFilenameVersions: seq<(string, seq<(string, FileVersions)>)>,
                              commitManifest: seq<(string, Option<string>)>,
                              manifestVersion: map<string, seq<string>>)
    returns (realErrors: map<string, string>)
    requires !NotAPullRequest(prNumber) ==> StableDocsReady(commitManifest, manifestVersion)
    ensures NotAPullRequest(prNumber) ==> realErrors == map[]
    ensures !NotAPullRequest(prNumber) ==>
              realErrors == CommitErrors(commits, IsDevBranch(branch))
                            + StableDocsFindings(commitFilenameVersions, commitManifest, manifestVersion)
  {
    var symbolInBranch := IsDevBranch(branch);
    realErrors := map[];
    if NotAPullRequest(prNumber) {
      return;
    }
    var commitUrl, shaCommits, commitsOrder, errorsCommits := CollectCommits(commits, symbolInBranch);
    realErrors := errorsCommits;
    var errorVersionDocs := CheckStableBranchDocs(commitFilenameVersions, commitManifest, manifestVersion);
    realErrors := realErrors + errorVersionDocs;
  }
}
