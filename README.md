# Commit-tag and version-bump checker, modelled in Dafny

This project models the engine of `travis/check_tags.py`. The engine checks a
pull request's commit messages and reports every problem as one entry of a
`{key: message}` dictionary. Dictionaries merge by `dict.update`, which is
modelled as Dafny map union `m + m'`: the right operand wins. The model covers:

- **Tag extraction.** The leading run of a message is matched by
  `^(:[^\s]+:)`. The tags inside it come from a left-to-right `(:\w+:)` scan.
  The tags are then reduced to sets of development, release and version-digit
  tags. All three patterns are scanned by hand-written functions (module `Tags`).
- **Per-commit rules** (module `Policy`). These are the branch policy for
  development branches (names containing `-`) and stable branches, and the
  live part of the version-digit rule. `handler_commit` is a method with the
  source's early returns. It is proved equal to the function `CommitFindings`,
  and the policy is proved about that function.
- **Version reading** (module `Versions`). `get_first_second_third_values`
  uses `.*(\d+)\.(\d+)\.(\d+)$`. The greedy `.*` leaves the first group only
  its last digit, so `10.2.3` reads as 0, 2, 3. The `base_version` pattern
  `^(\d+.\d+).` is modelled by backtracking.
- **Version-bump rules** (module `Bumps`).
  - `check_changelog_version` demands exact `+1` bumps.
  - `check_manifest_version` demands strict increases. Its failure names a
    placeholder expected version that keeps the old `base_version`. Its tag
    loop is a method with invariants.
- **Documentation cross-check and grouping** (module `Docs`).
  - `get_change_changelog_index_readme_file` and the loop of
    `check_changelog_index_readme`.
  - The `setdefault`/`append` grouping of commits by manifest file.
- **Aggregation** (module `Report`).
  - The commit-filtering loop of `get_errors_msgs_commits`: merge commits are
    dropped, and `Revert` and empty messages skip the tag check.
  - `check_stable_branch_docs`.
  - The top level, where a request that is not a pull request yields `{}`.
- **Helpers** (module `Text`). Substring search follows Python's `in`. Also
  `', '.join`, `int`/`str` on digit strings, and a series of `dict.update`
  calls (`MergeAll`).

Everything the source fetches over HTTP is an input to the model. This covers
the commit list, the per-commit file/version records of `get_changed_version`
and the manifest versions of `get_manifest_version`. The ordered dictionaries
the source iterates over are sequences in insertion order.

Three source functions are split into a method and smaller helper methods,
each with its own contract. `handler_commit` is `HandlerCommit` plus
`CheckKnownTags`. The tag loop of `check_manifest_version` is `ScanTags`, and
each `if tag == ...` block in it is `CheckTagBump`.

## Model

| member | source | states |
|---|---|---|
| `Text.ContainsIff` | travis/check_tags.py:203-215 | Python's `pat in s` holds exactly when `pat` occurs at some index of `s` |
| `Text.ContainsJoin` | travis/check_tags.py:229-244 | searching the `', '`-joined file names for a name with no comma or space is the same as searching each file name on its own |
| `Text.NatToStringRoundTrip` | travis/check_tags.py:205-217 | `str(n)` is a non-empty digit string that `int` reads back as `n` |
| `Text.MergeAllLastWins` | travis/check_tags.py:49 | after a series of `dict.update` calls, a key is present iff some update had it, and its value comes from the last update that had it |
| `Tags.RunAtLongest` | travis/check_tags.py:58 | the greedy `:[^\s]+:` reports the longest match at its position |
| `Tags.LeadingRun` | travis/check_tags.py:58 | the leading run is a prefix of the message shaped like a run, and no longer match exists; there is none exactly when no prefix matches the pattern |
| `Tags.FindRuns` | travis/check_tags.py:156 | every match `re.findall(r'(:[^\s]+:)', ...)` returns is whitespace-free, starts and ends with `:` and has at least three characters |
| `Tags.FindRunsNoColon` | travis/check_tags.py:156 | a string without a colon yields no matches |
| `Tags.RunAtShaped` | travis/check_tags.py:156 | a run followed by whitespace or by the end of the text is matched whole at its position |
| `Tags.FindRunsJoin` | travis/check_tags.py:156 | runs separated by single spaces are all found, one by one and in order: the search misses none of them |
| `Tags.FindTags` | travis/check_tags.py:65 | every match of `re.findall(r'(:\w+:)', ...)` is a single tag `:word:` |
| `Tags.FindTagsConcat` | travis/check_tags.py:65 | tags written one after another, as in `:sparkles::one:`, are read back one by one and in order |
| `Policy.DevBranchIffHyphen` | travis/check_tags.py:17 | a branch is a development branch exactly when its name contains `-` |
| `Policy.CheckDevBranchTags` | travis/check_tags.py:336-351 | each finding is keyed by the commit, and there is none iff there are no release tags and exactly one distinct development tag |
| `Policy.CheckStableBranchTags` | travis/check_tags.py:354-369 | each finding is keyed by the commit, and there is none iff there are no development tags and exactly one distinct release tag |
| `Policy.CheckVersionTags` | travis/check_tags.py:308-333 | each finding is keyed by the commit, and there is none iff some version-digit tag is present |
| `Policy.TaggedFindings` | travis/check_tags.py:73-84 | the branch and version findings of a run of known tags are keyed only by the commit |
| `Policy.CommitFindings` | travis/check_tags.py:55-85 | the result of `handler_commit` has no key other than the commit |
| `Policy.HandlerCommit` | travis/check_tags.py:55-85 | the method with its early returns computes exactly `CommitFindings` |
| `Policy.CheckKnownTags` | travis/check_tags.py:72-85 | the tail of `handler_commit` computes the branch finding and then the version finding, which overwrites it |
| `Policy.SingletonIff` | travis/check_tags.py:347 | a set of tags of one vocabulary has one element iff exactly one distinct tag of it occurs, repetitions allowed |
| `Policy.EmptyIff` | travis/check_tags.py:73-75 | the set of tags of a vocabulary is empty iff no tag of it occurs |
| `Policy.RequirementsAreRelease` | travis/check_tags.py:7-13 | every tag that demands version digits is a release tag |
| `Policy.NoLeadingRunFinding` | travis/check_tags.py:58-62 | a message with no leading run yields exactly the "There are no tags in the commit!" finding |
| `Policy.UntaggedMessage` | travis/check_tags.py:58-62 | `Fix typo` yields the "no tags" finding on either branch kind |
| `Policy.UnknownTagFinding` | travis/check_tags.py:63-71 | a run with a tag outside all three vocabularies yields exactly the "There should not be such tags" finding, on either branch kind |
| `Policy.VersionFindingOverwrites` | travis/check_tags.py:76-85 | when a tag demands digits and none is present, the result is exactly "Must be Version tags!", whatever the branch rule found |
| `Policy.DigitTagSilencesVersionRule` | travis/check_tags.py:82-84 | with a digit tag present, the findings are those of the branch rule alone |
| `Policy.DevBranchPasses` | travis/check_tags.py:336-351 | on a development branch a commit passes iff it has no release tag and exactly one distinct development tag |
| `Policy.ReleaseTagOnDevBranch` | travis/check_tags.py:338-341 | on a development branch a release tag is reported, unless the version finding replaces it |
| `Policy.MissingDevTagOnDevBranch` | travis/check_tags.py:342-345 | on a development branch with no release tag and no development tag, the missing development tag is reported |
| `Policy.TwoDevTagsOnDevBranch` | travis/check_tags.py:347-350 | on a development branch with no release tag, two distinct development tags are reported as "only one" |
| `Policy.StableBranchPasses` | travis/check_tags.py:354-369 | on a stable branch a commit passes iff it has no development tag, exactly one distinct release tag, and a digit tag when a tag demands one |
| `Policy.DevTagOnStableBranch` | travis/check_tags.py:356-359 | on a stable branch a development tag is reported, unless the version finding replaces it |
| `Policy.MissingReleaseTagOnStableBranch` | travis/check_tags.py:360-363 | on a stable branch with no development tag and no release tag, the missing release tag is reported |
| `Policy.TwoReleaseTagsOnStableBranch` | travis/check_tags.py:365-368 | on a stable branch, two distinct release tags are reported when the version rule is met |
| `Policy.OnlyTheSetMatters` | travis/check_tags.py:73-75 | runs with the same set of tags are judged alike: order and repetition do not matter |
| `Versions.MatchEnd` | travis/check_tags.py:257 | `$` matches at the end or just before a final newline |
| `Versions.VersionSplit` | travis/check_tags.py:257 | a split that is found is a match of `.*(\d+)\.(\d+)\.(\d+)$` |
| `Versions.VersionSplitIsTheMatch` | travis/check_tags.py:257 | whenever the pattern matches, a split is found; it has the same second and third groups, and no match gives `.*` more characters |
| `Versions.NoSplitNoMatch` | travis/check_tags.py:257 | without a split, the pattern does not match at all |
| `Versions.LastThree` | travis/check_tags.py:257-258 | the first value read is a single digit |
| `Versions.FirstSecondThirdValues` | travis/check_tags.py:254-259 | three values are returned per version, in order: its three groups as integers |
| `Versions.LastThreeOfFormatted` | travis/check_tags.py:257 | a version ending in `x.y.z` after a newline-free prefix matches, and reads as `x % 10`, `y`, `z` |
| `Versions.LastThreeOfDotted` | travis/check_tags.py:257 | `x.y.z` reads as `x % 10`, `y`, `z`, which is `x`, `y`, `z` when `x < 10` |
| `Versions.TryL2` | travis/check_tags.py:155 | for a given first group, the longest second group of `^(\d+.\d+).` is returned, if any exists |
| `Versions.TryL1` | travis/check_tags.py:155 | backtracking over the first group finds the match the engine prefers: longest first group, then longest second group |
| `Versions.BaseVersion` | travis/check_tags.py:155 | `re.search(r'^(\d+.\d+).', v).group(1)` is a prefix of a match, and there is no result exactly when no match exists |
| `Versions.BaseOfFormatted` | travis/check_tags.py:155 | the base of `x.y.rest` is `x.y` |
| `Versions.BaseOfFields` | travis/check_tags.py:155 | the base of two digit fields followed by `.` and more is those two fields |
| `Bumps.ChangelogRule` | travis/check_tags.py:203-220 | one tag's finding is keyed by the commit and both versions |
| `Bumps.CheckChangelogVersion` | travis/check_tags.py:198-221 | all findings share one key, so at most one entry is returned |
| `Bumps.ChangelogPassesIff` | travis/check_tags.py:198-221 | no finding iff `:sparkles:` comes with `(old1+1).0.0`, `:zap:` with `old2+1` and a zero third field, and `:ambulance:` with `old3+1`, each when mentioned |
| `Bumps.ChangelogLastFailureWins` | travis/check_tags.py:215-220 | a failing `:ambulance:` finding replaces any other |
| `Bumps.ChangelogZapOverSparkles` | travis/check_tags.py:209-214 | a failing `:zap:` finding replaces a `:sparkles:` one when `:ambulance:` passes or is absent |
| `Bumps.ChangelogSkippedFix` | travis/check_tags.py:215-220 | for a first field below 10, `x.y.z` to `x.y.(z+2)` under `:ambulance:` is reported as the single finding, naming `x.y.(z+1)` |
| `Bumps.ChangelogOnlySparkles` | travis/check_tags.py:203-208 | with only `:sparkles:` mentioned, its failure is the finding, naming `(old1+1).0.0` |
| `Bumps.ChangelogNineToTenRejected` | travis/check_tags.py:202-207 | a correct feature bump from a first field ending in 9 is rejected, and the expected version has first field `x % 10 + 1` |
| `Bumps.FirstFailure` | travis/check_tags.py:161-188 | the index found is the first recognised tag whose rule fails; there is none only when no recognised tag fails |
| `Bumps.ManifestKeyShape` | travis/check_tags.py:152 | a manifest finding key, which starts `commit(s): `, has `(` at index 6 |
| `Bumps.ManifestFindings` | travis/check_tags.py:150-195 | a non-empty result has exactly one key, built from the joined commits, `versions[0]` and `versions[1]` |
| `Bumps.ManifestFindingKeyShape` | travis/check_tags.py:189-191 | every key of a manifest finding has `(` at index 6 |
| `Bumps.CheckTagBump` | travis/check_tags.py:162-188 | one tag block reports a failure iff the bump breaks that tag's strict-increase rule, and names that tag's placeholder |
| `Bumps.ScanTags` | travis/check_tags.py:158-188 | the error indicator is set iff a recognised tag's rule fails, and `version_true` is then the placeholder of the first failing tag |
| `Bumps.CheckManifestVersion` | travis/check_tags.py:150-195 | the method computes exactly `ManifestFindings` of the runs in the joined commits |
| `Bumps.ManifestEmptyIff` | travis/check_tags.py:161-193 | no finding iff no recognised tag breaks its rule: `:sparkles:` needs new1 > old1 with zeros after it, `:zap:` needs new2 > old2 with third field 0, and `:ambulance:` needs new3 > old3 |
| `Bumps.ManifestFindingNamesFirstFailure` | travis/check_tags.py:189-191 | a finding is the single entry under the commits' key, naming the joined runs, the manifest and the placeholder of the first failing tag |
| `Bumps.PlaceholderKeepsBase` | travis/check_tags.py:165-183 | the expected version starts with the old version's `base_version` and a dot |
| `Bumps.ChangelogRuleImpliesManifestRule` | travis/check_tags.py:164-182 | a bump that passes the changelog rule also passes the manifest rule |
| `Bumps.ManifestAcceptsSkippedFix` | travis/check_tags.py:182 | `1.2.3` to `1.2.5` under `:ambulance:` passes the manifest rule but not the changelog rule |
| `Bumps.PlaceholdersDoNotParse` | travis/check_tags.py:163-187 | a placeholder never matches the version pattern, so a recognised tag after a failure makes the source's recomputation fail |
| `Docs.Finding` | travis/check_tags.py:237-249 | a conditional finding has at most the given key, and has it iff the condition holds |
| `Docs.GetChangeChangelogIndexReadmeFile` | travis/check_tags.py:224-251 | findings use only the two "not updated file" keys, and there are none unless the leading run is one of the three tags |
| `Docs.MissingKeysDiffer` | travis/check_tags.py:239-247 | the changelog key and the README/index key differ, so both findings can be present |
| `Docs.ReadmeSeparatorFree` | travis/check_tags.py:230 | `README.rst` and `doc/index.rst` contain no comma or space |
| `Docs.ChangelogRequired` | travis/check_tags.py:237-241 | the changelog finding is present iff the leading run is one of the three tags and no changed file name contains the changelog's |
| `Docs.ReadmeOrIndexRequired` | travis/check_tags.py:242-250 | the README/index finding is present iff the leading run is `:sparkles:` or `:zap:` and no changed file name contains `README.rst` or `doc/index.rst` |
| `Docs.CombinedRunIsExempt` | travis/check_tags.py:233-236 | a leading run that is not exactly one of the three tags, such as `:sparkles::one:`, yields no documentation finding |
| `Docs.EntryKeys` | travis/check_tags.py:115 | every key of a commit's documentation findings is one of its two "not updated file" keys |
| `Docs.CheckChangelogIndexReadme` | travis/check_tags.py:110-124 | the loop's result is the ordered merge of every commit's documentation findings |
| `Docs.DocFindingsLastWins` | travis/check_tags.py:113-116 | a key is reported iff some commit produces it, with the message of the last commit that does |
| `Docs.GroupByManifest` | travis/check_tags.py:91-96 | the keys of `manifest_commits` are the manifests in order of first appearance, each mapped to its commits in order |
| `Docs.GroupingComplete` | travis/check_tags.py:91-96 | a manifest is listed iff some commit changes it, and a commit is grouped under a manifest iff it was recorded with that manifest |
| `Docs.ManifestOrderDistinct` | travis/check_tags.py:95 | no manifest is listed twice |
| `Report.FirstWord` | travis/check_tags.py:45 | `s.split(' ', 1)[0]` is the prefix of `s` before its first space |
| `Report.CollectCommits` | travis/check_tags.py:32-49 | the loop builds `commits_order`, `sha_commits` and `commit_url` from the non-merge commits, and `real_errors` as the ordered merge of the findings of the commits it checks |
| `Report.CommitErrorsIff` | travis/check_tags.py:32-49 | a message is reported iff some kept, checked commit carries it and its own findings report it, with its own findings' message |
| `Report.RevertNeverReported` | travis/check_tags.py:44-47 | an empty message, or one whose first word is `Revert`, is never reported by the tag checks |
| `Report.MergeCommitsIgnored` | travis/check_tags.py:33-36 | a message found only on merge commits is not reported, listed or given a URL |
| `Report.KeptMessagesIff` | travis/check_tags.py:37-43 | `commits_order` holds exactly the messages of the non-merge commits, and `commit_url` has exactly those keys |
| `Report.ManifestMaps` | travis/check_tags.py:100-104 | one manifest finding map per manifest, in order, each that of its joined commits |
| `Report.CheckStableBranchDocs` | travis/check_tags.py:88-107 | the result is the merge of the manifest findings (when any manifest versions exist) followed by the documentation findings |
| `Report.MissingKeyShape` | travis/check_tags.py:239 | a documentation finding key, which starts `commit: `, has `:` at index 6 |
| `Report.DocKeysShape` | travis/check_tags.py:239-247 | every key of the documentation findings has `:` at index 6 |
| `Report.ManifestKeysShape` | travis/check_tags.py:190 | every key of the manifest findings has `(` at index 6 |
| `Report.ManifestFindingsSurvive` | travis/check_tags.py:104-106 | the documentation findings never overwrite a manifest finding |
| `Report.GetErrorsMsgsCommits` | travis/check_tags.py:16-52 | outside a pull request (number missing, empty or `"false"`) the result is `{}`; otherwise the commit findings are merged, then the version and documentation findings |

## Left out

- Network access is not modelled: the `requests.get` calls, URL building, host rewriting and the HTTP status checks. This covers `get_errors_msgs_commits` (lines 24-28), `get_manifest_version` (127-147) and `get_changed_version` (262-305). Their results are inputs to the model.
- The links from `commit_url`, `sha_commits` and `commits_order` to those inputs are lost. The fetched records are given as they are, not derived from these lists. This includes the sorting at line 295 and the crash of `get_manifest_version` on an empty list at line 129.
- The `print` calls are not modelled. The driver script `travis/test_check_tags.py` is not part of this model: it reads environment variables, prints the findings in colour and sets the exit status.
- The `version` argument of `handler_commit` is dropped. Only the disabled check at lines 314-332 used it, and that check is not modelled.
- `\w` and `\d` are ASCII only here, while Python's `re` also accepts other Unicode letters and digits. `\s` follows Python's `str.isspace()`.
- The dictionaries the source iterates over (`commit_filename_versions`, `filename_versions`) are sequences of pairs in insertion order. The model does not remove duplicate keys.
- The inner loop at lines 118-122 contributes nothing. Its guard skips every list-valued entry. An `'Updated!'` entry is skipped too: if the identity test ever held, the source would parse the characters of `'Updated!'` and crash.
- `Bumps.CheckManifestVersion` requires what the source needs to finish:
  - exactly two version strings when a recognised tag occurs;
  - a `base_version` match;
  - versions that parse;
  - no recognised tag after the first failing one.

  In the last case the source recomputes from the placeholder, which cannot parse (`Bumps.PlaceholdersDoNotParse`), and it crashes.
- `Report.CheckStableBranchDocs` requires that every manifest has an entry in `manifest_version` that `check_manifest_version` can handle. The source crashes otherwise.
- `Report.GetErrorsMsgsCommits` has the same requirement, but only inside a pull request. Outside one the source returns `{}` at line 22 without reaching that code.
- `Docs.ChangelogRequired` is stated for a changelog name without commas or spaces. `doc/changelog.rst` is such a name.
- `Docs.ReadmeOrIndexRequired` is stated for a changelog name other than `README.rst or doc/index.rst`.
