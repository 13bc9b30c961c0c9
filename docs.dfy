/** The documentation cross-check of `check_stable_branch_docs`: every commit
    led by `:sparkles:`, `:zap:` or `:ambulance:` must touch the changelog,
    and the first two must also touch `README.rst` or `doc/index.rst`; plus
    the grouping of commits by the manifest file they change. */
module Docs {
  import opened Text
  import opened Tags

  const Changelog := "doc/changelog.rst"
  const Readme := "README.rst"
  const DocIndex := "doc/index.rst"
  /** `' or '.join(list_readme_index)`. */
  const ReadmeOrIndex := "README.rst or doc/index.rst"
  /** `' or '.join(tags)` and `' or '.join(tags[:-1])`. */
  const AllDocTags := ":sparkles: or :zap: or :ambulance:"
  const ReadmeDocTags := ":sparkles: or :zap:"

  /** `list(set(re.findall(r'^(:[^\s]+:)', msg)) & set(tags))`: the pattern is
      anchored, so there is at most one run, and it counts only when the
      whole run is one of the three tags. */
  function DocTag(commitMsg: string): Option<string> {
    match LeadingRun(commitMsg)
    case Some(run) => if Recognised(run) then Some(run) else None
    case None => None
  }

  function MissingKey(commitMsg: string, files: string, missing: string): string {
    "commit: " + commitMsg + "\nupdated files: " + files + "\nnot updated file: " + missing
  }

  function MustUpdateMsg(tags: string, files: string): string {
    "If you use one of the tags " + tags + " - file(s) " + files + " must be updated!"
  }

  /** A finding `key: msg` when `missing` holds, and none otherwise. */
  function Finding(missing: bool, key: string, msg: string): (r: map<string, string>)
    ensures r.Keys <= {key}
    ensures key in r <==> missing
  {
    if missing then map[key := msg] else map[]
  }

  /** Two findings under different keys do not interfere. */
  lemma FindingsApart(c1: bool, k1: string, v1: string, c2: bool, k2: string, v2: string)
    requires k1 != k2
    ensures var r := Finding(c1, k1, v1) + Finding(c2, k2, v2);
            && (k1 in r <==> c1) && (c1 ==> r[k1] == v1)
            && (k2 in r <==> c2) && (c2 ==> r[k2] == v2)
  {
  }

  /** `get_change_changelog_index_readme_file`: the names are searched as
      substrings of the comma-joined list of changed files. */
  function GetChangeChangelogIndexReadmeFile(commitMsg: string, listChangedFiles: seq<string>, changelog: string)
    : (r: map<string, string>)
    ensures r.Keys <= {MissingKey(commitMsg, Join(listChangedFiles, ", "), changelog),
                       MissingKey(commitMsg, Join(listChangedFiles, ", "), ReadmeOrIndex)}
    ensures DocTag(commitMsg).None? ==> r == map[]
  {
    var strChangeFiles := Join(listChangedFiles, ", ");
    match DocTag(commitMsg)
    case None => map[]
    case Some(tag) =>
      var changelogError :=
        Finding(!Contains(strChangeFiles, changelog),
                MissingKey(commitMsg, strChangeFiles, changelog), MustUpdateMsg(AllDocTags, changelog));
      var readmeError :=
        Finding(tag != Ambulance && !(Contains(strChangeFiles, Readme) || Contains(strChangeFiles, DocIndex)),
                MissingKey(commitMsg, strChangeFiles, ReadmeOrIndex), MustUpdateMsg(ReadmeDocTags, ReadmeOrIndex));
      changelogError + readmeError
  }

  /** The two keys differ whenever the changelog is not named
      `README.rst or doc/index.rst`. */
  lemma MissingKeysDiffer(commitMsg: string, files: string, changelog: string)
    requires changelog != ReadmeOrIndex
    ensures MissingKey(commitMsg, files, changelog) != MissingKey(commitMsg, files, ReadmeOrIndex)
  {
    var prefix := "commit: " + commitMsg + "\nupdated files: " + files + "\nnot updated file: ";
    assert MissingKey(commitMsg, files, changelog) == prefix + changelog;
    assert MissingKey(commitMsg, files, ReadmeOrIndex) == prefix + ReadmeOrIndex;
    assert (prefix + changelog)[|prefix|..] == changelog;
    assert (prefix + ReadmeOrIndex)[|prefix|..] == ReadmeOrIndex;
  }

  lemma ReadmeSeparatorFree()
    ensures SeparatorFree(Readme) && SeparatorFree(DocIndex)
  {
  }

  /** The changelog finding is present exactly when the commit is led by one
      of the three tags and no changed file's name contains the changelog's. */
  lemma ChangelogRequired(commitMsg: string, listChangedFiles: seq<string>, changelog: string)
    requires SeparatorFree(changelog)
    ensures var r := GetChangeChangelogIndexReadmeFile(commitMsg, listChangedFiles, changelog);
            var key := MissingKey(commitMsg, Join(listChangedFiles, ", "), changelog);
            (key in r <==> DocTag(commitMsg).Some?
                           && forall i :: 0 <= i < |listChangedFiles| ==> !Contains(listChangedFiles[i], changelog))
            && (key in r ==> r[key] == MustUpdateMsg(AllDocTags, changelog))
  {
    var files := Join(listChangedFiles, ", ");
    ContainsJoin(listChangedFiles, changelog);
    assert changelog != ReadmeOrIndex by {
      assert ReadmeOrIndex[10] == ' ';
    }
    MissingKeysDiffer(commitMsg, files, changelog);
  }

  /** The `README.rst`/`doc/index.rst` finding is present exactly when the
      commit is led by `:sparkles:` or `:zap:` (one of the three, and not
      `:ambulance:`) and no changed file's name
      contains either of the two names. */
  lemma ReadmeOrIndexRequired(commitMsg: string, listChangedFiles: seq<string>, changelog: string)
    requires changelog != ReadmeOrIndex
    ensures var r := GetChangeChangelogIndexReadmeFile(commitMsg, listChangedFiles, changelog);
            var key := MissingKey(commitMsg, Join(listChangedFiles, ", "), ReadmeOrIndex);
            (key in r <==> DocTag(commitMsg).Some? && DocTag(commitMsg).value != Ambulance
                           && forall i :: 0 <= i < |listChangedFiles| ==>
                                !Contains(listChangedFiles[i], Readme) && !Contains(listChangedFiles[i], DocIndex))
            && (key in r ==> r[key] == MustUpdateMsg(ReadmeDocTags, ReadmeOrIndex))
  {
    var files := Join(listChangedFiles, ", ");
    ReadmeSeparatorFree();
    ContainsJoin(listChangedFiles, Readme);
    ContainsJoin(listChangedFiles, DocIndex);
    MissingKeysDiffer(commitMsg, files, changelog);
    match DocTag(commitMsg)
    case None =>
    case Some(tag) =>
      FindingsApart(!Contains(files, changelog),
                    MissingKey(commitMsg, files, changelog), MustUpdateMsg(AllDocTags, changelog),
                    tag != Ambulance && !(Contains(files, Readme) || Contains(files, DocIndex)),
                    MissingKey(commitMsg, files, ReadmeOrIndex), MustUpdateMsg(ReadmeDocTags, ReadmeOrIndex));
  }

  /** A run of several tags, such as `:sparkles::one:`, is not one of the three
      tags, so such a commit is never asked for documentation. */
  lemma CombinedRunIsExempt(commitMsg: string, listChangedFiles: seq<string>, changelog: string)
    requires LeadingRun(commitMsg).Some? && !Recognised(LeadingRun(commitMsg).value)
    ensures GetChangeChangelogIndexReadmeFile(commitMsg, listChangedFiles, changelog) == map[]
  {
  }

  // ---------------------------------------------------------------------------
  // `check_changelog_index_readme`.

  /** What `get_changed_version` records for a file: the two changelog versions
      it read, or `'Updated!'`. */
  datatype FileVersions = Versions(vs: seq<string>) | Updated

  /** `[filename for filename in filename_versions.keys()]`. */
  function FileNames(filenameVersions: seq<(string, FileVersions)>): (names: seq<string>)
    ensures |names| == |filenameVersions|
    ensures forall i :: 0 <= i < |names| ==> names[i] == filenameVersions[i].0
  {
    seq(|filenameVersions|, i requires 0 <= i < |filenameVersions| => filenameVersions[i].0)
  }

  /** The findings of one commit entry. */
  function EntryFindings(entry: (string, seq<(string, FileVersions)>)): map<string, string> {
    GetChangeChangelogIndexReadmeFile(entry.0, FileNames(entry.1), Changelog)
  }

  /** Every key of a commit's findings names the commit, its files and the
      missing one. */
  lemma EntryKeys(entry: (string, seq<(string, FileVersions)>), key: string)
    requires key in EntryFindings(entry)
    ensures key == MissingKey(entry.0, Join(FileNames(entry.1), ", "), Changelog)
            || key == MissingKey(entry.0, Join(FileNames(entry.1), ", "), ReadmeOrIndex)
  {
  }

  function EntryMaps(commitFilenameVersions: seq<(string, seq<(string, FileVersions)>)>): (ms: seq<map<string, string>>)
    ensures |ms| == |commitFilenameVersions|
    ensures forall i :: 0 <= i < |ms| ==> ms[i] == EntryFindings(commitFilenameVersions[i])
  {
    seq(|commitFilenameVersions|, i requires 0 <= i < |commitFilenameVersions| => EntryFindings(commitFilenameVersions[i]))
  }

  /** The findings of every commit, merged in order. */
  function DocFindings(commitFilenameVersions: seq<(string, seq<(string, FileVersions)>)>): map<string, string> {
    MergeAll(EntryMaps(commitFilenameVersions))
  }

  /** `check_changelog_index_readme`. The inner loop over the files of a commit
      contributes nothing: its guard skips every entry. */
  method CheckChangelogIndexReadme(commitFilenameVersions: seq<(string, seq<(string, FileVersions)>)>)
    returns (errors: map<string, string>)
    ensures errors == DocFindings(commitFilenameVersions)
  {
    var changelog := Changelog;
    errors := map[];
    var i := 0;
    while i < |commitFilenameVersions|
      invariant 0 <= i <= |commitFilenameVersions|
      invariant errors == DocFindings(commitFilenameVersions[..i])
    {
      var (commitMsg, filenameVersions) := commitFilenameVersions[i];
      var listChangedFiles := FileNames(filenameVersions);
      var errorChange := GetChangeChangelogIndexReadmeFile(commitMsg, listChangedFiles, changelog);
      assert EntryMaps(commitFilenameVersions[..i + 1]) == EntryMaps(commitFilenameVersions[..i]) + [errorChange];
      MergeAllSnoc(EntryMaps(commitFilenameVersions[..i]), errorChange);
      errors := errors + errorChange;
      i := i + 1;
    }
    assert commitFilenameVersions[..i] == commitFilenameVersions;
  }

  /** A key is reported exactly when some commit produces it, and its message
      is the one of the last commit that does. */
  lemma DocFindingsLastWins(commitFilenameVersions: seq<(string, seq<(string, FileVersions)>)>, key: string)
    ensures key in DocFindings(commitFilenameVersions)
            <==> exists i :: 0 <= i < |commitFilenameVersions| && key in EntryFindings(commitFilenameVersions[i])
    ensures key in DocFindings(commitFilenameVersions) ==>
              exists i :: 0 <= i < |commitFilenameVersions| && key in EntryFindings(commitFilenameVersions[i])
                          && DocFindings(commitFilenameVersions)[key] == EntryFindings(commitFilenameVersions[i])[key]
                          && forall j :: i < j < |commitFilenameVersions| ==> key !in EntryFindings(commitFilenameVersions[j])
  {
    var ms := EntryMaps(commitFilenameVersions);
    MergeAllLastWins(ms, key);
  }

  // ---------------------------------------------------------------------------
  // Grouping of commits by manifest file (`setdefault` and `append`).

  /** The manifests in order of first appearance, the order in which `setdefault`
      inserts them into the dictionary. */
  function ManifestOrder(commitManifest: seq<(string, Option<string>)>): seq<string>
    decreases |commitManifest|
  {
    if |commitManifest| == 0 then []
    else
      var order := ManifestOrder(commitManifest[..|commitManifest| - 1]);
      match commitManifest[|commitManifest| - 1].1
      case Some(m) => if m in order then order else order + [m]
      case None => order
  }

  /** The commits that change `manifest`, in order. */
  function CommitsFor(commitManifest: seq<(string, Option<string>)>, manifest: string): seq<string>
    decreases |commitManifest|
  {
    if |commitManifest| == 0 then []
    else
      var commits := CommitsFor(commitManifest[..|commitManifest| - 1], manifest);
      var (commit, m) := commitManifest[|commitManifest| - 1];
      if m == Some(manifest) then commits + [commit] else commits
  }

  /** The grouping loop of `check_stable_branch_docs`: `order` is the key order
      of `manifest_commits` and `groups` its contents. */
  method GroupByManifest(commitManifest: seq<(string, Option<string>)>)
    returns (order: seq<string>, groups: map<string, seq<string>>)
    ensures order == ManifestOrder(commitManifest)
    ensures groups.Keys == set m | m in order
    ensures forall m :: m in groups ==> groups[m] == CommitsFor(commitManifest, m)
  {
    order := [];
    groups := map[];
    var i := 0;
    while i < |commitManifest|
      invariant 0 <= i <= |commitManifest|
      invariant order == ManifestOrder(commitManifest[..i])
      invariant groups.Keys == set m | m in order
      invariant forall m :: m in groups ==> groups[m] == CommitsFor(commitManifest[..i], m)
      invariant forall m :: m !in groups ==> CommitsFor(commitManifest[..i], m) == []
    {
      var (commit, manifest) := commitManifest[i];
      assert commitManifest[..i + 1][..i] == commitManifest[..i];
      assert forall m :: manifest != Some(m) ==>
               CommitsFor(commitManifest[..i + 1], m) == CommitsFor(commitManifest[..i], m);
      if manifest.Some? {
        var m := manifest.value;
        if m !in groups {
          order := order + [m];
          groups := groups[m := []];
        }
        groups := groups[m := groups[m] + [commit]];
      }
      i := i + 1;
    }
    assert commitManifest[..i] == commitManifest;
  }

  /** Every manifest appears once in the order, exactly when some commit
      changes it; a commit is grouped under a manifest exactly when it was
      recorded with that manifest. */
  lemma {:induction false} GroupingComplete(commitManifest: seq<(string, Option<string>)>, manifest: string, commit: string)
    ensures manifest in ManifestOrder(commitManifest)
            <==> exists i :: 0 <= i < |commitManifest| && commitManifest[i].1 == Some(manifest)
    ensures commit in CommitsFor(commitManifest, manifest)
            <==> exists i :: 0 <= i < |commitManifest| && commitManifest[i] == (commit, Some(manifest))
    decreases |commitManifest|
  {
    var xs := commitManifest;
    if |xs| > 0 {
      var n := |xs| - 1;
      GroupingComplete(xs[..n], manifest, commit);
      forall i | 0 <= i < n
        ensures xs[..n][i] == xs[i]
      {
      }
    }
  }

  /** No manifest is listed twice. */
  lemma {:induction false} ManifestOrderDistinct(commitManifest: seq<(string, Option<string>)>)
    ensures forall i, j :: 0 <= i < j < |ManifestOrder(commitManifest)|
              ==> ManifestOrder(commitManifest)[i] != ManifestOrder(commitManifest)[j]
    decreases |commitManifest|
  {
    if |commitManifest| > 0 {
      ManifestOrderDistinct(commitManifest[..|commitManifest| - 1]);
    }
  }
}
