/**
 * The file-glob scenarios of the action's tests. The GitHub API is an
 * oracle that answers as the tests' fake client does, and `minimatch` an
 * oracle that answers as `minimatch` does for these names.
 */
module ChangedFilesScenarios {
  import opened Wrappers
  import opened Strings
  import opened Sequences
  import opened DirectoryInference
  import opened ChangedFiles

  // The input "**/*" is the single file glob "**/*".
  lemma EverythingGlob()
    ensures ParseGlobs("**/*") == ["**/*"] && !IsDirectoryGlob("**/*")
  {
    assert Join(["**/*"], '\n') == "**/*";
    assert '\n' !in "**/*";
    TrimUnchanged("**/*");
    ParseGlobsRoundTrip(["**/*"]);
  }

  // With the glob "**/*" matching every existing name, the selection is
  // the existing names, and no existence check is made.
  lemma SelectEverything(files: seq<File>, probe: string -> Result<bool>, minimatch: (string, string) -> bool)
    requires forall n :: n in ExistingFilenames(files) ==> minimatch(n, "**/*")
    ensures SelectChanges(files, ["**/*"], probe, minimatch) == Success(ExistingFilenames(files))
  {
    EverythingGlob();
    NoDirectoryGlobs(files, ["**/*"], probe, minimatch);
    forall n | n in ExistingFilenames(files) ensures FileSelected(n, ["**/*"], minimatch) {
      assert "**/*" in ["**/*"];
    }
    AllFilesMatch(ExistingFilenames(files), ["**/*"], minimatch);
  }

  /** Two records not removed give their two names. */
  lemma TwoExisting(a: string, statusA: string, b: string, statusB: string)
    requires statusA != Removed && statusB != Removed
    ensures ExistingFilenames([File(a, statusA, None), File(b, statusB, None)]) == [a, b]
  {
    var files := [File(a, statusA, None), File(b, statusB, None)];
    assert forall f :: f in files ==> f == files[0] || f == files[1];
    FilterAll(files, NotRemoved);
  }

  /** A removed third record adds no name. */
  lemma TwoExistingOneRemoved(a: string, statusA: string, b: string, statusB: string, c: string)
    requires statusA != Removed && statusB != Removed
    ensures ExistingFilenames([File(a, statusA, None), File(b, statusB, None), File(c, Removed, None)]) == [a, b]
  {
    var x, y, z := File(a, statusA, None), File(b, statusB, None), File(c, Removed, None);
    ThirdRemoved(x, y, z);
    NamesOf([x, y, z], [x, y]);
  }

  lemma ThirdRemoved(x: File, y: File, z: File)
    requires NotRemoved(x) && NotRemoved(y) && !NotRemoved(z)
    ensures Filter([x, y, z], NotRemoved) == [x, y]
  {
    assert [x, y, z] == [x] + ([y] + ([z] + []));
    FilterSkip(z, [], NotRemoved);
    FilterKeep(y, [z], NotRemoved);
    FilterKeep(x, [y, z], NotRemoved);
  }

  lemma NamesOf(files: seq<File>, kept: seq<File>)
    requires Filter(files, NotRemoved) == kept
    ensures ExistingFilenames(files) == Map(kept, Filename)
  {
  }

  // What the action returns for the glob "**/*" when the comparison of the
  // base with the merge commit gives `files`.
  lemma EverythingSelected(
    event: PullRequestEvent,
    files: seq<File>,
    compareCommits: CompareCommitsOptions -> Result<seq<File>>,
    isDirectoryExist: IsDirectoryExistOptions -> Result<bool>,
    minimatch: (string, string) -> bool)
    requires compareCommits(CompareRequest(event)) == Success(files)
    requires forall n :: n in ExistingFilenames(files) ==> minimatch(n, "**/*")
    ensures GetChangedFiles("**/*", event, compareCommits, isDirectoryExist, minimatch)
         == Success(ExistingFilenames(files))
  {
    EverythingGlob();
    SelectEverything(files, ExistsAt(event, isDirectoryExist), minimatch);
  }

  /** Test "should return list of added and modified files". */
  lemma AddedAndModifiedFiles(
    event: PullRequestEvent,
    compareCommits: CompareCommitsOptions -> Result<seq<File>>,
    isDirectoryExist: IsDirectoryExistOptions -> Result<bool>,
    minimatch: (string, string) -> bool)
    requires compareCommits(CompareRequest(event))
          == Success([File("packages/package-1/package.json", "modified", None),
                      File("packages/package-2/package.json", "added", None)])
    requires minimatch("packages/package-1/package.json", "**/*")
    requires minimatch("packages/package-2/package.json", "**/*")
    ensures GetChangedFiles("**/*", event, compareCommits, isDirectoryExist, minimatch)
         == Success(["packages/package-1/package.json", "packages/package-2/package.json"])
  {
    assert "modified" != Removed && "added" != Removed;
    TwoExisting("packages/package-1/package.json", "modified", "packages/package-2/package.json", "added");
    EverythingSelected(event, compareCommits(CompareRequest(event)).value, compareCommits, isDirectoryExist, minimatch);
  }

  /** Test "should not return removed files". */
  lemma RemovedFileLeftOut(
    event: PullRequestEvent,
    compareCommits: CompareCommitsOptions -> Result<seq<File>>,
    isDirectoryExist: IsDirectoryExistOptions -> Result<bool>,
    minimatch: (string, string) -> bool)
    requires compareCommits(CompareRequest(event))
          == Success([File("packages/package-1/package.json", "modified", None),
                      File("packages/package-2/package.json", "added", None),
                      File("packages/package-3/package.json", "removed", None)])
    requires minimatch("packages/package-1/package.json", "**/*")
    requires minimatch("packages/package-2/package.json", "**/*")
    ensures GetChangedFiles("**/*", event, compareCommits, isDirectoryExist, minimatch)
         == Success(["packages/package-1/package.json", "packages/package-2/package.json"])
  {
    assert "modified" != Removed && "added" != Removed;
    TwoExistingOneRemoved("packages/package-1/package.json", "modified", "packages/package-2/package.json", "added",
                          "packages/package-3/package.json");
    EverythingSelected(event, compareCommits(CompareRequest(event)).value, compareCommits, isDirectoryExist, minimatch);
  }
}
