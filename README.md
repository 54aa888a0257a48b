# get-changed-files, modelled in Dafny

A model of the change-set logic of the `get-changed-files` GitHub Action. Given a pull request, the action
lists the changed files that match a set of globs, followed by the changed directories that match the globs
ending in `/`.

It has two parts:

- **Directory inference** (`src/get-changed-directories.ts`), in module `DirectoryInference`.
  - `spritRenamedFiles` splits every rename that carries a previous file name into an addition at the new
    name and a removal at the old one.
  - `getChangedDirectories` seeds the list with the root `"."`. It then walks up the parent directories of
    every file, using Node's `path.dirname`.
  - It pushes one record per new directory, flagged `mayBeRemoved` when the file that created it was removed.
  - It clears the flag when a file that was not removed touches the directory.
  - Finally it sorts the list by name.
  - The loop is modelled as the method `GetChangedDirectories` over a sequence of records. It is proved equal
    to the function `ChangedDirectories`, which applies one visit per directory and then sorts.
  - `DescribesChanges` is an independent description of the result: sorted and without duplicates, the root
    plus exactly the touched directories, each flagged exactly when every file touching it was removed.
    `ChangedDirectoriesCorrect` proves the result meets it, and `DescriptionIsUnique` proves it admits one
    list only.
- **Filtering and assembly** (`src/get-changed-files.ts`), in module `ChangedFiles`.
  - `GetChangedFiles` parses the glob input (`trim`, `split("\n")`, `trim` each). It then calls
    `compareCommits` for the pull request's base against its merge commit.
  - It keeps the names of the files that were not removed and are matched by a file glob.
  - It keeps the inferred directories matched by a directory glob.
  - A flagged directory stays only if `isDirectoryExist` confirms it exists at the merge commit.
  - The rest of the selection, after the fetch, is the function `SelectChanges`.
  - The GitHub API and `minimatch` are parameters (oracles). A failed API call is `Failure(message)` and is
    propagated.

Supporting modules:

- `Strings`: the JavaScript `trim`, one-character `split`, `endsWith`, and the `<` order on strings.
- `Paths`: `path.dirname` on the relative names the API reports, and the walk of ancestors.
- `Sequences`: `filter`, `map` and subsequences.
- `Wrappers`: `Option` and `Result`.

The scenarios of the unit tests are proved as lemmas:

- `DirectoryInferenceScenarios`: all the directory-inference tests.
- `ChangedFilesScenarios`: the two file-glob tests of the action's test suite. The GitHub API is an oracle
  constrained to answer as the tests' fake client does. `minimatch` is an oracle constrained to answer as
  `minimatch` does for these names.

## Model

| member | source | states |
|---|---|---|
| DirectoryInference.SplitRenamedFiles | src/get-changed-directories.ts:9-19 | no record of the result is a rename that still splits, and the result is never shorter than the input |
| DirectoryInference.SplitRenamedFilesMembers | src/get-changed-directories.ts:9-19 | no record is lost or invented: a record is in the result iff it is part of the split of an input record |
| DirectoryInference.SplitRenamedFilesAt | src/get-changed-directories.ts:9-19 | a record in the middle becomes `[added at filename, removed at previous name]` if it is a rename with a non-empty previous name, and stays itself otherwise; its neighbours keep their places |
| DirectoryInference.SplitRenamedFilesConcat | src/get-changed-directories.ts:10-18 | the split distributes over concatenation, so order is preserved (`flatMap`) |
| DirectoryInference.SplitRenamedFilesUnchanged | src/get-changed-directories.ts:17 | a list without splitting renames passes through unchanged |
| DirectoryInference.SplitRenamedFilesIdempotent | src/get-changed-directories.ts:9-19 | splitting twice equals splitting once |
| DirectoryInference.Find | src/get-changed-directories.ts:47 | `find` gives the first record with the name, or none exactly when no record has it |
| DirectoryInference.TouchEffect | src/get-changed-directories.ts:46-56 | one visit adds its name and no other, keeps places and names, keeps names distinct, never sets a flag on an existing record, and a removal visiting a known directory changes nothing |
| DirectoryInference.ClearedStaysCleared | src/get-changed-directories.ts:54-56 | once a record has no flag, no later visit changes it |
| DirectoryInference.VisitAllReflects | src/get-changed-directories.ts:32-57 | after any visits from the root seed: distinct names, exactly the root and the visited names, flagged iff every visit of that name was a removal |
| DirectoryInference.SortByDirname | src/get-changed-directories.ts:60 | the sort is a permutation of its input |
| DirectoryInference.SortByDirnameSorted | src/get-changed-directories.ts:60 | with distinct names, the sort is strictly ascending in JavaScript string order |
| DirectoryInference.GetChangedDirectories | src/get-changed-directories.ts:31-61 | the loop's list, once sorted, is `ChangedDirectories(files)`; it meets `DescribesChanges` and contains the unflagged root |
| DirectoryInference.ChangedDirectoriesCorrect | src/get-changed-directories.ts:31-61 | the result is sorted without duplicates, its names are the root plus exactly the touched directories, a record is flagged iff it is not the root and only removals touched it, and the root is present unflagged |
| DirectoryInference.DescriptionIsUnique | src/get-changed-directories.ts:60 | two lists that both meet the description are equal, so the description determines the result |
| DirectoryInference.DirectoriesAreAncestors | src/get-changed-directories.ts:36-46 | every non-root name is `a + "/"` for a proper ancestor `a` of some file of the split list, never "." or "/" |
| DirectoryInference.RenameSplitsAsAddedThenRemoved | src/get-changed-directories.ts:11-15 | a rename splits exactly as the pair addition-then-removal would |
| DirectoryInference.RenameActsAsAddedThenRemoved | src/get-changed-directories.ts:11-15 | a rename yields the same directories as that pair |
| DirectoryInference.TouchesAncestorDirectories | src/get-changed-directories.ts:36-46 | a file touches a directory name iff the name is `a + "/"` for a proper ancestor `a` of the file other than "." and "/" |
| DirectoryInference.ChangedDirectoriesAreAncestors | src/get-changed-directories.ts:31-61 | a name is in the result iff it is the root or an ancestor directory of a file of the split list |
| DirectoryInference.RootFirst | src/get-changed-directories.ts:32-60 | the root is first when every file name begins with a character above '.'; only the sort puts it there |
| DirectoryInferenceScenarios.RootDisplaced | src/get-changed-directories.ts:32-60 | a file under "-x/" gives `["-x/", "."]`: nothing pins the root first |
| Paths.Dirname | src/get-changed-directories.ts:39 | `path.dirname`: "." without a '/', "/" for a lone leading '/', otherwise the part before the last '/' |
| Paths.AncestorsArePrefixes | src/get-changed-directories.ts:36-44 | every directory of the walk is a non-empty proper prefix of the path, followed there by '/', and never "." or "/" |
| Paths.AncestorsComplete | src/get-changed-directories.ts:36-44 | conversely, every prefix of the path that a '/' follows, other than "." and "/", is visited by the walk |
| Paths.TopLevelAncestors | src/get-changed-directories.ts:36-44 | a file directly inside a top-level directory visits only that directory |
| Strings.TrimSlice | src/get-changed-files.ts:32-35 | `trim` removes only white space, at both ends, and keeps a slice of the input |
| Strings.Trim | src/get-changed-files.ts:32-35 | a trimmed string neither begins nor ends with white space |
| Strings.TrimIdempotent | src/get-changed-files.ts:35 | trimming twice equals trimming once |
| Strings.Split | src/get-changed-files.ts:34 | `split` gives at least one piece, none containing the separator, and joining them back gives the input |
| Strings.SplitJoin | src/get-changed-files.ts:34 | splitting a join of separator-free pieces gives the pieces back |
| Strings.BelowTransitive | src/get-changed-directories.ts:60 | the comparator's order is transitive |
| Strings.BelowTotal | src/get-changed-directories.ts:60 | any two different names are ordered one way or the other |
| Sequences.Filter | src/get-changed-files.ts:44-48 | `filter` keeps exactly the elements satisfying the predicate, as a subsequence of the input |
| Sequences.FilterCount | src/get-changed-files.ts:44-48 | `filter` keeps every occurrence of an element satisfying the predicate and no occurrence of any other |
| Sequences.FilterUnique | src/get-changed-files.ts:44-48 | a subsequence with those counts is the result of `filter`, so the counts and the order pin it down |
| ChangedFiles.ParseGlobs | src/get-changed-files.ts:32-35 | at least one glob, and none contains a newline |
| ChangedFiles.ParseGlobsTrimmed | src/get-changed-files.ts:32-35 | every parsed glob is already trimmed |
| ChangedFiles.ParseGlobsRoundTrip | src/get-changed-files.ts:32-35 | trimmed globs written one per line, with first and last non-empty, parse back to themselves |
| ChangedFiles.ExistingFilenames | src/get-changed-files.ts:44-48 | exactly the names of records not removed, as a subsequence of all the names |
| ChangedFiles.ExistingFilenamesExact | src/get-changed-files.ts:44-48 | the names of the records not removed, each such record counted once, in the fetched order |
| ChangedFiles.MatchingFiles | src/get-changed-files.ts:50-54 | the existing names matched by a glob not ending in '/', each as often as it exists, and no other, in their order |
| ChangedFiles.AllFilesMatch | src/get-changed-files.ts:50-54 | when every name is matched by a file glob, all names are kept as they are |
| ChangedFiles.MatchedDirectories | src/get-changed-files.ts:56-61 | exactly the inferred directories matched by a glob ending in '/', in their order |
| ChangedFiles.ProbeKeeps | src/get-changed-files.ts:65-76 | the oracle is consulted only for a flagged directory; the callback fails iff that call fails, and gives the name iff the directory is unflagged or reported to exist |
| ChangedFiles.ProbeAll | src/get-changed-files.ts:63-76 | `Promise.all` succeeds iff every probe succeeds, with each outcome at its own index; a failure is the failure of some probe |
| ChangedFiles.ProbeAllFailure | src/get-changed-files.ts:63-76 | the probes fail iff the oracle fails for a flagged directory, with that call's error |
| ChangedFiles.Truthy | src/get-changed-files.ts:78 | `filter(Boolean)` keeps exactly the present, non-empty names |
| ChangedFiles.ProbedInOrder | src/get-changed-files.ts:63-78 | the kept names come in the order of the directories probed |
| ChangedFiles.SelectChangesFailure | src/get-changed-files.ts:56-78 | after the fetch, selection fails iff the existence check of a flagged, matched directory fails, with that error |
| ChangedFiles.SelectChangesResult | src/get-changed-files.ts:44-82 | on success the result splits into the selected files (the names of the records not removed and file-glob matched, each such record counted, in fetched order) followed by the selected directories (dir-glob matched, kept, ascending) |
| ChangedFiles.FilesSelected | src/get-changed-files.ts:44-54 | the file part is the names of the records not removed and matched by a file glob, each such record counted, in fetched order |
| ChangedFiles.SelectsFilesUnique | src/get-changed-files.ts:44-54 | that description admits one list only: the file part the action returns |
| ChangedFiles.NamesOfKeptUnique | src/get-changed-files.ts:44-54 | the names of the records a predicate keeps, with every such record counted in order, are determined |
| ChangedFiles.KeptDirectories | src/get-changed-files.ts:56-78 | the directory part is exactly the matched inferred directories that are kept, strictly ascending |
| ChangedFiles.NoDirectoryGlobs | src/get-changed-files.ts:56-78 | with no glob ending in '/', no directory is returned and the result is the matched files |
| ChangedFiles.GetChangedFilesFailure | src/get-changed-files.ts:37-78 | the action fails iff `compareCommits` fails or the existence check of a flagged, matched directory fails, and then with that call's error; no partial result |
| ChangedFiles.GetChangedFilesResult | src/get-changed-files.ts:32-82 | a successful result is the selected files (each selected record counted, in fetched order) followed by the selected directories of the fetched comparison |
| ChangedFiles.ProbesOnlyFlaggedDirectories | src/get-changed-files.ts:66-73 | existence oracles that agree on the flagged, matched directories, asked at the merge commit, give the same result |
| ChangedFiles.SelectChangesAgree | src/get-changed-files.ts:66-73 | selection depends on the existence oracle only at the flagged, matched directories |
| ChangedFiles.ComparesBaseWithMergeCommit | src/get-changed-files.ts:37-42 | only the answer to the base-versus-merge-commit comparison matters |
| DirectoryInferenceScenarios.AddedFile | src/__tests__/get-changed-directories.test.ts:3-11 | one added file gives `.` and `dir/`, unflagged |
| DirectoryInferenceScenarios.ModifiedFile | src/__tests__/get-changed-directories.test.ts:13-21 | one modified file gives `.` and `dir/`, unflagged |
| DirectoryInferenceScenarios.AddedAndModifiedFiles | src/__tests__/get-changed-directories.test.ts:23-32 | two files in one directory give one record |
| DirectoryInferenceScenarios.RemovedFile | src/__tests__/get-changed-directories.test.ts:34-42 | a directory with only a removed file is flagged |
| DirectoryInferenceScenarios.RemovedThenAddedFiles | src/__tests__/get-changed-directories.test.ts:44-53 | a later addition clears the flag |
| DirectoryInferenceScenarios.RenamedFile | src/__tests__/get-changed-directories.test.ts:55-71 | a rename flags the old directory; "dir-2/" sorts before "dir/" |
| DirectoryInferenceScenarios.RenamedFileAndAddedFile | src/__tests__/get-changed-directories.test.ts:73-90 | an addition into the old directory of a rename clears its flag |
| ChangedFilesScenarios.EverythingSelected | src/get-changed-files.ts:32-82 | with the input `**/*` matching every existing name, the result is the names of the records not removed, in order |
| ChangedFilesScenarios.AddedAndModifiedFiles | src/__tests__/main.test.ts:50-76 | a modified and an added file are both returned, in order |
| ChangedFilesScenarios.RemovedFileLeftOut | src/__tests__/main.test.ts:78-105 | a removed file is not returned |

## Left out

- `src/github.ts` and `src/main.ts` (the Octokit client, inputs, the event file, outputs) are I/O. They become the
  oracle parameters `compareCommits` and `isDirectoryExist` of `GetChangedFiles`. The client's own behaviour
  (stripping a trailing '/' from the path, mapping HTTP 404 to `false`) is inside the oracle.
- `minimatch` is a foreign library. It is the oracle parameter `minimatch(path, glob)`.
- Paths.Dirname: models `path.dirname` only for the relative names without trailing or doubled slashes
  that the compare API reports. It does not model Node's trailing-slash stripping or other POSIX edge cases.
- Strings.Below: compares `char` values, while JavaScript compares UTF-16 code units. The two orders differ
  only for characters outside the Basic Multilingual Plane.
- ChangedFiles.ProbeAll: `Promise.all` runs the probes concurrently; the model runs them left to right. When
  several probes fail, it reports the leftmost failure rather than the first to settle. The failure
  lemmas only promise the error of some failing call.
- An absent `mayBeRemoved` property is modelled as `false`. The result object `{ files }` is modelled as the
  list of names. Errors are modelled as their message.
- DirectoryInference.GetChangedDirectories: the final in-place `sort` is modelled as a value-level
  insertion sort by name, not as an in-place array algorithm.
- The directory-glob tests of `src/__tests__/main.test.ts` (lines 107-193) are not restated as scenario lemmas.
  Their behaviour is what `GetChangedFilesResult` and `SelectChangesResult` state for all inputs.
- The model follows the code where the behaviour the action is designed for differs from it:
  - only `pull_request` events are handled, with `base.sha` compared against `merge_commit_sha`;
  - there are no push events and no short-circuit on an all-zero base revision;
  - the result carries no `isEmpty` field;
  - the root "." is not pinned first. The sort alone places it. It is first when every file name begins
    with a character above '.' (`RootFirst`). A directory whose name begins with a character below '.',
    such as "-x/", comes before it (`RootDisplaced`).
