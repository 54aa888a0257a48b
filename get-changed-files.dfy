/**
 * `getChangedFiles`: the changed files of a pull request that match the
 * file globs, followed by the inferred changed directories that match the
 * directory globs (those ending in "/"), where a directory that only saw
 * removals is kept only when it still exists at the merge commit.
 *
 * The GitHub API and `minimatch` are oracles passed in as functions: a
 * failed call is a `Failure`, which the action propagates.
 */
module ChangedFiles {
  import opened Wrappers
  import opened Strings
  import opened Sequences
  import opened DirectoryInference

  /** The parts of the `pull_request` event the action reads. */
  datatype PullRequestEvent = PullRequestEvent(
    owner: string,
    repo: string,
    baseSha: string,
    headSha: string,
    mergeCommitSha: string)

  datatype CompareCommitsOptions = CompareCommitsOptions(owner: string, repo: string, base: string, head: string)

  datatype IsDirectoryExistOptions = IsDirectoryExistOptions(owner: string, repo: string, ref: string, path: string)

  // ---------------------------------------------------------------------------
  // The glob input

  /** `inputs.files.trim().split("\n").map((s) => s.trim())`. */
  function ParseGlobs(input: string): (globs: seq<string>)
    ensures |globs| >= 1
    ensures forall g :: g in globs ==> '\n' !in g
  {
    var parts := Split(Trim(input), '\n');
    NoNewlineAfterTrim(parts);
    Map(parts, Trim)
  }

  lemma NoNewlineAfterTrim(parts: seq<string>)
    requires forall p :: p in parts ==> '\n' !in p
    ensures forall k :: 0 <= k < |parts| ==> '\n' !in Trim(parts[k])
  {
    forall k | 0 <= k < |parts| ensures '\n' !in Trim(parts[k]) {
      assert parts[k] in parts;
      TrimChars(parts[k]);
    }
  }

  /** Every parsed glob is already trimmed. */
  lemma ParseGlobsTrimmed(input: string)
    ensures forall g :: g in ParseGlobs(input) ==> Trim(g) == g
  {
    TrimmedEach(Split(Trim(input), '\n'));
  }

  lemma TrimmedEach(parts: seq<string>)
    ensures forall g :: g in Map(parts, Trim) ==> Trim(g) == g
  {
    var m := Map(parts, Trim);
    forall g | g in m ensures Trim(g) == g {
      var k :| 0 <= k < |m| && m[k] == g;
      TrimIdempotent(parts[k]);
    }
  }

  /** Globs written one per line, each already trimmed, with a first and a
      last glob that are not empty, are read back as they were written. */
  lemma ParseGlobsRoundTrip(globs: seq<string>)
    requires |globs| >= 1 && globs[0] != [] && globs[|globs| - 1] != []
    requires forall g :: g in globs ==> '\n' !in g && Trim(g) == g
    ensures ParseGlobs(Join(globs, '\n')) == globs
  {
    assert globs[0] in globs && globs[|globs| - 1] in globs;
    JoinedGlobsTrimmed(globs);
    SplitJoin(globs, '\n');
    TrimEach(globs);
  }

  lemma TrimEach(globs: seq<string>)
    requires forall g :: g in globs ==> Trim(g) == g
    ensures Map(globs, Trim) == globs
  {
    var m := Map(globs, Trim);
    forall k | 0 <= k < |globs| ensures m[k] == globs[k] {
      assert globs[k] in globs;
    }
  }

  lemma JoinedGlobsTrimmed(globs: seq<string>)
    requires |globs| >= 1
    requires globs[0] != [] && !IsWhitespace(globs[0][0])
    requires globs[|globs| - 1] != [] && !IsWhitespace(globs[|globs| - 1][|globs[|globs| - 1]| - 1])
    ensures Trim(Join(globs, '\n')) == Join(globs, '\n')
  {
    var s := Join(globs, '\n');
    JoinEnds(globs, '\n');
    assert s[0] == globs[0][0];
    assert s[|s| - 1] == globs[|globs| - 1][|globs[|globs| - 1]| - 1];
    TrimUnchanged(s);
  }

  /** A glob ending in "/" selects directories; any other glob selects files. */
  predicate IsDirectoryGlob(glob: string)
  {
    EndsWith(glob, "/")
  }

  predicate IsFileGlob(glob: string)
  {
    !IsDirectoryGlob(glob)
  }

  /** `globs.some((glob) => minimatch(path, glob))`. */
  predicate MatchesAny(path: string, globs: seq<string>, minimatch: (string, string) -> bool)
  {
    exists g :: g in globs && minimatch(path, g)
  }

  /** The filter callback `(path) => globs.some(...)`. */
  function Matcher(globs: seq<string>, minimatch: (string, string) -> bool): string -> bool
  {
    path => MatchesAny(path, globs, minimatch)
  }

  /** `path` is matched by a glob that does not end in "/". */
  predicate FileSelected(path: string, globs: seq<string>, minimatch: (string, string) -> bool)
  {
    exists g :: g in globs && !IsDirectoryGlob(g) && minimatch(path, g)
  }

  /** `path` is matched by a glob that ends in "/". */
  predicate DirectorySelected(path: string, globs: seq<string>, minimatch: (string, string) -> bool)
  {
    exists g :: g in globs && IsDirectoryGlob(g) && minimatch(path, g)
  }

  // ---------------------------------------------------------------------------
  // Files

  function Filename(f: File): string
  {
    f.filename
  }

  predicate NotRemoved(f: File)
  {
    f.status != Removed
  }

  /** `files.filter((file) => file.status !== "removed").map((file) => file.filename)`. */
  function ExistingFilenames(files: seq<File>): (names: seq<string>)
    ensures forall n :: n in names <==> exists f :: f in files && f.status != Removed && f.filename == n
    ensures IsSubsequence(names, Map(files, Filename))
  {
    var kept := Filter(files, NotRemoved);
    MapSubsequence(kept, files, Filename);
    assert forall n :: n in Map(kept, Filename) <==> exists f :: f in kept && f.filename == n by {
      forall n | n in Map(kept, Filename) ensures exists f :: f in kept && f.filename == n {
        var k :| 0 <= k < |kept| && Map(kept, Filename)[k] == n;
        assert kept[k] in kept;
      }
      forall n | exists f :: f in kept && f.filename == n ensures n in Map(kept, Filename) {
        var f :| f in kept && f.filename == n;
        var k :| 0 <= k < |kept| && kept[k] == f;
        assert Map(kept, Filename)[k] == n;
      }
    }
    Map(kept, Filename)
  }

  /** `names` are the file names of the records of `files` that `keep`
      accepts, each such record counted, in the order of `files`. */
  ghost predicate NamesOfKept(names: seq<string>, files: seq<File>, keep: File -> bool)
  {
    exists kept :: IsFilterOf(kept, files, keep) && names == Map(kept, Filename)
  }

  /** The names of the kept records are determined by the records and the
      predicate. */
  lemma NamesOfKeptUnique(a: seq<string>, b: seq<string>, files: seq<File>, keep: File -> bool)
    requires NamesOfKept(a, files, keep) && NamesOfKept(b, files, keep)
    ensures a == b
  {
    var ka :| IsFilterOf(ka, files, keep) && a == Map(ka, Filename);
    var kb :| IsFilterOf(kb, files, keep) && b == Map(kb, Filename);
    FilterUnique(ka, files, keep);
    FilterUnique(kb, files, keep);
  }

  /** The existing names are the names of the records not removed, every
      such record counted once, in the fetched order. */
  lemma ExistingFilenamesExact(files: seq<File>)
    ensures NamesOfKept(ExistingFilenames(files), files, NotRemoved)
  {
    FilterCount(files, NotRemoved);
  }

  /** The existing file names matched by a file glob, each as often as it
      exists, in their order. */
  function MatchingFiles(existing: seq<string>, globs: seq<string>, minimatch: (string, string) -> bool): (r: seq<string>)
    ensures forall n :: n in r <==> n in existing && FileSelected(n, globs, minimatch)
    ensures IsSubsequence(r, existing)
    ensures forall n :: multiset(r)[n] == if FileSelected(n, globs, minimatch) then multiset(existing)[n] else 0
  {
    FileMatcher(globs, minimatch);
    FilterCount(existing, Matcher(Filter(globs, IsFileGlob), minimatch));
    Filter(existing, Matcher(Filter(globs, IsFileGlob), minimatch))
  }

  /** The filter callback of the file globs accepts exactly the paths a
      file glob matches. */
  lemma FileMatcher(globs: seq<string>, minimatch: (string, string) -> bool)
    ensures forall n :: Matcher(Filter(globs, IsFileGlob), minimatch)(n) <==> FileSelected(n, globs, minimatch)
  {
    var fileGlobs := Filter(globs, IsFileGlob);
    forall n | FileSelected(n, globs, minimatch) ensures Matcher(fileGlobs, minimatch)(n) {
      var g :| g in globs && !IsDirectoryGlob(g) && minimatch(n, g);
      assert g in fileGlobs;
    }
  }

  /** When every existing name is matched by a file glob, all of them are
      kept, in their order. */
  lemma AllFilesMatch(existing: seq<string>, globs: seq<string>, minimatch: (string, string) -> bool)
    requires forall n :: n in existing ==> FileSelected(n, globs, minimatch)
    ensures MatchingFiles(existing, globs, minimatch) == existing
  {
    var matcher := Matcher(Filter(globs, IsFileGlob), minimatch);
    forall n | n in existing ensures matcher(n) {
      var g :| g in globs && !IsDirectoryGlob(g) && minimatch(n, g);
      assert g in Filter(globs, IsFileGlob);
    }
    FilterAll(existing, matcher);
  }

  // ---------------------------------------------------------------------------
  // Directories

  /** The inferred directories matched by a directory glob, in their order. */
  function MatchedDirectories(dirs: seq<Directory>, globs: seq<string>, minimatch: (string, string) -> bool): (r: seq<Directory>)
    ensures forall d :: d in r <==> d in dirs && DirectorySelected(d.dirname, globs, minimatch)
    ensures IsSubsequence(r, dirs)
  {
    var directoryGlobs := Filter(globs, IsDirectoryGlob);
    Filter(dirs, (d: Directory) => MatchesAny(d.dirname, directoryGlobs, minimatch))
  }

  /** The asynchronous map callback for one directory: an unflagged directory
      gives its name without a call; a flagged one asks the oracle and gives
      its name or `undefined` (`None`). */
  function Probe(d: Directory, isDirectoryExist: string -> Result<bool>): Result<Option<string>>
  {
    if !d.mayBeRemoved then Success(Some(d.dirname))
    else
      match isDirectoryExist(d.dirname)
      case Failure(e) => Failure(e)
      case Success(exists_) => Success(if exists_ then Some(d.dirname) else None)
  }

  /** The directory is kept: not flagged, or reported to exist. */
  predicate KeptDirectory(d: Directory, isDirectoryExist: string -> Result<bool>)
  {
    !d.mayBeRemoved || isDirectoryExist(d.dirname) == Success(true)
  }

  /** What `Probe` gives: the oracle is consulted only for a flagged
      directory, and the name comes back exactly when the directory is kept. */
  lemma ProbeKeeps(d: Directory, isDirectoryExist: string -> Result<bool>)
    ensures Probe(d, isDirectoryExist).Failure?
        <==> d.mayBeRemoved && isDirectoryExist(d.dirname).Failure?
    ensures Probe(d, isDirectoryExist).Failure? ==> Probe(d, isDirectoryExist).error == isDirectoryExist(d.dirname).error
    ensures Probe(d, isDirectoryExist).Success?
        ==> Probe(d, isDirectoryExist).value == (if KeptDirectory(d, isDirectoryExist) then Some(d.dirname) else None)
  {
  }

  /** `Promise.all(dirs.map(Probe))`: every probe's outcome at its own index,
      or the failure of a probe. */
  function ProbeAll(dirs: seq<Directory>, isDirectoryExist: string -> Result<bool>): (r: Result<seq<Option<string>>>)
    ensures r.Success? <==> forall d :: d in dirs ==> Probe(d, isDirectoryExist).Success?
    ensures r.Success? ==> (|r.value| == |dirs|
      && forall k :: 0 <= k < |dirs| ==> Probe(dirs[k], isDirectoryExist) == Success(r.value[k]))
    ensures r.Failure? ==> exists d :: d in dirs && Probe(d, isDirectoryExist) == Failure(r.error)
  {
    if dirs == [] then Success([])
    else
      assert forall d :: d in dirs <==> d == dirs[0] || d in dirs[1..];
      match Probe(dirs[0], isDirectoryExist)
      case Failure(e) => Failure(e)
      case Success(first) =>
        match ProbeAll(dirs[1..], isDirectoryExist)
        case Failure(e) => Failure(e)
        case Success(rest) =>
          assert forall k :: 1 <= k < |dirs| ==> dirs[k] == dirs[1..][k - 1];
          Success([first] + rest)
  }

  /** `.filter(Boolean)` on the probe outcomes: the names that are present
      and not empty. */
  function Truthy(xs: seq<Option<string>>): (r: seq<string>)
    ensures forall s :: s in r <==> Some(s) in xs && s != ""
  {
    if xs == [] then []
    else
      assert forall x :: x in xs <==> x == xs[0] || x in xs[1..];
      if xs[0].Some? && xs[0].value != "" then [xs[0].value] + Truthy(xs[1..]) else Truthy(xs[1..])
  }

  function DirnameOf(d: Directory): string
  {
    d.dirname
  }

  function Dirnames(dirs: seq<Directory>): seq<string>
  {
    Map(dirs, DirnameOf)
  }

  /** The kept names come in the order of the directories they name. */
  lemma {:induction false} ProbedInOrder(dirs: seq<Directory>, isDirectoryExist: string -> Result<bool>)
    requires ProbeAll(dirs, isDirectoryExist).Success?
    ensures IsSubsequence(Truthy(ProbeAll(dirs, isDirectoryExist).value), Dirnames(dirs))
  {
    if dirs != [] {
      var outcomes := ProbeAll(dirs, isDirectoryExist).value;
      var rest := ProbeAll(dirs[1..], isDirectoryExist);
      assert dirs[0] in dirs;
      assert forall d :: d in dirs[1..] ==> d in dirs;
      assert outcomes[1..] == rest.value by {
        forall k | 0 <= k < |rest.value| ensures outcomes[k + 1] == rest.value[k] {
          assert dirs[k + 1] == dirs[1..][k];
        }
      }
      ProbedInOrder(dirs[1..], isDirectoryExist);
      assert Dirnames(dirs)[1..] == Dirnames(dirs[1..]);
      var tail := Truthy(rest.value);
      if outcomes[0].Some? && outcomes[0].value != "" {
        assert outcomes[0].value == dirs[0].dirname;
        assert Truthy(outcomes) == [dirs[0].dirname] + tail;
        assert ([dirs[0].dirname] + tail)[1..] == tail;
      } else {
        assert Truthy(outcomes) == tail;
        SubsequenceDropHead(tail, Dirnames(dirs));
      }
    }
  }

  lemma SubsequenceDropHead<T>(r: seq<T>, s: seq<T>)
    requires s != [] && IsSubsequence(r, s[1..])
    ensures IsSubsequence(r, s)
  {
  }

  // ---------------------------------------------------------------------------
  // The whole action

  /** The one `compareCommits` request: the pull request's base against its
      merge commit. */
  function CompareRequest(event: PullRequestEvent): CompareCommitsOptions
  {
    CompareCommitsOptions(event.owner, event.repo, event.baseSha, event.mergeCommitSha)
  }

  /** The `isDirectoryExist` request for `path`, at the merge commit. */
  function ExistRequest(event: PullRequestEvent, path: string): IsDirectoryExistOptions
  {
    IsDirectoryExistOptions(event.owner, event.repo, event.mergeCommitSha, path)
  }

  /** The existence oracle as the callback sees it: the owner, the
      repository and the merge commit fixed, the directory name as path. */
  function ExistsAt(event: PullRequestEvent, isDirectoryExist: IsDirectoryExistOptions -> Result<bool>): string -> Result<bool>
  {
    path => isDirectoryExist(ExistRequest(event, path))
  }

  /** What `getChangedFiles` does once the changed files are fetched: the
      matched existing files followed by the matched directories that are
      kept, or the failure of an existence check. */
  function SelectChanges(
    files: seq<File>,
    globs: seq<string>,
    probe: string -> Result<bool>,
    minimatch: (string, string) -> bool): Result<seq<string>>
  {
    var matchingFiles := MatchingFiles(ExistingFilenames(files), globs, minimatch);
    var probed := ProbeAll(MatchedDirectories(ChangedDirectories(files), globs, minimatch), probe);
    if probed.Failure? then Failure(probed.error)
    else Success(matchingFiles + Truthy(probed.value))
  }

  /** `getChangedFiles`: compare the base with the merge commit, then select
      from the changed files with the parsed globs. */
  function GetChangedFiles(
    input: string,
    event: PullRequestEvent,
    compareCommits: CompareCommitsOptions -> Result<seq<File>>,
    isDirectoryExist: IsDirectoryExistOptions -> Result<bool>,
    minimatch: (string, string) -> bool): Result<seq<string>>
  {
    var globs := ParseGlobs(input);
    var compared := compareCommits(CompareRequest(event));
    if compared.Failure? then Failure(compared.error)
    else SelectChanges(compared.value, globs, ExistsAt(event, isDirectoryExist), minimatch)
  }

  // ---------------------------------------------------------------------------
  // What the result is

  /** `names` are exactly the changed paths of records not removed that a
      file glob matches, in the order of the fetched list. */
  ghost predicate SelectsFiles(names: seq<string>, files: seq<File>, globs: seq<string>, minimatch: (string, string) -> bool)
  {
    NamesOfKept(names, files, SelectedRecord(globs, minimatch))
  }

  /** A record whose name is reported: not removed, and matched by a file
      glob. */
  function SelectedRecord(globs: seq<string>, minimatch: (string, string) -> bool): File -> bool
  {
    f => NotRemoved(f) && FileSelected(f.filename, globs, minimatch)
  }

  /** `names` are exactly the inferred directories that a directory glob
      matches and that are kept, in ascending order. */
  ghost predicate SelectsDirectories(
    names: seq<string>, files: seq<File>, globs: seq<string>,
    minimatch: (string, string) -> bool, isDirectoryExist: string -> Result<bool>)
  {
    (forall n :: n in names <==>
       exists d :: d in ChangedDirectories(files) && d.dirname == n
                   && DirectorySelected(n, globs, minimatch) && KeptDirectory(d, isDirectoryExist))
    && StrictlyAscending(names)
  }

  /** Selection fails exactly when the existence check of a flagged, matched
      directory fails, and then with the error of one such check. */
  lemma SelectChangesFailure(files: seq<File>, globs: seq<string>, probe: string -> Result<bool>, minimatch: (string, string) -> bool)
    ensures SelectChanges(files, globs, probe, minimatch).Failure? <==>
              exists d :: d in ChangedDirectories(files) && d.mayBeRemoved
                          && DirectorySelected(d.dirname, globs, minimatch) && probe(d.dirname).Failure?
    ensures SelectChanges(files, globs, probe, minimatch).Failure? ==>
              exists d :: d in ChangedDirectories(files) && d.mayBeRemoved
                          && DirectorySelected(d.dirname, globs, minimatch)
                          && probe(d.dirname) == Failure(SelectChanges(files, globs, probe, minimatch).error)
  {
    var matched := MatchedDirectories(ChangedDirectories(files), globs, minimatch);
    ProbeAllFailure(matched, probe);
  }

  /** The probes fail exactly when the oracle fails for a flagged directory,
      and then with the error of one such call. */
  lemma ProbeAllFailure(dirs: seq<Directory>, probe: string -> Result<bool>)
    ensures ProbeAll(dirs, probe).Failure? <==> exists d :: d in dirs && d.mayBeRemoved && probe(d.dirname).Failure?
    ensures ProbeAll(dirs, probe).Failure?
        ==> exists d :: d in dirs && d.mayBeRemoved && probe(d.dirname) == Failure(ProbeAll(dirs, probe).error)
  {
    forall d | d in dirs {
      ProbeKeeps(d, probe);
    }
  }

  /** On success the selection is the selected files followed by the selected
      directories. */
  lemma SelectChangesResult(files: seq<File>, globs: seq<string>, probe: string -> Result<bool>, minimatch: (string, string) -> bool)
    requires SelectChanges(files, globs, probe, minimatch).Success?
    ensures var names := SelectChanges(files, globs, probe, minimatch).value;
            exists k :: 0 <= k <= |names|
              && SelectsFiles(names[..k], files, globs, minimatch)
              && SelectsDirectories(names[k..], files, globs, minimatch, probe)
  {
    var names := SelectChanges(files, globs, probe, minimatch).value;
    var matchingFiles := MatchingFiles(ExistingFilenames(files), globs, minimatch);
    FilesSelected(files, globs, minimatch);
    var matched := MatchedDirectories(ChangedDirectories(files), globs, minimatch);
    var kept := Truthy(ProbeAll(matched, probe).value);
    assert names == matchingFiles + kept;
    assert names[..|matchingFiles|] == matchingFiles && names[|matchingFiles|..] == kept;
    KeptDirectories(files, globs, minimatch, probe);
  }

  /** With no directory glob no directory is reported and the existence
      oracle is never consulted: the selection is the matched files. */
  lemma NoDirectoryGlobs(files: seq<File>, globs: seq<string>, probe: string -> Result<bool>, minimatch: (string, string) -> bool)
    requires forall g :: g in globs ==> !IsDirectoryGlob(g)
    ensures SelectChanges(files, globs, probe, minimatch) == Success(MatchingFiles(ExistingFilenames(files), globs, minimatch))
  {
    var matched := MatchedDirectories(ChangedDirectories(files), globs, minimatch);
    assert matched == [];
    var matchingFiles := MatchingFiles(ExistingFilenames(files), globs, minimatch);
    assert matchingFiles + Truthy([]) == matchingFiles;
  }

  /** The action fails exactly when `compareCommits` fails or the existence
      check of a flagged, matched directory fails, and then with that error. */
  lemma GetChangedFilesFailure(
    input: string,
    event: PullRequestEvent,
    compareCommits: CompareCommitsOptions -> Result<seq<File>>,
    isDirectoryExist: IsDirectoryExistOptions -> Result<bool>,
    minimatch: (string, string) -> bool)
    ensures var r := GetChangedFiles(input, event, compareCommits, isDirectoryExist, minimatch);
            var compared := compareCommits(CompareRequest(event));
            r.Failure? <==>
              compared.Failure?
              || exists d :: d in ChangedDirectories(compared.value) && d.mayBeRemoved
                             && DirectorySelected(d.dirname, ParseGlobs(input), minimatch)
                             && isDirectoryExist(ExistRequest(event, d.dirname)).Failure?
    ensures var r := GetChangedFiles(input, event, compareCommits, isDirectoryExist, minimatch);
            var compared := compareCommits(CompareRequest(event));
            r.Failure? ==>
              (compared.Failure? && r.error == compared.error)
              || (compared.Success?
                  && exists d :: d in ChangedDirectories(compared.value) && d.mayBeRemoved
                                 && DirectorySelected(d.dirname, ParseGlobs(input), minimatch)
                                 && isDirectoryExist(ExistRequest(event, d.dirname)) == Failure(r.error))
  {
    var compared := compareCommits(CompareRequest(event));
    if compared.Success? {
      var probe := ExistsAt(event, isDirectoryExist);
      SelectChangesFailure(compared.value, ParseGlobs(input), probe, minimatch);
      assert forall p :: probe(p) == isDirectoryExist(ExistRequest(event, p));
    }
  }

  /** On success the comparison succeeded, and the result is the selected
      files followed by the selected directories. */
  lemma GetChangedFilesResult(
    input: string,
    event: PullRequestEvent,
    compareCommits: CompareCommitsOptions -> Result<seq<File>>,
    isDirectoryExist: IsDirectoryExistOptions -> Result<bool>,
    minimatch: (string, string) -> bool)
    requires GetChangedFiles(input, event, compareCommits, isDirectoryExist, minimatch).Success?
    ensures compareCommits(CompareRequest(event)).Success?
    ensures var names := GetChangedFiles(input, event, compareCommits, isDirectoryExist, minimatch).value;
            var files := compareCommits(CompareRequest(event)).value;
            exists k :: 0 <= k <= |names|
              && SelectsFiles(names[..k], files, ParseGlobs(input), minimatch)
              && SelectsDirectories(names[k..], files, ParseGlobs(input), minimatch, ExistsAt(event, isDirectoryExist))
  {
    SelectChangesResult(compareCommits(CompareRequest(event)).value, ParseGlobs(input), ExistsAt(event, isDirectoryExist), minimatch);
  }

  /** The file part: the matched names of the records not removed, in order. */
  lemma FilesSelected(files: seq<File>, globs: seq<string>, minimatch: (string, string) -> bool)
    ensures SelectsFiles(MatchingFiles(ExistingFilenames(files), globs, minimatch), files, globs, minimatch)
  {
    var existing := ExistingFilenames(files);
    var present := Filter(files, NotRemoved);
    var selected := SelectedRecord(globs, minimatch);
    var kept := Filter(present, selected);
    FileMatcher(globs, minimatch);
    FilterMap(present, Filename, Matcher(Filter(globs, IsFileGlob), minimatch), selected);
    FilterCount(files, NotRemoved);
    FilterCount(present, selected);
    SubsequenceTransitive(kept, present, files);
    assert IsFilterOf(kept, files, selected);
  }

  /** The description of the file part pins it down: any list meeting it is
      the list the action returns. */
  lemma SelectsFilesUnique(names: seq<string>, files: seq<File>, globs: seq<string>, minimatch: (string, string) -> bool)
    requires SelectsFiles(names, files, globs, minimatch)
    ensures names == MatchingFiles(ExistingFilenames(files), globs, minimatch)
  {
    FilesSelected(files, globs, minimatch);
    NamesOfKeptUnique(names, MatchingFiles(ExistingFilenames(files), globs, minimatch), files, SelectedRecord(globs, minimatch));
  }

  /** The directory part: the kept matched directories, in ascending order. */
  lemma KeptDirectories(files: seq<File>, globs: seq<string>, minimatch: (string, string) -> bool, probe: string -> Result<bool>)
    requires ProbeAll(MatchedDirectories(ChangedDirectories(files), globs, minimatch), probe).Success?
    ensures SelectsDirectories(
              Truthy(ProbeAll(MatchedDirectories(ChangedDirectories(files), globs, minimatch), probe).value),
              files, globs, minimatch, probe)
  {
    var changed := ChangedDirectories(files);
    ChangedDirectoriesCorrect(files);
    forall d | d in changed ensures d.dirname != "" {
      DirnameNotEmpty(changed, files, d);
    }
    KeptMembers(changed, globs, minimatch, probe);
    KeptAscending(changed, globs, minimatch, probe);
  }

  lemma KeptMembers(changed: seq<Directory>, globs: seq<string>, minimatch: (string, string) -> bool, probe: string -> Result<bool>)
    requires forall d :: d in changed ==> d.dirname != ""
    requires ProbeAll(MatchedDirectories(changed, globs, minimatch), probe).Success?
    ensures var kept := Truthy(ProbeAll(MatchedDirectories(changed, globs, minimatch), probe).value);
            forall n :: n in kept <==>
              exists d :: d in changed && d.dirname == n
                          && DirectorySelected(n, globs, minimatch) && KeptDirectory(d, probe)
  {
    var matched := MatchedDirectories(changed, globs, minimatch);
    var outcomes := ProbeAll(matched, probe).value;
    forall n | Some(n) in outcomes
      ensures exists d :: d in changed && d.dirname == n && DirectorySelected(n, globs, minimatch) && KeptDirectory(d, probe)
    {
      KeptOutcome(matched, probe, n);
    }
    forall d | d in matched && KeptDirectory(d, probe) ensures Some(d.dirname) in outcomes {
      KeptProbed(matched, probe, d);
    }
  }

  /** A name among the outcomes is the name of a kept directory. */
  lemma KeptOutcome(dirs: seq<Directory>, probe: string -> Result<bool>, n: string)
    requires ProbeAll(dirs, probe).Success? && Some(n) in ProbeAll(dirs, probe).value
    ensures exists d :: d in dirs && d.dirname == n && KeptDirectory(d, probe)
  {
    var outcomes := ProbeAll(dirs, probe).value;
    var k :| 0 <= k < |outcomes| && outcomes[k] == Some(n);
    ProbeKeeps(dirs[k], probe);
    assert dirs[k] in dirs;
  }

  /** A kept directory's name is among the outcomes. */
  lemma KeptProbed(dirs: seq<Directory>, probe: string -> Result<bool>, d: Directory)
    requires ProbeAll(dirs, probe).Success? && d in dirs && KeptDirectory(d, probe)
    ensures Some(d.dirname) in ProbeAll(dirs, probe).value
  {
    var outcomes := ProbeAll(dirs, probe).value;
    var k :| 0 <= k < |dirs| && dirs[k] == d;
    ProbeKeeps(d, probe);
    assert outcomes[k] == Some(d.dirname);
  }

  lemma KeptAscending(changed: seq<Directory>, globs: seq<string>, minimatch: (string, string) -> bool, probe: string -> Result<bool>)
    requires StrictlySorted(changed)
    requires ProbeAll(MatchedDirectories(changed, globs, minimatch), probe).Success?
    ensures StrictlyAscending(Truthy(ProbeAll(MatchedDirectories(changed, globs, minimatch), probe).value))
  {
    var matched := MatchedDirectories(changed, globs, minimatch);
    var kept := Truthy(ProbeAll(matched, probe).value);
    ProbedInOrder(matched, probe);
    DirnamesAscending(changed);
    MapSubsequence(matched, changed, DirnameOf);
    SubsequenceTransitive(kept, Dirnames(matched), Dirnames(changed));
    SubsequenceOrdered(kept, Dirnames(changed), Below);
  }

  /** No inferred directory has an empty name, so `filter(Boolean)` drops
      only the directories that were not kept. */
  lemma DirnameNotEmpty(dirs: seq<Directory>, files: seq<File>, d: Directory)
    requires DescribesChanges(dirs, SplitRenamedFiles(files))
    requires d in dirs
    ensures d.dirname != ""
  {
    assert d.dirname in Names(dirs);
  }

  lemma DirnamesAscending(dirs: seq<Directory>)
    requires StrictlySorted(dirs)
    ensures StrictlyAscending(Dirnames(dirs))
  {
  }

  /** The existence oracle is consulted only for flagged matched directories,
      at the merge commit: oracles that agree there give the same result. */
  lemma ProbesOnlyFlaggedDirectories(
    input: string,
    event: PullRequestEvent,
    compareCommits: CompareCommitsOptions -> Result<seq<File>>,
    isDirectoryExist1: IsDirectoryExistOptions -> Result<bool>,
    isDirectoryExist2: IsDirectoryExistOptions -> Result<bool>,
    minimatch: (string, string) -> bool)
    requires compareCommits(CompareRequest(event)).Success? ==>
      forall d :: d in ChangedDirectories(compareCommits(CompareRequest(event)).value) && d.mayBeRemoved
                  && DirectorySelected(d.dirname, ParseGlobs(input), minimatch)
                  ==> isDirectoryExist1(ExistRequest(event, d.dirname)) == isDirectoryExist2(ExistRequest(event, d.dirname))
    ensures GetChangedFiles(input, event, compareCommits, isDirectoryExist1, minimatch)
         == GetChangedFiles(input, event, compareCommits, isDirectoryExist2, minimatch)
  {
    var compared := compareCommits(CompareRequest(event));
    if compared.Success? {
      var probe1, probe2 := ExistsAt(event, isDirectoryExist1), ExistsAt(event, isDirectoryExist2);
      assert forall p :: probe1(p) == isDirectoryExist1(ExistRequest(event, p));
      assert forall p :: probe2(p) == isDirectoryExist2(ExistRequest(event, p));
      SelectChangesAgree(compared.value, ParseGlobs(input), probe1, probe2, minimatch);
    }
  }

  /** Selection depends on the existence oracle only at the flagged, matched
      directories. */
  lemma SelectChangesAgree(
    files: seq<File>, globs: seq<string>,
    probe1: string -> Result<bool>, probe2: string -> Result<bool>,
    minimatch: (string, string) -> bool)
    requires forall d :: d in ChangedDirectories(files) && d.mayBeRemoved && DirectorySelected(d.dirname, globs, minimatch)
                         ==> probe1(d.dirname) == probe2(d.dirname)
    ensures SelectChanges(files, globs, probe1, minimatch) == SelectChanges(files, globs, probe2, minimatch)
  {
    var matched := MatchedDirectories(ChangedDirectories(files), globs, minimatch);
    ProbeAllAgree(matched, probe1, probe2);
  }

  /** Probing depends on the oracle only at the flagged directories. */
  lemma {:induction false} ProbeAllAgree(dirs: seq<Directory>, probe1: string -> Result<bool>, probe2: string -> Result<bool>)
    requires forall d :: d in dirs && d.mayBeRemoved ==> probe1(d.dirname) == probe2(d.dirname)
    ensures ProbeAll(dirs, probe1) == ProbeAll(dirs, probe2)
  {
    if dirs != [] {
      assert dirs[0] in dirs;
      assert forall d :: d in dirs[1..] ==> d in dirs;
      ProbeAllAgree(dirs[1..], probe1, probe2);
    }
  }

  /** `compareCommits` is asked once, for the base against the merge commit;
      nothing else about it matters. */
  lemma ComparesBaseWithMergeCommit(
    input: string,
    event: PullRequestEvent,
    compareCommits1: CompareCommitsOptions -> Result<seq<File>>,
    compareCommits2: CompareCommitsOptions -> Result<seq<File>>,
    isDirectoryExist: IsDirectoryExistOptions -> Result<bool>,
    minimatch: (string, string) -> bool)
    requires compareCommits1(CompareCommitsOptions(event.owner, event.repo, event.baseSha, event.mergeCommitSha))
          == compareCommits2(CompareCommitsOptions(event.owner, event.repo, event.baseSha, event.mergeCommitSha))
    ensures GetChangedFiles(input, event, compareCommits1, isDirectoryExist, minimatch)
         == GetChangedFiles(input, event, compareCommits2, isDirectoryExist, minimatch)
  {
  }
}
