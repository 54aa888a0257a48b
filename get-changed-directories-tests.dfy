/**
 * The scenarios of the unit tests of getChangedDirectories, each proved
 * about the model's result.
 */
module DirectoryInferenceScenarios {
  import opened Wrappers
  import opened Strings
  import opened Paths
  import opened DirectoryInference

  /** For a file directly inside `dir`, the only directory it touches is
      `dir + "/"`. */
  lemma TouchesTopLevel(f: File, dir: string, name: string)
    requires Ancestors(f.filename) == [dir]
    ensures Touches(f, name) <==> name == dir + "/"
  {
    if Touches(f, name) {
      assert name == name[..|name| - 1] + [name[|name| - 1]];
    }
    if name == dir + "/" {
      assert name[..|name| - 1] == dir;
    }
  }

  /** The result is pinned down by its description. */
  lemma Expect(files: seq<File>, expected: seq<Directory>)
    requires DescribesChanges(expected, SplitRenamedFiles(files))
    ensures ChangedDirectories(files) == expected
  {
    ChangedDirectoriesCorrect(files);
    DescriptionIsUnique(ChangedDirectories(files), expected, SplitRenamedFiles(files));
  }

  /** Files all directly inside `dir`: the root and `dir + "/"`, flagged
      only when every one of them was removed. */
  lemma OneDirDescribed(files: seq<File>, name: string, flag: bool)
    requires forall n :: Touched(files, n) <==> n == name
    requires flag == OnlyRemovals(files, name)
    requires Below(Root, name)
    ensures DescribesChanges([RootDirectory, Directory(name, flag)], files)
  {
    assert Names([RootDirectory, Directory(name, flag)]) == {Root, name};
    BelowIrreflexive(Root);
  }

  /** Files all directly inside `dir` touch `dir + "/"` and nothing else. */
  lemma OneDirTouched(files: seq<File>, dir: string)
    requires files != []
    requires forall f :: f in files ==> Ancestors(f.filename) == [dir]
    ensures forall n :: Touched(files, n) <==> n == dir + "/"
    ensures OnlyRemovals(files, dir + "/") <==> forall f :: f in files ==> f.status == Removed
  {
    forall n ensures Touched(files, n) <==> n == dir + "/" {
      if n == dir + "/" {
        TouchesTopLevel(files[0], dir, n);
        assert files[0] in files;
      }
      forall f | f in files ensures Touches(f, n) <==> n == dir + "/" {
        TouchesTopLevel(f, dir, n);
      }
    }
    forall f | f in files ensures Touches(f, dir + "/") {
      TouchesTopLevel(f, dir, dir + "/");
    }
  }

  /** Which directories files directly inside `first` or `second` touch. */
  lemma TwoDirsTouched(files: seq<File>, first: string, second: string, i: nat, j: nat)
    requires i < |files| && Ancestors(files[i].filename) == [first]
    requires j < |files| && Ancestors(files[j].filename) == [second]
    requires forall f :: f in files ==> Ancestors(f.filename) == [first] || Ancestors(f.filename) == [second]
    ensures forall n :: Touched(files, n) <==> n == first + "/" || n == second + "/"
  {
    forall n ensures Touched(files, n) <==> n == first + "/" || n == second + "/" {
      if n == first + "/" {
        TouchesTopLevel(files[i], first, n);
        assert files[i] in files;
      }
      if n == second + "/" {
        TouchesTopLevel(files[j], second, n);
        assert files[j] in files;
      }
      forall f | f in files ensures Touches(f, n) ==> n == first + "/" || n == second + "/" {
        TouchesTopLevel(f, Ancestors(f.filename)[0], n);
      }
    }
  }

  /** Which files directly inside `first` or `second` touch `dir + "/"`. */
  lemma TwoDirsOnlyRemovals(files: seq<File>, first: string, second: string, dir: string)
    requires forall f :: f in files ==> Ancestors(f.filename) == [first] || Ancestors(f.filename) == [second]
    ensures OnlyRemovals(files, dir + "/")
        <==> forall f :: f in files && Ancestors(f.filename) == [dir] ==> f.status == Removed
  {
    forall f | f in files ensures Touches(f, dir + "/") <==> Ancestors(f.filename) == [dir] {
      TouchesTopLevel(f, Ancestors(f.filename)[0], dir + "/");
    }
  }

  /** Three records in ascending order of names. */
  lemma ThreeSorted(dirs: seq<Directory>)
    requires |dirs| == 3
    requires Below(dirs[0].dirname, dirs[1].dirname) && Below(dirs[1].dirname, dirs[2].dirname)
    ensures StrictlySorted(dirs)
    ensures dirs[0].dirname != dirs[1].dirname && dirs[1].dirname != dirs[2].dirname && dirs[0].dirname != dirs[2].dirname
  {
    BelowTransitive(dirs[0].dirname, dirs[1].dirname, dirs[2].dirname);
    BelowIrreflexive(dirs[0].dirname);
    BelowIrreflexive(dirs[1].dirname);
  }

  /** Files that touch exactly `first` and `second`: the root and the two
      directories, each flagged only when every file touching it was
      removed. */
  lemma TwoDirsDescribed(files: seq<File>, first: string, second: string, flag1: bool, flag2: bool)
    requires forall n :: Touched(files, n) <==> n == first || n == second
    requires flag1 == OnlyRemovals(files, first) && flag2 == OnlyRemovals(files, second)
    requires Below(Root, first) && Below(first, second)
    ensures DescribesChanges([RootDirectory, Directory(first, flag1), Directory(second, flag2)], files)
  {
    var expected := [RootDirectory, Directory(first, flag1), Directory(second, flag2)];
    ThreeSorted(expected);
    forall name ensures name in Names(expected) <==> name == Root || Touched(files, name) {
      NamesOfThree(expected, name);
    }
  }

  lemma NamesOfThree(dirs: seq<Directory>, name: string)
    requires |dirs| == 3
    ensures name in Names(dirs) <==> name == dirs[0].dirname || name == dirs[1].dirname || name == dirs[2].dirname
  {
    if name == dirs[0].dirname || name == dirs[1].dirname || name == dirs[2].dirname {
      assert dirs[0] in dirs && dirs[1] in dirs && dirs[2] in dirs;
    }
  }

  /** Files all directly inside `dir`, none of them a rename: the root and
      `dir + "/"`, flagged only when every one of them was removed. */
  lemma FilesInDir(dir: string, files: seq<File>, flag: bool)
    requires files != []
    requires forall f :: f in files ==> Ancestors(f.filename) == [dir] && !SplitsOnRename(f)
    requires flag <==> forall f :: f in files ==> f.status == Removed
    requires Below(Root, dir + "/")
    ensures ChangedDirectories(files) == [RootDirectory, Directory(dir + "/", flag)]
  {
    SplitRenamedFilesUnchanged(files);
    OneDirTouched(files, dir);
    OneDirDescribed(files, dir + "/", flag);
    Expect(files, [RootDirectory, Directory(dir + "/", flag)]);
  }


  /** One file directly inside `dir`. */
  lemma OneInDir(dir: string, f: File)
    requires Ancestors(f.filename) == [dir] && !SplitsOnRename(f)
    requires Below(Root, dir + "/")
    ensures ChangedDirectories([f]) == [RootDirectory, Directory(dir + "/", f.status == Removed)]
  {
    assert forall g :: g in [f] ==> g == f;
    FilesInDir(dir, [f], f.status == Removed);
  }

  /** Two files directly inside `dir`. */
  lemma TwoInDir(dir: string, f1: File, f2: File)
    requires Ancestors(f1.filename) == [dir] && !SplitsOnRename(f1)
    requires Ancestors(f2.filename) == [dir] && !SplitsOnRename(f2)
    requires Below(Root, dir + "/")
    ensures ChangedDirectories([f1, f2])
         == [RootDirectory, Directory(dir + "/", f1.status == Removed && f2.status == Removed)]
  {
    assert forall g :: g in [f1, f2] ==> g == f1 || g == f2;
    AllRemoved(f1, f2);
    FilesInDir(dir, [f1, f2], f1.status == Removed && f2.status == Removed);
  }

  /** One file with the given status, directly inside the top-level
      directory `dir`. */
  lemma OneFileInDir(dir: string, status: string, name: string)
    requires dir != "" && dir != "." && '/' !in dir && '/' !in name
    requires Below(Root, dir + "/")
    ensures ChangedDirectories([File(dir + "/" + name, status, None)])
         == [RootDirectory, Directory(dir + "/", status == Removed)]
  {
    TopLevelAncestors(dir, name);
    OneInDir(dir, File(dir + "/" + name, status, None));
  }

  /** Two files directly inside the top-level directory `dir`: one
      directory, flagged only when both files were removed. */
  lemma TwoFilesInDir(dir: string, status1: string, name1: string, status2: string, name2: string)
    requires dir != "" && dir != "." && '/' !in dir && '/' !in name1 && '/' !in name2
    requires Below(Root, dir + "/")
    ensures ChangedDirectories([File(dir + "/" + name1, status1, None), File(dir + "/" + name2, status2, None)])
         == [RootDirectory, Directory(dir + "/", status1 == Removed && status2 == Removed)]
  {
    TopLevelAncestors(dir, name1);
    TopLevelAncestors(dir, name2);
    TwoInDir(dir, File(dir + "/" + name1, status1, None), File(dir + "/" + name2, status2, None));
  }

  lemma AllRemoved(f1: File, f2: File)
    ensures (forall g :: g in [f1, f2] ==> g.status == Removed) <==> f1.status == Removed && f2.status == Removed
  {
    assert f1 in [f1, f2] && f2 in [f1, f2];
  }

  // The lemmas of literal facts below keep string literals out of the
  // general lemmas: the scenarios call them and then the general lemmas.

  /** The directory "dir" of the scenarios below. */
  lemma ScenarioDir()
    ensures "dir" + "/" == "dir/" && Below(Root, "dir/")
  {
  }

  /** The file names of the scenarios below, directly inside "dir". */
  lemma AddedPath()
    ensures '/' !in "added-file.yaml" && "dir" + "/" + "added-file.yaml" == "dir/added-file.yaml"
  {
  }

  lemma ModifiedPath()
    ensures '/' !in "modified-file.yaml" && "dir" + "/" + "modified-file.yaml" == "dir/modified-file.yaml"
    ensures "modified" != Removed
  {
  }

  lemma RemovedPath()
    ensures '/' !in "removed-file.yaml" && "dir" + "/" + "removed-file.yaml" == "dir/removed-file.yaml"
  {
  }

  /** Test "should return list of added files". */
  lemma AddedFile()
    ensures ChangedDirectories([File("dir/added-file.yaml", Added, None)])
         == [Directory(".", false), Directory("dir/", false)]
  {
    AddedPath();
    ScenarioDir();
    OneFileInDir("dir", Added, "added-file.yaml");
  }

  /** Test "should return list of modified files". */
  lemma ModifiedFile()
    ensures ChangedDirectories([File("dir/modified-file.yaml", "modified", None)])
         == [Directory(".", false), Directory("dir/", false)]
  {
    ModifiedPath();
    ScenarioDir();
    OneFileInDir("dir", "modified", "modified-file.yaml");
  }

  /** Test "should add mayBeRemoved: true to directories with only removed files". */
  lemma RemovedFile()
    ensures ChangedDirectories([File("dir/removed-file.yaml", Removed, None)])
         == [Directory(".", false), Directory("dir/", true)]
  {
    RemovedPath();
    ScenarioDir();
    OneFileInDir("dir", Removed, "removed-file.yaml");
  }

  /** Test "should not duplicate directories". */
  lemma AddedAndModifiedFiles()
    ensures ChangedDirectories([File("dir/added-file.yaml", Added, None), File("dir/modified-file.yaml", "modified", None)])
         == [Directory(".", false), Directory("dir/", false)]
  {
    AddedPath();
    ModifiedPath();
    ScenarioDir();
    TwoFilesInDir("dir", Added, "added-file.yaml", "modified", "modified-file.yaml");
  }

  /** Test "should not add mayBeRemoved: true to directories with not only
      removed files". */
  lemma RemovedThenAddedFiles()
    ensures ChangedDirectories([File("dir/removed-file.yaml", Removed, None), File("dir/added-file.yaml", Added, None)])
         == [Directory(".", false), Directory("dir/", false)]
  {
    RemovedPath();
    AddedPath();
    ScenarioDir();
    TwoFilesInDir("dir", Removed, "removed-file.yaml", Added, "added-file.yaml");
  }

  /** A rename of `from + "/" + name` to `to + "/" + name`, followed by
      `extra`, a list of files directly inside `from`: the target directory
      is not flagged, the source directory is flagged only when every file of
      `extra` was removed too. */
  lemma RenameBetweenDirs(from: string, to: string, name: string, extra: seq<File>)
    requires from != "" && from != "." && '/' !in from
    requires to != "" && to != "." && '/' !in to
    requires '/' !in name
    requires Below(Root, to + "/") && Below(to + "/", from + "/")
    requires forall g :: g in extra ==> Ancestors(g.filename) == [from] && !SplitsOnRename(g)
    ensures ChangedDirectories([File(to + "/" + name, Renamed, Some(from + "/" + name))] + extra)
         == [RootDirectory, Directory(to + "/", false),
             Directory(from + "/", forall g :: g in extra ==> g.status == Removed)]
  {
    var renamed := File(to + "/" + name, Renamed, Some(from + "/" + name));
    var files := [renamed] + extra;
    RenameSplit(renamed, extra);
    RenameOfNamesDescribed(from, to, name, extra);
    Expect(files, [RootDirectory, Directory(to + "/", false),
                   Directory(from + "/", forall g :: g in extra ==> g.status == Removed)]);
  }

  /** A leading rename splits into its addition and its removal. */
  lemma RenameSplit(renamed: File, extra: seq<File>)
    requires SplitsOnRename(renamed)
    requires forall g :: g in extra ==> !SplitsOnRename(g)
    ensures SplitRenamedFiles([renamed] + extra)
         == [File(renamed.filename, Added, None), File(renamed.previousFilename.value, Removed, None)] + extra
  {
    SplitRenamedFilesAt([], renamed, extra);
    SplitRenamedFilesUnchanged(extra);
    assert [] + [renamed] + extra == [renamed] + extra;
  }

  lemma RenameOfNamesDescribed(from: string, to: string, name: string, extra: seq<File>)
    requires from != "" && from != "." && '/' !in from
    requires to != "" && to != "." && '/' !in to
    requires '/' !in name
    requires Below(Root, to + "/") && Below(to + "/", from + "/")
    requires forall g :: g in extra ==> Ancestors(g.filename) == [from]
    ensures DescribesChanges([RootDirectory, Directory(to + "/", false),
                              Directory(from + "/", forall g :: g in extra ==> g.status == Removed)],
                             [File(to + "/" + name, Added, None), File(from + "/" + name, Removed, None)] + extra)
  {
    var split := [File(to + "/" + name, Added, None), File(from + "/" + name, Removed, None)] + extra;
    TopLevelAncestors(to, name);
    TopLevelAncestors(from, name);
    RenameDescribed(from, to, split, extra);
  }

  /** The description of the split form of the rename: an addition inside
      `to`, a removal inside `from`, then `extra`. */
  lemma RenameDescribed(from: string, to: string, split: seq<File>, extra: seq<File>)
    requires |split| >= 2 && split[2..] == extra
    requires Ancestors(split[0].filename) == [to] && split[0].status != Removed
    requires Ancestors(split[1].filename) == [from] && split[1].status == Removed
    requires Below(Root, to + "/") && Below(to + "/", from + "/")
    requires forall g :: g in extra ==> Ancestors(g.filename) == [from]
    ensures DescribesChanges([RootDirectory, Directory(to + "/", false),
                              Directory(from + "/", forall g :: g in extra ==> g.status == Removed)], split)
  {
    BelowIrreflexive(to + "/");
    RenameMembers(split, extra);
    TwoDirsTouched(split, to, from, 0, 1);
    RenameFlags(from, to, split, extra);
    TwoDirsDescribed(split, to + "/", from + "/", false, forall g :: g in extra ==> g.status == Removed);
  }

  lemma RenameMembers(split: seq<File>, extra: seq<File>)
    requires |split| >= 2 && split[2..] == extra
    ensures forall f :: f in split <==> f == split[0] || f == split[1] || f in extra
  {
    assert split == [split[0], split[1]] + extra;
  }

  /** Only the source directory of the rename may be flagged, and it is when
      every file of `extra` was removed. */
  lemma RenameFlags(from: string, to: string, split: seq<File>, extra: seq<File>)
    requires |split| >= 2
    requires forall f :: f in split <==> f == split[0] || f == split[1] || f in extra
    requires Ancestors(split[0].filename) == [to] && split[0].status != Removed
    requires Ancestors(split[1].filename) == [from] && split[1].status == Removed
    requires to != from
    requires forall g :: g in extra ==> Ancestors(g.filename) == [from]
    ensures !OnlyRemovals(split, to + "/")
    ensures OnlyRemovals(split, from + "/") <==> forall g :: g in extra ==> g.status == Removed
  {
    assert [to] != [from];
    TwoDirsOnlyRemovals(split, to, from, to);
    TwoDirsOnlyRemovals(split, to, from, from);
  }

  /** Literal facts shared by the two rename scenarios, kept apart from the
      general lemmas they feed. */
  lemma RenameScenarioNames()
    ensures "dir-2" + "/" + "renamed-file.yaml" == "dir-2/renamed-file.yaml"
    ensures "dir" + "/" + "renamed-file.yaml" == "dir/renamed-file.yaml"
    ensures "dir-2" + "/" == "dir-2/" && "dir" + "/" == "dir/"
    ensures '/' !in "renamed-file.yaml" && '/' !in "dir-2" && '/' !in "dir"
  {
  }

  /** "dir-2/" sorts before "dir/" because '-' is below '/'. */
  lemma RenameScenarioOrder()
    ensures Below(Root, "dir-2/") && Below("dir-2/", "dir/")
  {
    assert "dir-2/"[3..] == "-2/" && "dir/"[3..] == "/";
    assert Below("-2/", "/");
  }

  /** Test "should add mayBeRemoved: true to directories with renamed files":
      "dir-2/" sorts before "dir/" because '-' is below '/'. */
  lemma RenamedFile()
    ensures ChangedDirectories([File("dir-2/renamed-file.yaml", Renamed, Some("dir/renamed-file.yaml"))])
         == [Directory(".", false), Directory("dir-2/", false), Directory("dir/", true)]
  {
    RenameScenarioNames();
    RenameScenarioOrder();
    RenameBetweenDirs("dir", "dir-2", "renamed-file.yaml", []);
    assert [File("dir-2/renamed-file.yaml", Renamed, Some("dir/renamed-file.yaml"))] + []
        == [File("dir-2/renamed-file.yaml", Renamed, Some("dir/renamed-file.yaml"))];
  }

  /** A rename between two directories, then one more file inside the
      source directory. */
  lemma RenameThenFile(from: string, to: string, name: string, other: string, status: string)
    requires from != "" && from != "." && '/' !in from
    requires to != "" && to != "." && '/' !in to
    requires '/' !in name && '/' !in other
    requires Below(Root, to + "/") && Below(to + "/", from + "/")
    ensures ChangedDirectories([File(to + "/" + name, Renamed, Some(from + "/" + name)),
                                File(from + "/" + other, status, None)])
         == [RootDirectory, Directory(to + "/", false), Directory(from + "/", status == Removed)]
  {
    var renamed := File(to + "/" + name, Renamed, Some(from + "/" + name));
    var g := File(from + "/" + other, status, None);
    var extra := [g];
    assert [renamed] + extra == [renamed, g];
    assert (forall h :: h in extra ==> h.status == Removed) == (status == Removed);
    TopLevelAncestors(from, other);
    RenameBetweenDirs(from, to, name, extra);
  }

  /** Test "should not add mayBeRemoved: true to directories with renamed
      files if other files were added to the same folder". */
  lemma RenamedFileAndAddedFile()
    ensures ChangedDirectories([File("dir-2/renamed-file.yaml", Renamed, Some("dir/renamed-file.yaml")),
                                File("dir/added-file.yaml", Added, None)])
         == [Directory(".", false), Directory("dir-2/", false), Directory("dir/", false)]
  {
    RenameScenarioNames();
    RenameScenarioOrder();
    AddedPath();
    RenameThenFile("dir", "dir-2", "renamed-file.yaml", "added-file.yaml", Added);
  }

  /** Files all directly inside one directory whose name sorts below ".":
      that directory comes first and the root second. */
  lemma OneDirBeforeRoot(files: seq<File>, name: string, flag: bool)
    requires forall n :: Touched(files, n) <==> n == name
    requires flag == OnlyRemovals(files, name)
    requires Below(name, Root)
    ensures DescribesChanges([Directory(name, flag), RootDirectory], files)
  {
    assert Names([Directory(name, flag), RootDirectory]) == {name, Root};
    BelowIrreflexive(Root);
  }

  /** One file directly inside the top-level directory `dir`, whose name
      sorts below ".". */
  lemma OneFileBeforeRoot(dir: string, status: string, name: string)
    requires dir != "" && dir != "." && '/' !in dir && '/' !in name
    requires Below(dir + "/", Root)
    ensures ChangedDirectories([File(dir + "/" + name, status, None)])
         == [Directory(dir + "/", status == Removed), RootDirectory]
  {
    var f := File(dir + "/" + name, status, None);
    TopLevelAncestors(dir, name);
    assert forall g :: g in [f] ==> g == f;
    SplitRenamedFilesUnchanged([f]);
    OneDirTouched([f], dir);
    OneDirBeforeRoot([f], dir + "/", status == Removed);
    Expect([f], [Directory(dir + "/", status == Removed), RootDirectory]);
  }

  /** The names of the scenario below: '-' is below '.'. */
  lemma DisplacedPath()
    ensures "-x" != "" && "-x" != "." && '/' !in "-x" && '/' !in "a"
    ensures "-x" + "/" + "a" == "-x/a" && "-x" + "/" == "-x/"
    ensures Below("-x/", Root)
  {
  }

  /** Nothing pins the root first: a file in a directory whose name begins
      with a character below '.' puts that directory before the root. */
  lemma RootDisplaced()
    ensures ChangedDirectories([File("-x/a", Added, None)]) == [Directory("-x/", false), Directory(".", false)]
  {
    DisplacedPath();
    OneFileBeforeRoot("-x", Added, "a");
  }
}
