/**
 * Directory inference: from the changed files of a comparison, the directories
 * they touch, each flagged `mayBeRemoved` when only removals touched it.
 */
module DirectoryInference {
  import opened Wrappers
  import opened Strings
  import opened Paths

  /** A changed file as the compare API reports it; `status` is one of
      GitHub's status strings ("added", "removed", "modified", "renamed", ...). */
  datatype File = File(filename: string, status: string, previousFilename: Option<string>)

  /** An inferred directory: `dirname` ends in '/' except for the root ".";
      an absent `mayBeRemoved` property is `false` here. */
  datatype Directory = Directory(dirname: string, mayBeRemoved: bool)

  const Added: string := "added"
  const Removed: string := "removed"
  const Renamed: string := "renamed"

  const Root: string := "."
  const RootDirectory: Directory := Directory(Root, false)

  // ---------------------------------------------------------------------------
  // Rename split (spritRenamedFiles)

  /** A rename whose previous file name is present and non-empty. */
  predicate SplitsOnRename(f: File)
  {
    f.status == Renamed && f.previousFilename.Some? && f.previousFilename.value != ""
  }

  /** What one record becomes: a splitting rename turns into an addition at
      the new name followed by a removal at the old one. */
  function SplitRename(f: File): seq<File>
  {
    if SplitsOnRename(f) then [File(f.filename, Added, None), File(f.previousFilename.value, Removed, None)]
    else [f]
  }

  /** `spritRenamedFiles`: every record replaced by its split, in order. */
  function SplitRenamedFiles(files: seq<File>): (r: seq<File>)
    ensures forall g :: g in r ==> !SplitsOnRename(g)
    ensures |r| >= |files|
  {
    if files == [] then [] else SplitRename(files[0]) + SplitRenamedFiles(files[1..])
  }

  /** No record is lost or invented: a record is in the result exactly when
      it is part of the split of a record of `files`. */
  lemma {:induction false} SplitRenamedFilesMembers(files: seq<File>)
    ensures forall g :: g in SplitRenamedFiles(files) <==> exists f :: f in files && g in SplitRename(f)
  {
    if files != [] {
      SplitRenamedFilesMembers(files[1..]);
      assert forall f :: f in files <==> f == files[0] || f in files[1..];
    }
  }

  /** Splitting distributes over concatenation. */
  lemma {:induction false} SplitRenamedFilesConcat(a: seq<File>, b: seq<File>)
    ensures SplitRenamedFiles(a + b) == SplitRenamedFiles(a) + SplitRenamedFiles(b)
  {
    if a != [] {
      assert (a + b)[0] == a[0] && (a + b)[1..] == a[1..] + b;
      SplitRenamedFilesConcat(a[1..], b);
      calc {
        SplitRenamedFiles(a + b);
        SplitRename(a[0]) + SplitRenamedFiles(a[1..] + b);
        SplitRename(a[0]) + (SplitRenamedFiles(a[1..]) + SplitRenamedFiles(b));
        SplitRenamedFiles(a) + SplitRenamedFiles(b);
      }
    } else {
      assert a + b == b;
    }
  }

  /** A record in the middle of the list is replaced by its own split, the
      records around it are split independently and keep their places. */
  lemma SplitRenamedFilesAt(xs: seq<File>, f: File, ys: seq<File>)
    ensures SplitRenamedFiles(xs + [f] + ys)
         == SplitRenamedFiles(xs)
            + (if SplitsOnRename(f)
               then [File(f.filename, Added, None), File(f.previousFilename.value, Removed, None)]
               else [f])
            + SplitRenamedFiles(ys)
  {
    assert SplitRenamedFiles([f]) == SplitRename(f) by {
      assert [f][1..] == [];
    }
    SplitRenamedFilesConcat(xs + [f], ys);
    SplitRenamedFilesConcat(xs, [f]);
    assert SplitRenamedFiles(xs + [f] + ys) == SplitRenamedFiles(xs) + SplitRename(f) + SplitRenamedFiles(ys);
  }

  /** A list with no splitting rename is left as it is. */
  lemma {:induction false} SplitRenamedFilesUnchanged(files: seq<File>)
    requires forall g :: g in files ==> !SplitsOnRename(g)
    ensures SplitRenamedFiles(files) == files
  {
    if files != [] {
      assert files[0] in files;
      SplitRenamedFilesUnchanged(files[1..]);
    }
  }

  /** Splitting twice is splitting once. */
  lemma SplitRenamedFilesIdempotent(files: seq<File>)
    ensures SplitRenamedFiles(SplitRenamedFiles(files)) == SplitRenamedFiles(files)
  {
    SplitRenamedFilesUnchanged(SplitRenamedFiles(files));
  }

  // ---------------------------------------------------------------------------
  // Visits: each step of the inner walk, as (directory name, file removed?)

  datatype Visit = Visit(dirname: string, removed: bool)

  /** One visit per directory in `dirs`, named with the trailing '/'. */
  function VisitsOf(dirs: seq<string>, removed: bool): (vs: seq<Visit>)
    ensures |vs| == |dirs|
  {
    seq(|dirs|, k requires 0 <= k < |dirs| => Visit(dirs[k] + "/", removed))
  }

  /** The visits the walk makes for one file. */
  function FileVisits(f: File): seq<Visit>
  {
    VisitsOf(Ancestors(f.filename), f.status == Removed)
  }

  /** The visits the walk makes for a list of files, in order. */
  function Visits(files: seq<File>): seq<Visit>
  {
    if files == [] then [] else Visits(files[..|files| - 1]) + FileVisits(files[|files| - 1])
  }

  // ---------------------------------------------------------------------------
  // The directory list and one visit to it (find, push, delete mayBeRemoved)

  function Names(dirs: seq<Directory>): set<string>
  {
    set d | d in dirs :: d.dirname
  }

  predicate DistinctNames(dirs: seq<Directory>)
  {
    forall i, j :: 0 <= i < j < |dirs| ==> dirs[i].dirname != dirs[j].dirname
  }

  /** `directories.find(d => d.dirname === dirname)`, as the index of the
      first record with that name. */
  function Find(dirs: seq<Directory>, dirname: string): (r: Option<nat>)
    ensures r.None? <==> forall k :: 0 <= k < |dirs| ==> dirs[k].dirname != dirname
    ensures r.Some? ==> r.value < |dirs| && dirs[r.value].dirname == dirname
                        && forall k :: 0 <= k < r.value ==> dirs[k].dirname != dirname
  {
    if dirs == [] then None
    else if dirs[0].dirname == dirname then Some(0)
    else match Find(dirs[1..], dirname)
      case None => None
      case Some(i) => Some(i + 1)
  }

  /** One visit: a new directory is pushed, flagged iff the file was removed;
      a flagged directory loses its flag when the file was not removed;
      anything else is left alone. */
  function Touch(dirs: seq<Directory>, v: Visit): seq<Directory>
  {
    match Find(dirs, v.dirname)
    case None => dirs + [Directory(v.dirname, v.removed)]
    case Some(i) =>
      if dirs[i].mayBeRemoved && !v.removed then dirs[i := dirs[i].(mayBeRemoved := false)]
      else dirs
  }

  /** A visit adds its directory's name and no other; records keep their
      places and names; a flag is never set on a record already there, so a
      cleared flag stays cleared; a removal visiting a known directory changes
      nothing. */
  lemma TouchEffect(dirs: seq<Directory>, v: Visit)
    ensures Names(Touch(dirs, v)) == Names(dirs) + {v.dirname}
    ensures DistinctNames(dirs) ==> DistinctNames(Touch(dirs, v))
    ensures |Touch(dirs, v)| >= |dirs|
    ensures forall k :: 0 <= k < |dirs| ==>
      Touch(dirs, v)[k].dirname == dirs[k].dirname && (Touch(dirs, v)[k].mayBeRemoved ==> dirs[k].mayBeRemoved)
    ensures v.removed && v.dirname in Names(dirs) ==> Touch(dirs, v) == dirs
  {
    var r := Touch(dirs, v);
    match Find(dirs, v.dirname)
    case None =>
      assert forall d :: d in r <==> d in dirs || d == Directory(v.dirname, v.removed);
    case Some(i) =>
      if dirs[i].mayBeRemoved && !v.removed {
        forall n | n in Names(r) ensures n in Names(dirs) {
          var k :| 0 <= k < |r| && r[k].dirname == n;
          assert dirs[k] in dirs;
        }
        forall n | n in Names(dirs) ensures n in Names(r) {
          var k :| 0 <= k < |dirs| && dirs[k].dirname == n;
          assert r[k] in r;
        }
      }
  }

  /** The list after the visits `vs`, starting from `dirs`. */
  function VisitAll(dirs: seq<Directory>, vs: seq<Visit>): seq<Directory>
  {
    if vs == [] then dirs else Touch(VisitAll(dirs, vs[..|vs| - 1]), vs[|vs| - 1])
  }

  // ---------------------------------------------------------------------------
  // Sorting by dirname (Array.prototype.sort with `a.dirname > b.dirname ? 1 : -1`)

  predicate StrictlySorted(dirs: seq<Directory>)
  {
    forall i, j :: 0 <= i < j < |dirs| ==> Below(dirs[i].dirname, dirs[j].dirname)
  }

  /** `d` placed after the records whose names are below its own. */
  function Insert(d: Directory, dirs: seq<Directory>): (r: seq<Directory>)
    ensures multiset(r) == multiset(dirs) + multiset{d}
  {
    if dirs == [] then [d]
    else
      assert dirs == [dirs[0]] + dirs[1..];
      if Below(dirs[0].dirname, d.dirname) then [dirs[0]] + Insert(d, dirs[1..])
    else [d] + dirs
  }

  function SortByDirname(dirs: seq<Directory>): (r: seq<Directory>)
    ensures multiset(r) == multiset(dirs)
  {
    if dirs == [] then []
    else
      assert dirs == [dirs[0]] + dirs[1..];
      Insert(dirs[0], SortByDirname(dirs[1..]))
  }

  lemma {:induction false} InsertSorted(d: Directory, dirs: seq<Directory>)
    requires StrictlySorted(dirs)
    requires forall e :: e in dirs ==> e.dirname != d.dirname
    ensures StrictlySorted(Insert(d, dirs))
  {
    if dirs != [] {
      var r := Insert(d, dirs);
      if Below(dirs[0].dirname, d.dirname) {
        var rest := Insert(d, dirs[1..]);
        InsertSorted(d, dirs[1..]);
        forall k | 0 <= k < |rest| ensures Below(dirs[0].dirname, rest[k].dirname) {
          assert rest[k] in multiset(rest);
          if rest[k] != d {
            assert rest[k] in dirs[1..];
          }
        }
      } else {
        BelowTotal(dirs[0].dirname, d.dirname);
        forall k | 0 <= k < |dirs| ensures Below(d.dirname, dirs[k].dirname) {
          if k > 0 {
            BelowTransitive(d.dirname, dirs[0].dirname, dirs[k].dirname);
          }
        }
      }
    }
  }

  /** With distinct names the sort yields the strictly ascending arrangement. */
  lemma {:induction false} SortByDirnameSorted(dirs: seq<Directory>)
    requires DistinctNames(dirs)
    ensures StrictlySorted(SortByDirname(dirs))
  {
    if dirs != [] {
      SortByDirnameSorted(dirs[1..]);
      var rest := SortByDirname(dirs[1..]);
      forall e | e in rest ensures e.dirname != dirs[0].dirname {
        assert e in multiset(dirs[1..]);
        var k :| 0 <= k < |dirs[1..]| && dirs[1..][k] == e;
      }
      InsertSorted(dirs[0], rest);
    }
  }

  // ---------------------------------------------------------------------------
  // getChangedDirectories

  /** The reference result: the root record, every visit applied in order,
      then sorted. */
  function ChangedDirectories(files: seq<File>): seq<Directory>
  {
    SortByDirname(VisitAll([RootDirectory], Visits(SplitRenamedFiles(files))))
  }

  /** One more step of the walk is one more visit. */
  lemma WalkStep(done: seq<Visit>, walked: seq<string>, current: string, removed: bool)
    ensures VisitAll([RootDirectory], done + VisitsOf(walked + [current], removed))
         == Touch(VisitAll([RootDirectory], done + VisitsOf(walked, removed)), Visit(current + "/", removed))
  {
    var before := done + VisitsOf(walked, removed);
    var v := Visit(current + "/", removed);
    assert VisitsOf(walked + [current], removed) == VisitsOf(walked, removed) + [v];
    assert done + VisitsOf(walked + [current], removed) == before + [v];
    assert (before + [v])[..|before|] == before;
  }

  /** One more step up from `child` extends the walked prefix of the
      ancestors by its parent. */
  lemma WalkUp(walked: seq<string>, child: string, filename: string)
    requires walked + Ancestors(child) == Ancestors(filename)
    requires Dirname(child) != "." && Dirname(child) != "/"
    ensures (walked + [Dirname(child)]) + Ancestors(Dirname(child)) == Ancestors(filename)
  {
    var d := Dirname(child);
    assert Ancestors(child) == [d] + Ancestors(d);
    assert walked + ([d] + Ancestors(d)) == (walked + [d]) + Ancestors(d);
  }

  /** A finished walk adds the file's visits. */
  lemma WalkDone(files: seq<File>, i: nat)
    requires i < |files|
    ensures Visits(files[..i]) + FileVisits(files[i]) == Visits(files[..i + 1])
  {
    assert files[..i + 1][..i] == files[..i];
  }

  /** `getChangedDirectories`: the directory list is built by walking up from
      every file of the split list, then sorted. */
  method GetChangedDirectories(files: seq<File>) returns (directories: seq<Directory>)
    ensures directories == ChangedDirectories(files)
    ensures DescribesChanges(directories, SplitRenamedFiles(files))
    ensures RootDirectory in directories
  {
    directories := [RootDirectory];
    var split := SplitRenamedFiles(files);
    for i := 0 to |split|
      invariant directories == VisitAll([RootDirectory], Visits(split[..i]))
    {
      var file := split[i];
      var removed := file.status == Removed;
      var current := file.filename;
      ghost var walked: seq<string> := [];
      assert Visits(split[..i]) + VisitsOf(walked, removed) == Visits(split[..i]);
      while true
        invariant walked + Ancestors(current) == Ancestors(file.filename)
        invariant directories == VisitAll([RootDirectory], Visits(split[..i]) + VisitsOf(walked, removed))
        decreases |current|
      {
        ghost var child := current;
        current := Dirname(current);
        if current == Root || current == "/" {
          assert Ancestors(child) == [];
          assert walked == Ancestors(file.filename);
          break;
        }
        WalkUp(walked, child, file.filename);
        var dirname := current + "/";
        WalkStep(Visits(split[..i]), walked, current, removed);
        var found := Find(directories, dirname);
        if found.None? {
          directories := directories + [Directory(dirname, removed)];
        } else if directories[found.value].mayBeRemoved && !removed {
          directories := directories[found.value := directories[found.value].(mayBeRemoved := false)];
        }
        walked := walked + [current];
      }
      assert VisitsOf(walked, removed) == FileVisits(file);
      WalkDone(split, i);
    }
    assert split[..|split|] == split;
    ChangedDirectoriesCorrect(files);
    directories := SortByDirname(directories);
  }

  // ---------------------------------------------------------------------------
  // What the result means

  /** The directory name `d` is `a + "/"` for a directory `a` the walk visits
      for the file `f`. */
  predicate Touches(f: File, d: string)
  {
    |d| > 0 && d[|d| - 1] == '/' && d[..|d| - 1] in Ancestors(f.filename)
  }

  predicate Touched(files: seq<File>, d: string)
  {
    exists f :: f in files && Touches(f, d)
  }

  /** Every file of `files` whose walk visits `d` was removed. */
  predicate OnlyRemovals(files: seq<File>, d: string)
  {
    forall f :: f in files && Touches(f, d) ==> f.status == Removed
  }

  /** `dirs` is the inferred directory list of the (split) `files`: sorted
      with no repeated name; the root plus every touched directory and
      nothing else; flagged exactly when every file touching it was removed. */
  ghost predicate DescribesChanges(dirs: seq<Directory>, files: seq<File>)
  {
    StrictlySorted(dirs)
    && (forall name :: name in Names(dirs) <==> name == Root || Touched(files, name))
    && (forall d :: d in dirs ==> (d.mayBeRemoved <==> d.dirname != Root && OnlyRemovals(files, d.dirname)))
  }

  /** The list after the visits `vs`: distinct names, the root and the
      visited names, flagged exactly when every visit of the name was a
      removal. */
  ghost predicate Reflects(dirs: seq<Directory>, vs: seq<Visit>)
  {
    DistinctNames(dirs)
    && (forall name :: name in Names(dirs) <==> name == Root || exists v :: v in vs && v.dirname == name)
    && (forall d :: d in dirs ==>
          (d.mayBeRemoved <==> d.dirname != Root && forall v :: v in vs && v.dirname == d.dirname ==> v.removed))
  }

  lemma TouchReflects(dirs: seq<Directory>, vs: seq<Visit>, v: Visit)
    requires Reflects(dirs, vs)
    requires v.dirname != Root
    ensures Reflects(Touch(dirs, v), vs + [v])
  {
    var r := Touch(dirs, v);
    TouchEffect(dirs, v);
    var vs' := vs + [v];
    forall name ensures name in Names(r) <==> name == Root || exists w :: w in vs' && w.dirname == name {
      if exists w :: w in vs' && w.dirname == name {
        var w :| w in vs' && w.dirname == name;
        if w != v {
          assert w in vs;
        }
      }
      if exists w :: w in vs && w.dirname == name {
        var w :| w in vs && w.dirname == name;
        assert w in vs';
      }
    }
    forall d | d in r
      ensures d.mayBeRemoved <==> d.dirname != Root && forall w :: w in vs' && w.dirname == d.dirname ==> w.removed
    {
      var k :| 0 <= k < |r| && r[k] == d;
      match Find(dirs, v.dirname)
      case None =>
        if k < |dirs| {
          assert dirs[k] in dirs;
        } else {
          assert d == Directory(v.dirname, v.removed);
          assert v.dirname !in Names(dirs);
        }
      case Some(i) =>
        assert dirs[k] in dirs;
        if k != i {
          assert dirs[k].dirname != dirs[i].dirname;
        }
    }
  }

  lemma {:induction false} VisitAllReflects(vs: seq<Visit>)
    requires forall v :: v in vs ==> v.dirname != Root
    ensures Reflects(VisitAll([RootDirectory], vs), vs)
  {
    if vs == [] {
      assert Names([RootDirectory]) == {Root};
    } else {
      var init := vs[..|vs| - 1];
      assert vs == init + [vs[|vs| - 1]];
      assert forall v :: v in init ==> v in vs;
      VisitAllReflects(init);
      TouchReflects(VisitAll([RootDirectory], init), init, vs[|vs| - 1]);
    }
  }

  /** A visit of the walk for one file is a directory it touches, carrying
      whether the file was removed. */
  lemma FileVisitsOfFile(f: File, v: Visit)
    ensures v in FileVisits(f) <==> Touches(f, v.dirname) && v.removed == (f.status == Removed)
  {
    var ancestors := Ancestors(f.filename);
    var vs := FileVisits(f);
    if v in vs {
      var k :| 0 <= k < |vs| && vs[k] == v;
      assert v.dirname[..|v.dirname| - 1] == ancestors[k];
    }
    if Touches(f, v.dirname) && v.removed == (f.status == Removed) {
      var k :| 0 <= k < |ancestors| && ancestors[k] == v.dirname[..|v.dirname| - 1];
      assert v.dirname == ancestors[k] + "/";
      assert vs[k] == v;
    }
  }

  /** A visit of the walk for `files` is exactly a directory touched by one of
      them, carrying whether that file was removed. */
  lemma {:induction false} VisitsOfFiles(files: seq<File>, v: Visit)
    ensures v in Visits(files) <==>
      exists f :: f in files && Touches(f, v.dirname) && v.removed == (f.status == Removed)
  {
    if files != [] {
      var init := files[..|files| - 1];
      var last := files[|files| - 1];
      assert files == init + [last];
      assert Visits(files) == Visits(init) + FileVisits(last);
      VisitsOfFiles(init, v);
      FileVisitsOfFile(last, v);
      if exists f :: f in files && Touches(f, v.dirname) && v.removed == (f.status == Removed) {
        var f :| f in files && Touches(f, v.dirname) && v.removed == (f.status == Removed);
        if f != last {
          assert f in init;
        }
      }
    }
  }

  /** Sorting keeps exactly the records it was given. */
  lemma SortByDirnameMembers(dirs: seq<Directory>)
    ensures forall d :: d in SortByDirname(dirs) <==> d in dirs
  {
    forall d ensures d in SortByDirname(dirs) <==> d in dirs {
      assert d in SortByDirname(dirs) <==> d in multiset(SortByDirname(dirs));
    }
  }

  /** The visited names are exactly the touched ones. */
  lemma VisitsTouched(files: seq<File>)
    ensures forall name :: (exists v :: v in Visits(files) && v.dirname == name) <==> Touched(files, name)
  {
    forall name ensures (exists v :: v in Visits(files) && v.dirname == name) <==> Touched(files, name) {
      if Touched(files, name) {
        var f :| f in files && Touches(f, name);
        VisitsOfFiles(files, Visit(name, f.status == Removed));
      }
      if exists v :: v in Visits(files) && v.dirname == name {
        var v :| v in Visits(files) && v.dirname == name;
        VisitsOfFiles(files, v);
      }
    }
  }

  /** Every visit of `name` is a removal exactly when every file touching
      it was removed. */
  lemma VisitsOnlyRemovals(files: seq<File>, name: string)
    ensures (forall v :: v in Visits(files) && v.dirname == name ==> v.removed) <==> OnlyRemovals(files, name)
  {
    if !OnlyRemovals(files, name) {
      var f :| f in files && Touches(f, name) && f.status != Removed;
      VisitsOfFiles(files, Visit(name, false));
    }
    forall v | v in Visits(files) && v.dirname == name && OnlyRemovals(files, name) ensures v.removed {
      VisitsOfFiles(files, v);
    }
  }

  /** getChangedDirectories computes the described list, and the root record
      is in it, unflagged. */
  lemma ChangedDirectoriesCorrect(files: seq<File>)
    ensures DescribesChanges(ChangedDirectories(files), SplitRenamedFiles(files))
    ensures RootDirectory in ChangedDirectories(files)
  {
    var split := SplitRenamedFiles(files);
    var vs := Visits(split);
    forall v | v in vs ensures v.dirname != Root {
      VisitsOfFiles(split, v);
      var f :| f in split && Touches(f, v.dirname) && v.removed == (f.status == Removed);
    }
    VisitAllReflects(vs);
    var unsorted := VisitAll([RootDirectory], vs);
    var dirs := ChangedDirectories(files);
    SortByDirnameSorted(unsorted);
    SortByDirnameMembers(unsorted);
    assert Names(dirs) == Names(unsorted);
    VisitsTouched(split);
    forall d | d in dirs
      ensures (forall v :: v in vs && v.dirname == d.dirname ==> v.removed) <==> OnlyRemovals(split, d.dirname)
    {
      VisitsOnlyRemovals(split, d.dirname);
    }
    assert Root in Names(dirs);
    var root :| root in dirs && root.dirname == Root;
    assert root == RootDirectory;
  }

  /** Two strictly sorted lists with the same records are the same list. */
  lemma {:induction false} SortedWithSameRecords(a: seq<Directory>, b: seq<Directory>)
    requires StrictlySorted(a) && StrictlySorted(b)
    requires forall d :: d in a <==> d in b
    ensures a == b
    decreases |a|
  {
    SameMembersEmpty(a, b);
    if a != [] {
      if a[0] != b[0] {
        assert a[0] in b && b[0] in a;
        var i :| 0 <= i < |b| && b[i] == a[0];
        var j :| 0 <= j < |a| && a[j] == b[0];
        assert Below(b[0].dirname, b[i].dirname);
        assert Below(a[0].dirname, a[j].dirname);
        BelowAsymmetric(b[0].dirname, a[0].dirname);
      }
      assert a == [a[0]] + a[1..] && b == [b[0]] + b[1..];
      forall d ensures d in a[1..] <==> d in b[1..] {
        if d in a[1..] {
          TailMember(a, b, d);
        }
        if d in b[1..] {
          TailMember(b, a, d);
        }
      }
      SortedWithSameRecords(a[1..], b[1..]);
      assert a == [a[0]] + a[1..] && b == [b[0]] + b[1..];
    }
  }

  lemma SameMembersEmpty(a: seq<Directory>, b: seq<Directory>)
    requires forall d :: d in a <==> d in b
    ensures a == [] <==> b == []
  {
    if a != [] {
      assert a[0] in b;
    }
    if b != [] {
      assert b[0] in a;
    }
  }

  lemma TailMember(a: seq<Directory>, b: seq<Directory>, d: Directory)
    requires StrictlySorted(a) && a != [] && b != [] && a[0] == b[0]
    requires forall e :: e in a ==> e in b
    requires d in a[1..]
    ensures d in b[1..]
  {
    var k :| 0 <= k < |a[1..]| && a[1..][k] == d;
    assert d == a[k + 1];
    assert Below(a[0].dirname, d.dirname);
    BelowIrreflexive(a[0].dirname);
    assert d in b;
    var m :| 0 <= m < |b| && b[m] == d;
    assert b[1..][m - 1] == d;
  }

  /** The description determines the list: whatever satisfies it is the
      result of getChangedDirectories. */
  lemma DescriptionIsUnique(a: seq<Directory>, b: seq<Directory>, files: seq<File>)
    requires DescribesChanges(a, files) && DescribesChanges(b, files)
    ensures a == b
  {
    forall d | d in a ensures d in b {
      assert d.dirname in Names(a);
      assert d.dirname in Names(b);
      var e :| e in b && e.dirname == d.dirname;
    }
    forall d | d in b ensures d in a {
      assert d.dirname in Names(b);
      assert d.dirname in Names(a);
      var e :| e in a && e.dirname == d.dirname;
    }
    SortedWithSameRecords(a, b);
  }

  /** Records that do not split keep their place between the splits of
      their neighbours. */
  lemma SplitRenamedFilesAround(xs: seq<File>, zs: seq<File>, ys: seq<File>)
    requires forall g :: g in zs ==> !SplitsOnRename(g)
    ensures SplitRenamedFiles(xs + zs + ys) == SplitRenamedFiles(xs) + zs + SplitRenamedFiles(ys)
  {
    SplitRenamedFilesConcat(xs + zs, ys);
    SplitRenamedFilesConcat(xs, zs);
    SplitRenamedFilesUnchanged(zs);
  }

  /** A rename is split exactly as an addition at the new name followed by a
      removal at the old one would be. */
  lemma RenameSplitsAsAddedThenRemoved(xs: seq<File>, ys: seq<File>, filename: string, previous: string)
    requires previous != ""
    ensures SplitRenamedFiles(xs + [File(filename, Renamed, Some(previous))] + ys)
         == SplitRenamedFiles(xs + [File(filename, Added, None), File(previous, Removed, None)] + ys)
  {
    var renamed := File(filename, Renamed, Some(previous));
    var pair := [File(filename, Added, None), File(previous, Removed, None)];
    SplitRenamedFilesAt(xs, renamed, ys);
    SplitRenamedFilesAround(xs, pair, ys);
  }

  /** A rename yields the same directories as an addition at the new name
      followed by a removal at the old one. */
  lemma RenameActsAsAddedThenRemoved(xs: seq<File>, ys: seq<File>, filename: string, previous: string)
    requires previous != ""
    ensures ChangedDirectories(xs + [File(filename, Renamed, Some(previous))] + ys)
         == ChangedDirectories(xs + [File(filename, Added, None), File(previous, Removed, None)] + ys)
  {
    RenameSplitsAsAddedThenRemoved(xs, ys, filename, previous);
  }

  /** `dir` is `a + "/"` for a proper ancestor `a` of `filename` other than
      "." and "/". */
  predicate IsAncestorDirectory(dir: string, filename: string)
  {
    0 < |dir| <= |filename| && dir[|dir| - 1] == '/' && filename[..|dir|] == dir
    && dir[..|dir| - 1] != "." && dir[..|dir| - 1] != "/"
  }

  /** Every directory other than the root is an ancestor directory of a file
      of the split list. */
  lemma DirectoriesAreAncestors(files: seq<File>, d: Directory)
    requires d in ChangedDirectories(files) && d.dirname != Root
    ensures exists f :: f in SplitRenamedFiles(files) && IsAncestorDirectory(d.dirname, f.filename)
  {
    var split := SplitRenamedFiles(files);
    ChangedDirectoriesCorrect(files);
    assert d.dirname in Names(ChangedDirectories(files));
    var f :| f in split && Touches(f, d.dirname);
    TouchedIsAncestorDirectory(f, d.dirname);
  }

  lemma TouchedIsAncestorDirectory(f: File, dir: string)
    requires Touches(f, dir)
    ensures IsAncestorDirectory(dir, f.filename)
  {
    var a := dir[..|dir| - 1];
    AncestorsArePrefixes(f.filename);
    assert dir == a + "/";
    assert f.filename[..|a| + 1] == f.filename[..|a|] + [f.filename[|a|]];
  }

  /** A file touches exactly its ancestor directories: `a + "/"` for every
      proper ancestor `a` other than "." and "/". */
  lemma TouchesAncestorDirectories(f: File, dir: string)
    ensures Touches(f, dir) <==> |dir| > 1 && IsAncestorDirectory(dir, f.filename)
  {
    if Touches(f, dir) {
      AncestorsArePrefixes(f.filename);
      TouchedIsAncestorDirectory(f, dir);
    }
    if |dir| > 1 && IsAncestorDirectory(dir, f.filename) {
      var i := |dir| - 1;
      assert f.filename[i] == dir[i];
      assert f.filename[..i] == dir[..i];
      AncestorsComplete(f.filename, i);
    }
  }

  /** The names of the result are the root and the ancestor directories of
      the files of the split list, and nothing else. */
  lemma ChangedDirectoriesAreAncestors(files: seq<File>, name: string)
    ensures name in Names(ChangedDirectories(files))
        <==> name == Root || (|name| > 1 && exists f :: f in SplitRenamedFiles(files) && IsAncestorDirectory(name, f.filename))
  {
    ChangedDirectoriesCorrect(files);
    forall f | f in SplitRenamedFiles(files) ensures Touches(f, name) <==> |name| > 1 && IsAncestorDirectory(name, f.filename) {
      TouchesAncestorDirectories(f, name);
    }
  }

  /** The root comes first when every file name begins with a character
      above '.': the sort alone puts it there, nothing pins it. */
  lemma RootFirst(files: seq<File>)
    requires forall f :: f in SplitRenamedFiles(files) ==> f.filename != [] && '.' < f.filename[0]
    ensures ChangedDirectories(files) != [] && ChangedDirectories(files)[0] == RootDirectory
  {
    var dirs := ChangedDirectories(files);
    ChangedDirectoriesCorrect(files);
    var k :| 0 <= k < |dirs| && dirs[k] == RootDirectory;
    if k != 0 {
      var d := dirs[0];
      assert Below(d.dirname, Root);
      BelowIrreflexive(Root);
      BelowAsymmetric(d.dirname, Root);
      DirectoriesAreAncestors(files, d);
    }
  }

  /** Once a record has no flag, no later visit changes it: the flag is never
      set again on a directory already in the list. */
  lemma {:induction false} ClearedStaysCleared(dirs: seq<Directory>, ws: seq<Visit>, k: nat)
    requires k < |dirs| && !dirs[k].mayBeRemoved
    ensures k < |VisitAll(dirs, ws)| && VisitAll(dirs, ws)[k] == dirs[k]
  {
    if ws != [] {
      var init := ws[..|ws| - 1];
      ClearedStaysCleared(dirs, init, k);
      TouchEffect(VisitAll(dirs, init), ws[|ws| - 1]);
    }
  }
}
