/** The event tests, replayed on the model. Each scenario starts from a
    freshly formatted file system, performs the test's operations in order
    and returns the events the listener has received; its postcondition is
    what the test asserts about them. Path segments are parameters: the
    test's own names (`dir1`, `file1`, ...) are one instance, and only the
    distinctness the test's names have is assumed. */
module Scenarios {
  import opened Wrappers
  import opened Paths
  import opened Tree
  import opened Events
  import opened Igfs

  /** `create(p, overwrite).close()`: the create's events followed by the
      close of the empty file, or nothing at all when the create fails. */
  method CreateClosed(fs: FileSystem, p: Path, overwrite: bool) returns (r: Result<(), Error>)
    requires fs.Valid()
    modifies fs
    ensures fs.Valid()
    ensures CreateError(old(fs.nodes), p, overwrite).Some? ==>
      && r == Err(CreateError(old(fs.nodes), p, overwrite).value)
      && fs.nodes == old(fs.nodes) && fs.log == old(fs.log) && fs.pending == old(fs.pending)
      && fs.nextGen == old(fs.nextGen)
    ensures CreateError(old(fs.nodes), p, overwrite).None? ==>
      && p != Root
      && r == Ok(())
      && fs.nodes == CreatedNodes(old(fs.nodes), p, old(fs.nextGen))
      && fs.log == old(fs.log) + CreateEvents(old(fs.nodes), p) + [Closed(FileClosedWrite, p, 0)]
      && fs.pending == old(fs.pending) + CreatePurges(old(fs.nodes), p)
      && fs.nextGen == old(fs.nextGen) + 1
    ensures fs.streams == old(fs.streams)
  {
    var h := fs.Create(p, overwrite);
    if h.Err? {
      return Err(h.error);
    }
    ghost var created := fs.nodes;
    ghost var handed := fs.streams;
    CreatedNodesAt(old(fs.nodes), p, old(fs.nextGen), p);
    UpdateSame(created, p, File(0, old(fs.nextGen)));
    AddThenRemove(old(fs.streams), h.value, handed[h.value]);
    fs.Close(h.value);
    r := Ok(());
  }

  /** Storing the value a key already has changes nothing. */
  lemma UpdateSame<K, V>(m: map<K, V>, k: K, v: V)
    requires k in m && m[k] == v
    ensures m[k := v] == m
  {
  }

  /** Adding a fresh key and removing it again changes nothing. */
  lemma AddThenRemove<K, V>(m: map<K, V>, k: K, v: V)
    requires k !in m
    ensures m[k := v] - {k} == m
  {
  }


  // ---------------------------------------------------------------------
  // Operations that pass their checks, with what they log and leave given
  // by the caller
  //
  // Each wrapper below calls one operation. The caller passes the expected
  // events and tree as ghost parameters, already worked out by a lemma, so
  // that each scenario reasons about short literal logs rather than about
  // the operations' general postconditions.

  /** A `create(p, overwrite).close()` that passes its checks. */
  method CreateClosedOk(fs: FileSystem, p: Path, overwrite: bool, ghost evts: seq<Event>, ghost after: Nodes)
    requires fs.Valid() && p != Root && CreateError(fs.nodes, p, overwrite) == None
    requires CreateEvents(fs.nodes, p) == evts && CreatedNodes(fs.nodes, p, fs.nextGen) == after
    modifies fs
    ensures fs.Valid()
    ensures fs.nodes == after
    ensures fs.log == old(fs.log) + evts + [Closed(FileClosedWrite, p, 0)]
    ensures fs.pending == old(fs.pending) + CreatePurges(old(fs.nodes), p)
    ensures fs.nextGen == old(fs.nextGen) + 1
  {
    var _ := CreateClosed(fs, p, overwrite);
  }

  /** A `mkdirs(p)` that passes its checks. */
  method MkdirsOk(fs: FileSystem, p: Path, ghost evts: seq<Event>, ghost after: Nodes)
    requires fs.Valid() && MkdirsError(fs.nodes, p) == None
    requires DirCreatedEvents(MissingAncestors(fs.nodes, p)) == evts
    requires WithDirs(fs.nodes, MissingAncestors(fs.nodes, p)) == after
    modifies fs
    ensures fs.Valid()
    ensures fs.nodes == after
    ensures fs.log == old(fs.log) + evts
    ensures fs.pending == old(fs.pending) && fs.nextGen == old(fs.nextGen)
  {
    var _ := fs.Mkdirs(p);
  }

  /** A `rename(src, dst)` that passes its checks, moving `src`, a directory
      exactly when `isDir`, to `target`. */
  method RenameOk(fs: FileSystem, src: Path, dst: Path, ghost target: Path, ghost isDir: bool)
    requires fs.Valid() && RenameError(fs.nodes, src, dst) == None
    requires src != Root ==> RenameTarget(fs.nodes, src, dst) == target
    requires IsDir(fs.nodes, src) == isDir
    modifies fs
    ensures fs.Valid()
    ensures fs.nodes == Moved(old(fs.nodes), src, target)
    ensures fs.log == old(fs.log) + [Renamed(isDir, src, target)]
    ensures fs.pending == old(fs.pending) && fs.nextGen == old(fs.nextGen)
  {
    var _ := fs.Rename(src, dst);
  }

  /** A `delete(p, recursive)` of a directory that may go. */
  method DeleteDirOk(fs: FileSystem, p: Path, recursive: bool) returns (r: Result<bool, Error>)
    requires fs.Valid() && p != Root && IsDir(fs.nodes, p) && (recursive || !HasChildren(fs.nodes, p))
    modifies fs
    ensures fs.Valid()
    ensures r == Ok(true)
    ensures fs.nodes == Without(old(fs.nodes), p)
    ensures fs.log == old(fs.log) + [Simple(DirDeleted, p)]
    ensures fs.pending == old(fs.pending) && fs.nextGen == old(fs.nextGen)
  {
    r := fs.Delete(p, recursive);
  }

  /** A `delete(p, _)` of a file. */
  method DeleteFileOk(fs: FileSystem, p: Path, recursive: bool) returns (r: Result<bool, Error>)
    requires fs.Valid() && p != Root && IsFile(fs.nodes, p)
    modifies fs
    ensures fs.Valid()
    ensures r == Ok(true)
    ensures fs.nodes == old(fs.nodes) - {p}
    ensures fs.log == old(fs.log) + [Simple(FileDeleted, p)]
    ensures fs.pending == old(fs.pending) + [p] && fs.nextGen == old(fs.nextGen)
  {
    r := fs.Delete(p, recursive);
  }

  /** A file system as it is right after formatting. */
  ghost predicate Formatted(fs: FileSystem)
    reads fs
  {
    && fs.Valid() && fs.nodes == Empty() && fs.log == [] && fs.pending == []
    && fs.streams == map[] && fs.nextGen == 0 && fs.nextStream == 0
  }

  /** The file system every test starts from. */
  method Format() returns (fs: FileSystem)
    ensures fresh(fs) && Formatted(fs)
  {
    fs := new FileSystem();
  }

  // ---------------------------------------------------------------------
  // Trees the tests build

  /** `/f` created in an empty file system. */
  lemma CreateTopFile(f: Segment, overwrite: bool)
    ensures CreateError(Empty(), [f], overwrite) == None
    ensures CreateEvents(Empty(), [f]) == [Simple(FileCreated, [f]), Simple(FileOpenedWrite, [f])]
    ensures CreatePurges(Empty(), [f]) == []
    ensures var t := CreatedNodes(Empty(), [f], 0); [f] in t && t[[f]] == File(0, 0)
  {
    assert Parent([f]) == Root;
    CreatedNodesAt(Empty(), [f], 0, [f]);
  }

  /** `/d/f` created in an empty file system: `/d`, then the file. */
  lemma CreateFileInDir(d: Segment, f: Segment, overwrite: bool)
    ensures CreateError(Empty(), [d, f], overwrite) == None
    ensures CreateEvents(Empty(), [d, f]) ==
      [Simple(DirCreated, [d]), Simple(FileCreated, [d, f]), Simple(FileOpenedWrite, [d, f])]
    ensures CreatePurges(Empty(), [d, f]) == []
  {
    assert Parent([d, f]) == [d] && Parent([d]) == Root;
    NoFileOnPathEmpty([d]);
    assert MissingAncestors(Empty(), [d]) == [[d]];
  }

  /** `/a/b/f` created in an empty file system: `/a`, `/a/b`, then the file. */
  lemma CreateFileInDirs(a: Segment, b: Segment, f: Segment, overwrite: bool)
    ensures CreateError(Empty(), [a, b, f], overwrite) == None
    ensures CreateEvents(Empty(), [a, b, f]) ==
      [Simple(DirCreated, [a]), Simple(DirCreated, [a, b]),
       Simple(FileCreated, [a, b, f]), Simple(FileOpenedWrite, [a, b, f])]
    ensures CreatePurges(Empty(), [a, b, f]) == []
  {
    assert Parent([a, b, f]) == [a, b] && Parent([a, b]) == [a] && Parent([a]) == Root;
    NoFileOnPathEmpty([a, b]);
    assert MissingAncestors(Empty(), [a]) == [[a]];
    assert MissingAncestors(Empty(), [a, b]) == [[a], [a, b]];
  }

  /** `/a/b/c/f` created in an empty file system: its three ancestors,
      root to leaf, then the file. */
  lemma CreateFileInThreeDirs(a: Segment, b: Segment, c: Segment, f: Segment)
    ensures CreateError(Empty(), [a, b, c, f], true) == None
    ensures CreateEvents(Empty(), [a, b, c, f]) == [
      Simple(DirCreated, [a]), Simple(DirCreated, [a, b]), Simple(DirCreated, [a, b, c]),
      Simple(FileCreated, [a, b, c, f]), Simple(FileOpenedWrite, [a, b, c, f])]
    ensures CreatePurges(Empty(), [a, b, c, f]) == []
  {
    NoFileOnPathEmpty([a, b, c]);
    assert Parent([a]) == Root && Parent([a, b]) == [a] && Parent([a, b, c]) == [a, b];
    assert Parent([a, b, c, f]) == [a, b, c];
    assert MissingAncestors(Empty(), [a]) == [[a]];
    assert MissingAncestors(Empty(), [a, b]) == [[a], [a, b]];
  }

  /** `/d/f2` created next to `/d/f1`: only the file's own events. */
  lemma CreateSecondFile(d: Segment, f1: Segment, f2: Segment)
    requires f1 != f2
    ensures var t := CreatedNodes(Empty(), [d, f1], 0);
      && CreateError(t, [d, f2], true) == None
      && CreateEvents(t, [d, f2]) == [Simple(FileCreated, [d, f2]), Simple(FileOpenedWrite, [d, f2])]
      && CreatePurges(t, [d, f2]) == []
      && var t2 := CreatedNodes(t, [d, f2], 1);
         IsDir(t2, [d]) && IsFile(t2, [d, f1]) && IsFile(t2, [d, f2])
  {
    var t := CreatedNodes(Empty(), [d, f1], 0);
    assert Parent([d, f1]) == [d] && Parent([d, f2]) == [d] && Parent([d]) == Root;
    assert [d, f1] != [d, f2] by { assert [d, f1][1] != [d, f2][1]; }
    CreatedNodesAt(Empty(), [d, f1], 0, Root);
    CreatedNodesAt(Empty(), [d, f1], 0, [d]);
    CreatedNodesAt(Empty(), [d, f1], 0, [d, f2]);
    CreatedNodesAt(Empty(), [d, f1], 0, [d, f1]);
    assert NoFileOnPath(t, [d]);
    assert MissingAncestors(t, [d]) == [];
    CreatedNodesAt(t, [d, f2], 1, [d]);
    CreatedNodesAt(t, [d, f2], 1, [d, f1]);
    CreatedNodesAt(t, [d, f2], 1, [d, f2]);
  }

  /** `mkdirs(/d)` in an empty file system. */
  lemma MkdirsTop(d: Segment)
    ensures MkdirsError(Empty(), [d]) == None
    ensures MissingAncestors(Empty(), [d]) == [[d]]
    ensures DirCreatedEvents([[d]]) == [Simple(DirCreated, [d])]
    ensures var t := WithDirs(Empty(), [[d]]); forall q :: q in t <==> q == Root || q == [d]
    ensures var t := WithDirs(Empty(), [[d]]); forall q :: q in t ==> t[q] == Dir
  {
    assert Parent([d]) == Root;
    NoFileOnPathEmpty([d]);
    WithDirsEntries(Empty(), [[d]]);
  }

  /** `mkdirs(/a/b)` in an empty file system. */
  lemma MkdirsTwo(a: Segment, b: Segment)
    ensures MkdirsError(Empty(), [a, b]) == None
    ensures MissingAncestors(Empty(), [a, b]) == [[a], [a, b]]
    ensures DirCreatedEvents([[a], [a, b]]) == [Simple(DirCreated, [a]), Simple(DirCreated, [a, b])]
    ensures var t := WithDirs(Empty(), [[a], [a, b]]);
      forall q :: q in t <==> q == Root || q == [a] || q == [a, b]
    ensures var t := WithDirs(Empty(), [[a], [a, b]]); forall q :: q in t ==> t[q] == Dir
  {
    assert Parent([a, b]) == [a] && Parent([a]) == Root;
    NoFileOnPathEmpty([a, b]);
    assert MissingAncestors(Empty(), [a]) == [[a]];
    WithDirsEntries(Empty(), [[a], [a, b]]);
  }

  // ---------------------------------------------------------------------
  // testSingleFileNestedDirs

  /** In the tree holding `/a/b/c/f`, that file can be renamed to the absent
      `/a/b/c/m`, which is where it goes, and `/a/b` stays a directory. */
  lemma RenameInThreeDirs(a: Segment, b: Segment, c: Segment, f: Segment, m: Segment)
    requires f != m
    ensures var t := CreatedNodes(Empty(), [a, b, c, f], 0);
      && RenameError(t, [a, b, c, f], [a, b, c, m]) == None
      && RenameTarget(t, [a, b, c, f], [a, b, c, m]) == [a, b, c, m]
      && !IsDir(t, [a, b, c, f])
      && IsDir(Moved(t, [a, b, c, f], [a, b, c, m]), [a, b])
  {
    var file, moved := [a, b, c, f], [a, b, c, m];
    var t := CreatedNodes(Empty(), file, 0);
    assert Parent(file) == [a, b, c] && Parent(moved) == [a, b, c];
    CreatedNodesAt(Empty(), file, 0, moved);
    CreatedNodesAt(Empty(), file, 0, [a, b, c]);
    CreatedNodesAt(Empty(), file, 0, [a, b]);
    CreatedNodesAt(Empty(), file, 0, file);
    assert !IsPrefix(file, moved) by { assert moved[..|file|] != file by { assert moved[3] != file[3]; } }
    assert !IsPrefix(file, [a, b]);
    CreateFileInThreeDirs(a, b, c, f);
    CreateKeepsWellFormed(Empty(), file, true, 0);
    StaysOutside(t, file, moved, [a, b]);
  }

  /** The test's first step, `create(/a/b/c/f, true).close()`. */
  method CreateInThreeDirs(fs: FileSystem, a: Segment, b: Segment, c: Segment, f: Segment, m: Segment)
    requires f != m && Formatted(fs)
    modifies fs
    ensures fs.Valid()
    ensures fs.log == [
      Simple(DirCreated, [a]), Simple(DirCreated, [a, b]), Simple(DirCreated, [a, b, c]),
      Simple(FileCreated, [a, b, c, f]), Simple(FileOpenedWrite, [a, b, c, f]),
      Closed(FileClosedWrite, [a, b, c, f], 0)]
    ensures RenameError(fs.nodes, [a, b, c, f], [a, b, c, m]) == None
    ensures RenameTarget(fs.nodes, [a, b, c, f], [a, b, c, m]) == [a, b, c, m]
    ensures !IsDir(fs.nodes, [a, b, c, f])
    ensures IsDir(Moved(fs.nodes, [a, b, c, f], [a, b, c, m]), [a, b])
  {
    CreateFileInThreeDirs(a, b, c, f);
    RenameInThreeDirs(a, b, c, f, m);
    CreateClosedOk(fs, [a, b, c, f], true, [
      Simple(DirCreated, [a]), Simple(DirCreated, [a, b]), Simple(DirCreated, [a, b, c]),
      Simple(FileCreated, [a, b, c, f]), Simple(FileOpenedWrite, [a, b, c, f])],
      CreatedNodes(Empty(), [a, b, c, f], 0));
  }

  /** `testSingleFileNestedDirs`: creating `/a/b/c/f` logs its three
      ancestors, flagged as directories, then the file's creation, opening and
      empty close; the rename to `/a/b/c/m` logs one `FILE_RENAMED`, and the
      recursive delete of `/a/b`, which succeeds, one `DIR_DELETED`. */
  method SingleFileNestedDirs(a: Segment, b: Segment, c: Segment, f: Segment, m: Segment)
    returns (deleted: Result<bool, Error>, evts: seq<Event>)
    requires f != m
    ensures deleted == Ok(true)
    ensures evts == [
      Simple(DirCreated, [a]), Simple(DirCreated, [a, b]), Simple(DirCreated, [a, b, c]),
      Simple(FileCreated, [a, b, c, f]), Simple(FileOpenedWrite, [a, b, c, f]),
      Closed(FileClosedWrite, [a, b, c, f], 0),
      Renamed(false, [a, b, c, f], [a, b, c, m]),
      Simple(DirDeleted, [a, b])]
  {
    var fs := Format();
    CreateInThreeDirs(fs, a, b, c, f, m);
    RenameOk(fs, [a, b, c, f], [a, b, c, m], [a, b, c, m], false);
    deleted := DeleteDirOk(fs, [a, b], true);
    evts := fs.log;
  }

  // ---------------------------------------------------------------------
  // testDirWithFiles and testTwoFiles

  /** Both tests' first steps, `create(/d/f1, true).close()` and
      `create(/d/f2, true).close()`. */
  method CreateTwoFiles(fs: FileSystem, d: Segment, f1: Segment, f2: Segment)
    requires f1 != f2 && Formatted(fs)
    modifies fs
    ensures fs.Valid()
    ensures fs.log == [
      Simple(DirCreated, [d]),
      Simple(FileCreated, [d, f1]), Simple(FileOpenedWrite, [d, f1]), Closed(FileClosedWrite, [d, f1], 0),
      Simple(FileCreated, [d, f2]), Simple(FileOpenedWrite, [d, f2]), Closed(FileClosedWrite, [d, f2], 0)]
    ensures fs.pending == []
    ensures IsDir(fs.nodes, [d]) && IsFile(fs.nodes, [d, f1]) && IsFile(fs.nodes, [d, f2])
    ensures IsFile(fs.nodes - {[d, f1]}, [d, f2])
  {
    CreateFileInDir(d, f1, true);
    CreateSecondFile(d, f1, f2);
    var t := CreatedNodes(Empty(), [d, f1], 0);
    CreateClosedOk(fs, [d, f1], true,
      [Simple(DirCreated, [d]), Simple(FileCreated, [d, f1]), Simple(FileOpenedWrite, [d, f1])], t);
    CreateClosedOk(fs, [d, f2], true,
      [Simple(FileCreated, [d, f2]), Simple(FileOpenedWrite, [d, f2])], CreatedNodes(t, [d, f2], 1));
    assert [d, f1] != [d, f2] by { assert [d, f1][1] != [d, f2][1]; }
  }

  /** `testDirWithFiles`: `/d` is logged once, when the first file creates
      it; the recursive delete of `/d`, which succeeds, logs a single
      `DIR_DELETED` and nothing about the files inside. */
  method DirWithFiles(d: Segment, f1: Segment, f2: Segment) returns (deleted: Result<bool, Error>, evts: seq<Event>)
    requires f1 != f2
    ensures deleted == Ok(true)
    ensures evts == [
      Simple(DirCreated, [d]),
      Simple(FileCreated, [d, f1]), Simple(FileOpenedWrite, [d, f1]), Closed(FileClosedWrite, [d, f1], 0),
      Simple(FileCreated, [d, f2]), Simple(FileOpenedWrite, [d, f2]), Closed(FileClosedWrite, [d, f2], 0),
      Simple(DirDeleted, [d])]
  {
    var fs := Format();
    CreateTwoFiles(fs, d, f1, f2);
    deleted := DeleteDirOk(fs, [d], true);
    evts := fs.log;
  }

  /** Moving the element at `i` to just after position `j` keeps the
      multiset. */
  lemma MoveLater<T>(s: seq<T>, i: nat, j: nat, r: seq<T>)
    requires i < j < |s| && r == s[..i] + s[i + 1..j + 1] + [s[i]] + s[j + 1..]
    ensures multiset(r) == multiset(s)
  {
    assert s == s[..i] + [s[i]] + s[i + 1..j + 1] + s[j + 1..];
  }

  /** The deletions and purges of two files, purge timing aside. */
  function DeletedAndPurged(p1: Path, p2: Path, early: bool): seq<Event> {
    if early then
      [Simple(FileDeleted, p1), Simple(FilePurged, p1), Simple(FileDeleted, p2), Simple(FilePurged, p2)]
    else
      [Simple(FileDeleted, p1), Simple(FileDeleted, p2), Simple(FilePurged, p1), Simple(FilePurged, p2)]
  }

  /** The test's four predicates: each file deleted, each file purged. */
  function DeletedAndPurgedPredicates(p1: Path, p2: Path): seq<EventPredicate> {
    [EventPredicate(FileDeleted, p1), EventPredicate(FilePurged, p1),
     EventPredicate(FileDeleted, p2), EventPredicate(FilePurged, p2)]
  }

  /** For two different files no two of the predicates look for the same
      event. */
  lemma DeletedAndPurgedDistinct(p1: Path, p2: Path)
    requires p1 != p2
    ensures DistinctKeys(DeletedAndPurgedPredicates(p1, p2))
  {
    DistinctKeysOfPairwise(DeletedAndPurgedPredicates(p1, p2));
  }

  /** Either way, the events carry the types and paths the predicates look
      for. */
  lemma DeletedAndPurgedKeys(p1: Path, p2: Path, early: bool)
    ensures multiset(EventKeys(DeletedAndPurged(p1, p2, early)))
         == multiset(PredKeys(DeletedAndPurgedPredicates(p1, p2)))
  {
    var a, b, c, d := (FileDeleted, p1), (FilePurged, p1), (FileDeleted, p2), (FilePurged, p2);
    var keys := EventKeys(DeletedAndPurged(p1, p2, early));
    assert PredKeys(DeletedAndPurgedPredicates(p1, p2)) == [a, b, c, d];
    if early {
      assert keys == [a, b, c, d];
    } else {
      assert keys == [a, c, b, d];
      MoveLater([a, b, c, d], 1, 2, keys);
    }
  }

  /** Either way, the four events match the test's four predicates one to
      one. */
  lemma DeletedAndPurgedOneToOne(p1: Path, p2: Path, early: bool)
    requires p1 != p2
    ensures OneToOne(DeletedAndPurged(p1, p2, early), DeletedAndPurgedPredicates(p1, p2))
  {
    DeletedAndPurgedDistinct(p1, p2);
    DeletedAndPurgedKeys(p1, p2, early);
    OneToOneIffSameKeys(DeletedAndPurged(p1, p2, early), DeletedAndPurgedPredicates(p1, p2));
  }

  /** The queued purges, all performed. */
  method FlushOk(fs: FileSystem, ghost evts: seq<Event>)
    requires fs.Valid() && PurgedEvents(fs.pending) == evts
    modifies fs
    ensures fs.Valid()
    ensures fs.log == old(fs.log) + evts && fs.pending == []
    ensures fs.nodes == old(fs.nodes)
  {
    fs.FlushPurges();
  }

  /** The only queued purge, performed. */
  method PurgeOk(fs: FileSystem, ghost p: Path)
    requires fs.Valid() && fs.pending == [p]
    modifies fs
    ensures fs.Valid()
    ensures fs.log == old(fs.log) + [Simple(FilePurged, p)] && fs.pending == []
    ensures fs.nodes == old(fs.nodes) && fs.streams == old(fs.streams)
  {
    var _ := fs.Purge();
  }

  /** The test's last steps, `delete(p1, false)` and `delete(p2, false)` of
      two files, with the purge of `p1` before the second delete. */
  method DeleteBothEarly(fs: FileSystem, p1: Path, p2: Path) returns (deleted: seq<Result<bool, Error>>)
    requires fs.Valid() && fs.pending == [] && p1 != Root && p2 != Root
    requires IsFile(fs.nodes, p1) && IsFile(fs.nodes - {p1}, p2)
    modifies fs
    ensures deleted == [Ok(true), Ok(true)]
    ensures fs.log == old(fs.log) + DeletedAndPurged(p1, p2, true)
  {
    var r1 := DeleteFileOk(fs, p1, false);
    PurgeOk(fs, p1);
    var r2 := DeleteFileOk(fs, p2, false);
    deleted := [r1, r2];
    FlushOk(fs, [Simple(FilePurged, p2)]);
  }

  /** The same steps with both purges after the second delete. */
  method DeleteBothLate(fs: FileSystem, p1: Path, p2: Path) returns (deleted: seq<Result<bool, Error>>)
    requires fs.Valid() && fs.pending == [] && p1 != Root && p2 != Root
    requires IsFile(fs.nodes, p1) && IsFile(fs.nodes - {p1}, p2)
    modifies fs
    ensures deleted == [Ok(true), Ok(true)]
    ensures fs.log == old(fs.log) + DeletedAndPurged(p1, p2, false)
  {
    var r1 := DeleteFileOk(fs, p1, false);
    var r2 := DeleteFileOk(fs, p2, false);
    deleted := [r1, r2];
    FlushOk(fs, [Simple(FilePurged, p1), Simple(FilePurged, p2)]);
  }

  /** `testTwoFiles`: after both creates `/d`, `/d/f1` and `/d/f2` exist;
      each file's delete succeeds and logs `FILE_DELETED`, and each purge
      `FILE_PURGED`. The purge of `/d/f1` runs before the second delete when
      `early` holds and after it otherwise; either way the last four events
      match the test's predicates one to one. */
  method TwoFiles(d: Segment, f1: Segment, f2: Segment, early: bool)
    returns (found: seq<bool>, deleted: seq<Result<bool, Error>>, evts: seq<Event>)
    requires f1 != f2
    ensures found == [true, true, true]
    ensures deleted == [Ok(true), Ok(true)]
    ensures |evts| == 11
    ensures evts[..7] == [
      Simple(DirCreated, [d]),
      Simple(FileCreated, [d, f1]), Simple(FileOpenedWrite, [d, f1]), Closed(FileClosedWrite, [d, f1], 0),
      Simple(FileCreated, [d, f2]), Simple(FileOpenedWrite, [d, f2]), Closed(FileClosedWrite, [d, f2], 0)]
    ensures evts[7..] == DeletedAndPurged([d, f1], [d, f2], early)
    ensures OneToOne(evts[7..], DeletedAndPurgedPredicates([d, f1], [d, f2]))
  {
    var fs := Format();
    CreateTwoFiles(fs, d, f1, f2);
    var e1 := fs.Exists([d]);
    var e2 := fs.Exists([d, f1]);
    var e3 := fs.Exists([d, f2]);
    found := [e1, e2, e3];
    if early {
      deleted := DeleteBothEarly(fs, [d, f1], [d, f2]);
    } else {
      deleted := DeleteBothLate(fs, [d, f1], [d, f2]);
    }
    evts := fs.log;
    DeletedAndPurgedOneToOne([d, f1], [d, f2], early);
  }

  // ---------------------------------------------------------------------
  // testSingleEmptyDir, testDeleteNonRecursive and testNestedEmptyDirs

  /** A `delete(p, _)` of a path that does not exist. */
  method DeleteAbsent(fs: FileSystem, p: Path, recursive: bool) returns (r: Result<bool, Error>)
    requires fs.Valid() && p != Root && p !in fs.nodes
    modifies fs
    ensures fs.Valid()
    ensures r == Ok(false)
    ensures fs.nodes == old(fs.nodes) && fs.log == old(fs.log) && fs.pending == old(fs.pending)
  {
    r := fs.Delete(p, recursive);
  }

  /** A non-recursive `delete(p, false)` of a directory with entries. */
  method DeleteRefused(fs: FileSystem, p: Path) returns (r: Result<bool, Error>)
    requires fs.Valid() && p != Root && IsDir(fs.nodes, p) && HasChildren(fs.nodes, p)
    modifies fs
    ensures fs.Valid()
    ensures r == Err(DirectoryNotEmpty)
    ensures fs.nodes == old(fs.nodes) && fs.log == old(fs.log) && fs.pending == old(fs.pending)
  {
    r := fs.Delete(p, false);
  }

  /** In the tree holding only `/d`, the directory can be renamed to the
      absent `/m`, which is where it goes; afterwards `/d` is gone and `/m` is
      a directory. */
  lemma RenameTopDir(d: Segment, m: Segment)
    requires d != m
    ensures var t := WithDirs(Empty(), [[d]]);
      && RenameError(t, [d], [m]) == None
      && RenameTarget(t, [d], [m]) == [m]
      && IsDir(t, [d])
      && [d] !in Moved(t, [d], [m])
      && IsDir(Moved(t, [d], [m]), [m])
  {
    var t := WithDirs(Empty(), [[d]]);
    MkdirsTop(d);
    assert [m] != [d] by { assert [m][0] != [d][0]; }
    assert Parent([m]) == Root;
    assert !IsPrefix([d], [m]);
    MovedAt(t, [d], [m], [d]);
    MovedKey(t, [d], [m], [d]);
    assert Rebase([d], [d], [m]) == [m];
  }

  /** `testSingleEmptyDir`: `mkdirs(/d)` logs one `DIR_CREATED`, the rename
      to `/m` one `DIR_RENAMED` flagged as a directory; the recursive delete
      of the old path finds nothing and logs nothing, that of `/m` succeeds
      and logs `DIR_DELETED`. */
  method SingleEmptyDir(d: Segment, m: Segment) returns (deleted: seq<Result<bool, Error>>, evts: seq<Event>)
    requires d != m
    ensures deleted == [Ok(false), Ok(true)]
    ensures evts == [Simple(DirCreated, [d]), Renamed(true, [d], [m]), Simple(DirDeleted, [m])]
  {
    MkdirsTop(d);
    RenameTopDir(d, m);
    var fs := Format();
    MkdirsOk(fs, [d], [Simple(DirCreated, [d])], WithDirs(Empty(), [[d]]));
    RenameOk(fs, [d], [m], [m], true);
    var r1 := DeleteAbsent(fs, [d], true);
    var r2 := DeleteDirOk(fs, [m], true);
    deleted := [r1, r2];
    evts := fs.log;
  }

  /** In the tree `/a/b` that `mkdirs` builds, `/a` has an entry and `/a/b`
      none. */
  lemma TwoDirsChildren(a: Segment, b: Segment)
    ensures var t := WithDirs(Empty(), [[a], [a, b]]);
      && IsDir(t, [a]) && HasChildren(t, [a])
      && IsDir(t, [a, b]) && !HasChildren(t, [a, b])
  {
    var t := WithDirs(Empty(), [[a], [a, b]]);
    MkdirsTwo(a, b);
    assert Parent([a, b]) == [a] && Parent([a]) == Root;
  }

  /** `testDeleteNonRecursive`: `mkdirs(/a/b)` logs both directories; the
      non-recursive delete of `/a` is refused and logs nothing; that of the
      empty `/a/b` succeeds and logs `DIR_DELETED`. */
  method DeleteNonRecursive(a: Segment, b: Segment) returns (deleted: seq<Result<bool, Error>>, evts: seq<Event>)
    ensures deleted == [Err(DirectoryNotEmpty), Ok(true)]
    ensures evts == [Simple(DirCreated, [a]), Simple(DirCreated, [a, b]), Simple(DirDeleted, [a, b])]
  {
    MkdirsTwo(a, b);
    TwoDirsChildren(a, b);
    var fs := Format();
    MkdirsOk(fs, [a, b], [Simple(DirCreated, [a]), Simple(DirCreated, [a, b])], WithDirs(Empty(), [[a], [a, b]]));
    var r1 := DeleteRefused(fs, [a]);
    var r2 := DeleteDirOk(fs, [a, b], false);
    deleted := [r1, r2];
    evts := fs.log;
  }

  /** `testNestedEmptyDirs`: `/a` does not exist at first; `mkdirs(/a/b)`
      logs both directories, and the recursive delete of `/a` succeeds and
      logs a single `DIR_DELETED`. */
  method NestedEmptyDirs(a: Segment, b: Segment) returns (found: bool, deleted: Result<bool, Error>, evts: seq<Event>)
    ensures !found
    ensures deleted == Ok(true)
    ensures evts == [Simple(DirCreated, [a]), Simple(DirCreated, [a, b]), Simple(DirDeleted, [a])]
  {
    MkdirsTwo(a, b);
    TwoDirsChildren(a, b);
    var fs := Format();
    found := fs.Exists([a]);
    MkdirsOk(fs, [a, b], [Simple(DirCreated, [a]), Simple(DirCreated, [a, b])], WithDirs(Empty(), [[a], [a, b]]));
    deleted := DeleteDirOk(fs, [a], true);
    evts := fs.log;
  }

  // ---------------------------------------------------------------------
  // testMoveFile

  /** In the tree holding `/a/b/f`, renaming the file to the directory `/a`
      moves it to `/a/f`, which is then an entry. */
  lemma RenameIntoDir(a: Segment, b: Segment, f: Segment)
    requires b != f
    ensures var t := CreatedNodes(Empty(), [a, b, f], 0);
      && RenameError(t, [a, b, f], [a]) == None
      && RenameTarget(t, [a, b, f], [a]) == [a, f]
      && !IsDir(t, [a, b, f])
      && [a, f] in Moved(t, [a, b, f], [a, f])
  {
    var file := [a, b, f];
    assert Parent(file) == [a, b] && Parent([a, f]) == [a] && Child([a], Name(file)) == [a, f];
    CreatedNodesAt(Empty(), file, 0, [a]);
    CreatedNodesAt(Empty(), file, 0, [a, f]);
    CreatedNodesAt(Empty(), file, 0, file);
    assert [a, f] != [a, b] by { assert [a, f][1] != [a, b][1]; }
    assert !IsPrefix([a, f], [a, b]);
    assert !IsPrefix(file, [a, f]);
    MovedKey(CreatedNodes(Empty(), file, 0), file, [a, f], file);
    assert Rebase(file, file, [a, f]) == [a, f];
  }

  /** The test's first step, `create(/a/b/f, true).close()`. */
  method CreateInTwoDirs(fs: FileSystem, a: Segment, b: Segment, f: Segment)
    requires b != f && Formatted(fs)
    modifies fs
    ensures fs.Valid()
    ensures fs.log == [
      Simple(DirCreated, [a]), Simple(DirCreated, [a, b]),
      Simple(FileCreated, [a, b, f]), Simple(FileOpenedWrite, [a, b, f]),
      Closed(FileClosedWrite, [a, b, f], 0)]
    ensures RenameError(fs.nodes, [a, b, f], [a]) == None
    ensures RenameTarget(fs.nodes, [a, b, f], [a]) == [a, f]
    ensures !IsDir(fs.nodes, [a, b, f])
    ensures [a, f] in Moved(fs.nodes, [a, b, f], [a, f])
  {
    CreateFileInDirs(a, b, f, true);
    RenameIntoDir(a, b, f);
    CreateClosedOk(fs, [a, b, f], true, [
      Simple(DirCreated, [a]), Simple(DirCreated, [a, b]),
      Simple(FileCreated, [a, b, f]), Simple(FileOpenedWrite, [a, b, f])],
      CreatedNodes(Empty(), [a, b, f], 0));
  }

  /** `testMoveFile`: creating `/a/b/f` logs `/a`, `/a/b` and the file's
      creation, opening and empty close; renaming it to the directory `/a`
      logs one `FILE_RENAMED` to `/a/f`, which then exists. */
  method MoveFile(a: Segment, b: Segment, f: Segment) returns (found: bool, evts: seq<Event>)
    requires b != f
    ensures found
    ensures evts == [
      Simple(DirCreated, [a]), Simple(DirCreated, [a, b]),
      Simple(FileCreated, [a, b, f]), Simple(FileOpenedWrite, [a, b, f]),
      Closed(FileClosedWrite, [a, b, f], 0),
      Renamed(false, [a, b, f], [a, f])]
  {
    var fs := Format();
    CreateInTwoDirs(fs, a, b, f);
    RenameOk(fs, [a, b, f], [a], [a, f], false);
    found := fs.Exists([a, f]);
    evts := fs.log;
  }

  // ---------------------------------------------------------------------
  // Streams

  /** A `create(p, overwrite)` that passes its checks, returning the handle
      of the new writing stream. */
  method CreateOk(fs: FileSystem, p: Path, overwrite: bool, ghost evts: seq<Event>, ghost after: Nodes,
                  ghost purges: seq<Path>)
    returns (h: nat)
    requires fs.Valid() && p != Root && CreateError(fs.nodes, p, overwrite) == None
    requires CreateEvents(fs.nodes, p) == evts && CreatedNodes(fs.nodes, p, fs.nextGen) == after
    requires CreatePurges(fs.nodes, p) == purges
    modifies fs
    ensures fs.Valid()
    ensures fs.nodes == after
    ensures fs.log == old(fs.log) + evts
    ensures fs.pending == old(fs.pending) + purges
    ensures h in fs.streams && fs.streams[h] == Stream(p, Writing, old(fs.nextGen), 0, 0)
    ensures fs.nextGen == old(fs.nextGen) + 1
  {
    var r := fs.Create(p, overwrite);
    h := r.value;
  }

  /** A `write` of `n` bytes on an open writing stream. */
  method WriteOk(fs: FileSystem, h: nat, n: nat, ghost s: Stream) returns (r: Result<(), Error>)
    requires fs.Valid() && h in fs.streams && fs.streams[h] == s && s.mode == Writing
    modifies fs
    ensures fs.Valid()
    ensures r == Ok(())
    ensures h in fs.streams && fs.streams[h] == s.(transferred := s.transferred + n)
    ensures fs.nodes == old(fs.nodes) && fs.log == old(fs.log) && fs.pending == old(fs.pending)
  {
    r := fs.Write(h, n);
  }

  /** The `close()` of an open writing stream whose file is still the one
      it created. */
  method CloseWriterOk(fs: FileSystem, h: nat, ghost s: Stream)
    requires fs.Valid() && h in fs.streams && fs.streams[h] == s && s.mode == Writing
    requires IsFile(fs.nodes, s.path) && fs.nodes[s.path].gen == s.gen
    modifies fs
    ensures fs.Valid()
    ensures fs.log == old(fs.log) + [Closed(FileClosedWrite, s.path, s.transferred)]
    ensures fs.nodes == old(fs.nodes)[s.path := File(s.transferred, s.gen)]
    ensures fs.pending == old(fs.pending)
  {
    fs.Close(h);
  }

  /** An `open(p, bufSize)` of an existing file. */
  method OpenOk(fs: FileSystem, p: Path, bufSize: nat) returns (h: nat)
    requires fs.Valid() && IsFile(fs.nodes, p)
    modifies fs
    ensures fs.Valid()
    ensures fs.nodes == old(fs.nodes) && fs.pending == old(fs.pending)
    ensures h in fs.streams && fs.streams[h] == Stream(p, Reading, fs.nodes[p].gen, fs.nodes[p].size, 0)
    ensures fs.log == old(fs.log) + [Simple(FileOpenedRead, p)]
  {
    var r := fs.Open(p, bufSize);
    h := r.value;
  }

  /** A `readFully(pos, buf)` of `len` bytes that lie within the file. */
  method ReadOk(fs: FileSystem, h: nat, pos: nat, len: nat, ghost s: Stream) returns (r: Result<(), Error>)
    requires fs.Valid() && h in fs.streams && fs.streams[h] == s && s.mode == Reading
    requires pos + len <= s.length
    modifies fs
    ensures fs.Valid()
    ensures r == Ok(())
    ensures h in fs.streams && fs.streams[h] == s.(transferred := s.transferred + len)
    ensures fs.nodes == old(fs.nodes) && fs.log == old(fs.log) && fs.pending == old(fs.pending)
  {
    r := fs.ReadFully(h, pos, len);
  }

  /** The `close()` of an open reading stream. */
  method CloseReaderOk(fs: FileSystem, h: nat, ghost s: Stream)
    requires fs.Valid() && h in fs.streams && fs.streams[h] == s && s.mode == Reading
    modifies fs
    ensures fs.Valid()
    ensures fs.log == old(fs.log) + [Closed(FileClosedRead, s.path, s.transferred)]
    ensures fs.nodes == old(fs.nodes) && fs.pending == old(fs.pending)
  {
    fs.Close(h);
  }

  // ---------------------------------------------------------------------
  // testSingleFileOverwrite

  /** Creating over the file `/f` with `overwrite` set passes its checks,
      replaces the file, logging its deletion first, and queues its purge;
      without `overwrite` it is refused. */
  lemma OverwriteTopFile(nodes: Nodes, f: Segment, gen: nat)
    requires WellFormed(nodes) && IsFile(nodes, [f])
    ensures CreateError(nodes, [f], true) == None
    ensures CreateError(nodes, [f], false) == Some(PathAlreadyExists)
    ensures CreateEvents(nodes, [f]) ==
      [Simple(FileDeleted, [f]), Simple(FileCreated, [f]), Simple(FileOpenedWrite, [f])]
    ensures CreatePurges(nodes, [f]) == [[f]]
    ensures IsFile(CreatedNodes(nodes, [f], gen), [f]) && CreatedNodes(nodes, [f], gen)[[f]].gen == gen
  {
    assert Parent([f]) == Root;
    assert NoFileOnPath(nodes, Root);
    assert MissingAncestors(nodes, Root) == [];
  }

  /** The test's first step, `create(/f, false).close()`. */
  method CreateTopFileSetup(fs: FileSystem, f: Segment)
    requires Formatted(fs)
    modifies fs
    ensures fs.Valid()
    ensures fs.log == [Simple(FileCreated, [f]), Simple(FileOpenedWrite, [f]), Closed(FileClosedWrite, [f], 0)]
    ensures fs.pending == [] && IsFile(fs.nodes, [f])
  {
    CreateTopFile(f, false);
    CreateClosedOk(fs, [f], false, [Simple(FileCreated, [f]), Simple(FileOpenedWrite, [f])],
      CreatedNodes(Empty(), [f], 0));
  }

  /** The events of replacing `/f` and closing the new, empty file, purge
      timing aside: the purge of the old file's data before the close when
      `early` holds, after it otherwise. */
  function OverwriteEvents(p: Path, early: bool): seq<Event> {
    [Simple(FileDeleted, p), Simple(FileCreated, p), Simple(FileOpenedWrite, p)]
    + if early then [Simple(FilePurged, p), Closed(FileClosedWrite, p, 0)]
      else [Closed(FileClosedWrite, p, 0), Simple(FilePurged, p)]
  }

  /** The test's five predicates, one per event the overwrite causes. */
  function OverwritePredicates(p: Path): seq<EventPredicate> {
    [EventPredicate(FileDeleted, p), EventPredicate(FilePurged, p), EventPredicate(FileCreated, p),
     EventPredicate(FileOpenedWrite, p), EventPredicate(FileClosedWrite, p)]
  }

  /** Either way, the five events match the test's five predicates one to
      one. */
  lemma OverwriteOneToOne(p: Path, early: bool)
    ensures OneToOne(OverwriteEvents(p, early), OverwritePredicates(p))
  {
    var ps := OverwritePredicates(p);
    var a, b, c, d, e := (FileDeleted, p), (FilePurged, p), (FileCreated, p), (FileOpenedWrite, p), (FileClosedWrite, p);
    var keys := EventKeys(OverwriteEvents(p, early));
    DistinctKeysOfPairwise(ps);
    assert PredKeys(ps) == [a, b, c, d, e];
    if early {
      assert keys == [a, c, d, b, e];
      MoveLater([a, b, c, d, e], 1, 3, keys);
    } else {
      assert keys == [a, c, d, e, b];
      MoveLater([a, b, c, d, e], 1, 4, keys);
    }
    OneToOneIffSameKeys(OverwriteEvents(p, early), ps);
  }

  /** `create(/f, true)` over the existing file, returning the new writing
      stream. */
  method Replace(fs: FileSystem, f: Segment) returns (h: nat, ghost s: Stream)
    requires fs.Valid() && fs.pending == [] && IsFile(fs.nodes, [f])
    modifies fs
    ensures fs.Valid()
    ensures fs.log == old(fs.log) + [Simple(FileDeleted, [f]), Simple(FileCreated, [f]), Simple(FileOpenedWrite, [f])]
    ensures fs.pending == [[f]]
    ensures s.mode == Writing && s.path == [f] && s.transferred == 0
    ensures h in fs.streams && fs.streams[h] == s
    ensures IsFile(fs.nodes, [f]) && fs.nodes[[f]].gen == s.gen
  {
    ghost var gen := fs.nextGen;
    s := Stream([f], Writing, gen, 0, 0);
    OverwriteTopFile(fs.nodes, f, gen);
    h := CreateOk(fs, [f], true,
      [Simple(FileDeleted, [f]), Simple(FileCreated, [f]), Simple(FileOpenedWrite, [f])],
      CreatedNodes(fs.nodes, [f], gen), [[f]]);
  }

  /** The replacement of `/f` with the purge of the old data before the
      `close()`. */
  method OverwriteEarly(fs: FileSystem, f: Segment)
    requires fs.Valid() && fs.pending == [] && IsFile(fs.nodes, [f])
    modifies fs
    ensures fs.Valid()
    ensures fs.log == old(fs.log) + OverwriteEvents([f], true)
    ensures fs.pending == [] && IsFile(fs.nodes, [f])
  {
    var h, s := Replace(fs, f);
    PurgeOk(fs, [f]);
    CloseWriterOk(fs, h, s);
  }

  /** The same with the purge after the `close()`. */
  method OverwriteLate(fs: FileSystem, f: Segment)
    requires fs.Valid() && fs.pending == [] && IsFile(fs.nodes, [f])
    modifies fs
    ensures fs.Valid()
    ensures fs.log == old(fs.log) + OverwriteEvents([f], false)
    ensures fs.pending == [] && IsFile(fs.nodes, [f])
  {
    var h, s := Replace(fs, f);
    CloseWriterOk(fs, h, s);
    PurgeOk(fs, [f]);
  }

  /** `testSingleFileOverwrite`: the first create and close log the file's
      creation, opening and empty close; creating over it with `overwrite`
      and closing logs its deletion and purge and the same three events again,
      in an order the test leaves open, which the five predicates match one
      to one; the last create, without `overwrite`, is refused and logs
      nothing. */
  method SingleFileOverwrite(f: Segment, early: bool) returns (refused: Result<(), Error>, evts: seq<Event>)
    ensures refused == Err(PathAlreadyExists)
    ensures |evts| == 8
    ensures evts[..3] == [Simple(FileCreated, [f]), Simple(FileOpenedWrite, [f]), Closed(FileClosedWrite, [f], 0)]
    ensures evts[3..] == OverwriteEvents([f], early)
    ensures OneToOne(evts[3..], OverwritePredicates([f]))
  {
    var fs := Format();
    CreateTopFileSetup(fs, f);
    if early {
      OverwriteEarly(fs, f);
    } else {
      OverwriteLate(fs, f);
    }
    OverwriteTopFile(fs.nodes, f, 0);
    refused := CreateClosed(fs, [f], false);
    evts := fs.log;
    OverwriteOneToOne([f], early);
  }

  // ---------------------------------------------------------------------
  // testFileDataEvents

  /** The test's first step: `create(/f, false)`, a `write` of `size` bytes
      and the `close()`. */
  method WriteTopFile(fs: FileSystem, f: Segment, size: nat) returns (written: Result<(), Error>)
    requires Formatted(fs)
    modifies fs
    ensures fs.Valid()
    ensures written == Ok(())
    ensures fs.log == [Simple(FileCreated, [f]), Simple(FileOpenedWrite, [f]), Closed(FileClosedWrite, [f], size)]
    ensures IsFile(fs.nodes, [f]) && fs.nodes[[f]].size == size
  {
    CreateTopFile(f, false);
    var h := CreateOk(fs, [f], false, [Simple(FileCreated, [f]), Simple(FileOpenedWrite, [f])],
      CreatedNodes(Empty(), [f], 0), []);
    written := WriteOk(fs, h, size, Stream([f], Writing, 0, 0, 0));
    CloseWriterOk(fs, h, Stream([f], Writing, 0, 0, size));
  }

  /** `testFileDataEvents`: writing `size` bytes logs no event of its own, and
      the close reports them; reading them back through a stream opened with
      any buffer size logs the opening and a close reporting the same size. */
  method FileDataEvents(f: Segment, size: nat, bufSize: nat)
    returns (written: Result<(), Error>, read: Result<(), Error>, evts: seq<Event>)
    ensures written == Ok(()) && read == Ok(())
    ensures evts == [
      Simple(FileCreated, [f]), Simple(FileOpenedWrite, [f]), Closed(FileClosedWrite, [f], size),
      Simple(FileOpenedRead, [f]), Closed(FileClosedRead, [f], size)]
  {
    var fs := Format();
    written := WriteTopFile(fs, f, size);
    ghost var gen := fs.nodes[[f]].gen;
    var h := OpenOk(fs, [f], bufSize);
    read := ReadOk(fs, h, 0, size, Stream([f], Reading, gen, size, 0));
    CloseReaderOk(fs, h, Stream([f], Reading, gen, size, size));
    evts := fs.log;
  }
}
