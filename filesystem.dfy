/** The file system as the event tests observe it: a directory tree, the log
    of events a local listener has received so far, the files deleted but not
    yet purged, and the open streams. Every operation appends the events it
    causes to the log, synchronously; a failed operation appends nothing.
    Purging a deleted file's data happens later in the real system, so the
    model queues it and `Purge` performs the queued purges one at a time. */
module Igfs {
  import opened Wrappers
  import opened Paths
  import opened Tree
  import opened Events

  datatype Error =
    | InvalidPath | PathNotFound | PathAlreadyExists | PathIsDirectory
    | ParentNotDirectory | DirectoryNotEmpty | StreamClosed | EndOfFile

  datatype Mode = Reading | Writing

  /** An open stream: the file it is on, its direction, the generation of the
      file it was opened on, the file's length when it was opened, and the
      bytes moved through it so far. */
  datatype Stream = Stream(path: Path, mode: Mode, gen: nat, length: nat, transferred: nat)

  /** One `DIR_CREATED` per path of `qs`, in the same order. */
  function DirCreatedEvents(qs: seq<Path>): seq<Event> {
    seq(|qs|, i requires 0 <= i < |qs| => Simple(DirCreated, qs[i]))
  }

  /** One `FILE_PURGED` per path of `ps`, in the same order. */
  function PurgedEvents(ps: seq<Path>): seq<Event> {
    seq(|ps|, i requires 0 <= i < |ps| => Simple(FilePurged, ps[i]))
  }

  // ---------------------------------------------------------------------
  // Deleted and purged files

  /** Every path deleted as a file is either purged or waiting to be, as
      often as it was deleted. */
  ghost predicate Balanced(log: seq<Event>, pending: seq<Path>) {
    PathsOfKind(log, FileDeleted) == PathsOfKind(log, FilePurged) + multiset(pending)
  }

  /** Every event of `log` is well formed, read from the last one back.
      The recursive form lets appends to the log be proved one event at a
      time without a quantifier over the whole log; `EveryWellFormed`
      connects it to the element-wise reading. */
  ghost predicate AllWellFormed(log: seq<Event>)
    decreases |log|
  {
    log == [] || (AllWellFormed(log[..|log| - 1]) && WellFormedEvent(log[|log| - 1]))
  }

  /** The log holds only well-formed events and is balanced against the
      queue of pending purges. */
  ghost predicate LogOk(log: seq<Event>, pending: seq<Path>) {
    AllWellFormed(log) && Balanced(log, pending)
  }

  lemma {:induction false} AppendWellFormed(a: seq<Event>, b: seq<Event>)
    requires AllWellFormed(a) && AllWellFormed(b)
    ensures AllWellFormed(a + b)
    decreases |b|
  {
    if b == [] {
      assert a + b == a;
    } else {
      var init := b[..|b| - 1];
      assert (a + b)[..|a + b| - 1] == a + init;
      assert (a + b)[|a + b| - 1] == b[|b| - 1];
      AppendWellFormed(a, init);
    }
  }

  /** The recursive reading of "every event is well formed" agrees with the
      element-wise one. */
  lemma {:induction false} EveryWellFormed(s: seq<Event>)
    requires forall i :: 0 <= i < |s| ==> WellFormedEvent(s[i])
    ensures AllWellFormed(s)
    decreases |s|
  {
    if s != [] {
      EveryWellFormed(s[..|s| - 1]);
    }
  }

  /** Appending well-formed events other than deletions and purges keeps the
      log in order. */
  lemma AppendOther(log: seq<Event>, pending: seq<Path>, s: seq<Event>)
    requires LogOk(log, pending)
    requires forall i :: 0 <= i < |s| ==> WellFormedEvent(s[i]) && s[i].kind != FileDeleted && s[i].kind != FilePurged
    ensures LogOk(log + s, pending)
  {
    EveryWellFormed(s);
    AppendWellFormed(log, s);
    PathsOfKindAppend(log, s, FileDeleted);
    PathsOfKindAppend(log, s, FilePurged);
    PathsOfKindNone(s, FileDeleted);
    PathsOfKindNone(s, FilePurged);
  }

  /** Logging one well-formed event other than a deletion or a purge keeps
      the log in order. */
  lemma AppendOne(log: seq<Event>, pending: seq<Path>, e: Event)
    requires LogOk(log, pending) && WellFormedEvent(e)
    requires e.kind != FileDeleted && e.kind != FilePurged
    ensures LogOk(log + [e], pending)
  {
    AppendWellFormed(log, [e]);
    PathsOfKindSnoc(log, e, FileDeleted);
    PathsOfKindSnoc(log, e, FilePurged);
  }

  /** Logging the creation of directories keeps the log in order. */
  lemma AppendDirsCreated(log: seq<Event>, pending: seq<Path>, qs: seq<Path>)
    requires LogOk(log, pending)
    ensures LogOk(log + DirCreatedEvents(qs), pending)
  {
    AppendOther(log, pending, DirCreatedEvents(qs));
  }

  /** Logging a file deletion and queueing its purge keeps the log in order. */
  lemma AppendDelete(log: seq<Event>, pending: seq<Path>, p: Path)
    requires LogOk(log, pending)
    ensures LogOk(log + [Simple(FileDeleted, p)], pending + [p])
  {
    var e := Simple(FileDeleted, p);
    AppendWellFormed(log, [e]);
    PathsOfKindSnoc(log, e, FileDeleted);
    PathsOfKindSnoc(log, e, FilePurged);
    assert multiset(pending + [p]) == multiset(pending) + multiset{p};
  }

  /** Logging the oldest queued purge and dropping it from the queue keeps
      the log in order. */
  lemma AppendPurge(log: seq<Event>, pending: seq<Path>)
    requires LogOk(log, pending) && pending != []
    ensures LogOk(log + [Simple(FilePurged, pending[0])], pending[1..])
  {
    var e := Simple(FilePurged, pending[0]);
    AppendWellFormed(log, [e]);
    PathsOfKindSnoc(log, e, FileDeleted);
    PathsOfKindSnoc(log, e, FilePurged);
    assert pending == [pending[0]] + pending[1..];
  }

  // ---------------------------------------------------------------------
  // What each operation causes, as functions of the tree before it

  /** Why `mkdirs(p)` fails: `p` or one of its ancestors is a file. */
  function MkdirsError(nodes: Nodes, p: Path): Option<Error> {
    if IsFile(nodes, p) then Some(PathAlreadyExists)
    else if !NoFileOnPath(nodes, p) then Some(ParentNotDirectory)
    else None
  }

  /** Why `create(p, overwrite)` fails, checked in this order: `p` is the root
      or a directory, an ancestor is a file, or `p` is a file and may not be
      overwritten. */
  function CreateError(nodes: Nodes, p: Path, overwrite: bool): Option<Error> {
    if p == Root then Some(PathIsDirectory)
    else if !NoFileOnPath(nodes, Parent(p)) then Some(ParentNotDirectory)
    else if IsDir(nodes, p) then Some(PathIsDirectory)
    else if IsFile(nodes, p) && !overwrite then Some(PathAlreadyExists)
    else None
  }

  /** The events of a successful `create(p, _)`: the missing ancestors, the
      deletion of the file it replaces if any, then the creation and the
      opening for writing. */
  function CreateEvents(nodes: Nodes, p: Path): seq<Event>
    requires p != Root
  {
    DirCreatedEvents(MissingAncestors(nodes, Parent(p))) + CreateTail(nodes, p)
  }

  /** The events of a successful create after the missing ancestors. */
  function CreateTail(nodes: Nodes, p: Path): seq<Event> {
    (if IsFile(nodes, p) then [Simple(FileDeleted, p)] else [])
    + [Simple(FileCreated, p), Simple(FileOpenedWrite, p)]
  }

  /** The tree after a successful `create(p, _)`: the missing ancestors
      added as directories and an empty file of generation `gen` at `p`. */
  function CreatedNodes(nodes: Nodes, p: Path, gen: nat): Nodes
    requires p != Root
  {
    WithDirs(nodes, MissingAncestors(nodes, Parent(p)))[p := File(0, gen)]
  }

  /** The purge a successful create queues: the file it replaces, if any. */
  function CreatePurges(nodes: Nodes, p: Path): seq<Path> {
    if IsFile(nodes, p) then [p] else []
  }

  lemma AppendAssoc<T>(a: seq<T>, b: seq<T>, c: seq<T>)
    ensures a + b + c == a + (b + c)
  {
  }

  /** Logging the tail of a create keeps the log in order. */
  lemma AppendCreateTail(log: seq<Event>, pending: seq<Path>, nodes: Nodes, p: Path)
    requires LogOk(log, pending)
    ensures LogOk(log + CreateTail(nodes, p), pending + CreatePurges(nodes, p))
  {
    if IsFile(nodes, p) {
      AppendReplaceTail(log, pending, p);
    } else {
      assert pending + [] == pending;
      assert CreateTail(nodes, p) == [Simple(FileCreated, p), Simple(FileOpenedWrite, p)];
      AppendMade(log, pending, p);
    }
  }

  /** Logging that a file was created and opened for writing keeps the log
      in order. */
  lemma AppendMade(log: seq<Event>, pending: seq<Path>, p: Path)
    requires LogOk(log, pending)
    ensures LogOk(log + [Simple(FileCreated, p), Simple(FileOpenedWrite, p)], pending)
  {
    AppendOther(log, pending, [Simple(FileCreated, p), Simple(FileOpenedWrite, p)]);
  }

  /** The tail of a create that replaces a file: its deletion, then the new
      file's creation and opening. */
  lemma AppendReplaceTail(log: seq<Event>, pending: seq<Path>, p: Path)
    requires LogOk(log, pending)
    ensures LogOk(log + ([Simple(FileDeleted, p)] + [Simple(FileCreated, p), Simple(FileOpenedWrite, p)]),
                  pending + [p])
  {
    var gone := [Simple(FileDeleted, p)];
    var made := [Simple(FileCreated, p), Simple(FileOpenedWrite, p)];
    var mid := log + gone;
    AppendDelete(log, pending, p);
    AppendMade(mid, pending + [p], p);
    AppendAssoc(log, gone, made);
    assert mid + made == log + (gone + made);
  }

  /** Where `rename(src, dst)` puts `src`: inside `dst` under its own name
      when `dst` is an existing directory, otherwise at `dst`. */
  function RenameTarget(nodes: Nodes, src: Path, dst: Path): Path
    requires src != Root
  {
    if IsDir(nodes, dst) then Child(dst, Name(src)) else dst
  }

  /** Why `rename(src, dst)` fails, checked in this order. */
  function RenameError(nodes: Nodes, src: Path, dst: Path): Option<Error> {
    if src == Root then Some(InvalidPath)
    else if src !in nodes then Some(PathNotFound)
    else if IsFile(nodes, dst) then Some(PathAlreadyExists)
    else if dst !in nodes && (dst == Root || !IsDir(nodes, Parent(dst))) then Some(PathNotFound)
    else if RenameTarget(nodes, src, dst) in nodes then Some(PathAlreadyExists)
    else if IsPrefix(src, RenameTarget(nodes, src, dst)) then Some(InvalidPath)
    else None
  }

  /** A rename that passes its checks is a legal move of the subtree. */
  lemma RenameIsMove(nodes: Nodes, src: Path, dst: Path)
    requires WellFormed(nodes) && RenameError(nodes, src, dst).None?
    ensures src != Root && CanMove(nodes, src, RenameTarget(nodes, src, dst))
    ensures RenameTarget(nodes, src, dst) == if IsDir(nodes, dst) then dst + [Name(src)] else dst
  {
    if IsDir(nodes, dst) {
      assert Parent(Child(dst, Name(src))) == dst;
    }
  }

  /** A create that passes its checks leaves a well-formed tree with a file
      at `p`, its missing ancestors created as directories. */
  lemma CreateKeepsWellFormed(nodes: Nodes, p: Path, overwrite: bool, gen: nat)
    requires WellFormed(nodes) && CreateError(nodes, p, overwrite).None?
    ensures p != Root
    ensures WellFormed(CreatedNodes(nodes, p, gen))
  {
    var r := WithDirs(nodes, MissingAncestors(nodes, Parent(p)));
    WithDirsEntries(nodes, MissingAncestors(nodes, Parent(p)));
    MaterializeKeepsWellFormed(nodes, Parent(p));
    MissingAncestorsExactly(nodes, Parent(p), p);
    AddFileKeepsWellFormed(r, p, 0, gen);
  }

  /** What a successful create leaves at `q`: the new empty file at `p`, a
      directory at each missing prefix of its parent, and whatever was there
      before everywhere else. */
  lemma CreatedNodesAt(nodes: Nodes, p: Path, gen: nat, q: Path)
    requires p != Root
    ensures q in CreatedNodes(nodes, p, gen) <==>
            q == p || q in nodes || (q != Root && IsPrefix(q, Parent(p)))
    ensures q in CreatedNodes(nodes, p, gen) ==>
      CreatedNodes(nodes, p, gen)[q] ==
        if q == p then File(0, gen) else if q in nodes then nodes[q] else Dir
  {
    WithDirsEntries(nodes, MissingAncestors(nodes, Parent(p)));
    MissingAncestorsExactly(nodes, Parent(p), q);
  }

  /** The events of a successful create, as the scenarios rely on them: one
      `DIR_CREATED` per missing ancestor, root to leaf, each flagged as a
      directory; a `FILE_DELETED` when an existing file is replaced; then
      `FILE_CREATED`, not flagged as a directory, and `FILE_OPENED_WRITE`. */
  lemma CreateEventsShape(nodes: Nodes, p: Path, overwrite: bool)
    requires WellFormed(nodes) && CreateError(nodes, p, overwrite).None?
    ensures p != Root
    ensures var evts := CreateEvents(nodes, p);
      var d := ExistingDepth(nodes, Parent(p));
      var m := |p| - 1 - d;
      && |evts| == m + (if IsFile(nodes, p) then 3 else 2)
      && (forall k :: 0 <= k < m ==>
            evts[k] == Simple(DirCreated, p[..d + k + 1]) && evts[k].isDirectory)
      && (IsFile(nodes, p) ==> m == 0 && evts[0] == Simple(FileDeleted, p) && overwrite)
      && evts[|evts| - 2] == Simple(FileCreated, p) && !evts[|evts| - 2].isDirectory
      && evts[|evts| - 1] == Simple(FileOpenedWrite, p)
  {
    var q := Parent(p);
    MissingAncestorsAreDeepest(nodes, q);
    var d := ExistingDepth(nodes, q);
    var ms := MissingAncestors(nodes, q);
    var dirs := DirCreatedEvents(ms);
    var tail := CreateTail(nodes, p);
    assert CreateEvents(nodes, p) == dirs + tail;
    assert |dirs| == |ms| == |p| - 1 - d;
    assert |tail| == if IsFile(nodes, p) then 3 else 2;
    forall k | 0 <= k < |ms| ensures (dirs + tail)[k] == Simple(DirCreated, p[..d + k + 1]) {
      assert ms[k] == q[..d + k + 1];
      assert q[..d + k + 1] == p[..d + k + 1];
    }
    if IsFile(nodes, p) {
      MissingOfPresentIsEmpty(nodes, q);
    }
  }

  /** A create emits a `DIR_CREATED` for exactly the ancestors that do not
      exist yet: none for those that do, and none for anything else. */
  lemma CreateDirEventsExactlyMissing(nodes: Nodes, p: Path, q: Path)
    requires p != Root
    ensures Simple(DirCreated, q) in CreateEvents(nodes, p) <==>
            q != Root && IsPrefix(q, Parent(p)) && q !in nodes
  {
    var m := MissingAncestors(nodes, Parent(p));
    MissingAncestorsExactly(nodes, Parent(p), q);
    var e := Simple(DirCreated, q);
    var dirs := DirCreatedEvents(m);
    var tail := CreateTail(nodes, p);
    assert CreateEvents(nodes, p) == dirs + tail;
    assert e !in tail;
    if e in dirs {
      var k :| 0 <= k < |dirs| && dirs[k] == e;
      assert m[k] == q;
    }
    if q in m {
      var k :| 0 <= k < |m| && m[k] == q;
      assert dirs[k] == e;
    }
  }

  // ---------------------------------------------------------------------
  // The file system

  class FileSystem {
    var nodes: Nodes
    var log: seq<Event>
    var pending: seq<Path>
    var streams: map<nat, Stream>
    var nextGen: nat
    var nextStream: nat

    /** The tree is well formed, the log holds only well-formed events and
        balances deletions against purges, and every stream handle was
        handed out. */
    ghost predicate Valid()
      reads this
    {
      && WellFormed(nodes)
      && LogOk(log, pending)
      && (forall h :: h in streams ==> h < nextStream)
    }

    /** A freshly formatted file system: only the root, nothing logged. */
    constructor ()
      ensures Valid()
      ensures nodes == Empty() && log == [] && pending == [] && streams == map[]
      ensures nextGen == 0 && nextStream == 0
    {
      nodes := Empty();
      log := [];
      pending := [];
      streams := map[];
      nextGen := 0;
      nextStream := 0;
    }

    /** `exists(p)`. */
    method Exists(p: Path) returns (b: bool)
      ensures b <==> p in nodes
    {
      b := p in nodes;
    }

    /** `mkdirs(p)`: creates every missing directory on the way to `p`, root
        to leaf, with one `DIR_CREATED` each. */
    method Mkdirs(p: Path) returns (r: Result<(), Error>)
      requires Valid()
      modifies this
      ensures MkdirsError(old(nodes), p).Some? ==>
        r == Err(MkdirsError(old(nodes), p).value) && nodes == old(nodes) && log == old(log)
      ensures MkdirsError(old(nodes), p).None? ==>
        && r == Ok(())
        && nodes == WithDirs(old(nodes), MissingAncestors(old(nodes), p))
        && log == old(log) + DirCreatedEvents(MissingAncestors(old(nodes), p))
      ensures pending == old(pending) && streams == old(streams)
      ensures nextGen == old(nextGen) && nextStream == old(nextStream)
      ensures Valid()
    {
      var err := MkdirsError(nodes, p);
      if err.Some? {
        return Err(err.value);
      }
      ghost var n0 := nodes;
      ghost var l0 := log;
      var missing := MissingAncestors(nodes, p);
      AddDirs(missing);
      MaterializeKeepsWellFormed(n0, p);
      AppendDirsCreated(l0, pending, missing);
      r := Ok(());
    }

    /** Creates a directory at each of `qs` in turn, logging `DIR_CREATED`
        for each. */
    method AddDirs(qs: seq<Path>)
      modifies this
      ensures nodes == WithDirs(old(nodes), qs)
      ensures log == old(log) + DirCreatedEvents(qs)
      ensures pending == old(pending) && streams == old(streams)
      ensures nextGen == old(nextGen) && nextStream == old(nextStream)
    {
      var j := 0;
      while j < |qs|
        invariant 0 <= j <= |qs|
        invariant nodes == WithDirs(old(nodes), qs[..j])
        invariant log == old(log) + DirCreatedEvents(qs[..j])
        invariant pending == old(pending) && streams == old(streams)
        invariant nextGen == old(nextGen) && nextStream == old(nextStream)
      {
        var q := qs[j];
        nodes := nodes[q := Dir];
        log := log + [Simple(DirCreated, q)];
        assert qs[..j + 1][..j] == qs[..j];
        assert DirCreatedEvents(qs[..j + 1]) == DirCreatedEvents(qs[..j]) + [Simple(DirCreated, q)];
        j := j + 1;
      }
      assert qs[..j] == qs;
    }

    /** `create(p, overwrite)`: creates the missing ancestors, replaces the
        file at `p` when allowed (its deletion is logged and its purge
        queued), creates an empty file and returns a stream writing to it. */
    method Create(p: Path, overwrite: bool) returns (r: Result<nat, Error>)
      requires Valid()
      modifies this
      ensures CreateError(old(nodes), p, overwrite).Some? ==>
        && r == Err(CreateError(old(nodes), p, overwrite).value)
        && nodes == old(nodes) && log == old(log) && pending == old(pending)
        && streams == old(streams) && nextGen == old(nextGen) && nextStream == old(nextStream)
      ensures CreateError(old(nodes), p, overwrite).None? ==>
        && p != Root
        && r == Ok(old(nextStream))
        && nodes == CreatedNodes(old(nodes), p, old(nextGen))
        && log == old(log) + CreateEvents(old(nodes), p)
        && pending == old(pending) + CreatePurges(old(nodes), p)
        && streams == old(streams)[old(nextStream) := Stream(p, Writing, old(nextGen), 0, 0)]
        && nextGen == old(nextGen) + 1 && nextStream == old(nextStream) + 1
      ensures Valid()
    {
      var err := CreateError(nodes, p, overwrite);
      if err.Some? {
        return Err(err.value);
      }
      var h := NewFile(p, overwrite);
      r := Ok(h);
    }

    /** The part of `create` after its checks have passed. */
    method NewFile(p: Path, ghost overwrite: bool) returns (h: nat)
      requires Valid() && CreateError(nodes, p, overwrite).None?
      modifies this
      ensures p != Root && h == old(nextStream)
      ensures nodes == CreatedNodes(old(nodes), p, old(nextGen))
      ensures log == old(log) + CreateEvents(old(nodes), p)
      ensures pending == old(pending) + CreatePurges(old(nodes), p)
      ensures streams == old(streams)[old(nextStream) := Stream(p, Writing, old(nextGen), 0, 0)]
      ensures nextGen == old(nextGen) + 1 && nextStream == old(nextStream) + 1
      ensures Valid()
    {
      CreateKeepsWellFormed(nodes, p, overwrite, nextGen);
      var tail := CreateTail(nodes, p);
      var purges := CreatePurges(nodes, p);
      var missing := MissingAncestors(nodes, Parent(p));
      ghost var l0 := log;
      AddDirs(missing);
      AppendDirsCreated(l0, pending, missing);
      AppendCreateTail(log, pending, old(nodes), p);
      AppendAssoc(l0, DirCreatedEvents(missing), tail);
      nodes := nodes[p := File(0, nextGen)];
      log := log + tail;
      pending := pending + purges;
      streams := streams[nextStream := Stream(p, Writing, nextGen, 0, 0)];
      h := nextStream;
      nextGen := nextGen + 1;
      nextStream := nextStream + 1;
    }

    /** `write` on an open writing stream: counts the bytes, logs nothing. */
    method Write(h: nat, n: nat) returns (r: Result<(), Error>)
      requires Valid()
      modifies this
      ensures h in old(streams) && old(streams)[h].mode == Writing ==>
        && r == Ok(())
        && streams == old(streams)[h := old(streams)[h].(transferred := old(streams)[h].transferred + n)]
      ensures !(h in old(streams) && old(streams)[h].mode == Writing) ==>
        r == Err(StreamClosed) && streams == old(streams)
      ensures nodes == old(nodes) && log == old(log) && pending == old(pending)
      ensures nextGen == old(nextGen) && nextStream == old(nextStream)
      ensures Valid()
    {
      if h in streams && streams[h].mode == Writing {
        var s := streams[h];
        streams := streams[h := s.(transferred := s.transferred + n)];
        r := Ok(());
      } else {
        r := Err(StreamClosed);
      }
    }

    /** `open(p, bufSize)`: a stream reading the file at `p`, announced by
        `FILE_OPENED_READ`. The buffer size has no observable effect. */
    method Open(p: Path, bufSize: nat) returns (r: Result<nat, Error>)
      requires Valid()
      modifies this
      ensures p !in old(nodes) ==>
        r == Err(PathNotFound) && log == old(log) && streams == old(streams) && nextStream == old(nextStream)
      ensures IsDir(old(nodes), p) ==>
        r == Err(PathIsDirectory) && log == old(log) && streams == old(streams) && nextStream == old(nextStream)
      ensures IsFile(old(nodes), p) ==>
        && r == Ok(old(nextStream))
        && log == old(log) + [Simple(FileOpenedRead, p)]
        && streams == old(streams)[old(nextStream) :=
             Stream(p, Reading, old(nodes)[p].gen, old(nodes)[p].size, 0)]
        && nextStream == old(nextStream) + 1
      ensures nodes == old(nodes) && pending == old(pending) && nextGen == old(nextGen)
      ensures Valid()
    {
      if p !in nodes {
        return Err(PathNotFound);
      }
      if nodes[p].Dir? {
        return Err(PathIsDirectory);
      }
      var h := OpenFile(p);
      r := Ok(h);
    }

    /** The part of `open` after its checks have passed. */
    method OpenFile(p: Path) returns (h: nat)
      requires Valid() && IsFile(nodes, p)
      modifies this
      ensures h == old(nextStream) && log == old(log) + [Simple(FileOpenedRead, p)]
      ensures streams == old(streams)[old(nextStream) := Stream(p, Reading, old(nodes)[p].gen, old(nodes)[p].size, 0)]
      ensures nextStream == old(nextStream) + 1
      ensures nodes == old(nodes) && pending == old(pending) && nextGen == old(nextGen)
      ensures Valid()
    {
      AppendOne(log, pending, Simple(FileOpenedRead, p));
      log := log + [Simple(FileOpenedRead, p)];
      streams := streams[nextStream := Stream(p, Reading, nodes[p].gen, nodes[p].size, 0)];
      h := nextStream;
      nextStream := nextStream + 1;
    }

    /** `readFully(pos, buf)` with `len` the buffer's length, on an open
        reading stream: counts the bytes, logs nothing, and fails at the end
        of the file when fewer than `len` bytes follow `pos`. */
    method ReadFully(h: nat, pos: nat, len: nat) returns (r: Result<(), Error>)
      requires Valid()
      modifies this
      ensures !(h in old(streams) && old(streams)[h].mode == Reading) ==>
        r == Err(StreamClosed) && streams == old(streams)
      ensures h in old(streams) && old(streams)[h].mode == Reading && pos + len > old(streams)[h].length ==>
        r == Err(EndOfFile) && streams == old(streams)
      ensures h in old(streams) && old(streams)[h].mode == Reading && pos + len <= old(streams)[h].length ==>
        && r == Ok(())
        && streams == old(streams)[h := old(streams)[h].(transferred := old(streams)[h].transferred + len)]
      ensures nodes == old(nodes) && log == old(log) && pending == old(pending)
      ensures nextGen == old(nextGen) && nextStream == old(nextStream)
      ensures Valid()
    {
      if !(h in streams && streams[h].mode == Reading) {
        return Err(StreamClosed);
      }
      var s := streams[h];
      if pos + len > s.length {
        return Err(EndOfFile);
      }
      streams := streams[h := s.(transferred := s.transferred + len)];
      r := Ok(());
    }

    /** `close()` of a stream: logs `FILE_CLOSED_WRITE` or `FILE_CLOSED_READ`
        with the bytes the stream moved; closing a writer sets the file's
        length, provided the file it was opened on is still there. Closing a
        stream that is not open does nothing. */
    method Close(h: nat)
      requires Valid()
      modifies this
      ensures h !in old(streams) ==>
        nodes == old(nodes) && log == old(log) && streams == old(streams)
      ensures h in old(streams) && old(streams)[h].mode == Writing ==>
        var s := old(streams)[h];
        && log == old(log) + [Closed(FileClosedWrite, s.path, s.transferred)]
        && streams == old(streams) - {h}
        && nodes == if IsFile(old(nodes), s.path) && old(nodes)[s.path].gen == s.gen
                    then old(nodes)[s.path := File(s.transferred, s.gen)] else old(nodes)
      ensures h in old(streams) && old(streams)[h].mode == Reading ==>
        var s := old(streams)[h];
        && log == old(log) + [Closed(FileClosedRead, s.path, s.transferred)]
        && streams == old(streams) - {h}
        && nodes == old(nodes)
      ensures pending == old(pending) && nextGen == old(nextGen) && nextStream == old(nextStream)
      ensures Valid()
    {
      if h !in streams {
        return;
      }
      var s := streams[h];
      var e := Closed(if s.mode == Writing then FileClosedWrite else FileClosedRead, s.path, s.transferred);
      AppendOne(log, pending, e);
      log := log + [e];
      streams := streams - {h};
      if s.mode == Writing && IsFile(nodes, s.path) && nodes[s.path].gen == s.gen {
        AddFileKeepsWellFormed(nodes, s.path, s.transferred, s.gen);
        nodes := nodes[s.path := File(s.transferred, s.gen)];
      }
    }

    /** `rename(src, dst)`: moves the whole subtree at `src` to its target
        and logs a single `FILE_RENAMED` or `DIR_RENAMED` from `src` to the
        target. */
    method Rename(src: Path, dst: Path) returns (r: Result<(), Error>)
      requires Valid()
      modifies this
      ensures RenameError(old(nodes), src, dst).Some? ==>
        r == Err(RenameError(old(nodes), src, dst).value) && nodes == old(nodes) && log == old(log)
      ensures RenameError(old(nodes), src, dst).None? ==>
        && src != Root
        && var target := RenameTarget(old(nodes), src, dst);
           && r == Ok(())
           && nodes == Moved(old(nodes), src, target)
           && log == old(log) + [Renamed(IsDir(old(nodes), src), src, target)]
      ensures pending == old(pending) && streams == old(streams)
      ensures nextGen == old(nextGen) && nextStream == old(nextStream)
      ensures Valid()
    {
      var err := RenameError(nodes, src, dst);
      if err.Some? {
        return Err(err.value);
      }
      var target := RenameTarget(nodes, src, dst);
      RenameIsMove(nodes, src, dst);
      MovedIsWellFormed(nodes, src, target);
      var e := Renamed(IsDir(nodes, src), src, target);
      AppendOne(log, pending, e);
      log := log + [e];
      nodes := Moved(nodes, src, target);
      r := Ok(());
    }

    /** `delete(p, recursive)`: `false` when nothing is at `p`; a file is
        removed with `FILE_DELETED` and its purge queued; a directory goes
        with everything below it and a single `DIR_DELETED`, unless it has
        entries and the delete is not recursive. */
    method Delete(p: Path, recursive: bool) returns (r: Result<bool, Error>)
      requires Valid()
      modifies this
      ensures p == Root ==>
        r == Err(InvalidPath) && nodes == old(nodes) && log == old(log) && pending == old(pending)
      ensures p != Root && p !in old(nodes) ==>
        r == Ok(false) && nodes == old(nodes) && log == old(log) && pending == old(pending)
      ensures p != Root && IsFile(old(nodes), p) ==>
        && r == Ok(true)
        && nodes == old(nodes) - {p}
        && log == old(log) + [Simple(FileDeleted, p)]
        && pending == old(pending) + [p]
      ensures p != Root && IsDir(old(nodes), p) && HasChildren(old(nodes), p) && !recursive ==>
        r == Err(DirectoryNotEmpty) && nodes == old(nodes) && log == old(log) && pending == old(pending)
      ensures p != Root && IsDir(old(nodes), p) && (recursive || !HasChildren(old(nodes), p)) ==>
        && r == Ok(true)
        && nodes == Without(old(nodes), p)
        && log == old(log) + [Simple(DirDeleted, p)]
        && pending == old(pending)
      ensures streams == old(streams) && nextGen == old(nextGen) && nextStream == old(nextStream)
      ensures Valid()
    {
      if p == Root {
        return Err(InvalidPath);
      }
      if p !in nodes {
        return Ok(false);
      }
      if nodes[p].File? {
        RemoveFile(p);
        return Ok(true);
      }
      if HasChildren(nodes, p) && !recursive {
        return Err(DirectoryNotEmpty);
      }
      RemoveDir(p);
      r := Ok(true);
    }

    /** The file case of `delete`: the entry goes, `FILE_DELETED` is logged
        and the purge of its data is queued. */
    method RemoveFile(p: Path)
      requires Valid() && IsFile(nodes, p)
      modifies this
      ensures nodes == old(nodes) - {p}
      ensures log == old(log) + [Simple(FileDeleted, p)] && pending == old(pending) + [p]
      ensures streams == old(streams) && nextGen == old(nextGen) && nextStream == old(nextStream)
      ensures Valid()
    {
      RemoveFileKeepsWellFormed(nodes, p);
      AppendDelete(log, pending, p);
      nodes := nodes - {p};
      log := log + [Simple(FileDeleted, p)];
      pending := pending + [p];
    }

    /** The directory case of `delete`: the subtree goes and a single
        `DIR_DELETED` is logged. */
    method RemoveDir(p: Path)
      requires Valid() && p != Root
      modifies this
      ensures nodes == Without(old(nodes), p)
      ensures log == old(log) + [Simple(DirDeleted, p)] && pending == old(pending)
      ensures streams == old(streams) && nextGen == old(nextGen) && nextStream == old(nextStream)
      ensures Valid()
    {
      WithoutIsWellFormed(nodes, p);
      AppendOne(log, pending, Simple(DirDeleted, p));
      nodes := Without(nodes, p);
      log := log + [Simple(DirDeleted, p)];
    }

    /** Performs the oldest queued purge, logging `FILE_PURGED`; reports
        whether there was one. */
    method Purge() returns (purged: bool)
      requires Valid()
      modifies this
      ensures purged <==> old(pending) != []
      ensures old(pending) == [] ==> log == old(log) && pending == old(pending)
      ensures old(pending) != [] ==>
        log == old(log) + [Simple(FilePurged, old(pending)[0])] && pending == old(pending)[1..]
      ensures nodes == old(nodes) && streams == old(streams)
      ensures nextGen == old(nextGen) && nextStream == old(nextStream)
      ensures Valid()
    {
      if pending == [] {
        return false;
      }
      AppendPurge(log, pending);
      log := log + [Simple(FilePurged, pending[0])];
      pending := pending[1..];
      purged := true;
    }

    /** Performs every queued purge, oldest first; afterwards every path
        deleted as a file has been purged exactly as often. */
    method FlushPurges()
      requires Valid()
      modifies this
      ensures log == old(log) + PurgedEvents(old(pending)) && pending == []
      ensures PathsOfKind(log, FileDeleted) == PathsOfKind(log, FilePurged)
      ensures nodes == old(nodes) && streams == old(streams)
      ensures nextGen == old(nextGen) && nextStream == old(nextStream)
      ensures Valid()
    {
      ghost var p0 := pending;
      ghost var k := 0;
      while pending != []
        invariant Valid()
        invariant 0 <= k <= |p0| && pending == p0[k..]
        invariant log == old(log) + PurgedEvents(p0[..k])
        invariant nodes == old(nodes) && streams == old(streams)
        invariant nextGen == old(nextGen) && nextStream == old(nextStream)
        decreases |pending|
      {
        assert p0[k] == pending[0];
        var _ := Purge();
        assert PurgedEvents(p0[..k + 1]) == PurgedEvents(p0[..k]) + [Simple(FilePurged, p0[k])];
        k := k + 1;
      }
      assert p0[..k] == p0;
    }
  }
}
