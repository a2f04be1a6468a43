# IGFS file-system events, modelled in Dafny

This project models what the IGFS event tests in
`IgfsEventsAbstractSelfTest` observe of the Ignite in-memory file system.
It has four parts:

- **The file system as a state machine** (module `Igfs`, class
  `FileSystem`). There is a directory tree, the log of events a local
  listener has received, a queue of deleted files whose data still has to
  be purged, and the open streams. Every operation appends the events it
  causes to the log, in order. A failed operation appends nothing.
- **The events and the predicates that match them** (module `Events`).
  `EventPredicate.apply` holds for an event exactly when its type and path
  are the predicate's. The tests' one-to-one assertion is a matcher, proved
  to hold exactly when the events carry the same multiset of (type, path)
  pairs as the predicates.
- **The `concat` array helper** (module `ArrayConcat`). It is an
  imperative method over arrays, together with the call that builds the
  event types a test node records.
- **Every test, replayed** (module `Scenarios`). Each scenario starts from
  a formatted file system and performs the test's operations. Its
  postcondition is what the test asserts: the exact event list, or the
  exact prefix plus a one-to-one match of the rest.

Paths (module `Paths`) are sequences of segments, with the root as the
empty sequence. The tree (module `Tree`) is a map from every existing path
to a directory or a file (length and generation). It is well formed when the
root is a directory and every other entry's parent is an existing
directory. Every operation of `FileSystem` (the constructor, `Mkdirs`,
`Create`, `Write`, `Open`, `ReadFully`, `Close`, `Rename`, `Delete`,
`Purge`, `FlushPurges`) keeps this invariant. The helper `AddDirs` does
not promise it on its own: `Mkdirs` and `Create` call it only on the
missing ancestors of a path, and `Tree.MaterializeKeepsWellFormed` proves
the result well formed.

The log keeps a second invariant: every event is well formed, and the paths
deleted as files are, with multiplicity, those purged plus those waiting in
the queue. The scenarios take the test's path names as parameters. They
assume only the distinctness that the test's names have.

The implementation of the file system is not part of this model, and
neither is `GridTestUtils.assertOneToOne`. The model states the contract the
assertions pin down: the events each operation causes and when the
operation fails. Three choices the test leaves open are fixed as follows:

- a create that replaces a file logs `FILE_DELETED` before `FILE_CREATED`;
- the root cannot be created, renamed or deleted;
- purges run in the order the deletes were made;
- a recursive delete of a directory logs only its `DIR_DELETED`: the files
  inside it are removed without a `FILE_DELETED` of their own and queue no
  purge, so no `FILE_PURGED` follows for them.

The comment on the `mkdirs` call of `testNestedEmptyDirs` names
`DIR_RENAMED` events. The assertions that follow it expect `DIR_CREATED`,
and the model follows the assertions.

## Model

All source cells refer to
`modules/core/src/test/java/org/apache/ignite/igfs/IgfsEventsAbstractSelfTest.java`.

| member | source | states |
|---|---|---|
| Paths.Parent | modules/core/src/test/java/org/apache/ignite/igfs/IgfsEventsAbstractSelfTest.java:632-636 | The parent, as `dir.parent()` (also at :216, :514 and :570), is one segment shorter than the path and a prefix of it. |
| Paths.Name | modules/core/src/test/java/org/apache/ignite/igfs/IgfsEventsAbstractSelfTest.java:572 | The name, as `file.name()`, is the last segment: the path is its parent followed by its name. |
| Paths.Child | modules/core/src/test/java/org/apache/ignite/igfs/IgfsEventsAbstractSelfTest.java:205-211 | `new IgfsPath(dir, name)` (also at :286) is not the root; its parent is `dir` and its name is `name`. |
| Events.Simple | modules/core/src/test/java/org/apache/ignite/igfs/IgfsEventsAbstractSelfTest.java:220-236 | An event with neither a new path nor a data size is well formed. It carries its type and path. Its directory flag is set exactly for the directory types. |
| Events.Renamed | modules/core/src/test/java/org/apache/ignite/igfs/IgfsEventsAbstractSelfTest.java:249-252 | A rename event has `path` as the source and `newPath` as the destination. Its type and directory flag follow the kind of the entry moved. |
| Events.Closed | modules/core/src/test/java/org/apache/ignite/igfs/IgfsEventsAbstractSelfTest.java:804-816 | A close event carries the bytes the stream moved as its data size. It is not a directory event. |
| Events.ApplyIffSameKey | modules/core/src/test/java/org/apache/ignite/igfs/IgfsEventsAbstractSelfTest.java:840-844 | `EventPredicate.apply` holds exactly when the event's type and path equal the predicate's. No other field of the event matters. |
| Events.IndexOfMatch | modules/core/src/test/java/org/apache/ignite/igfs/IgfsEventsAbstractSelfTest.java:475-481 | Returns the first predicate that accepts the event, or -1 when none does. |
| Events.MatchIffSameKeys | modules/core/src/test/java/org/apache/ignite/igfs/IgfsEventsAbstractSelfTest.java:475-481 | Take a matching under way, where no two predicates look for the same type and path. It succeeds exactly when the remaining events and predicates carry the same multiset of (type, path). |
| Events.OneToOneIffSameKeys | modules/core/src/test/java/org/apache/ignite/igfs/IgfsEventsAbstractSelfTest.java:712-749 | Where no two predicates look for the same type and path, the one-to-one assertion holds exactly when the events carry the predicates' types and paths with the same multiplicities, in any order. |
| Events.DistinctKeysOfPairwise | modules/core/src/test/java/org/apache/ignite/igfs/IgfsEventsAbstractSelfTest.java:475-481 | Predicates whose (type, path) pairs differ pairwise have distinct keys, as the tests' predicate lists do. |
| Tree.Empty | modules/core/src/test/java/org/apache/ignite/igfs/IgfsEventsAbstractSelfTest.java:169-171 | After `format()` the tree is well formed and holds only the root. |
| Tree.MissingAncestorsRootToLeaf | modules/core/src/test/java/org/apache/ignite/igfs/IgfsEventsAbstractSelfTest.java:222-232 | The missing ancestors are listed from the root towards the leaf. Each is a proper prefix of every later one. |
| Tree.MissingAncestorsAreDeepest | modules/core/src/test/java/org/apache/ignite/igfs/IgfsEventsAbstractSelfTest.java:293-295 | The missing ancestors are exactly the prefixes deeper than the deepest existing one, in order. An ancestor that exists is not listed. |
| Tree.MissingAncestorsExactly | modules/core/src/test/java/org/apache/ignite/igfs/IgfsEventsAbstractSelfTest.java:322-333 | A path is listed exactly when it is a prefix other than the root and does not exist. |
| Tree.NoFileOnPathIff | modules/core/src/test/java/org/apache/ignite/igfs/IgfsEventsAbstractSelfTest.java:207-209 | The create and mkdirs check passes exactly when no prefix of the path is a file. |
| Tree.MaterializeKeepsWellFormed | modules/core/src/test/java/org/apache/ignite/igfs/IgfsEventsAbstractSelfTest.java:367 | Creating the missing directories keeps the tree well formed. It makes the path a directory and changes no existing entry. |
| Tree.HasChildrenIffDescendant | modules/core/src/test/java/org/apache/ignite/igfs/IgfsEventsAbstractSelfTest.java:514-520 | In a well-formed tree a directory has a child exactly when it has any descendant. |
| Tree.WithoutKeepsWellFormed | modules/core/src/test/java/org/apache/ignite/igfs/IgfsEventsAbstractSelfTest.java:298 | Removing a subtree keeps the tree well formed. It removes the path and everything below it and keeps every other entry. |
| Tree.WithoutFile | modules/core/src/test/java/org/apache/ignite/igfs/IgfsEventsAbstractSelfTest.java:437-438 | Removing a file removes exactly that entry. |
| Tree.MoveKeepsWellFormed | modules/core/src/test/java/org/apache/ignite/igfs/IgfsEventsAbstractSelfTest.java:570-572 | A legal move keeps the tree well formed and removes the source. Every entry below the source reappears, unchanged, at the same place below the target. Every entry outside the source stays. |
| Igfs.CreateEventsShape | modules/core/src/test/java/org/apache/ignite/igfs/IgfsEventsAbstractSelfTest.java:207-247 | A create that passes its checks logs the following, and nothing else: one `DIR_CREATED` per missing ancestor, root to leaf, each flagged as a directory; a `FILE_DELETED` only when it replaces a file, which requires `overwrite`; `FILE_CREATED`, not flagged as a directory; then `FILE_OPENED_WRITE`. |
| Igfs.CreateDirEventsExactlyMissing | modules/core/src/test/java/org/apache/ignite/igfs/IgfsEventsAbstractSelfTest.java:322-333 | A create logs `DIR_CREATED` for a path exactly when that path is an ancestor that does not exist. |
| Igfs.CreateKeepsWellFormed | modules/core/src/test/java/org/apache/ignite/igfs/IgfsEventsAbstractSelfTest.java:209 | A create that passes its checks leaves a well-formed tree. |
| Igfs.CreatedNodesAt | modules/core/src/test/java/org/apache/ignite/igfs/IgfsEventsAbstractSelfTest.java:291-295 | After a create, the tree holds the new empty file, a directory at each prefix of its parent, and every earlier entry unchanged. |
| Igfs.RenameIsMove | modules/core/src/test/java/org/apache/ignite/igfs/IgfsEventsAbstractSelfTest.java:570-572 | A rename that passes its checks is a legal move. The target is the destination's child of the source's name when the destination is a directory, and the destination itself otherwise. |
| Igfs.AppendCreateTail | modules/core/src/test/java/org/apache/ignite/igfs/IgfsEventsAbstractSelfTest.java:684 | The file events of a create keep the log balanced against the purge queue, with the replaced file's purge queued. |
| Igfs.FileSystem.constructor | modules/core/src/test/java/org/apache/ignite/igfs/IgfsEventsAbstractSelfTest.java:169-171 | A formatted file system has only the root, an empty log, no pending purge and no stream. |
| Igfs.FileSystem.Exists | modules/core/src/test/java/org/apache/ignite/igfs/IgfsEventsAbstractSelfTest.java:433-435 | `exists(p)` is true exactly when `p` is an entry. |
| Igfs.FileSystem.Mkdirs | modules/core/src/test/java/org/apache/ignite/igfs/IgfsEventsAbstractSelfTest.java:511 | Fails, logging nothing, when the path or one of its ancestors is a file. Otherwise it creates exactly the missing ancestors and logs one `DIR_CREATED` each, root to leaf. |
| Igfs.FileSystem.AddDirs | modules/core/src/test/java/org/apache/ignite/igfs/IgfsEventsAbstractSelfTest.java:207-208 | Adds a directory at each listed path and logs one `DIR_CREATED` each, in the same order. |
| Igfs.FileSystem.Create | modules/core/src/test/java/org/apache/ignite/igfs/IgfsEventsAbstractSelfTest.java:684-687 | Fails, logging nothing, for the root, a directory, a file ancestor, or an existing file without `overwrite`. Otherwise it logs `CreateEvents`, records one new tree and one new writing stream, and queues the replaced file's purge. |
| Igfs.FileSystem.NewFile | modules/core/src/test/java/org/apache/ignite/igfs/IgfsEventsAbstractSelfTest.java:209 | The successful create: the new tree, the events, the queued purge and the stream. The file system stays valid. |
| Igfs.FileSystem.Write | modules/core/src/test/java/org/apache/ignite/igfs/IgfsEventsAbstractSelfTest.java:784 | A write on a writing stream counts the bytes and logs nothing. On any other handle it fails. |
| Igfs.FileSystem.Open | modules/core/src/test/java/org/apache/ignite/igfs/IgfsEventsAbstractSelfTest.java:788 | Opening a file logs `FILE_OPENED_READ` and returns a new reading stream that knows the file's length. A missing path or a directory fails and logs nothing. |
| Igfs.FileSystem.OpenFile | modules/core/src/test/java/org/apache/ignite/igfs/IgfsEventsAbstractSelfTest.java:788 | The successful open, with its stream and its event. |
| Igfs.FileSystem.ReadFully | modules/core/src/test/java/org/apache/ignite/igfs/IgfsEventsAbstractSelfTest.java:789 | Reading the bytes of a reading stream counts them and logs nothing. It fails at the end of the file, and on a handle that is not reading. |
| Igfs.FileSystem.Close | modules/core/src/test/java/org/apache/ignite/igfs/IgfsEventsAbstractSelfTest.java:783-790 | Closing a stream logs `FILE_CLOSED_WRITE` or `FILE_CLOSED_READ` with the bytes it moved and forgets the stream. Closing a writer sets the file's length if it is still the same file. |
| Igfs.FileSystem.Rename | modules/core/src/test/java/org/apache/ignite/igfs/IgfsEventsAbstractSelfTest.java:599-602 | Fails, logging nothing, in each `RenameError` case. Otherwise it moves the subtree to the target and logs exactly one `FILE_RENAMED` or `DIR_RENAMED` from the source to the target. |
| Igfs.FileSystem.Delete | modules/core/src/test/java/org/apache/ignite/igfs/IgfsEventsAbstractSelfTest.java:511-520 | A missing path returns false and logs nothing. A file is removed, `FILE_DELETED` is logged and its purge queued. A directory goes with its subtree and one `DIR_DELETED`, unless it has entries and the delete is not recursive, which fails and logs nothing. |
| Igfs.FileSystem.RemoveFile | modules/core/src/test/java/org/apache/ignite/igfs/IgfsEventsAbstractSelfTest.java:437 | The file case of delete: the entry goes, `FILE_DELETED` is logged and the purge is queued. |
| Igfs.FileSystem.RemoveDir | modules/core/src/test/java/org/apache/ignite/igfs/IgfsEventsAbstractSelfTest.java:298 | The directory case of delete: the subtree goes and one `DIR_DELETED` is logged. |
| Igfs.FileSystem.Purge | modules/core/src/test/java/org/apache/ignite/igfs/IgfsEventsAbstractSelfTest.java:437-438 | Performs the oldest queued purge and logs its `FILE_PURGED`. It reports whether there was one. |
| Igfs.FileSystem.FlushPurges | modules/core/src/test/java/org/apache/ignite/igfs/IgfsEventsAbstractSelfTest.java:437-438 | Performs every queued purge, oldest first. Afterwards each path has been purged as often as it has been deleted as a file. |
| ArrayConcat.CopyOf | modules/core/src/test/java/org/apache/ignite/igfs/IgfsEventsAbstractSelfTest.java:146 | Returns a new array of the requested length, holding the source's elements, padded with zeros. |
| ArrayConcat.ArrayCopy | modules/core/src/test/java/org/apache/ignite/igfs/IgfsEventsAbstractSelfTest.java:148 | Overwrites the destination range with the source range and leaves the rest of the destination unchanged. |
| ArrayConcat.Concat | modules/core/src/test/java/org/apache/ignite/igfs/IgfsEventsAbstractSelfTest.java:140-152 | A null or empty `arr` returns `obj` itself. Otherwise it returns a fresh array holding `arr` then `obj`. The contents are always `arr` followed by `obj`, and neither argument changes. |
| ArrayConcat.IncludeEventTypes | modules/core/src/test/java/org/apache/ignite/igfs/IgfsEventsAbstractSelfTest.java:116 | The recorded event types are the file-system types followed by the task-failed, task-finished and job-mapped types. |
| Scenarios.CreateClosed | modules/core/src/test/java/org/apache/ignite/igfs/IgfsEventsAbstractSelfTest.java:682-687 | `create(p, overwrite).close()` logs the create's events and then an empty `FILE_CLOSED_WRITE`. When the create fails it logs nothing and returns the error. |
| Scenarios.SingleFileNestedDirs | modules/core/src/test/java/org/apache/ignite/igfs/IgfsEventsAbstractSelfTest.java:184-257 | The eight events, exactly: three `DIR_CREATED`, the file's creation, opening and empty close, one `FILE_RENAMED`, and the `DIR_DELETED` of a delete that returns true. |
| Scenarios.DirWithFiles | modules/core/src/test/java/org/apache/ignite/igfs/IgfsEventsAbstractSelfTest.java:265-338 | The eight events, exactly. The directory is created once, by the first file, and the delete logs one `DIR_DELETED` for it. |
| Scenarios.DeletedAndPurgedOneToOne | modules/core/src/test/java/org/apache/ignite/igfs/IgfsEventsAbstractSelfTest.java:475-481 | Two files' deletions and purges match the four predicates one to one, whenever the first purge runs. |
| Scenarios.TwoFiles | modules/core/src/test/java/org/apache/ignite/igfs/IgfsEventsAbstractSelfTest.java:403-482 | All three paths exist and both deletes return true. There are eleven events: the first seven exactly, and the last four matching the predicates one to one. |
| Scenarios.SingleEmptyDir | modules/core/src/test/java/org/apache/ignite/igfs/IgfsEventsAbstractSelfTest.java:346-396 | The delete of the renamed-away path returns false and that of the new path true. The events are exactly `DIR_CREATED`, `DIR_RENAMED` flagged as a directory, and `DIR_DELETED`. |
| Scenarios.DeleteNonRecursive | modules/core/src/test/java/org/apache/ignite/igfs/IgfsEventsAbstractSelfTest.java:490-537 | The non-recursive delete of the parent is refused, and that of the empty leaf returns true. The events are exactly two `DIR_CREATED` and one `DIR_DELETED` of the leaf. |
| Scenarios.MoveFile | modules/core/src/test/java/org/apache/ignite/igfs/IgfsEventsAbstractSelfTest.java:544-603 | A rename into an existing directory moves the file to its child of the same name, which then exists. The six events are exact, and the rename's new path is that child. |
| Scenarios.NestedEmptyDirs | modules/core/src/test/java/org/apache/ignite/igfs/IgfsEventsAbstractSelfTest.java:611-653 | The parent does not exist at first, and the recursive delete returns true. The events are exactly two `DIR_CREATED` and one `DIR_DELETED` of the parent. |
| Scenarios.OverwriteOneToOne | modules/core/src/test/java/org/apache/ignite/igfs/IgfsEventsAbstractSelfTest.java:712-749 | The overwrite's five events match the five predicates one to one, whenever the purge runs. |
| Scenarios.SingleFileOverwrite | modules/core/src/test/java/org/apache/ignite/igfs/IgfsEventsAbstractSelfTest.java:661-750 | The last create is refused with `PathAlreadyExists`. There are eight events: the first three exactly, and the last five matching the predicates one to one. |
| Scenarios.FileDataEvents | modules/core/src/test/java/org/apache/ignite/igfs/IgfsEventsAbstractSelfTest.java:757-817 | Write and read succeed. The five events are exact, and both closes report the size written. |

## Left out

- Grid, cache and discovery configuration, XML loading, and starting and stopping the node are cluster plumbing with no bearing on the events.
- Listener registration, the count-down latch and the ten-second waits are left out. Delivery is a synchronous append to the log.
- `META_UPDATED` events are never emitted: the tests neither count nor order them.
- Block size and the affinity mapper only affect storage layout.
- The file system's metadata and data caches, and its transactions, are not part of this model. Only the observable contract is.
- `GridTestUtils.assertOneToOne` is not part of this model. It is rebuilt as a greedy matcher: each event must be accepted by exactly one remaining predicate and by none already used, and no predicate may be left over.
- Paths are given as segment sequences. Parsing and normalising path strings are not modelled.
- The data itself is not modelled, only byte counts. Buffer contents and the `open` buffer size have no observable effect, so `Open` ignores its `bufSize`.
- FileSystem.Purge performs the queued purges one at a time, oldest first. The real system purges asynchronously, so the scenarios take a flag that places the first purge early or late, and cover both positions the tests allow.
- An event's `sequenceNo`, `originNode` and `timestamp` are not modelled: the tests never read them, and they depend on the cluster and the clock.
- Errors are one datatype of causes, not the exception classes the real system throws.
- A stream keeps the path it was opened on. Its file being renamed while it is open is not modelled.
- Concat: the model takes `obj` as an array. Java's varargs build that array at the call site.
- ArrayCopy: `System.arraycopy` with the source and the destination the same array (an overlapping copy) is not modelled, because `concat` always copies `obj` into the fresh array `Arrays.copyOf` returns. `Concat` itself allows `arr` and `obj` to be the same array.
