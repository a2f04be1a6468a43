/** File-system events as a listener observes them, the type-and-path
    predicate the scenarios match them with, and the one-to-one matching of
    a run of events against a list of predicates. */
module Events {
  import opened Wrappers
  import opened Paths

  /** The IGFS event types. `MetaUpdated` exists but no operation of the
      model emits it. */
  datatype EventType =
    | DirCreated | DirRenamed | DirDeleted
    | FileCreated | FileRenamed | FileDeleted | FilePurged
    | FileOpenedRead | FileOpenedWrite | FileClosedRead | FileClosedWrite
    | MetaUpdated

  predicate IsDirKind(k: EventType) {
    k == DirCreated || k == DirRenamed || k == DirDeleted
  }

  predicate IsRenameKind(k: EventType) {
    k == DirRenamed || k == FileRenamed
  }

  predicate IsCloseKind(k: EventType) {
    k == FileClosedRead || k == FileClosedWrite
  }

  /** One event: its type, the path it is about, the destination of a rename,
      whether the path is a directory, and the bytes moved by a closed stream. */
  datatype Event = Event(kind: EventType, path: Path, newPath: Option<Path>,
                         isDirectory: bool, dataSize: Option<nat>)

  /** An event carries a new path exactly when it is a rename, a data size
      exactly when it closes a stream, and is flagged as a directory event
      exactly when its type is one of the directory types. */
  predicate WellFormedEvent(e: Event) {
    && e.isDirectory == IsDirKind(e.kind)
    && (e.newPath.Some? <==> IsRenameKind(e.kind))
    && (e.dataSize.Some? <==> IsCloseKind(e.kind))
  }

  /** An event about `p` with neither a new path nor a data size. */
  function Simple(kind: EventType, p: Path): (e: Event)
    requires !IsRenameKind(kind) && !IsCloseKind(kind)
    ensures WellFormedEvent(e) && e.kind == kind && e.path == p
  {
    Event(kind, p, None, IsDirKind(kind), None)
  }

  /** The single event of a rename of a file or directory from `src` to `dst`. */
  function Renamed(isDir: bool, src: Path, dst: Path): (e: Event)
    ensures WellFormedEvent(e) && e.path == src && e.newPath == Some(dst)
    ensures e.isDirectory == isDir && e.kind == (if isDir then DirRenamed else FileRenamed)
  {
    Event(if isDir then DirRenamed else FileRenamed, src, Some(dst), isDir, None)
  }

  /** The event of closing a stream on `p` that moved `n` bytes. */
  function Closed(kind: EventType, p: Path, n: nat): (e: Event)
    requires IsCloseKind(kind)
    ensures WellFormedEvent(e) && e.kind == kind && e.path == p && e.dataSize == Some(n)
    ensures !e.isDirectory
  {
    Event(kind, p, None, false, Some(n))
  }

  // ---------------------------------------------------------------------
  // Counting events

  /** The paths of the events of type `kind` in `log`, with multiplicity. */
  function PathsOfKind(log: seq<Event>, kind: EventType): multiset<Path>
    decreases |log|
  {
    if log == [] then multiset{}
    else PathsOfKind(log[..|log| - 1], kind)
         + (if log[|log| - 1].kind == kind then multiset{log[|log| - 1].path} else multiset{})
  }

  /** Counting a log with one more event. */
  lemma PathsOfKindSnoc(log: seq<Event>, e: Event, kind: EventType)
    ensures PathsOfKind(log + [e], kind)
         == PathsOfKind(log, kind) + if e.kind == kind then multiset{e.path} else multiset{}
  {
    assert (log + [e])[..|log|] == log;
  }

  /** Counting distributes over appending logs. */
  lemma {:induction false} PathsOfKindAppend(a: seq<Event>, b: seq<Event>, kind: EventType)
    ensures PathsOfKind(a + b, kind) == PathsOfKind(a, kind) + PathsOfKind(b, kind)
    decreases |b|
  {
    if b == [] {
      assert a + b == a;
    } else {
      var b' := b[..|b| - 1];
      assert (a + b)[..|a + b| - 1] == a + b';
      PathsOfKindAppend(a, b', kind);
    }
  }

  /** A log without events of type `kind` counts no path for it. */
  lemma {:induction false} PathsOfKindNone(log: seq<Event>, kind: EventType)
    requires forall i :: 0 <= i < |log| ==> log[i].kind != kind
    ensures PathsOfKind(log, kind) == multiset{}
    decreases |log|
  {
    if log != [] {
      PathsOfKindNone(log[..|log| - 1], kind);
    }
  }

  // ---------------------------------------------------------------------
  // Matching events against predicates

  /** What a predicate looks at in an event: its type and its path. */
  type Key = (EventType, Path)

  function KeyOf(e: Event): Key {
    (e.kind, e.path)
  }

  function EventKeys(evts: seq<Event>): (r: seq<Key>)
    ensures |r| == |evts| && forall i :: 0 <= i < |evts| ==> r[i] == KeyOf(evts[i])
  {
    seq(|evts|, i requires 0 <= i < |evts| => KeyOf(evts[i]))
  }

  /** Accepts the events of one type about one path. */
  datatype EventPredicate = EventPredicate(evt: EventType, path: Path)
  {
    predicate Apply(e: Event) {
      e.kind == evt && e.path == path
    }

    function Key(): Key {
      (evt, path)
    }
  }

  /** A predicate accepts an event exactly when their keys agree: no other
      field of the event (new path, directory flag, data size) matters. The
      matcher below counts acceptances through this reading of `Apply`. */
  lemma ApplyIffSameKey(p: EventPredicate, e: Event)
    ensures p.Apply(e) <==> KeyOf(e) == p.Key()
    ensures forall e' :: KeyOf(e') == KeyOf(e) ==> (p.Apply(e') <==> p.Apply(e))
  {
  }

  function PredKeys(ps: seq<EventPredicate>): (r: seq<Key>)
    ensures |r| == |ps| && forall i :: 0 <= i < |ps| ==> r[i] == ps[i].Key()
  {
    seq(|ps|, i requires 0 <= i < |ps| => ps[i].Key())
  }

  /** How many of `ps` accept `e`. */
  function CountMatching(ps: seq<EventPredicate>, e: Event): nat
    decreases |ps|
  {
    if ps == [] then 0
    else CountMatching(ps[1..], e) + (if ps[0].Apply(e) then 1 else 0)
  }

  /** The first of `ps` that accepts `e`, or -1 when none does. */
  function IndexOfMatch(ps: seq<EventPredicate>, e: Event): (i: int)
    decreases |ps|
    ensures -1 <= i < |ps|
    ensures i >= 0 ==> ps[i].Apply(e) && forall j :: 0 <= j < i ==> !ps[j].Apply(e)
    ensures i == -1 ==> forall j :: 0 <= j < |ps| ==> !ps[j].Apply(e)
  {
    if ps == [] then -1
    else if ps[0].Apply(e) then 0
    else
      var i := IndexOfMatch(ps[1..], e);
      if i == -1 then -1 else i + 1
  }

  function RemoveAt<T>(s: seq<T>, i: nat): (r: seq<T>)
    requires i < |s|
    ensures |r| == |s| - 1
  {
    s[..i] + s[i + 1..]
  }

  /** The one-to-one assertion, element by element: every event is accepted by
      none of the predicates already used up and by exactly one of those
      remaining, which is then used up; when the events run out no predicate
      may remain. */
  predicate MatchOneToOne(evts: seq<Event>, remaining: seq<EventPredicate>, passed: seq<EventPredicate>)
    decreases |evts|
  {
    if evts == [] then remaining == []
    else
      var e := evts[0];
      && (forall j :: 0 <= j < |passed| ==> !passed[j].Apply(e))
      && CountMatching(remaining, e) == 1
      && var i := IndexOfMatch(remaining, e);
         i >= 0 && MatchOneToOne(evts[1..], RemoveAt(remaining, i), passed + [remaining[i]])
  }

  predicate OneToOne(evts: seq<Event>, ps: seq<EventPredicate>) {
    MatchOneToOne(evts, ps, [])
  }

  /** No two predicates of `ps` look for the same type and path. */
  ghost predicate DistinctKeys(ps: seq<EventPredicate>) {
    forall k :: multiset(PredKeys(ps))[k] <= 1
  }

  lemma {:induction false} CountIsMultiplicity(ps: seq<EventPredicate>, e: Event)
    ensures CountMatching(ps, e) == multiset(PredKeys(ps))[KeyOf(e)]
    decreases |ps|
  {
    if ps != [] {
      CountIsMultiplicity(ps[1..], e);
      ApplyIffSameKey(ps[0], e);
      assert PredKeys(ps) == [ps[0].Key()] + PredKeys(ps[1..]);
    }
  }

  lemma PredKeysAppend(a: seq<EventPredicate>, b: seq<EventPredicate>)
    ensures PredKeys(a + b) == PredKeys(a) + PredKeys(b)
  {
  }

  lemma RemoveAtKeys(ps: seq<EventPredicate>, i: nat)
    requires i < |ps|
    ensures multiset(PredKeys(RemoveAt(ps, i))) == multiset(PredKeys(ps)) - multiset{ps[i].Key()}
    ensures multiset(PredKeys(ps)) == multiset(PredKeys(RemoveAt(ps, i))) + multiset{ps[i].Key()}
  {
    var front, x, back := ps[..i], [ps[i]], ps[i + 1..];
    assert ps == front + x + back;
    assert RemoveAt(ps, i) == front + back;
    PredKeysAppend(front, back);
    PredKeysAppend(front + x, back);
    PredKeysAppend(front, x);
    assert PredKeys(x) == [ps[i].Key()];
    assert multiset(PredKeys(ps)) == multiset(PredKeys(front)) + multiset{ps[i].Key()} + multiset(PredKeys(back));
  }

  /** Using up one remaining predicate keeps the keys of all predicates, those
      used up and those remaining, the same multiset. */
  lemma StepKeepsKeys(passed: seq<EventPredicate>, remaining: seq<EventPredicate>, i: nat)
    requires i < |remaining|
    ensures multiset(PredKeys(passed + [remaining[i]] + RemoveAt(remaining, i)))
         == multiset(PredKeys(passed + remaining))
  {
    RemoveAtKeys(remaining, i);
    PredKeysAppend(passed, remaining);
    PredKeysAppend(passed + [remaining[i]], RemoveAt(remaining, i));
    PredKeysAppend(passed, [remaining[i]]);
  }

  /** With distinct keys overall, an event some remaining predicate accepts is
      accepted by none of those used up. */
  lemma PassedRejects(passed: seq<EventPredicate>, remaining: seq<EventPredicate>, e: Event)
    requires DistinctKeys(passed + remaining) && KeyOf(e) in multiset(PredKeys(remaining))
    ensures forall j :: 0 <= j < |passed| ==> !passed[j].Apply(e)
  {
    PredKeysAppend(passed, remaining);
    var k := KeyOf(e);
    forall j | 0 <= j < |passed| ensures !passed[j].Apply(e) {
      var kj := passed[j].Key();
      assert PredKeys(passed)[j] == kj;
      assert multiset(PredKeys(passed))[kj] >= 1;
      assert multiset(PredKeys(passed + remaining))[kj]
          == multiset(PredKeys(passed))[kj] + multiset(PredKeys(remaining))[kj];
    }
  }

  /** The general form of `OneToOneIffSameKeys`, for a matching already under
      way: `passed` holds the predicates used up so far. */
  lemma {:induction false} MatchIffSameKeys(evts: seq<Event>, remaining: seq<EventPredicate>, passed: seq<EventPredicate>)
    requires DistinctKeys(passed + remaining)
    ensures MatchOneToOne(evts, remaining, passed) <==>
            multiset(EventKeys(evts)) == multiset(PredKeys(remaining))
    decreases |evts|
  {
    PredKeysAppend(passed, remaining);
    if evts != [] {
      var e := evts[0];
      var k := KeyOf(e);
      var rest := evts[1..];
      assert EventKeys(evts) == [k] + EventKeys(rest);
      CountIsMultiplicity(remaining, e);
      var i := IndexOfMatch(remaining, e);
      if i >= 0 {
        var rem' := RemoveAt(remaining, i);
        RemoveAtKeys(remaining, i);
        StepKeepsKeys(passed, remaining, i);
        MatchIffSameKeys(rest, rem', passed + [remaining[i]]);
        var A, B := multiset(EventKeys(rest)), multiset(PredKeys(rem'));
        assert multiset(EventKeys(evts)) == A + multiset{k};
        assert multiset(PredKeys(remaining)) == B + multiset{k};
        assert multiset(EventKeys(evts)) == multiset(PredKeys(remaining)) <==> A == B by {
          if A + multiset{k} == B + multiset{k} {
            assert A == (A + multiset{k}) - multiset{k};
          }
        }
        assert multiset(PredKeys(remaining))[k] <= multiset(PredKeys(passed + remaining))[k];
        PassedRejects(passed, remaining, e);
      } else {
        assert multiset(EventKeys(evts))[k] >= 1;
      }
    }
  }

  /** Predicates whose keys differ pairwise have distinct keys. */
  lemma {:induction false} DistinctKeysOfPairwise(ps: seq<EventPredicate>)
    requires forall i, j :: 0 <= i < j < |ps| ==> ps[i].Key() != ps[j].Key()
    ensures DistinctKeys(ps)
    decreases |ps|
  {
    if ps != [] {
      var rest := ps[1..];
      DistinctKeysOfPairwise(rest);
      assert PredKeys(ps) == [ps[0].Key()] + PredKeys(rest);
      assert ps[0].Key() !in PredKeys(rest) by {
        forall j | 0 <= j < |rest| ensures PredKeys(rest)[j] != ps[0].Key() {
          assert rest[j] == ps[j + 1];
        }
      }
    }
  }

  /** For predicates that each look for a different type and path, the
      one-to-one assertion holds exactly when the events carry, with
      multiplicity, the same types and paths as the predicates: the order of
      the events does not matter. */
  lemma OneToOneIffSameKeys(evts: seq<Event>, ps: seq<EventPredicate>)
    requires DistinctKeys(ps)
    ensures OneToOne(evts, ps) <==> multiset(EventKeys(evts)) == multiset(PredKeys(ps))
  {
    assert [] + ps == ps;
    MatchIffSameKeys(evts, ps, []);
  }
}
