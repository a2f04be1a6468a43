/** The directory tree of the file system, as a map from every existing path
    to what lives there. The tree is well formed when the root is a directory
    and the parent of every other entry is an existing directory. */
module Tree {
  import opened Paths

  /** What a path names: a directory, or a file with its length in bytes and
      the generation it was created in. */
  datatype Node = Dir | File(size: nat, gen: nat)

  type Nodes = map<Path, Node>

  predicate IsDir(nodes: Nodes, p: Path) {
    p in nodes && nodes[p].Dir?
  }

  predicate IsFile(nodes: Nodes, p: Path) {
    p in nodes && nodes[p].File?
  }

  ghost predicate WellFormed(nodes: Nodes) {
    && IsDir(nodes, Root)
    && forall q {:trigger Parent(q)} :: q in nodes && q != Root ==> IsDir(nodes, Parent(q))
  }

  /** The tree with only the root directory, as after `format()`. */
  function Empty(): (r: Nodes)
    ensures WellFormed(r) && r.Keys == {Root}
  {
    map[Root := Dir]
  }

  /** Every proper prefix of an existing entry is an existing directory. */
  lemma {:induction false} AncestorsAreDirs(nodes: Nodes, p: Path, a: Path)
    requires WellFormed(nodes) && p in nodes && IsPrefix(a, p) && a != p
    ensures IsDir(nodes, a)
    decreases |p|
  {
    PrefixOfParent(a, p);
    if a != Parent(p) {
      AncestorsAreDirs(nodes, Parent(p), a);
    }
  }

  /** A file has nothing below it. */
  lemma FileHasNoDescendants(nodes: Nodes, p: Path, q: Path)
    requires WellFormed(nodes) && IsFile(nodes, p) && q in nodes && IsPrefix(p, q)
    ensures q == p
  {
    if q != p {
      AncestorsAreDirs(nodes, q, p);
    }
  }

  /** Whether `p` has an entry directly inside it. */
  predicate HasChildren(nodes: Nodes, p: Path) {
    exists q :: q in nodes && q != Root && Parent(q) == p
  }

  /** In a well-formed tree a path has a child exactly when it has any
      descendant at all, so "not empty" means the same for both readings. */
  lemma HasChildrenIffDescendant(nodes: Nodes, p: Path)
    requires WellFormed(nodes)
    ensures HasChildren(nodes, p) <==> exists q :: q in nodes && IsPrefix(p, q) && q != p
  {
    if q :| q in nodes && IsPrefix(p, q) && q != p {
      var c := q[..|p| + 1];
      PrefixAt(q, |p| + 1);
      assert Parent(c) == p;
      if c != q {
        AncestorsAreDirs(nodes, q, c);
      }
    }
  }

  // ---------------------------------------------------------------------
  // Materialising missing ancestors (mkdirs and create)

  /** No entry on the way from the root down to `p`, `p` included, is a file. */
  predicate NoFileOnPath(nodes: Nodes, p: Path)
    decreases |p|
  {
    && !IsFile(nodes, p)
    && (p == Root || NoFileOnPath(nodes, Parent(p)))
  }

  /** The empty tree has no file anywhere. */
  lemma {:induction false} NoFileOnPathEmpty(p: Path)
    ensures NoFileOnPath(Empty(), p)
    decreases |p|
  {
    if p != Root {
      NoFileOnPathEmpty(Parent(p));
    }
  }

  lemma {:induction false} NoFileOnPathPrefix(nodes: Nodes, p: Path, a: Path)
    requires NoFileOnPath(nodes, p) && IsPrefix(a, p)
    ensures NoFileOnPath(nodes, a) && !IsFile(nodes, a)
    decreases |p|
  {
    if a != p {
      PrefixOfParent(a, p);
      NoFileOnPathPrefix(nodes, Parent(p), a);
    }
  }

  /** The recursive definition says exactly "no prefix of `p` is a file". */
  lemma {:induction false} NoFileOnPathIff(nodes: Nodes, p: Path)
    ensures NoFileOnPath(nodes, p) <==> forall i :: 0 <= i <= |p| ==> !IsFile(nodes, p[..i])
    decreases |p|
  {
    assert p[..|p|] == p;
    if p != Root {
      NoFileOnPathIff(nodes, Parent(p));
      forall i | 0 <= i < |p| ensures Parent(p)[..i] == p[..i] {
      }
    }
  }

  /** The prefixes of `p` (the root excluded) that do not exist yet, in
      root-to-leaf order. */
  function MissingAncestors(nodes: Nodes, p: Path): seq<Path>
    decreases |p|
  {
    if p == Root then []
    else MissingAncestors(nodes, Parent(p)) + (if p in nodes then [] else [p])
  }

  /** Every listed ancestor is a prefix of `p` other than the root, and does
      not exist. */
  lemma {:induction false} MissingAncestorsBounds(nodes: Nodes, p: Path)
    ensures forall k :: 0 <= k < |MissingAncestors(nodes, p)| ==>
      && MissingAncestors(nodes, p)[k] != Root
      && IsPrefix(MissingAncestors(nodes, p)[k], p)
      && MissingAncestors(nodes, p)[k] !in nodes
    decreases |p|
  {
    if p != Root {
      MissingAncestorsBounds(nodes, Parent(p));
      var r' := MissingAncestors(nodes, Parent(p));
      forall k | 0 <= k < |r'| ensures IsPrefix(r'[k], p) {
        PrefixTransitive(r'[k], Parent(p), p);
      }
    }
  }

  /** One entry per missing prefix of `p`, and no other. */
  lemma {:induction false} MissingAncestorsExactly(nodes: Nodes, p: Path, q: Path)
    ensures q in MissingAncestors(nodes, p) <==> q != Root && IsPrefix(q, p) && q !in nodes
    decreases |p|
  {
    if p != Root {
      MissingAncestorsExactly(nodes, Parent(p), q);
      if IsPrefix(q, p) && q != p {
        PrefixOfParent(q, p);
      }
    }
  }

  /** Each path of `r` is a proper prefix of every later one. */
  ghost predicate RootToLeaf(r: seq<Path>) {
    forall j, k :: 0 <= j < k < |r| ==> IsPrefix(r[j], r[k]) && |r[j]| < |r[k]|
  }

  /** The missing ancestors are listed from the root towards the leaf. */
  lemma {:induction false} MissingAncestorsRootToLeaf(nodes: Nodes, p: Path)
    ensures RootToLeaf(MissingAncestors(nodes, p))
    decreases |p|
  {
    if p != Root {
      MissingAncestorsRootToLeaf(nodes, Parent(p));
      MissingAncestorsBounds(nodes, Parent(p));
      var r' := MissingAncestors(nodes, Parent(p));
      var r := MissingAncestors(nodes, p);
      assert r == r' + (if p in nodes then [] else [p]);
      forall j, k | 0 <= j < k < |r| ensures IsPrefix(r[j], r[k]) && |r[j]| < |r[k]| {
        assert r[j] == r'[j];
        if k < |r'| {
          assert r[k] == r'[k];
        } else {
          assert r[k] == p;
          assert IsPrefix(r'[j], Parent(p));
          PrefixTransitive(r'[j], Parent(p), p);
        }
      }
    }
  }

  /** Length of the longest prefix of `p` that exists (0 when only the root
      does, or when not even the root does). */
  function ExistingDepth(nodes: Nodes, p: Path): (d: nat)
    decreases |p|
    ensures d <= |p|
    ensures d == 0 || p[..d] in nodes
    ensures forall i :: d < i <= |p| ==> p[..i] !in nodes
  {
    assert p[..|p|] == p;
    if p == Root || p in nodes then |p|
    else
      var d' := ExistingDepth(nodes, Parent(p));
      assert forall i :: 0 <= i < |p| ==> Parent(p)[..i] == p[..i];
      d'
  }

  lemma {:induction false} MissingOfPresentIsEmpty(nodes: Nodes, p: Path)
    requires WellFormed(nodes) && p in nodes
    ensures MissingAncestors(nodes, p) == []
    decreases |p|
  {
    if p != Root {
      MissingOfPresentIsEmpty(nodes, Parent(p));
    }
  }

  /** In a well-formed tree the missing ancestors are exactly the prefixes
      deeper than the deepest existing one: a prefix that exists produces no
      entry, and every deeper prefix produces one, in order. */
  lemma {:induction false} MissingAncestorsAreDeepest(nodes: Nodes, p: Path)
    requires WellFormed(nodes)
    ensures var d := ExistingDepth(nodes, p); var r := MissingAncestors(nodes, p);
      |r| == |p| - d && forall k :: 0 <= k < |r| ==> r[k] == p[..d + k + 1]
    decreases |p|
  {
    if p == Root {
    } else if p in nodes {
      MissingOfPresentIsEmpty(nodes, p);
    } else {
      MissingAncestorsAreDeepest(nodes, Parent(p));
      assert forall i :: 0 <= i < |p| ==> Parent(p)[..i] == p[..i];
    }
  }

  /** `nodes` with a directory at each of `qs`. */
  function WithDirs(nodes: Nodes, qs: seq<Path>): Nodes
    decreases |qs|
  {
    if qs == [] then nodes
    else WithDirs(nodes, qs[..|qs| - 1])[qs[|qs| - 1] := Dir]
  }

  /** `WithDirs` holds the entries of `nodes` and of `qs`, those of `qs` as
      directories and the others unchanged. */
  lemma {:induction false} WithDirsEntries(nodes: Nodes, qs: seq<Path>)
    ensures forall q :: q in WithDirs(nodes, qs) <==> q in nodes || q in qs
    ensures forall q :: q in WithDirs(nodes, qs) ==>
      WithDirs(nodes, qs)[q] == if q in qs then Dir else nodes[q]
    decreases |qs|
  {
    if qs != [] {
      var init := qs[..|qs| - 1];
      assert qs == init + [qs[|qs| - 1]];
      WithDirsEntries(nodes, init);
    }
  }

  /** Creating the missing ancestors of `p` keeps the tree well formed, makes
      `p` a directory and leaves every existing entry as it was. */
  lemma MaterializeKeepsWellFormed(nodes: Nodes, p: Path)
    requires WellFormed(nodes) && NoFileOnPath(nodes, p)
    ensures var r := WithDirs(nodes, MissingAncestors(nodes, p));
      && WellFormed(r)
      && IsDir(r, p)
      && forall q :: q in nodes ==> q in r && r[q] == nodes[q]
  {
    var m := MissingAncestors(nodes, p);
    var r := WithDirs(nodes, m);
    WithDirsEntries(nodes, m);
    MissingAncestorsBounds(nodes, p);
    forall q | q in r && q != Root ensures IsDir(r, Parent(q)) {
      var a := Parent(q);
      if q !in nodes {
        MissingAncestorsExactly(nodes, p, q);
        PrefixTransitive(a, q, p);
        NoFileOnPathPrefix(nodes, p, a);
        MissingAncestorsExactly(nodes, p, a);
      }
    }
    NoFileOnPathPrefix(nodes, p, p);
    MissingAncestorsExactly(nodes, p, p);
  }

  /** Putting a file at a path that is not a directory, inside an existing
      directory, keeps the tree well formed and changes nothing else. */
  lemma AddFileKeepsWellFormed(nodes: Nodes, p: Path, size: nat, gen: nat)
    requires WellFormed(nodes) && p != Root && IsDir(nodes, Parent(p)) && !IsDir(nodes, p)
    ensures var r := nodes[p := File(size, gen)];
      WellFormed(r) && IsFile(r, p) && forall q :: q != p ==> (q in r <==> q in nodes)
  {
    var r := nodes[p := File(size, gen)];
    forall q | q in r && q != Root ensures IsDir(r, Parent(q)) {
      if q != p {
        assert IsDir(nodes, Parent(q));
      }
    }
  }

  // ---------------------------------------------------------------------
  // Removing and moving subtrees (delete and rename)

  /** `nodes` with `p` and everything below it removed. */
  function Without(nodes: Nodes, p: Path): Nodes {
    map q | q in nodes && !IsPrefix(p, q) :: nodes[q]
  }

  /** Removing a subtree other than the root keeps the tree well formed. */
  lemma WithoutIsWellFormed(nodes: Nodes, p: Path)
    requires WellFormed(nodes) && p != Root
    ensures WellFormed(Without(nodes, p))
  {
    var r := Without(nodes, p);
    forall q | q in r && q != Root ensures IsDir(r, Parent(q)) {
      if IsPrefix(p, Parent(q)) {
        PrefixTransitive(p, Parent(q), q);
      }
    }
  }

  /** Removing a subtree other than the root keeps the tree well formed, removes
      `p` and all of its descendants, and keeps every other entry. */
  lemma WithoutKeepsWellFormed(nodes: Nodes, p: Path)
    requires WellFormed(nodes) && p != Root
    ensures var r := Without(nodes, p);
      && WellFormed(r)
      && (forall q :: IsPrefix(p, q) ==> q !in r)
      && (forall q :: q in nodes && !IsPrefix(p, q) ==> q in r && r[q] == nodes[q])
  {
    WithoutIsWellFormed(nodes, p);
  }

  /** Removing a file from a well-formed tree removes exactly that entry. */
  lemma WithoutFile(nodes: Nodes, p: Path)
    requires WellFormed(nodes) && IsFile(nodes, p)
    ensures Without(nodes, p) == nodes - {p}
  {
    forall q | q in nodes && IsPrefix(p, q) ensures q == p {
      FileHasNoDescendants(nodes, p, q);
    }
  }

  /** Removing a file keeps the tree well formed. */
  lemma RemoveFileKeepsWellFormed(nodes: Nodes, p: Path)
    requires WellFormed(nodes) && IsFile(nodes, p)
    ensures WellFormed(nodes - {p})
  {
    WithoutIsWellFormed(nodes, p);
    WithoutFile(nodes, p);
  }

  /** Whether `k` is where the move from `src` to `dst` puts an entry:
      `k` lies under `dst` and the path it came from is an entry. */
  predicate MovedIn(nodes: Nodes, src: Path, dst: Path, k: Path) {
    IsPrefix(dst, k) && src + k[|dst|..] in nodes
  }

  /** The paths the entries under `src` are moved to. */
  function MovedKeys(nodes: Nodes, src: Path, dst: Path): set<Path> {
    set q | q in nodes && IsPrefix(src, q) :: Rebase(q, src, dst)
  }

  /** `nodes` with the subtree at `src` moved to `dst`: the entries under
      `dst` come from the matching entries under `src`, those outside `src`
      stay. */
  function Moved(nodes: Nodes, src: Path, dst: Path): Nodes {
    map k | k in Without(nodes, src).Keys + MovedKeys(nodes, src, dst) ::
      if MovedIn(nodes, src, dst, k) then nodes[src + k[|dst|..]] else nodes[k]
  }

  /** The entries of the moved tree, one path at a time. */
  lemma MovedAt(nodes: Nodes, src: Path, dst: Path, k: Path)
    ensures k in Moved(nodes, src, dst) <==> (k in nodes && !IsPrefix(src, k)) || MovedIn(nodes, src, dst, k)
    ensures k in Moved(nodes, src, dst) ==>
      Moved(nodes, src, dst)[k] == if MovedIn(nodes, src, dst, k) then nodes[src + k[|dst|..]] else nodes[k]
  {
    if MovedIn(nodes, src, dst, k) {
      var x := src + k[|dst|..];
      assert k == Rebase(x, src, dst);
    }
  }

  /** When a subtree may be moved from `src` to `dst`: the tree is well
      formed, `src` is an entry other than the root, and `dst` is a fresh path
      in an existing directory outside the subtree. */
  ghost predicate CanMove(nodes: Nodes, src: Path, dst: Path) {
    && WellFormed(nodes) && src != Root && src in nodes
    && dst != Root && dst !in nodes && IsDir(nodes, Parent(dst)) && !IsPrefix(src, dst)
  }

  /** A moved entry never lands on an entry that already exists. */
  lemma MovedFresh(nodes: Nodes, src: Path, dst: Path, k: Path)
    requires CanMove(nodes, src, dst) && MovedIn(nodes, src, dst, k)
    ensures k !in nodes
  {
    if k in nodes && k != dst {
      AncestorsAreDirs(nodes, k, dst);
    }
  }

  /** Each entry under `src` reappears under `dst`, unchanged. */
  lemma MovedKey(nodes: Nodes, src: Path, dst: Path, x: Path)
    requires x in nodes && IsPrefix(src, x)
    ensures Rebase(x, src, dst) in Moved(nodes, src, dst)
    ensures Moved(nodes, src, dst)[Rebase(x, src, dst)] == nodes[x]
  {
    var k := Rebase(x, src, dst);
    assert MovedIn(nodes, src, dst, k);
    MovedAt(nodes, src, dst, k);
  }

  /** An entry outside the moved subtree stays where it is. */
  lemma StaysOutside(nodes: Nodes, src: Path, dst: Path, q: Path)
    requires CanMove(nodes, src, dst) && q in nodes && !IsPrefix(src, q)
    ensures q in Moved(nodes, src, dst) && Moved(nodes, src, dst)[q] == nodes[q]
  {
    MovedAt(nodes, src, dst, q);
    if MovedIn(nodes, src, dst, q) {
      MovedFresh(nodes, src, dst, q);
    }
  }

  lemma MovedParentIsDir(nodes: Nodes, src: Path, dst: Path, k: Path)
    requires CanMove(nodes, src, dst) && k in Moved(nodes, src, dst) && k != Root
    ensures IsDir(Moved(nodes, src, dst), Parent(k))
  {
    MovedAt(nodes, src, dst, k);
    if k == dst {
      PrefixOfParentIsPrefix(src, dst);
      StaysOutside(nodes, src, dst, Parent(dst));
    } else if MovedIn(nodes, src, dst, k) {
      var x := src + k[|dst|..];
      assert k == Rebase(x, src, dst);
      RebaseParent(x, src, dst);
      MovedKey(nodes, src, dst, Parent(x));
    } else {
      PrefixOfParentIsPrefix(src, k);
      StaysOutside(nodes, src, dst, Parent(k));
    }
  }

  /** A legal move leaves a well-formed tree. */
  lemma MovedIsWellFormed(nodes: Nodes, src: Path, dst: Path)
    requires CanMove(nodes, src, dst)
    ensures WellFormed(Moved(nodes, src, dst))
  {
    var r := Moved(nodes, src, dst);
    StaysOutside(nodes, src, dst, Root);
    forall k | k in r && k != Root ensures IsDir(r, Parent(k)) {
      MovedParentIsDir(nodes, src, dst, k);
    }
  }

  /** Moving a subtree to a fresh path whose parent is a directory, and which
      does not lie inside the subtree, keeps the tree well formed: every entry
      below `src` reappears below `dst` unchanged, `src` is gone and every
      entry outside the subtree stays where it was. */
  lemma MoveKeepsWellFormed(nodes: Nodes, src: Path, dst: Path)
    requires CanMove(nodes, src, dst)
    ensures var r := Moved(nodes, src, dst);
      && WellFormed(r)
      && src !in r
      && dst in r && r[dst] == nodes[src]
      && (forall q :: q in nodes && IsPrefix(src, q) ==>
            Rebase(q, src, dst) in r && r[Rebase(q, src, dst)] == nodes[q])
      && (forall q :: q in nodes && !IsPrefix(src, q) ==> q in r && r[q] == nodes[q])
  {
    var r := Moved(nodes, src, dst);
    forall q | q in nodes && IsPrefix(src, q)
      ensures Rebase(q, src, dst) in r && r[Rebase(q, src, dst)] == nodes[q]
    {
      MovedKey(nodes, src, dst, q);
    }
    assert dst == Rebase(src, src, dst);
    forall q | q in nodes && !IsPrefix(src, q) ensures q in r && r[q] == nodes[q] {
      StaysOutside(nodes, src, dst, q);
    }
    MovedIsWellFormed(nodes, src, dst);
    MovedAt(nodes, src, dst, src);
    if MovedIn(nodes, src, dst, src) {
      MovedFresh(nodes, src, dst, src);
    }
  }
}
