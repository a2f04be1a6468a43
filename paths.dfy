/** File-system paths: a normalised path is the sequence of its segments,
    the root is the empty sequence, and two paths are equal exactly when
    their segment sequences are equal (as `IgfsPath.equals` compares them). */
module Paths {

  type Segment = string

  type Path = seq<Segment>

  const Root: Path := []

  /** The path one level up, as `IgfsPath.parent()`. */
  function Parent(p: Path): (r: Path)
    requires p != Root
    ensures |r| == |p| - 1 && IsPrefix(r, p)
  {
    p[..|p| - 1]
  }

  /** The last segment, as `IgfsPath.name()`. */
  function Name(p: Path): (r: Segment)
    requires p != Root
    ensures p == Parent(p) + [r]
  {
    p[|p| - 1]
  }

  /** The path of `name` inside `p`, as `new IgfsPath(p, name)`. */
  function Child(p: Path, name: Segment): (r: Path)
    ensures r != Root && Parent(r) == p && Name(r) == name
  {
    p + [name]
  }

  /** `a` is `b` or one of its ancestors. */
  predicate IsPrefix(a: Path, b: Path) {
    |a| <= |b| && b[..|a|] == a
  }

  /** `q`, which lies under `src`, re-rooted under `dst`. */
  function Rebase(q: Path, src: Path, dst: Path): (r: Path)
    requires IsPrefix(src, q)
    ensures IsPrefix(dst, r) && |r| == |dst| + |q| - |src|
    ensures src + r[|dst|..] == q
  {
    dst + q[|src|..]
  }

  lemma PrefixTransitive(a: Path, b: Path, c: Path)
    requires IsPrefix(a, b) && IsPrefix(b, c)
    ensures IsPrefix(a, c)
  {
    assert c[..|a|] == c[..|b|][..|a|];
  }

  /** A proper prefix of `p` is a prefix of its parent. */
  lemma PrefixOfParent(a: Path, p: Path)
    requires IsPrefix(a, p) && a != p
    ensures p != Root && IsPrefix(a, Parent(p))
  {
    assert Parent(p)[..|a|] == p[..|a|];
  }

  /** A prefix of the parent is a prefix of the path itself. */
  lemma PrefixOfParentIsPrefix(a: Path, p: Path)
    requires p != Root
    ensures IsPrefix(a, Parent(p)) ==> IsPrefix(a, p)
  {
    if |a| <= |p| - 1 {
      assert Parent(p)[..|a|] == p[..|a|];
    }
  }

  lemma PrefixAt(p: Path, i: nat)
    requires i <= |p|
    ensures IsPrefix(p[..i], p) && (i == |p| ==> p[..i] == p)
  {
  }

  /** Rebasing is injective on the paths under `src`. */
  lemma RebaseInjective(q1: Path, q2: Path, src: Path, dst: Path)
    requires IsPrefix(src, q1) && IsPrefix(src, q2) && Rebase(q1, src, dst) == Rebase(q2, src, dst)
    ensures q1 == q2
  {
  }

  /** The parent of a rebased path is the rebased parent. */
  lemma RebaseParent(q: Path, src: Path, dst: Path)
    requires IsPrefix(src, q) && q != src
    ensures IsPrefix(src, Parent(q)) && Rebase(q, src, dst) != Root
    ensures Parent(Rebase(q, src, dst)) == Rebase(Parent(q), src, dst)
  {
    PrefixOfParent(src, q);
    assert q[|src|..] == Parent(q)[|src|..] + [Name(q)];
  }
}
