/**
 * The filesystem as a value: a finite map from a path (a sequence of
 * components, relative to the directory the script works in) to the kind
 * of node found there. The working directory itself is the empty path and
 * is never a key.
 *
 * The library calls the setup script makes (shutil.rmtree, shutil.move,
 * os.remove) are given here as functions from a tree to an Outcome, and
 * the class Disk holds the one mutable tree the script changes in place.
 */
module FileTree {

  datatype Kind = Dir | File

  type Name = string
  type Path = seq<Name>
  type Tree = map<Path, Kind>

  datatype Option<T> = None | Some(value: T)

  /** The exceptions the filesystem calls of the model can raise. */
  datatype FsError =
    | NotFound(path: Path)        // FileNotFoundError
    | NotADirectory(path: Path)   // NotADirectoryError from shutil.rmtree
    | IsADirectory(path: Path)    // IsADirectoryError from os.remove
    | MoveIntoItself(src: Path)   // shutil.Error: destination inside the source

  /** The tree after a filesystem call, and the error it raised, if any. */
  datatype Outcome = Outcome(tree: Tree, error: Option<FsError>)

  /** Neither path lies inside (or is) the other. */
  predicate Disjoint(p: Path, q: Path) {
    !(p <= q) && !(q <= p)
  }

  /** Nothing exists at `p` or beneath it. */
  predicate NoneUnder(t: Tree, p: Path) {
    forall q :: q in t ==> !(p <= q)
  }

  /**
   * A tree a real filesystem can hold: the working directory is implicit,
   * and every proper ancestor of an existing node is an existing directory.
   */
  ghost predicate WellFormed(t: Tree) {
    && [] !in t
    && forall q, k :: q in t && 0 < k < |q| ==> q[..k] in t && t[q[..k]] == Dir
  }

  /** Every node at `p` or beneath it is gone; everything else stays. */
  function RemoveTree(t: Tree, p: Path): (r: Tree)
    ensures forall q :: q in r <==> q in t && !(p <= q)
    ensures forall q :: q in r ==> r[q] == t[q]
    ensures NoneUnder(r, p)
  {
    map q | q in t && !(p <= q) :: t[q]
  }

  /** The part of `t` at or beneath `p`, keyed by paths relative to `p`. */
  function Subtree(t: Tree, p: Path): (s: Tree)
    ensures forall r :: r in s <==> p + r in t
    ensures forall r :: r in s ==> s[r] == t[p + r]
  {
    var rel := set q | q in t && p <= q :: q[|p|..];
    var s := map r | r in rel && p + r in t :: t[p + r];
    forall r | p + r in t ensures r in rel {
      assert (p + r)[|p|..] == r;
    }
    s
  }

  /** `t` with every node of `sub` added at the same relative path under `dst`. */
  function Graft(t: Tree, dst: Path, sub: Tree): (g: Tree)
    ensures forall r :: r in sub ==> dst + r in g && g[dst + r] == sub[r]
    ensures forall q :: q in g <==> q in t || (dst <= q && q[|dst|..] in sub)
    ensures forall q :: q in g && !(dst <= q) ==> g[q] == t[q]
  {
    var moved := set r | r in sub :: dst + r;
    var added := map q | q in moved && dst <= q && q[|dst|..] in sub :: sub[q[|dst|..]];
    forall q | dst <= q && q[|dst|..] in sub ensures q in moved {
      assert q == dst + q[|dst|..];
    }
    forall r | r in sub ensures dst + r in added && added[dst + r] == sub[r] {
      assert (dst + r)[|dst|..] == r;
    }
    t + added
  }

  /** The effect of renaming `src` to `dst`: the subtree is re-keyed. */
  function Rename(t: Tree, src: Path, dst: Path): (r: Tree)
    requires Disjoint(src, dst) && NoneUnder(t, dst)
    ensures forall q :: q in r <==> (q in t && !(src <= q)) || (dst <= q && src + q[|dst|..] in t)
    ensures forall q :: q in r && !(dst <= q) ==> r[q] == t[q]
    ensures forall rel :: src + rel in t ==> dst + rel in r && r[dst + rel] == t[src + rel]
  {
    Graft(RemoveTree(t, src), dst, Subtree(t, src))
  }

  /** shutil.rmtree(p) */
  function RmTreeSpec(t: Tree, p: Path): (o: Outcome)
  {
    if p !in t then Outcome(t, Some(NotFound(p)))
    else if t[p] == File then Outcome(t, Some(NotADirectory(p)))
    else Outcome(RemoveTree(t, p), None)
  }

  /**
   * shutil.move(src, dst) where nothing exists at `dst`: a rename of the
   * whole subtree. A missing source raises; so does a destination inside
   * the source.
   */
  function MoveSpec(t: Tree, src: Path, dst: Path): (o: Outcome)
    requires NoneUnder(t, dst)
  {
    if src !in t then Outcome(t, Some(NotFound(src)))
    else if src <= dst then Outcome(t, Some(MoveIntoItself(src)))
    else Outcome(Rename(t, src, dst), None)
  }

  /** os.remove(p): only a plain file can be removed. */
  function RemoveSpec(t: Tree, p: Path): (o: Outcome)
  {
    if p !in t then Outcome(t, Some(NotFound(p)))
    else if t[p] == Dir then Outcome(t, Some(IsADirectory(p)))
    else Outcome(t - {p}, None)
  }

  /** Two prefixes of one path are prefixes of each other. */
  lemma PrefixesAreOrdered(p: Path, r: Path, q: Path)
    requires p <= q && r <= q
    ensures p <= r || r <= p
  {
    if |p| <= |r| {
      assert r[..|p|] == q[..|p|] == p;
    } else {
      assert p[..|r|] == q[..|r|] == r;
    }
  }

  /** On a well-formed tree, a missing path has nothing beneath it. */
  lemma {:induction false} AbsentMeansNoneUnder(t: Tree, p: Path)
    requires WellFormed(t) && p != [] && p !in t
    ensures NoneUnder(t, p)
  {
    forall q | q in t ensures !(p <= q) {
      if |p| < |q| {
        assert q[..|p|] in t;
        assert q[..|p|] != p;
      } else {
        assert p <= q ==> p == q;
      }
    }
  }

  /** Removing one subtree does not disturb a disjoint one. */
  lemma {:induction false} SubtreeAfterRemove(t: Tree, p: Path, q: Path)
    requires Disjoint(p, q)
    ensures Subtree(RemoveTree(t, p), q) == Subtree(t, q)
  {
    var a, b := Subtree(RemoveTree(t, p), q), Subtree(t, q);
    forall r ensures r in a <==> r in b {
      if p <= q + r {
        PrefixesAreOrdered(p, q, q + r);
      }
    }
    assert a.Keys == b.Keys;
  }

  /** After a rename, the destination holds exactly the former subtree of the source. */
  lemma SubtreeAfterRename(t: Tree, src: Path, dst: Path)
    requires Disjoint(src, dst) && NoneUnder(t, dst)
    ensures Subtree(Rename(t, src, dst), dst) == Subtree(t, src)
    ensures NoneUnder(Rename(t, src, dst), src)
  {
    var here: Path := [];
    assert dst + here == dst && src + here == src;
    SubtreeInsideRename(t, src, dst, here);
    RenameClearsSource(t, src, dst);
  }

  /** After a rename, nothing is left at the source or beneath it. */
  lemma RenameClearsSource(t: Tree, src: Path, dst: Path)
    requires Disjoint(src, dst) && NoneUnder(t, dst)
    ensures NoneUnder(Rename(t, src, dst), src)
  {
    forall q | q in Rename(t, src, dst) ensures !(src <= q) {
      if dst <= q && src <= q {
        PrefixesAreOrdered(src, dst, q);
      }
    }
  }

  /**
   * Outside the destination, a rename only takes the source away: a subtree
   * disjoint from the destination is what removing the source leaves of it.
   */
  lemma SubtreeAfterRenameOutside(t: Tree, src: Path, dst: Path, p: Path)
    requires Disjoint(src, dst) && NoneUnder(t, dst)
    requires Disjoint(p, dst)
    ensures Subtree(Rename(t, src, dst), p) == Subtree(RemoveTree(t, src), p)
  {
    var n, m := Rename(t, src, dst), RemoveTree(t, src);
    forall r ensures Agree(n, m, p, p, r) {
      if dst <= p + r {
        PrefixesAreOrdered(dst, p, p + r);
      }
    }
    SubtreesAgree(n, m, p, p);
  }

  /** One path beneath the destination of a rename. */
  lemma RenameAt(t: Tree, src: Path, dst: Path, x: Path)
    requires Disjoint(src, dst) && NoneUnder(t, dst)
    ensures dst + x in Rename(t, src, dst) <==> src + x in t
    ensures src + x in t ==> Rename(t, src, dst)[dst + x] == t[src + x]
  {
    assert (dst + x)[|dst|..] == x;
    assert dst <= dst + x;
  }

  /** Beneath the destination, a rename shows what was beneath the source. */
  lemma {:induction false} SubtreeInsideRename(t: Tree, src: Path, dst: Path, rel: Path)
    requires Disjoint(src, dst) && NoneUnder(t, dst)
    ensures Subtree(Rename(t, src, dst), dst + rel) == Subtree(t, src + rel)
  {
    var n := Rename(t, src, dst);
    forall r ensures Agree(n, t, dst + rel, src + rel, r) {
      PathAt(t, src, dst, rel, r);
    }
    SubtreesAgree(n, t, dst + rel, src + rel);
  }

  /** The nodes at `p + r` in `n` and at `q + r` in `t` are the same. */
  predicate Agree(n: Tree, t: Tree, p: Path, q: Path, r: Path) {
    && (p + r in n <==> q + r in t)
    && (q + r in t ==> p + r in n && n[p + r] == t[q + r])
  }

  /** Two subtrees that agree at every relative path are equal. */
  lemma SubtreesAgree(n: Tree, t: Tree, p: Path, q: Path)
    requires forall r :: Agree(n, t, p, q, r)
    ensures Subtree(n, p) == Subtree(t, q)
  {
    var a, b := Subtree(n, p), Subtree(t, q);
    forall r ensures r in a <==> r in b {
      assert Agree(n, t, p, q, r);
    }
    assert a.Keys == b.Keys;
    forall r | r in a ensures a[r] == b[r] {
      assert Agree(n, t, p, q, r);
    }
  }

  lemma PathAt(t: Tree, src: Path, dst: Path, rel: Path, r: Path)
    requires Disjoint(src, dst) && NoneUnder(t, dst)
    ensures dst + rel + r in Rename(t, src, dst) <==> src + rel + r in t
    ensures src + rel + r in t ==> Rename(t, src, dst)[dst + rel + r] == t[src + rel + r]
  {
    assert dst + rel + r == dst + (rel + r);
    assert src + rel + r == src + (rel + r);
    RenameAt(t, src, dst, rel + r);
  }

  /** A rename keeps clear any path that was clear and lies apart from the destination. */
  lemma RenameKeepsClear(t: Tree, src: Path, dst: Path, p: Path)
    requires Disjoint(src, dst) && NoneUnder(t, dst)
    requires NoneUnder(t, p) && Disjoint(p, dst)
    ensures NoneUnder(Rename(t, src, dst), p)
  {
    forall q | q in Rename(t, src, dst) ensures !(p <= q) {
      if dst <= q && p <= q {
        PrefixesAreOrdered(p, dst, q);
      }
    }
  }

  /** The order in which two subtrees are removed does not matter. */
  lemma RemoveTreeCommutes(t: Tree, p: Path, q: Path)
    ensures RemoveTree(RemoveTree(t, p), q) == RemoveTree(RemoveTree(t, q), p)
  {
    assert RemoveTree(RemoveTree(t, p), q).Keys == RemoveTree(RemoveTree(t, q), p).Keys;
  }

  /** On a well-formed tree, removing a missing path changes nothing. */
  lemma RemoveAbsent(t: Tree, p: Path)
    requires WellFormed(t) && p != [] && p !in t
    ensures RemoveTree(t, p) == t
  {
    AbsentMeansNoneUnder(t, p);
    assert RemoveTree(t, p).Keys == t.Keys;
  }

  /** Deleting one node outside a subtree leaves that subtree as it was. */
  lemma SubtreeWithout(t: Tree, p: Path, x: Path)
    requires !(p <= x)
    ensures Subtree(t - {x}, p) == Subtree(t, p)
  {
    assert Subtree(t - {x}, p).Keys == Subtree(t, p).Keys;
  }

  /** A path with a prefix of `q` as its own prefix is a prefix of `q`. */
  lemma PrefixOfPrefix(p: Path, q: Path, k: nat)
    requires k <= |q| && p <= q[..k]
    ensures p <= q
  {
    assert q[..k][..|p|] == q[..|p|];
  }

  /** shutil.rmtree leaves a tree a real filesystem can hold. */
  lemma RemoveTreeWellFormed(t: Tree, p: Path)
    requires WellFormed(t)
    ensures WellFormed(RemoveTree(t, p))
  {
    var r := RemoveTree(t, p);
    forall q, k | q in r && 0 < k < |q| ensures q[..k] in r && r[q[..k]] == Dir {
      if p <= q[..k] {
        PrefixOfPrefix(p, q, k);
      }
    }
  }

  /** os.remove of a plain file leaves a tree a real filesystem can hold. */
  lemma RemoveFileWellFormed(t: Tree, x: Path)
    requires WellFormed(t) && x in t && t[x] == File
    ensures WellFormed(t - {x})
  {
  }

  /** A move to a free entry directly under the root leaves a tree a real filesystem can hold. */
  lemma RenameWellFormed(t: Tree, src: Path, dst: Path)
    requires WellFormed(t) && Disjoint(src, dst) && NoneUnder(t, dst) && |dst| == 1
    ensures WellFormed(Rename(t, src, dst))
  {
    var r := Rename(t, src, dst);
    forall q, k | q in r && 0 < k < |q| ensures q[..k] in r && r[q[..k]] == Dir {
      if dst <= q {
        var rel := q[|dst|..];
        assert q == dst + rel;
        RenamedPrefix(t, src, dst, rel, k - 1);
      } else {
        if src <= q[..k] {
          PrefixOfPrefix(src, q, k);
        }
      }
    }
  }

  /** Beneath the destination, every proper prefix of a moved node is a moved directory. */
  lemma RenamedPrefix(t: Tree, src: Path, dst: Path, rel: Path, j: nat)
    requires WellFormed(t) && Disjoint(src, dst) && NoneUnder(t, dst)
    requires src + rel in t && j < |rel|
    ensures (dst + rel)[..|dst| + j] in Rename(t, src, dst)
    ensures Rename(t, src, dst)[(dst + rel)[..|dst| + j]] == Dir
  {
    assert (dst + rel)[..|dst| + j] == dst + rel[..j];
    assert (src + rel)[..|src| + j] == src + rel[..j];
    assert src + rel[..j] in t && t[src + rel[..j]] == Dir;
    RenameAt(t, src, dst, rel[..j]);
  }

  /** The mutable filesystem the setup script works on. */
  class Disk {
    var tree: Tree

    constructor (initial: Tree)
      ensures tree == initial
    {
      tree := initial;
    }

    /** os.path.exists(p) */
    predicate Exists(p: Path)
      reads this
    {
      p in tree
    }

    /** os.path.isdir(p) */
    predicate IsDir(p: Path)
      reads this
    {
      p in tree && tree[p] == Dir
    }

    /** shutil.rmtree(p) */
    method RmTree(p: Path) returns (err: Option<FsError>)
      modifies this
      ensures Outcome(tree, err) == RmTreeSpec(old(tree), p)
    {
      var o := RmTreeSpec(tree, p);
      tree, err := o.tree, o.error;
    }

    /** shutil.move(src, dst), with nothing at dst */
    method Move(src: Path, dst: Path) returns (err: Option<FsError>)
      requires NoneUnder(tree, dst)
      modifies this
      ensures Outcome(tree, err) == MoveSpec(old(tree), src, dst)
    {
      var o := MoveSpec(tree, src, dst);
      tree, err := o.tree, o.error;
    }

    /** os.remove(p) */
    method Remove(p: Path) returns (err: Option<FsError>)
      modifies this
      ensures Outcome(tree, err) == RemoveSpec(old(tree), p)
    {
      var o := RemoveSpec(tree, p);
      tree, err := o.tree, o.error;
    }
  }
}
