/**
 * The layout normaliser of setup.py: after the archive has been extracted
 * into the output directory, find the last directories named "training"
 * and "testing" (ignoring case) in walk order, replace the canonical
 * `Training` and `Testing` directories of the output root by them, delete
 * the archive and every other directory at the output root.
 *
 * All paths are relative to the output directory ("./data/").
 */
module Setup {
  import opened FileTree
  import opened Names

  /** final_training, final_testing and zip_path. */
  const FinalTraining: Path := ["Training"]
  const FinalTesting: Path := ["Testing"]
  const ZipPath: Path := ["dataset.zip"]

  /** The three fixed paths lie apart from one another. */
  lemma FixedPathsApart()
    ensures Disjoint(FinalTraining, FinalTesting)
    ensures Disjoint(FinalTraining, ZipPath) && Disjoint(FinalTesting, ZipPath)
  {
    assert FinalTraining[0] != FinalTesting[0];
    assert FinalTraining[0] != ZipPath[0] && FinalTesting[0] != ZipPath[0];
  }

  /** One triple of os.walk, without the file names the script ignores. */
  datatype WalkStep = WalkStep(root: Path, dirs: seq<Name>)
  type Walk = seq<WalkStep>

  datatype SetupError =
    | LayoutNotFound            // RuntimeError("Could not find Training or Testing folders!")
    | FsFailure(cause: FsError) // an exception from shutil or os

  /** The tree after a stage of the script, and the exception that stopped it, if any. */
  datatype Stage = Stage(tree: Tree, error: Option<SetupError>)

  /**
   * What os.walk promises about the sequence it yields for tree `t`: every
   * directory it lists exists as a directory, and every directory of the
   * tree is listed by the step for its parent.
   */
  ghost predicate WalkOf(t: Tree, walk: Walk) {
    WalkSound(t, walk) && WalkComplete(t, walk)
  }

  ghost predicate WalkSound(t: Tree, walk: Walk) {
    forall i, d :: 0 <= i < |walk| && d in walk[i].dirs ==>
      walk[i].root + [d] in t && t[walk[i].root + [d]] == Dir
  }

  ghost predicate WalkComplete(t: Tree, walk: Walk) {
    forall q :: q in t && q != [] && t[q] == Dir ==>
      exists i :: 0 <= i < |walk| && walk[i].root + [q[|q| - 1]] == q && q[|q| - 1] in walk[i].dirs
  }

  /** `d.lower() == target` */
  predicate NameIs(d: Name, target: Name) {
    Lower(d) == target
  }

  /** The joined paths `root/d` of the matching `d` in `dirs`, in order. */
  function MatchesIn(root: Path, dirs: seq<Name>, target: Name): seq<Path>
  {
    if dirs == [] then []
    else
      var d := dirs[|dirs| - 1];
      MatchesIn(root, dirs[..|dirs| - 1], target) + (if NameIs(d, target) then [root + [d]] else [])
  }

  /** Every matching directory of the walk, in the order the walk visits them. */
  function Candidates(walk: Walk, target: Name): seq<Path>
  {
    if walk == [] then []
    else
      var step := walk[|walk| - 1];
      Candidates(walk[..|walk| - 1], target) + MatchesIn(step.root, step.dirs, target)
  }

  function LastOf(s: seq<Path>): Option<Path> {
    if s == [] then None else Some(s[|s| - 1])
  }

  /** The directory at position `j` of step `i` matches `target`. */
  ghost predicate MatchAt(walk: Walk, i: int, j: int, target: Name) {
    0 <= i < |walk| && 0 <= j < |walk[i].dirs| && NameIs(walk[i].dirs[j], target)
  }

  /**
   * The search loop of lines 67-75: both variables start unset and every
   * match overwrites the earlier one.
   */
  method Locate(walk: Walk) returns (training: Option<Path>, testing: Option<Path>)
    ensures training == LastOf(Candidates(walk, "training"))
    ensures testing == LastOf(Candidates(walk, "testing"))
  {
    training, testing := None, None;
    for i := 0 to |walk|
      invariant training == LastOf(Candidates(walk[..i], "training"))
      invariant testing == LastOf(Candidates(walk[..i], "testing"))
    {
      var root, dirs := walk[i].root, walk[i].dirs;
      ghost var doneTraining, doneTesting := Candidates(walk[..i], "training"), Candidates(walk[..i], "testing");
      for j := 0 to |dirs|
        invariant training == LastOf(doneTraining + MatchesIn(root, dirs[..j], "training"))
        invariant testing == LastOf(doneTesting + MatchesIn(root, dirs[..j], "testing"))
      {
        var d := dirs[j];
        assert dirs[..j + 1][..j] == dirs[..j];
        if Lower(d) == "training" {
          training := Some(root + [d]);
        }
        if Lower(d) == "testing" {
          testing := Some(root + [d]);
        }
      }
      assert dirs[..|dirs|] == dirs;
      assert walk[..i + 1][..i] == walk[..i];
    }
    assert walk[..|walk|] == walk;
  }

  /** `root/d` for the directory at position `j` of step `i`. */
  function JoinAt(walk: Walk, i: int, j: int): Path
    requires 0 <= i < |walk| && 0 <= j < |walk[i].dirs|
  {
    walk[i].root + [walk[i].dirs[j]]
  }

  ghost predicate NoMatch(walk: Walk, target: Name) {
    forall i, j :: !MatchAt(walk, i, j, target)
  }

  /** Position (i, j) matches, and no match comes after it in walk order. */
  ghost predicate IsLastMatch(walk: Walk, i: int, j: int, target: Name) {
    && MatchAt(walk, i, j, target)
    && forall i', j' :: MatchAt(walk, i', j', target) ==> i' < i || (i' == i && j' <= j)
  }

  /** Position j of `dirs` matches, and no later position does. */
  ghost predicate IsLastInStep(dirs: seq<Name>, j: int, target: Name) {
    && 0 <= j < |dirs| && NameIs(dirs[j], target)
    && forall k :: j < k < |dirs| ==> !NameIs(dirs[k], target)
  }

  /** Within one step: the last match of `dirs` is the one the search keeps. */
  lemma {:induction false} LastMatchInStep(root: Path, dirs: seq<Name>, target: Name)
    ensures MatchesIn(root, dirs, target) == [] <==> NoneNamed(dirs, target)
    ensures MatchesIn(root, dirs, target) != [] ==>
      exists j :: IsLastInStep(dirs, j, target) && LastOf(MatchesIn(root, dirs, target)) == Some(root + [dirs[j]])
  {
    if dirs != [] {
      var n := |dirs| - 1;
      var init := dirs[..n];
      LastMatchInStep(root, init, target);
      if NameIs(dirs[n], target) {
        assert IsLastInStep(dirs, n, target);
      } else {
        StepExtends(dirs, target);
        if MatchesIn(root, init, target) != [] {
          var j :| IsLastInStep(init, j, target) && LastOf(MatchesIn(root, init, target)) == Some(root + [init[j]]);
          LastInStepExtends(dirs, j, target);
        }
      }
    }
  }

  /** A final directory that does not match leaves the search state of a step as it was. */
  lemma StepExtends(dirs: seq<Name>, target: Name)
    requires dirs != [] && !NameIs(dirs[|dirs| - 1], target)
    ensures NoneNamed(dirs, target) <==> NoneNamed(dirs[..|dirs| - 1], target)
  {
    assert forall k :: 0 <= k < |dirs| - 1 ==> dirs[..|dirs| - 1][k] == dirs[k];
  }

  lemma LastInStepExtends(dirs: seq<Name>, j: int, target: Name)
    requires dirs != [] && !NameIs(dirs[|dirs| - 1], target)
    requires IsLastInStep(dirs[..|dirs| - 1], j, target)
    ensures IsLastInStep(dirs, j, target) && dirs[..|dirs| - 1][j] == dirs[j]
  {
    assert forall k :: 0 <= k < |dirs| - 1 ==> dirs[..|dirs| - 1][k] == dirs[k];
  }

  /** Matches of a walk are those of its earlier steps and those of its last step. */
  lemma MatchAtSplit(walk: Walk, target: Name)
    requires walk != []
    ensures forall i, j :: MatchAt(walk, i, j, target) <==>
      MatchAt(walk[..|walk| - 1], i, j, target) || (i == |walk| - 1 && 0 <= j < |walk[i].dirs| && NameIs(walk[i].dirs[j], target))
  {
    assert forall i :: 0 <= i < |walk| - 1 ==> walk[..|walk| - 1][i] == walk[i];
  }

  /**
   * The candidate the search settles on is the last match in walk order:
   * it is unset exactly when nothing matches, and otherwise no match comes
   * after it.
   */
  lemma {:induction false} LastMatchWins(walk: Walk, target: Name)
    ensures LastOf(Candidates(walk, target)) == None <==> NoMatch(walk, target)
    ensures LastOf(Candidates(walk, target)) != None ==>
      exists i, j :: IsLastMatch(walk, i, j, target) && LastOf(Candidates(walk, target)) == Some(JoinAt(walk, i, j))
  {
    if walk != [] {
      var n := |walk| - 1;
      var init, step := walk[..n], walk[n];
      var ms := MatchesIn(step.root, step.dirs, target);
      LastMatchWins(init, target);
      LastMatchInStep(step.root, step.dirs, target);
      assert Candidates(walk, target) == Candidates(init, target) + ms;
      if ms != [] {
        var j :| IsLastInStep(step.dirs, j, target) && LastOf(ms) == Some(step.root + [step.dirs[j]]);
        LastInFinalStep(walk, target, j);
        assert MatchAt(walk, n, j, target);
      } else {
        NoMatchSplit(walk, target);
        if Candidates(init, target) != [] {
          var i, j :| IsLastMatch(init, i, j, target) && LastOf(Candidates(init, target)) == Some(JoinAt(init, i, j));
          LastInEarlierSteps(walk, target, i, j);
        }
      }
    }
  }

  ghost predicate NoneNamed(dirs: seq<Name>, target: Name) {
    forall k :: 0 <= k < |dirs| ==> !NameIs(dirs[k], target)
  }

  /** A last match in the final step is the last match of the walk. */
  lemma LastInFinalStep(walk: Walk, target: Name, j: int)
    requires walk != [] && IsLastInStep(walk[|walk| - 1].dirs, j, target)
    ensures IsLastMatch(walk, |walk| - 1, j, target)
  {
    MatchAtSplit(walk, target);
  }

  /** With no match in the final step, the last match of the earlier steps is the last of the walk. */
  lemma LastInEarlierSteps(walk: Walk, target: Name, i: int, j: int)
    requires walk != [] && IsLastMatch(walk[..|walk| - 1], i, j, target)
    requires NoneNamed(walk[|walk| - 1].dirs, target)
    ensures IsLastMatch(walk, i, j, target)
    ensures JoinAt(walk[..|walk| - 1], i, j) == JoinAt(walk, i, j)
  {
    MatchAtSplit(walk, target);
  }

  /** With no match in the final step, the walk has a match only where its earlier steps do. */
  lemma NoMatchSplit(walk: Walk, target: Name)
    requires walk != []
    requires NoneNamed(walk[|walk| - 1].dirs, target)
    ensures NoMatch(walk, target) <==> NoMatch(walk[..|walk| - 1], target)
  {
    MatchAtSplit(walk, target);
  }

  /** Some directory of the tree has a name equal to `target` ignoring case. */
  ghost predicate HasDirNamed(t: Tree, target: Name) {
    exists q :: q in t && q != [] && t[q] == Dir && NameIs(q[|q| - 1], target)
  }

  /**
   * Over a real walk of the tree, the search finds a candidate exactly when
   * the tree has a matching directory, and what it finds is such a directory.
   */
  lemma LocateFindsDirectory(t: Tree, walk: Walk, target: Name)
    requires WalkOf(t, walk)
    ensures LastOf(Candidates(walk, target)) != None <==> HasDirNamed(t, target)
    ensures LastOf(Candidates(walk, target)) != None ==>
      var p := LastOf(Candidates(walk, target)).value;
      p != [] && p in t && t[p] == Dir && NameIs(p[|p| - 1], target)
  {
    FoundIsDirectory(t, walk, target);
    DirectoryIsFound(t, walk, target);
  }

  lemma FoundIsDirectory(t: Tree, walk: Walk, target: Name)
    requires WalkSound(t, walk)
    ensures LastOf(Candidates(walk, target)) != None ==>
      var p := LastOf(Candidates(walk, target)).value;
      p != [] && p in t && t[p] == Dir && NameIs(p[|p| - 1], target)
  {
    LastMatchWins(walk, target);
    if LastOf(Candidates(walk, target)) != None {
      var i, j :| IsLastMatch(walk, i, j, target) && LastOf(Candidates(walk, target)) == Some(JoinAt(walk, i, j));
      var p := JoinAt(walk, i, j);
      assert walk[i].dirs[j] in walk[i].dirs;
      assert p[|p| - 1] == walk[i].dirs[j];
    }
  }

  lemma DirectoryIsFound(t: Tree, walk: Walk, target: Name)
    requires WalkComplete(t, walk)
    ensures HasDirNamed(t, target) ==> LastOf(Candidates(walk, target)) != None
  {
    LastMatchWins(walk, target);
    if HasDirNamed(t, target) {
      var q :| q in t && q != [] && t[q] == Dir && NameIs(q[|q| - 1], target);
      var i :| 0 <= i < |walk| && walk[i].root + [q[|q| - 1]] == q && q[|q| - 1] in walk[i].dirs;
      var j :| 0 <= j < |walk[i].dirs| && walk[i].dirs[j] == q[|q| - 1];
      assert MatchAt(walk, i, j, target);
    }
  }

  function Raise(o: Outcome): Option<SetupError> {
    if o.error.Some? then Some(FsFailure(o.error.value)) else None
  }

  /** Lines 90-92: remove whatever exists at the two canonical paths. */
  function ClearCanonical(t: Tree): (o: Outcome)
    requires WellFormed(t)
    ensures o.error == None ==> NoneUnder(o.tree, FinalTraining) && NoneUnder(o.tree, FinalTesting)
  {
    var o1 := if FinalTraining in t then RmTreeSpec(t, FinalTraining) else Outcome(t, None);
    if o1.error.Some? then o1
    else
      assert NoneUnder(o1.tree, FinalTraining) by {
        if FinalTraining !in t { AbsentMeansNoneUnder(t, FinalTraining); }
      }
      assert FinalTesting !in o1.tree ==> NoneUnder(o1.tree, FinalTesting) by {
        if FinalTesting !in o1.tree {
          FixedPathsApart();
          assert FinalTesting !in t;
          AbsentMeansNoneUnder(t, FinalTesting);
        }
      }
      if FinalTesting in o1.tree then RmTreeSpec(o1.tree, FinalTesting) else Outcome(o1.tree, None)
  }

  /** The move of line 94, when it succeeds on a cleared tree, leaves Testing clear for line 95. */
  lemma TrainingMoveKeepsTestingClear(t: Tree, tr: Path)
    requires NoneUnder(t, FinalTraining) && NoneUnder(t, FinalTesting)
    requires MoveSpec(t, tr, FinalTraining).error == None
    ensures NoneUnder(MoveSpec(t, tr, FinalTraining).tree, FinalTesting)
  {
    assert tr in t;
    assert !(FinalTraining <= tr);
    RenameKeepsClear(t, tr, FinalTraining, FinalTesting);
  }

  /**
   * Lines 90-95 for the located candidates `tr` and `te`: remove whatever
   * exists at the canonical paths, then move each candidate there. The
   * first exception stops the script and leaves the tree as it was then.
   */
  function ReplaceCanonical(t: Tree, tr: Path, te: Path): (s: Stage)
    requires WellFormed(t)
    ensures s.error == None || s.error.value.FsFailure?
  {
    var o2 := ClearCanonical(t);
    if o2.error.Some? then Stage(o2.tree, Raise(o2)) else
    var o3 := MoveSpec(o2.tree, tr, FinalTraining);
    if o3.error.Some? then Stage(o3.tree, Raise(o3)) else
    assert NoneUnder(o3.tree, FinalTesting) by { TrainingMoveKeepsTestingClear(o2.tree, tr); }
    var o4 := MoveSpec(o3.tree, te, FinalTesting);
    Stage(o4.tree, Raise(o4))
  }

  /** Lines 65-95: locate, then replace the canonical directories. */
  function NormaliseSpec(t: Tree, walk: Walk): Stage
    requires WellFormed(t)
  {
    var training, testing := LastOf(Candidates(walk, "training")), LastOf(Candidates(walk, "testing"));
    if training == None || testing == None then Stage(t, Some(LayoutNotFound))
    else ReplaceCanonical(t, training.value, testing.value)
  }

  method Normalise(disk: Disk, walk: Walk) returns (err: Option<SetupError>)
    requires WellFormed(disk.tree)
    modifies disk
    ensures Stage(disk.tree, err) == NormaliseSpec(old(disk.tree), walk)
  {
    var training, testing := Locate(walk);
    if training == None || testing == None {
      return Some(LayoutNotFound);
    }
    ghost var t := disk.tree;
    var e: Option<FsError> := None;
    if disk.Exists(FinalTraining) {
      e := disk.RmTree(FinalTraining);
      if e.Some? { return Some(FsFailure(e.value)); }
    }
    if disk.Exists(FinalTesting) {
      e := disk.RmTree(FinalTesting);
      if e.Some? { return Some(FsFailure(e.value)); }
    }
    assert Outcome(disk.tree, None) == ClearCanonical(t);
    ghost var t2 := disk.tree;
    e := disk.Move(training.value, FinalTraining);
    if e.Some? { return Some(FsFailure(e.value)); }
    TrainingMoveKeepsTestingClear(t2, training.value);
    e := disk.Move(testing.value, FinalTesting);
    if e.Some? { return Some(FsFailure(e.value)); }
    return None;
  }

  /** Neither canonical path holds a plain file, which shutil.rmtree would refuse. */
  predicate NoCanonicalFile(t: Tree) {
    && !(FinalTraining in t && t[FinalTraining] == File)
    && !(FinalTesting in t && t[FinalTesting] == File)
  }

  /**
   * Lines 77-78: the script stops with a layout error exactly when the tree
   * has no directory named "training" or none named "testing" (ignoring
   * case), and then it has changed nothing.
   */
  lemma LayoutNotFoundIffNoSplit(t: Tree, walk: Walk)
    requires WellFormed(t) && WalkOf(t, walk)
    ensures NormaliseSpec(t, walk).error == Some(LayoutNotFound) <==>
      !HasDirNamed(t, "training") || !HasDirNamed(t, "testing")
    ensures NormaliseSpec(t, walk).error == Some(LayoutNotFound) ==> NormaliseSpec(t, walk).tree == t
  {
    var training, testing := LastOf(Candidates(walk, "training")), LastOf(Candidates(walk, "testing"));
    LocateFindsDirectory(t, walk, "training");
    LocateFindsDirectory(t, walk, "testing");
    if training == None || testing == None {
      assert NormaliseSpec(t, walk) == Stage(t, Some(LayoutNotFound));
    } else {
      assert NormaliseSpec(t, walk) == ReplaceCanonical(t, training.value, testing.value);
    }
  }

  /** The tree once both canonical paths have been cleared (lines 90-92). */
  lemma ClearedCanonical(t: Tree)
    requires WellFormed(t) && NoCanonicalFile(t)
    ensures ClearCanonical(t) == Outcome(RemoveTree(RemoveTree(t, FinalTraining), FinalTesting), None)
  {
    if FinalTraining !in t {
      RemoveAbsent(t, FinalTraining);
    }
    var t1 := RemoveTree(t, FinalTraining);
    if FinalTesting !in t1 {
      assert WellFormed(t1) by {
        forall q, k | q in t1 && 0 < k < |q| ensures q[..k] in t1 {
          assert !(FinalTraining <= q[..k]);
        }
      }
      RemoveAbsent(t1, FinalTesting);
    }
  }

  /**
   * Lines 90-94 when neither rmtree raises and the training move succeeds:
   * what is left is the move of line 95 on the tree at that point.
   */
  lemma AfterTrainingMove(t: Tree, tr: Path, te: Path)
    requires WellFormed(t) && NoCanonicalFile(t)
    requires Disjoint(tr, FinalTraining)
    requires tr in RemoveTree(RemoveTree(t, FinalTraining), FinalTesting)
    ensures var t3 := Rename(RemoveTree(RemoveTree(t, FinalTraining), FinalTesting), tr, FinalTraining);
      && NoneUnder(t3, FinalTesting)
      && var o4 := MoveSpec(t3, te, FinalTesting);
      ReplaceCanonical(t, tr, te) == Stage(o4.tree, Raise(o4))
  {
    ClearedCanonical(t);
    var t2 := ClearCanonical(t).tree;
    assert MoveSpec(t2, tr, FinalTraining) == Outcome(Rename(t2, tr, FinalTraining), None);
    TrainingMoveKeepsTestingClear(t2, tr);
  }

  /**
   * Lines 90-95 when the candidates lie clear of the canonical paths and
   * the testing candidate is not inside the training one: Training then
   * holds exactly the former subtree of the training candidate, Testing
   * that of the testing candidate (less anything the first move took
   * away), nothing is left at the candidates' old paths, and every node
   * elsewhere is untouched.
   */
  lemma ReplaceCanonicalMoves(t: Tree, tr: Path, te: Path)
    requires WellFormed(t) && NoCanonicalFile(t)
    requires tr in t && te in t
    requires Disjoint(tr, FinalTraining) && Disjoint(tr, FinalTesting)
    requires Disjoint(te, FinalTraining) && Disjoint(te, FinalTesting)
    requires !(tr <= te)
    ensures var s := ReplaceCanonical(t, tr, te);
      && s.error == None
      && Subtree(s.tree, FinalTraining) == Subtree(t, tr)
      && Subtree(s.tree, FinalTesting) == Subtree(RemoveTree(t, tr), te)
      && (!(te <= tr) ==> Subtree(s.tree, FinalTesting) == Subtree(t, te))
      && NoneUnder(s.tree, tr) && NoneUnder(s.tree, te)
      && forall q :: !(tr <= q) && !(te <= q) && !(FinalTraining <= q) && !(FinalTesting <= q) ==>
           (q in s.tree <==> q in t) && (q in t ==> s.tree[q] == t[q])
  {
    ReplaceMovesTraining(t, tr, te);
    ReplaceMovesTesting(t, tr, te);
    ReplaceLeavesRest(t, tr, te);
  }

  /** The preconditions of ReplaceCanonicalMoves. */
  ghost predicate CandidatesApart(t: Tree, tr: Path, te: Path) {
    && WellFormed(t) && NoCanonicalFile(t)
    && tr in t && te in t
    && Disjoint(tr, FinalTraining) && Disjoint(tr, FinalTesting)
    && Disjoint(te, FinalTraining) && Disjoint(te, FinalTesting)
    && !(tr <= te)
  }

  /** The trees between the calls of lines 91-95, with the candidates apart. */
  lemma ReplaceSteps(t: Tree, tr: Path, te: Path)
    requires CandidatesApart(t, tr, te)
    ensures var t2 := RemoveTree(RemoveTree(t, FinalTraining), FinalTesting);
      && tr in t2 && te in t2
      && NoneUnder(t2, FinalTraining) && NoneUnder(t2, FinalTesting)
      && var t3 := Rename(t2, tr, FinalTraining);
      && te in t3 && NoneUnder(t3, FinalTesting)
      && ReplaceCanonical(t, tr, te) == Stage(Rename(t3, te, FinalTesting), None)
  {
    AfterTrainingMove(t, tr, te);
  }

  lemma ReplaceMovesTraining(t: Tree, tr: Path, te: Path)
    requires CandidatesApart(t, tr, te)
    ensures ReplaceCanonical(t, tr, te).error == None
    ensures Subtree(ReplaceCanonical(t, tr, te).tree, FinalTraining) == Subtree(t, tr)
  {
    ReplaceSteps(t, tr, te);
    var t1 := RemoveTree(t, FinalTraining);
    var t2 := RemoveTree(t1, FinalTesting);
    var t3 := Rename(t2, tr, FinalTraining);
    SubtreeAfterRenameOutside(t3, te, FinalTesting, FinalTraining);
    SubtreeAfterRemove(t3, te, FinalTraining);
    SubtreeAfterRename(t2, tr, FinalTraining);
    SubtreeAfterRemove(t1, FinalTesting, tr);
    SubtreeAfterRemove(t, FinalTraining, tr);
  }

  lemma ReplaceMovesTesting(t: Tree, tr: Path, te: Path)
    requires CandidatesApart(t, tr, te)
    ensures Subtree(ReplaceCanonical(t, tr, te).tree, FinalTesting) == Subtree(RemoveTree(t, tr), te)
    ensures !(te <= tr) ==> Subtree(ReplaceCanonical(t, tr, te).tree, FinalTesting) == Subtree(t, te)
  {
    ReplaceSteps(t, tr, te);
    var t1 := RemoveTree(t, FinalTraining);
    var t2 := RemoveTree(t1, FinalTesting);
    var t3 := Rename(t2, tr, FinalTraining);
    SubtreeAfterRename(t3, te, FinalTesting);
    SubtreeAfterRenameOutside(t2, tr, FinalTraining, te);
    RemoveTreeCommutes(t1, FinalTesting, tr);
    RemoveTreeCommutes(t, FinalTraining, tr);
    SubtreeAfterRemove(RemoveTree(RemoveTree(t, tr), FinalTraining), FinalTesting, te);
    SubtreeAfterRemove(RemoveTree(t, tr), FinalTraining, te);
    if !(te <= tr) {
      SubtreeAfterRemove(t, tr, te);
    }
  }

  lemma ReplaceLeavesRest(t: Tree, tr: Path, te: Path)
    requires CandidatesApart(t, tr, te)
    ensures var s := ReplaceCanonical(t, tr, te);
      && NoneUnder(s.tree, tr) && NoneUnder(s.tree, te)
      && forall q :: !(tr <= q) && !(te <= q) && !(FinalTraining <= q) && !(FinalTesting <= q) ==>
           (q in s.tree <==> q in t) && (q in t ==> s.tree[q] == t[q])
  {
    ReplaceSteps(t, tr, te);
    var t1 := RemoveTree(t, FinalTraining);
    var t2 := RemoveTree(t1, FinalTesting);
    var t3 := Rename(t2, tr, FinalTraining);
    var t4 := Rename(t3, te, FinalTesting);
    SubtreeAfterRename(t3, te, FinalTesting);
    forall q | q in t4 ensures !(tr <= q) {
      if tr <= q && FinalTesting <= q {
        PrefixesAreOrdered(tr, FinalTesting, q);
      }
    }
  }

  /** NormaliseSpec with both candidates found is ReplaceCanonical on them. */
  lemma NormaliseMovesCandidates(t: Tree, walk: Walk, tr: Path, te: Path)
    requires WellFormed(t) && WalkOf(t, walk) && NoCanonicalFile(t)
    requires LastOf(Candidates(walk, "training")) == Some(tr)
    requires LastOf(Candidates(walk, "testing")) == Some(te)
    requires Disjoint(tr, FinalTraining) && Disjoint(tr, FinalTesting)
    requires Disjoint(te, FinalTraining) && Disjoint(te, FinalTesting)
    requires !(tr <= te)
    ensures var s := NormaliseSpec(t, walk);
      && s.error == None
      && Subtree(s.tree, FinalTraining) == Subtree(t, tr)
      && Subtree(s.tree, FinalTesting) == Subtree(RemoveTree(t, tr), te)
      && (!(te <= tr) ==> Subtree(s.tree, FinalTesting) == Subtree(t, te))
      && NoneUnder(s.tree, tr) && NoneUnder(s.tree, te)
      && forall q :: !(tr <= q) && !(te <= q) && !(FinalTraining <= q) && !(FinalTesting <= q) ==>
           (q in s.tree <==> q in t) && (q in t ==> s.tree[q] == t[q])
  {
    LocateFindsDirectory(t, walk, "training");
    LocateFindsDirectory(t, walk, "testing");
    ReplaceCanonicalMoves(t, tr, te);
  }

  /**
   * A training candidate at or beneath a canonical path is deleted by the
   * rmtree of line 91 or 92 before line 94 can move it: the script fails
   * with the canonical directories, candidate included, already gone.
   */
  lemma TrainingCandidateDestroyed(t: Tree, walk: Walk, tr: Path, te: Path)
    requires WellFormed(t) && NoCanonicalFile(t)
    requires LastOf(Candidates(walk, "training")) == Some(tr)
    requires LastOf(Candidates(walk, "testing")) == Some(te)
    requires FinalTraining <= tr || FinalTesting <= tr
    ensures NormaliseSpec(t, walk) ==
      Stage(RemoveTree(RemoveTree(t, FinalTraining), FinalTesting), Some(FsFailure(NotFound(tr))))
  {
    ClearedCanonical(t);
  }

  /**
   * A testing candidate beneath canonical Testing or inside the training
   * candidate is gone by the time line 95 moves it; so is one beneath
   * canonical Training, unless the moved training subtree happens to hold
   * the same relative path. The training move succeeds, then the script
   * fails.
   */
  lemma TestingCandidateLost(t: Tree, walk: Walk, tr: Path, te: Path)
    requires WellFormed(t) && WalkOf(t, walk) && NoCanonicalFile(t)
    requires LastOf(Candidates(walk, "training")) == Some(tr)
    requires LastOf(Candidates(walk, "testing")) == Some(te)
    requires Disjoint(tr, FinalTraining) && Disjoint(tr, FinalTesting)
    requires || FinalTesting <= te || tr <= te
             || (FinalTraining <= te && tr + te[|FinalTraining|..] !in t)
    ensures NormaliseSpec(t, walk).error == Some(FsFailure(NotFound(te)))
    ensures Subtree(NormaliseSpec(t, walk).tree, FinalTraining) == Subtree(t, tr)
  {
    LocateFindsDirectory(t, walk, "training");
    TestingLostAfterMove(t, tr, te);
  }

  lemma TestingLostAfterMove(t: Tree, tr: Path, te: Path)
    requires WellFormed(t) && NoCanonicalFile(t) && tr in t
    requires Disjoint(tr, FinalTraining) && Disjoint(tr, FinalTesting)
    requires || FinalTesting <= te || tr <= te
             || (FinalTraining <= te && tr + te[|FinalTraining|..] !in t)
    ensures ReplaceCanonical(t, tr, te).error == Some(FsFailure(NotFound(te)))
    ensures Subtree(ReplaceCanonical(t, tr, te).tree, FinalTraining) == Subtree(t, tr)
  {
    var t2 := RemoveTree(RemoveTree(t, FinalTraining), FinalTesting);
    assert tr in t2;
    var t3 := Rename(t2, tr, FinalTraining);
    AfterTrainingMove(t, tr, te);
    TestingAbsentAfterTrainingMove(t, tr, te);
    assert MoveSpec(t3, te, FinalTesting) == Outcome(t3, Some(NotFound(te)));
    TrainingHoldsCandidate(t, tr);
  }

  /** The training candidate's subtree is what Training holds after line 94. */
  lemma TrainingHoldsCandidate(t: Tree, tr: Path)
    requires Disjoint(tr, FinalTraining) && Disjoint(tr, FinalTesting)
    requires NoneUnder(RemoveTree(RemoveTree(t, FinalTraining), FinalTesting), FinalTraining)
    ensures var t2 := RemoveTree(RemoveTree(t, FinalTraining), FinalTesting);
      Subtree(Rename(t2, tr, FinalTraining), FinalTraining) == Subtree(t, tr)
  {
    var t1 := RemoveTree(t, FinalTraining);
    var t2 := RemoveTree(t1, FinalTesting);
    SubtreeAfterRename(t2, tr, FinalTraining);
    SubtreeAfterRemove(t1, FinalTesting, tr);
    SubtreeAfterRemove(t, FinalTraining, tr);
  }

  /** The cases in which nothing is left at the testing candidate's path after line 94. */
  lemma TestingAbsentAfterTrainingMove(t: Tree, tr: Path, te: Path)
    requires Disjoint(tr, FinalTraining) && Disjoint(tr, FinalTesting)
    requires NoneUnder(RemoveTree(RemoveTree(t, FinalTraining), FinalTesting), FinalTraining)
    requires || FinalTesting <= te || tr <= te
             || (FinalTraining <= te && tr + te[|FinalTraining|..] !in t)
    ensures te !in Rename(RemoveTree(RemoveTree(t, FinalTraining), FinalTesting), tr, FinalTraining)
  {
    var t2 := RemoveTree(RemoveTree(t, FinalTraining), FinalTesting);
    FixedPathsApart();
    if FinalTesting <= te {
      assert te !in t2;
      if FinalTraining <= te { PrefixesAreOrdered(FinalTraining, FinalTesting, te); }
    } else if tr <= te {
      if FinalTraining <= te { PrefixesAreOrdered(FinalTraining, tr, te); }
    } else {
      assert te !in t2;
    }
  }

  /**
   * The opposite outcome for a testing candidate beneath canonical
   * Training: when the moved training subtree holds the same relative path,
   * line 95 finds a directory there and moves that part of the new Training
   * into Testing, without any error, leaving nothing at the testing
   * candidate's path.
   */
  lemma TestingTakenFromMovedTraining(t: Tree, walk: Walk, tr: Path, te: Path)
    requires WellFormed(t) && WalkOf(t, walk) && NoCanonicalFile(t)
    requires LastOf(Candidates(walk, "training")) == Some(tr)
    requires LastOf(Candidates(walk, "testing")) == Some(te)
    requires Disjoint(tr, FinalTraining) && Disjoint(tr, FinalTesting)
    requires FinalTraining <= te && tr + te[|FinalTraining|..] in t
    ensures NormaliseSpec(t, walk).error == None
    ensures Subtree(NormaliseSpec(t, walk).tree, FinalTesting) == Subtree(t, tr + te[|FinalTraining|..])
    ensures NoneUnder(NormaliseSpec(t, walk).tree, te)
  {
    LocateFindsDirectory(t, walk, "training");
    TakenFromMovedTraining(t, tr, te);
  }

  lemma TakenFromMovedTraining(t: Tree, tr: Path, te: Path)
    requires WellFormed(t) && NoCanonicalFile(t) && tr in t
    requires Disjoint(tr, FinalTraining) && Disjoint(tr, FinalTesting)
    requires FinalTraining <= te && tr + te[|FinalTraining|..] in t
    ensures ReplaceCanonical(t, tr, te).error == None
    ensures Subtree(ReplaceCanonical(t, tr, te).tree, FinalTesting) == Subtree(t, tr + te[|FinalTraining|..])
    ensures NoneUnder(ReplaceCanonical(t, tr, te).tree, te)
  {
    var rel := te[|FinalTraining|..];
    assert te == FinalTraining + rel;
    var t2 := RemoveTree(RemoveTree(t, FinalTraining), FinalTesting);
    ExtensionApart(tr, rel);
    assert tr in t2 && tr + rel in t2;
    var t3 := Rename(t2, tr, FinalTraining);
    AfterTrainingMove(t, tr, te);
    RenameAt(t2, tr, FinalTraining, rel);
    assert te in t3;
    FixedPathsApart();
    assert !(te <= FinalTesting) by { assert te[0] != FinalTesting[0]; }
    assert MoveSpec(t3, te, FinalTesting) == Outcome(Rename(t3, te, FinalTesting), None);
    SubtreeAfterRename(t3, te, FinalTesting);
    RenameClearsSource(t3, te, FinalTesting);
    TrainingPartHoldsCandidatePart(t, tr, rel);
  }

  /** A path beneath a candidate that is apart from the canonical paths is apart from them too. */
  lemma ExtensionApart(tr: Path, rel: Path)
    requires Disjoint(tr, FinalTraining) && Disjoint(tr, FinalTesting)
    ensures Disjoint(tr + rel, FinalTraining) && Disjoint(tr + rel, FinalTesting)
  {
    assert tr <= tr + rel;
    if FinalTraining <= tr + rel { PrefixesAreOrdered(FinalTraining, tr, tr + rel); }
    if FinalTesting <= tr + rel { PrefixesAreOrdered(FinalTesting, tr, tr + rel); }
  }

  /** After line 94, beneath Training + rel lies what lay beneath tr + rel. */
  lemma TrainingPartHoldsCandidatePart(t: Tree, tr: Path, rel: Path)
    requires Disjoint(tr, FinalTraining) && Disjoint(tr, FinalTesting)
    requires NoneUnder(RemoveTree(RemoveTree(t, FinalTraining), FinalTesting), FinalTraining)
    ensures var t2 := RemoveTree(RemoveTree(t, FinalTraining), FinalTesting);
      Subtree(Rename(t2, tr, FinalTraining), FinalTraining + rel) == Subtree(t, tr + rel)
  {
    var t1 := RemoveTree(t, FinalTraining);
    var t2 := RemoveTree(t1, FinalTesting);
    ExtensionApart(tr, rel);
    SubtreeInsideRename(t2, tr, FinalTraining, rel);
    SubtreeAfterRemove(t1, FinalTesting, tr + rel);
    SubtreeAfterRemove(t, FinalTraining, tr + rel);
  }

  /** A plain file at a canonical path makes shutil.rmtree fail (lines 91-92). */
  lemma CanonicalFileStopsScript(t: Tree, walk: Walk)
    requires WellFormed(t)
    requires LastOf(Candidates(walk, "training")) != None && LastOf(Candidates(walk, "testing")) != None
    ensures FinalTraining in t && t[FinalTraining] == File ==>
      NormaliseSpec(t, walk) == Stage(t, Some(FsFailure(NotADirectory(FinalTraining))))
    ensures !(FinalTraining in t && t[FinalTraining] == File) && FinalTesting in t && t[FinalTesting] == File ==>
      NormaliseSpec(t, walk).error == Some(FsFailure(NotADirectory(FinalTesting)))
  {
    var tr, te := LastOf(Candidates(walk, "training")).value, LastOf(Candidates(walk, "testing")).value;
    assert NormaliseSpec(t, walk) == ReplaceCanonical(t, tr, te);
    if FinalTraining in t && t[FinalTraining] == File {
      assert ClearCanonical(t) == Outcome(t, Some(NotADirectory(FinalTraining)));
    } else if FinalTesting in t && t[FinalTesting] == File {
      var t1 := if FinalTraining in t then RemoveTree(t, FinalTraining) else t;
      FixedPathsApart();
      assert FinalTesting in t1 && t1[FinalTesting] == File;
      assert ClearCanonical(t) == Outcome(t1, Some(NotADirectory(FinalTesting)));
    }
  }

  /** A directory directly under the output root that lines 106-109 delete. */
  predicate StrayDir(t: Tree, n: Name) {
    n != "Training" && n != "Testing" && [n] in t && t[[n]] == Dir
  }

  /** os.listdir(output_dir) as a set: the names directly under the root. */
  function RootNames(t: Tree): set<Name> {
    set q | q in t && |q| == 1 :: q[0]
  }

  /** The tree once the cleanup loop has handled the root names in `visited`. */
  function SweptSome(t: Tree, visited: set<Name>): Tree {
    map q | q in t && !(q != [] && q[0] in visited && StrayDir(t, q[0])) :: t[q]
  }

  /** Training and Testing are the only directories directly under the output root. */
  ghost predicate OnlySplitsAtRoot(f: Tree) {
    forall q :: q in f && |q| == 1 && f[q] == Dir ==> q == FinalTraining || q == FinalTesting
  }

  /**
   * The tree after the cleanup loop of lines 106-109: every directory left
   * directly under the root is Training or Testing, nothing new appears,
   * everything inside a stray root directory is gone and everything else
   * stays as it was.
   */
  function Swept(t: Tree): (r: Tree)
    ensures OnlySplitsAtRoot(r)
    ensures forall q :: q in r ==> q in t && r[q] == t[q]
    ensures forall q :: q in t && (q == [] || !StrayDir(t, q[0])) ==> q in r
    ensures forall q :: q in t && q != [] && StrayDir(t, q[0]) ==> q !in r
  {
    var r := SweptSome(t, RootNames(t));
    assert forall n :: [n] in t ==> n in RootNames(t) by {
      forall n | [n] in t ensures n in RootNames(t) {
        assert [n][0] == n;
      }
    }
    forall q | q in r && |q| == 1 && r[q] == Dir ensures q == FinalTraining || q == FinalTesting {
      assert q == [q[0]];
    }
    r
  }

  /** Every node below the root lies inside Training or Testing. */
  ghost predicate NestedOnlyInSplits(f: Tree) {
    forall q :: q in f && 1 < |q| ==> FinalTraining <= q || FinalTesting <= q
  }

  /**
   * On a tree a real filesystem can hold, the cleanup loop leaves nothing
   * below the root outside Training and Testing: whatever sits deeper lies
   * inside some root directory, and all others are deleted.
   */
  lemma SweptNestsOnlySplits(t: Tree)
    requires WellFormed(t)
    ensures NestedOnlyInSplits(Swept(t))
  {
    var r := Swept(t);
    forall q | q in r && 1 < |q| ensures FinalTraining <= q || FinalTesting <= q {
      assert q[..1] == [q[0]];
      assert [q[0]] in t && t[[q[0]]] == Dir;
    }
  }

  /** Running the cleanup loop a second time changes nothing. */
  lemma SweptIdempotent(t: Tree)
    ensures Swept(Swept(t)) == Swept(t)
  {
    var r := Swept(t);
    forall q | q in r ensures q in Swept(r) {
      assert q == [] || !StrayDir(r, q[0]);
    }
    assert Swept(r).Keys == r.Keys;
  }

  /** The cleanup loop leaves the Training and Testing subtrees as they were. */
  lemma SweptKeepsSplits(t: Tree)
    ensures Subtree(Swept(t), FinalTraining) == Subtree(t, FinalTraining)
    ensures Subtree(Swept(t), FinalTesting) == Subtree(t, FinalTesting)
  {
    forall r | FinalTraining + r in t ensures FinalTraining + r in Swept(t) {
      assert (FinalTraining + r)[0] == "Training";
    }
    forall r | FinalTesting + r in t ensures FinalTesting + r in Swept(t) {
      assert (FinalTesting + r)[0] == "Testing";
    }
    assert Subtree(Swept(t), FinalTraining).Keys == Subtree(t, FinalTraining).Keys;
    assert Subtree(Swept(t), FinalTesting).Keys == Subtree(t, FinalTesting).Keys;
  }

  /** Lines 102-109: remove the archive, then the stray root directories. */
  function CleanupSpec(t: Tree): Stage {
    var o := RemoveSpec(t, ZipPath);
    if o.error.Some? then Stage(o.tree, Raise(o)) else Stage(Swept(o.tree), None)
  }

  /**
   * os.remove raises unless the archive is a plain file, and then nothing
   * else happens; otherwise the archive is gone afterwards.
   */
  lemma CleanupRemovesArchive(t: Tree)
    ensures CleanupSpec(t).error == None <==> ZipPath in t && t[ZipPath] == File
    ensures CleanupSpec(t).error != None ==> CleanupSpec(t).tree == t
    ensures ZipPath !in CleanupSpec(t).tree <==> ZipPath !in t || CleanupSpec(t).error == None
  {
  }

  method Cleanup(disk: Disk) returns (err: Option<SetupError>)
    modifies disk
    ensures Stage(disk.tree, err) == CleanupSpec(old(disk.tree))
  {
    var e := disk.Remove(ZipPath);
    if e.Some? {
      return Some(FsFailure(e.value));
    }
    ghost var t := disk.tree;
    var items := set q | q in disk.tree && |q| == 1 :: q[0];
    var todo := items;
    while todo != {}
      invariant todo <= items == RootNames(t)
      invariant disk.tree == SweptSome(t, items - todo)
      decreases todo
    {
      var item :| item in todo;
      var path := [item];
      SweepStep(t, items - todo, item);
      if item != "Training" && item != "Testing" && disk.IsDir(path) {
        var _ := disk.RmTree(path);
      }
      assert items - (todo - {item}) == (items - todo) + {item};
      todo := todo - {item};
    }
    return None;
  }

  /** One round of the cleanup loop, on a name not handled yet. */
  lemma SweepStep(t: Tree, visited: set<Name>, item: Name)
    requires item !in visited
    ensures var before := SweptSome(t, visited);
      && ([item] in before <==> [item] in t)
      && ([item] in t ==> before[[item]] == t[[item]])
      && SweptSome(t, visited + {item}) ==
           if StrayDir(t, item) then RemoveTree(before, [item]) else before
  {
    var before := SweptSome(t, visited);
    var after := SweptSome(t, visited + {item});
    forall q ensures [item] <= q <==> q != [] && q[0] == item {
      if q != [] && q[0] == item {
        assert q[..1] == [item];
      }
    }
    if StrayDir(t, item) {
      assert after.Keys == RemoveTree(before, [item]).Keys;
    } else {
      assert after.Keys == before.Keys;
    }
  }

  /** The whole of lines 65-109. */
  function SetupSpec(t: Tree, walk: Walk): Stage
    requires WellFormed(t)
  {
    var n := NormaliseSpec(t, walk);
    if n.error.Some? then n else CleanupSpec(n.tree)
  }

  method Run(disk: Disk, walk: Walk) returns (err: Option<SetupError>)
    requires WellFormed(disk.tree)
    modifies disk
    ensures Stage(disk.tree, err) == SetupSpec(old(disk.tree), walk)
  {
    err := Normalise(disk, walk);
    if err.Some? {
      return;
    }
    err := Cleanup(disk);
  }

  /**
   * Cleanup on a tree that holds the archive as a plain file: the archive
   * is gone, Training and Testing are as they were, no other directory
   * remains directly under the root, everything inside the stray root
   * directories is gone, and on a tree a real filesystem can hold nothing
   * is left below the root outside Training and Testing.
   */
  lemma CleanupKeepsSplits(n: Tree)
    requires ZipPath in n && n[ZipPath] == File
    ensures var s := CleanupSpec(n);
      && s.error == None
      && Subtree(s.tree, FinalTraining) == Subtree(n, FinalTraining)
      && Subtree(s.tree, FinalTesting) == Subtree(n, FinalTesting)
      && ZipPath !in s.tree
      && OnlySplitsAtRoot(s.tree)
      && (forall q :: q in n && q != [] && StrayDir(n, q[0]) ==> q !in s.tree)
      && (WellFormed(n) ==> NestedOnlyInSplits(s.tree))
  {
    var m := n - {ZipPath};
    assert CleanupSpec(n) == Stage(Swept(m), None);
    FixedPathsApart();
    SubtreeWithout(n, FinalTraining, ZipPath);
    SubtreeWithout(n, FinalTesting, ZipPath);
    SweptKeepsSplits(m);
    forall q | q in n && q != [] && StrayDir(n, q[0]) ensures q !in Swept(m) {
      assert [q[0]] != ZipPath;
    }
    if WellFormed(n) {
      RemoveFileWellFormed(n, ZipPath);
      SweptNestsOnlySplits(m);
    }
  }

  /** A directory of a well-formed tree neither is nor holds the archive file. */
  lemma DirApartFromArchive(t: Tree, p: Path)
    requires WellFormed(t) && ZipPath in t && t[ZipPath] == File
    requires p in t && t[p] == Dir
    ensures Disjoint(p, ZipPath)
  {
    assert p != [];
    if 1 < |p| {
      assert p[..1] in t && t[p[..1]] == Dir;
      assert p[..1] == ZipPath || !(ZipPath <= p);
    } else {
      assert p <= ZipPath ==> p == ZipPath;
      assert ZipPath <= p ==> p == ZipPath;
    }
  }

  /**
   * When the candidates are clear of each other and of the canonical paths
   * and the archive is present, a run ends with Training and Testing holding
   * the candidates' former subtrees, the archive gone, and no other
   * directory directly under the output root.
   */
  lemma SetupGivesCanonicalLayout(t: Tree, walk: Walk, tr: Path, te: Path)
    requires WellFormed(t) && WalkOf(t, walk) && NoCanonicalFile(t)
    requires ZipPath in t && t[ZipPath] == File
    requires LastOf(Candidates(walk, "training")) == Some(tr)
    requires LastOf(Candidates(walk, "testing")) == Some(te)
    requires Disjoint(tr, FinalTraining) && Disjoint(tr, FinalTesting)
    requires Disjoint(te, FinalTraining) && Disjoint(te, FinalTesting)
    requires Disjoint(tr, te)
    ensures var s := SetupSpec(t, walk);
      && s.error == None
      && Subtree(s.tree, FinalTraining) == Subtree(t, tr)
      && Subtree(s.tree, FinalTesting) == Subtree(t, te)
      && FinalTraining in s.tree && s.tree[FinalTraining] == Dir
      && FinalTesting in s.tree && s.tree[FinalTesting] == Dir
      && ZipPath !in s.tree
      && OnlySplitsAtRoot(s.tree)
      && NestedOnlyInSplits(s.tree)
  {
    LocateFindsDirectory(t, walk, "training");
    LocateFindsDirectory(t, walk, "testing");
    assert NormaliseSpec(t, walk) == ReplaceCanonical(t, tr, te);
    ReplaceThenCleanup(t, tr, te);
  }

  lemma ReplaceThenCleanup(t: Tree, tr: Path, te: Path)
    requires WellFormed(t) && NoCanonicalFile(t)
    requires ZipPath in t && t[ZipPath] == File
    requires tr in t && t[tr] == Dir && te in t && t[te] == Dir
    requires Disjoint(tr, FinalTraining) && Disjoint(tr, FinalTesting)
    requires Disjoint(te, FinalTraining) && Disjoint(te, FinalTesting)
    requires Disjoint(tr, te)
    ensures ReplaceCanonical(t, tr, te).error == None
    ensures var f := CleanupSpec(ReplaceCanonical(t, tr, te).tree);
      && f.error == None
      && Subtree(f.tree, FinalTraining) == Subtree(t, tr)
      && Subtree(f.tree, FinalTesting) == Subtree(t, te)
      && FinalTraining in f.tree && f.tree[FinalTraining] == Dir
      && FinalTesting in f.tree && f.tree[FinalTesting] == Dir
      && ZipPath !in f.tree
      && OnlySplitsAtRoot(f.tree)
      && NestedOnlyInSplits(f.tree)
  {
    ReplaceKeepsArchive(t, tr, te);
    ReplaceKeepsWellFormed(t, tr, te);
    var n := ReplaceCanonical(t, tr, te).tree;
    CleanupKeepsSplits(n);
    var f := CleanupSpec(n).tree;
    SubtreeRoot(f, FinalTraining, t, tr);
    SubtreeRoot(f, FinalTesting, t, te);
  }

  /** Lines 90-95 succeed, move the candidates into place and leave the archive alone. */
  lemma ReplaceKeepsArchive(t: Tree, tr: Path, te: Path)
    requires WellFormed(t) && NoCanonicalFile(t)
    requires ZipPath in t && t[ZipPath] == File
    requires tr in t && t[tr] == Dir && te in t && t[te] == Dir
    requires Disjoint(tr, FinalTraining) && Disjoint(tr, FinalTesting)
    requires Disjoint(te, FinalTraining) && Disjoint(te, FinalTesting)
    requires Disjoint(tr, te)
    ensures var n := ReplaceCanonical(t, tr, te);
      && n.error == None
      && ZipPath in n.tree && n.tree[ZipPath] == File
      && Subtree(n.tree, FinalTraining) == Subtree(t, tr)
      && Subtree(n.tree, FinalTesting) == Subtree(t, te)
  {
    ReplaceCanonicalMoves(t, tr, te);
    DirApartFromArchive(t, tr);
    DirApartFromArchive(t, te);
    FixedPathsApart();
  }

  /** Lines 90-95 leave a tree a real filesystem can hold. */
  lemma ReplaceKeepsWellFormed(t: Tree, tr: Path, te: Path)
    requires CandidatesApart(t, tr, te)
    ensures WellFormed(ReplaceCanonical(t, tr, te).tree)
  {
    ReplaceSteps(t, tr, te);
    var t1 := RemoveTree(t, FinalTraining);
    var t2 := RemoveTree(t1, FinalTesting);
    RemoveTreeWellFormed(t, FinalTraining);
    RemoveTreeWellFormed(t1, FinalTesting);
    var t3 := Rename(t2, tr, FinalTraining);
    RenameWellFormed(t2, tr, FinalTraining);
    RenameWellFormed(t3, te, FinalTesting);
  }

  /** Equal subtrees have the same node at their roots. */
  lemma SubtreeRoot(f: Tree, p: Path, t: Tree, q: Path)
    requires Subtree(f, p) == Subtree(t, q) && q in t
    ensures p in f && f[p] == t[q]
  {
    assert q + [] == q && p + [] == p;
    assert [] in Subtree(t, q);
  }
}
