# Brain tumour dataset pipeline — a Dafny model

This project models the two scripts that prepare and read the brain MRI
dataset.

- **The layout normaliser of `setup.py`.** After the downloaded archive has
  been extracted into `./data/`, the script:
  1. walks the tree and keeps the last directory named `training` and the
     last named `testing`, ignoring case;
  2. deletes any earlier `data/Training` and `data/Testing`;
  3. moves the two candidates there;
  4. deletes the archive;
  5. deletes every other directory directly under `data/`.
- **The image index of `test.py`.** `BrainTumorDataset`:
  - sorts the entries of a split directory into classes;
  - records every image of each class folder, labelled with the class's
    position;
  - hands out `(image, label, path)` triples by position.

  The preview function draws random positions into it.

The files are:

- `file_tree.dfy` (module `FileTree`). The filesystem is a value: a map from
  a path (a sequence of names relative to the working directory) to `Dir` or
  `File`. It holds:
  - `RemoveTree`, `Subtree` and `Rename`, with their algebra;
  - `shutil.rmtree`, `shutil.move` and `os.remove`, as functions returning
    the new tree and the exception raised, if any;
  - the class `Disk`, which holds the one tree the script changes in place.
    Its methods are proved equal to those functions.
- `names.dfy` (module `Names`). It holds:
  - ASCII `str.lower` and `str.endswith`;
  - Python's code-point order on strings;
  - `sorted` on a list of names, as an insertion sort proved ascending and a
    permutation.
- `setup.dfy` (module `Setup`). The walk, the search loop, the replacement of
  the canonical directories and the cleanup loop. Each is written twice: as
  imperative methods on a `Disk`, and as functions the methods are proved
  equal to. The lemmas state what a run does to the tree, in the ordinary
  case and in the edge cases.
- `dataset.dfy` (module `Dataset`). It holds:
  - the class `BrainTumorDataset`, whose constructor keeps the two nested
    loops of the source;
  - the index the constructor builds, as a function of the tree and the
    directory listings;
  - `__len__`, `__getitem__` and the random preview;
  - lemmas on label order, completeness of the index and the slice of each
    class.

The search keeps the last candidate in walk order. The order in which
`os.walk` yields directories is an input, a sequence of `(root, dirs)`
steps. `WalkOf` states what `os.walk` guarantees about that sequence:
- every listed directory exists;
- every directory is listed by the step for its parent.

The order in which `os.listdir` returns entries is also an input, a map
from each directory to its list of names.

Where the code and its written description differ, the model follows the
code:
- **Directories with an image extension.** The constructor records every
  entry of a class folder whose name has an image extension, directories
  included. There is no `isfile` test.
- **Negative positions.** `__getitem__` accepts positions from `-len` to
  `len - 1`, because it indexes a Python list. It raises `IndexError` only
  outside that range.

## Model

| member | source | states |
|---|---|---|
| FileTree.RemoveTree | setup.py:91-92 | after `shutil.rmtree(p)`, nothing exists at `p` or beneath it, and every other node is kept with its kind |
| FileTree.Rename | setup.py:94-95 | a successful move re-keys the source subtree under the destination; nodes outside the source and destination are kept, and nothing else appears |
| FileTree.SubtreeAfterRename | setup.py:94-95 | after a move, the destination holds exactly the former subtree of the source, and nothing is left at the source |
| FileTree.SubtreeInsideRename | setup.py:94-95 | beneath `dst + rel`, a move shows what lay beneath `src + rel` |
| FileTree.SubtreeAfterRenameOutside | setup.py:94-95 | a subtree apart from the destination sees a move only as the removal of the source |
| FileTree.RenameKeepsClear | setup.py:94-95 | a move keeps empty a path that was empty and lies apart from the destination |
| FileTree.SubtreeAfterRemove | setup.py:91-92 | `shutil.rmtree` leaves any subtree disjoint from its argument untouched |
| FileTree.RemoveTreeCommutes | setup.py:91-92 | the two deletions of lines 91-92 can be taken in either order |
| FileTree.AbsentMeansNoneUnder | setup.py:91-92 | on a well-formed tree, a path that does not exist has nothing beneath it |
| FileTree.RemoveAbsent | setup.py:91-92 | the `os.path.exists` guard is sound: removing a missing path changes nothing |
| FileTree.SubtreeWithout | setup.py:103 | deleting the archive does not disturb a subtree that does not contain it |
| FileTree.RemoveTreeWellFormed | setup.py:91-92 | after `shutil.rmtree`, every node still sits in an existing directory |
| FileTree.RemoveFileWellFormed | setup.py:103 | after `os.remove` of a file, every node still sits in an existing directory |
| FileTree.RenameWellFormed | setup.py:94-95 | after a move to a free entry of the root, every node still sits in an existing directory |
| FileTree.Disk.RmTree | setup.py:91-92 | the new tree and the raised error are those of `shutil.rmtree`: NotFound for a missing path, NotADirectory for a file, otherwise the subtree is removed |
| FileTree.Disk.Move | setup.py:94-95 | the new tree and the raised error are those of `shutil.move` to a free destination: NotFound for a missing source, an error for a destination inside the source, otherwise a rename |
| FileTree.Disk.Remove | setup.py:103 | the new tree and the raised error are those of `os.remove`: NotFound for a missing path, IsADirectory for a directory, otherwise the one file is gone |
| Names.Lower | setup.py:72-74 | `str.lower` on ASCII: same length, each letter A-Z mapped to a-z, other characters unchanged, and no upper-case letter left |
| Names.LowerMatchIsWholeName | setup.py:72-74 | a name matches `training` or `testing` only if it has the same length, so `training2` never matches |
| Names.NotAboveTransitive | test.py:17 | Python's `<=` on strings is transitive |
| Names.Insert | test.py:17 | inserting into an ascending list keeps it ascending and adds exactly that element |
| Names.Sort | test.py:17 | `sorted` returns an ascending permutation of its input |
| Names.SortDistinct | test.py:17 | sorting distinct names gives a strictly ascending list |
| Setup.FixedPathsApart | setup.py:87-88 | `Training`, `Testing` and `dataset.zip` are three different root entries, none inside another |
| Setup.Locate | setup.py:67-75 | the search loop ends with each variable holding the last match in walk order, or unset when there is none |
| Setup.LastMatchInStep | setup.py:71-75 | within one directory listing, no match is found exactly when no name matches; otherwise the result is the last matching name |
| Setup.LastMatchWins | setup.py:70-75 | a candidate is unset exactly when no directory of the walk matches; otherwise no match comes after it |
| Setup.LocateFindsDirectory | setup.py:67-78 | over a real walk, a candidate is found exactly when the tree holds a directory with that name ignoring case, and the candidate is such a directory |
| Setup.LayoutNotFoundIffNoSplit | setup.py:77-78 | the script raises the layout error exactly when no `training` or no `testing` directory exists, and it has then changed nothing |
| Setup.ClearCanonical | setup.py:90-92 | when both `rmtree` calls succeed, nothing is left at or beneath `Training` and `Testing` |
| Setup.ClearedCanonical | setup.py:90-92 | when neither canonical path is a file, lines 90-92 raise nothing and remove both subtrees, whether or not they existed |
| Setup.CanonicalFileStopsScript | setup.py:90-92 | a plain file at `data/Training` (or else at `data/Testing`) makes `rmtree` raise NotADirectory, and the script stops there |
| Setup.TrainingMoveKeepsTestingClear | setup.py:94-95 | once the first move succeeds, the destination of the second move is still free |
| Setup.ReplaceCanonical | setup.py:90-95 | the only errors lines 90-95 can raise are filesystem errors |
| Setup.AfterTrainingMove | setup.py:90-95 | when the deletions and the first move succeed, the outcome is that of the second move on the tree at that point |
| Setup.ReplaceCanonicalMoves | setup.py:90-95 | when the candidates are clear of the canonical paths and the testing one is not inside the training one: `Training` holds the training candidate's former subtree, `Testing` the testing candidate's (less what the first move took), the old paths are empty, and everything else is unchanged |
| Setup.Normalise | setup.py:65-95 | the method leaves the disk in the state, and raises the error, that the functional description of lines 65-95 gives |
| Setup.NormaliseMovesCandidates | setup.py:65-95 | the same result for the candidates the walk locates |
| Setup.TrainingCandidateDestroyed | setup.py:90-94 | a training candidate at or beneath a canonical path is deleted by line 91 or 92; the move then raises NotFound, and both canonical subtrees are already gone |
| Setup.TestingCandidateLost | setup.py:90-95 | a testing candidate beneath `Testing`, inside the training candidate, or beneath `Training` with no matching part in the moved subtree is gone by line 95; the move raises NotFound after `Training` has received the training candidate |
| Setup.TestingTakenFromMovedTraining | setup.py:90-95 | a testing candidate beneath `Training` whose relative path exists in the training candidate: line 95 succeeds, moves that part of the new `Training` to `Testing`, and leaves nothing at or beneath the testing candidate's path |
| Setup.Swept | setup.py:105-109 | after the cleanup loop, `Training` and `Testing` are the only root directories; nothing new appears; everything inside a stray root directory is gone; and everything else stays as it was |
| Setup.ReplaceKeepsWellFormed | setup.py:90-95 | with candidates apart from each other and from the canonical paths, lines 90-95 leave every node in an existing directory |
| Setup.SweptNestsOnlySplits | setup.py:105-109 | on a tree a filesystem can hold, the cleanup loop leaves no node below the root outside `Training` and `Testing` |
| Setup.SweepStep | setup.py:106-109 | one round of the loop deletes the subtree of its name exactly when that name is a stray root directory; otherwise it changes nothing |
| Setup.SweptIdempotent | setup.py:105-109 | running the cleanup loop a second time changes nothing |
| Setup.SweptKeepsSplits | setup.py:105-109 | the cleanup loop leaves the `Training` and `Testing` subtrees as they were |
| Setup.Cleanup | setup.py:102-109 | the method leaves the disk, and raises the error, that the functional description of lines 102-109 gives, whatever order the root entries are visited in |
| Setup.CleanupRemovesArchive | setup.py:102-103 | cleanup raises nothing exactly when the archive is a plain file, changes nothing when it raises, and afterwards the archive is gone unless it raised |
| Setup.CleanupKeepsSplits | setup.py:102-109 | with the archive present, cleanup succeeds, removes it, keeps `Training` and `Testing`, leaves no other root directory and nothing of the stray ones, and on a tree a filesystem can hold leaves nothing below the root outside `Training` and `Testing` |
| Setup.Run | setup.py:65-109 | the whole method equals the functional description of lines 65-109 |
| Setup.SetupGivesCanonicalLayout | setup.py:65-109 | with candidates apart from each other and from the canonical paths, and the archive present: the run succeeds; `Training` and `Testing` are directories holding the candidates' former subtrees; the archive is gone; no other root directory is left; and no node below the root lies outside `Training` or `Testing` |
| Dataset.ClassRecordsShape | test.py:25-29 | every record of a class folder is `folder/n` for an entry `n` of its listing with an image extension, labelled with the class |
| Dataset.ClassRecordsComplete | test.py:25-29 | every image entry of the listing gets a record |
| Dataset.ClassRecordsHas | test.py:25-29 | the record of `n` is produced exactly when `n` is an entry of the listing with an image extension |
| Dataset.ClassRecordsAppend | test.py:25-29 | records follow listing order: the records of a concatenated listing are those of its parts, in turn |
| Dataset.IndexRecordsPlaced | test.py:21-29 | after `k` classes, every record has a label below `k` and lies in the folder of the class its label names |
| Dataset.IndexLabelsAscend | test.py:21-29 | labels never decrease along the index |
| Dataset.RecordIffImage | test.py:21-29 | the record of `n` in class `idx` is in the index exactly when that class entry is a directory listing `n` and `n` has an image extension |
| Dataset.IndexedIffImageEntry | test.py:21-29 | the same, against the tree itself: the class entry is a directory and `folder/n` exists, as a file or a directory |
| Dataset.ClassSlice | test.py:21-29 | the records carrying label `idx` are exactly the records of that class folder, in listing order; a class entry that is not a directory has none but keeps its position, so later classes keep their labels |
| Dataset.ClassesStrictlyAscending | test.py:17 | the class names are strictly ascending and are exactly the entries of the root |
| Dataset.BrainTumorDataset.constructor | test.py:13-29 | the classes are the sorted root entries; the two lists hold exactly the index records, in loop order; and the invariant holds |
| Dataset.BrainTumorDataset.AddClassImages | test.py:25-29 | the inner loop appends exactly the records of one class folder, in listing order, and keeps the dataset invariant |
| Dataset.Load | test.py:13-17 | `os.listdir` on a missing root raises NotFound and on a file raises NotADirectory; otherwise a fresh dataset is built as the constructor states |
| Dataset.BrainTumorDataset.Len | test.py:31-32 | the length is the number of labels, equal to the number of paths |
| Dataset.BrainTumorDataset.GetItem | test.py:34-43 | positions from `-len` to `len - 1` succeed, negative ones counted from the end; the triple holds the stored path and label, the label names a class whose folder holds the path, and the image is the decoded image after the optional transform; other positions raise IndexError |
| Dataset.FromEndIsModulo | test.py:35-36 | within `-n..n-1`, a position counted from the end is the position modulo `n` |
| Dataset.RandInt | test.py:69 | `random.randint(a, b)` raises on an empty range and otherwise returns a value between the bounds, both included |
| Dataset.RandIntReachesAll | test.py:69 | every value of a non-empty range can be drawn |
| Dataset.BrainTumorDataset.ShowRandomImages | test.py:66-77 | a negative count gives no rounds; with an empty dataset and at least one round, `randint(0, -1)` raises; otherwise a seventh round raises at `plt.subplot`, since the grid has six cells; each completed round draws a position within range and titles it with the class name its label gives |

## Left out

- Lines 1-61 of `setup.py` (pip installs, the `gdown` download, `zipfile` extraction) are not part of this model. The tree after extraction is the input.
- `print` calls and the `matplotlib` plotting of `test.py` (figure, `imshow`, tensor permutation) are left out. Only the six-cell limit of `plt.subplot(2, 3, i+1)` is kept. The preview returns the drawn positions and titles instead.
- Dataset.BrainTumorDataset.ShowRandomImages: has no default argument. Python's default `num_images=6` (line 66) is not modelled; the call on line 83 passes 6 explicitly.
- A case-sensitive (POSIX) filesystem is assumed: `Training` and `training` are different entries. On a case-insensitive filesystem, such as the macOS and Windows defaults, `data/training` is `data/Training`. An archive with a top-level `training/` folder then has its candidate deleted by line 91, and line 94 raises FileNotFoundError. The model proves success there, in `Setup.ReplaceCanonicalMoves` and `Setup.SetupGivesCanonicalLayout`.
- Image decoding (`Image.open(...).convert("RGB")`) and the torchvision transform are opaque: `decode` is a parameter and the transform an optional function. Decoding errors are not modelled.
- `random.randint` takes its randomness as an explicit draw. A value is chosen as `a + draw % (b - a + 1)`, and `RandIntReachesAll` shows every value is reachable. The distribution is not modelled.
- Names.Lower: maps only ASCII letters; Unicode case folding of non-ASCII names is not modelled.
- The order of `os.walk` and `os.listdir` is not computed. It is an input, and `WalkOf` and `Covers`/`ListsTree` constrain it. Symbolic links, permissions and concurrent changes to the filesystem are not modelled.
- FileTree.Disk.Move: requires that nothing exists at the destination. The script clears the destination first, so the branch of `shutil.move` that moves into an existing directory is not modelled.
- Dataset.BrainTumorDataset.constructor: requires the root to be an existing directory with its listings given. `Dataset.Load` models the `os.listdir` exception for the other cases. The working directory itself, the empty path, cannot be the root.
- The module-level driver code of `test.py` (lines 50-59, 81 onwards) that builds the dataset on `data/Training` and calls the preview is not modelled beyond `Dataset.Load` and `ShowRandomImages`.
- The Python `str` truthiness test of line 77 is modelled as "unset". A joined path is never empty.
