/**
 * The image index of the viewer script: the dataset object lists the class
 * folders of a split directory in sorted order, records every image found
 * in each folder with the position of its folder as the label, and hands
 * out (image, label, path) triples by position. The preview draws random
 * positions into it.
 *
 * The directory listings the constructor reads are given as a map from a
 * directory to the order in which os.listdir returns its entries.
 */
module Dataset {
  import opened FileTree
  import opened Names

  /** The order os.listdir returns each directory's entries in. */
  type Listing = map<Path, seq<Name>>

  /** Every directory of the tree has a listing. */
  ghost predicate Covers(fs: Tree, listing: Listing) {
    forall p :: p in fs && fs[p] == Dir ==> p in listing
  }

  /**
   * Every directory of the tree is listed, once per entry, and the listing
   * holds exactly the entries that exist.
   */
  ghost predicate ListsTree(fs: Tree, listing: Listing) {
    forall p :: p in fs && fs[p] == Dir ==>
      && p in listing
      && Distinct(listing[p])
      && forall n :: n in listing[p] <==> p + [n] in fs
  }

  /** os.path.isdir */
  predicate IsDirIn(fs: Tree, p: Path) {
    p in fs && fs[p] == Dir
  }

  /** The extension test of line 27: case-insensitive ".png", ".jpg" or ".jpeg". */
  predicate IsImageName(n: Name) {
    var l := Lower(n);
    EndsWith(l, ".png") || EndsWith(l, ".jpg") || EndsWith(l, ".jpeg")
  }

  /** One image of the index: its path and its label. */
  datatype Record = Record(path: Path, classIndex: nat)

  /** `path` is `root/cls/<image name>`. */
  predicate InClass(path: Path, root: Path, cls: Name) {
    && |path| == |root| + 2
    && path[..|root|] == root
    && path[|root|] == cls
    && IsImageName(path[|root| + 1])
  }

  /** The records the inner loop (lines 25-29) appends for one class folder. */
  function ClassRecords(folder: Path, idx: nat, names: seq<Name>): (r: seq<Record>)
    ensures |r| <= |names|
    decreases |names|
  {
    if names == [] then []
    else
      var rest := ClassRecords(folder, idx, names[..|names| - 1]);
      var n := names[|names| - 1];
      if IsImageName(n) then rest + [Record(folder + [n], idx)] else rest
  }

  /** `rec` is `folder/n` for an entry `n` of `names` with an image extension, labelled `idx`. */
  predicate FromFolder(rec: Record, folder: Path, idx: nat, names: seq<Name>) {
    && rec.classIndex == idx
    && |rec.path| == |folder| + 1
    && rec.path[..|folder|] == folder
    && rec.path[|folder|] in names
    && IsImageName(rec.path[|folder|])
  }

  predicate AllFromFolder(recs: seq<Record>, folder: Path, idx: nat, names: seq<Name>) {
    forall i :: 0 <= i < |recs| ==> FromFolder(recs[i], folder, idx, names)
  }

  /** Each record of a class folder is an image entry of its listing, labelled with the class. */
  lemma {:induction false} ClassRecordsShape(folder: Path, idx: nat, names: seq<Name>)
    ensures AllFromFolder(ClassRecords(folder, idx, names), folder, idx, names)
    decreases |names|
  {
    if names != [] {
      var init := names[..|names| - 1];
      ClassRecordsShape(folder, idx, init);
      var r := ClassRecords(folder, idx, names);
      var rest := ClassRecords(folder, idx, init);
      forall i | 0 <= i < |r| ensures FromFolder(r[i], folder, idx, names) {
        if i < |rest| {
          assert r[i] == rest[i];
          assert FromFolder(rest[i], folder, idx, init);
          assert rest[i].path[|folder|] in init;
        } else {
          var n := names[|names| - 1];
          assert r[i] == Record(folder + [n], idx);
          assert (folder + [n])[..|folder|] == folder;
        }
      }
    }
  }

  /** The records of the first `k` classes (lines 21-29 after `k` rounds of the outer loop). */
  function IndexRecords(fs: Tree, listing: Listing, root: Path, classes: seq<Name>, k: nat): seq<Record>
    requires Covers(fs, listing) && k <= |classes|
  {
    if k == 0 then []
    else
      var prev := IndexRecords(fs, listing, root, classes, k - 1);
      var folder := root + [classes[k - 1]];
      if IsDirIn(fs, folder) then prev + ClassRecords(folder, k - 1, listing[folder]) else prev
  }

  /** The two parallel lists hold exactly the records, in order. */
  predicate Holds(paths: seq<Path>, labels: seq<int>, recs: seq<Record>) {
    && |paths| == |recs| && |labels| == |recs|
    && forall i :: 0 <= i < |recs| ==> paths[i] == recs[i].path && labels[i] == recs[i].classIndex
  }

  /** The records carrying one label, in order. */
  function WithLabel(recs: seq<Record>, idx: nat): (r: seq<Record>)
    ensures |r| <= |recs|
  {
    if recs == [] then []
    else
      var rest := WithLabel(recs[..|recs| - 1], idx);
      if recs[|recs| - 1].classIndex == idx then rest + [recs[|recs| - 1]] else rest
  }

  /** One round of the inner loop. */
  lemma ClassRecordsStep(folder: Path, idx: nat, names: seq<Name>, j: nat)
    requires j < |names|
    ensures ClassRecords(folder, idx, names[..j + 1]) ==
      ClassRecords(folder, idx, names[..j]) + if IsImageName(names[j]) then [Record(folder + [names[j]], idx)] else []
  {
    assert names[..j + 1][..j] == names[..j];
  }

  /** One round of the outer loop. */
  lemma IndexRecordsStep(fs: Tree, listing: Listing, root: Path, classes: seq<Name>, idx: nat)
    requires Covers(fs, listing) && idx < |classes|
    ensures var folder := root + [classes[idx]];
      IndexRecords(fs, listing, root, classes, idx + 1) ==
        IndexRecords(fs, listing, root, classes, idx) +
        if IsDirIn(fs, folder) then ClassRecords(folder, idx, listing[folder]) else []
  {
  }

  /** An image entry of a class folder sits in that class. */
  lemma ImageInClass(root: Path, cls: Name, name: Name)
    requires IsImageName(name)
    ensures InClass(root + [cls] + [name], root, cls)
  {
    var path := root + [cls] + [name];
    assert path[..|root|] == root;
    assert path[|root|] == cls && path[|root| + 1] == name;
  }

  lemma AppendAssociates(a: seq<Record>, b: seq<Record>, c: seq<Record>)
    ensures (a + b) + c == a + (b + c)
  {
  }

  lemma HoldsAppend(paths: seq<Path>, labels: seq<int>, recs: seq<Record>, p: Path, l: nat)
    requires Holds(paths, labels, recs)
    ensures Holds(paths + [p], labels + [l], recs + [Record(p, l)])
  {
  }

  /** A triple returned by `__getitem__`. */
  datatype Item<Image> = Item(image: Image, classIndex: int, path: Path)

  /** Line 40-41: apply the transform when one was given. */
  function Transformed<Image>(transform: Option<Image -> Image>, image: Image): Image {
    if transform.Some? then transform.value(image) else image
  }

  class BrainTumorDataset<Image> {
    const rootDir: Path
    const transform: Option<Image -> Image>
    const classes: seq<Name>
    var imagePaths: seq<Path>
    var labels: seq<int>

    /** The lists are parallel and every image sits in the folder its label names. */
    ghost predicate Valid()
      reads this
    {
      && |imagePaths| == |labels|
      && forall i :: 0 <= i < |labels| ==>
           0 <= labels[i] < |classes| && InClass(imagePaths[i], rootDir, classes[labels[i]])
    }

    /** Lines 13-29: list the class folders, then index their images. */
    constructor (fs: Tree, listing: Listing, rootDir: Path, transform: Option<Image -> Image>)
      requires Covers(fs, listing) && IsDirIn(fs, rootDir)
      ensures this.rootDir == rootDir && this.transform == transform
      ensures classes == Sort(listing[rootDir])
      ensures Holds(imagePaths, labels, IndexRecords(fs, listing, rootDir, classes, |classes|))
      ensures Valid()
    {
      this.rootDir := rootDir;
      this.transform := transform;
      this.classes := Sort(listing[rootDir]);
      imagePaths := [];
      labels := [];
      new;
      var idx := 0;
      while idx < |classes|
        invariant 0 <= idx <= |classes|
        invariant Holds(imagePaths, labels, IndexRecords(fs, listing, rootDir, classes, idx))
        invariant Valid()
      {
        var folder := rootDir + [classes[idx]];
        IndexRecordsStep(fs, listing, rootDir, classes, idx);
        if IsDirIn(fs, folder) {
          AddClassImages(folder, idx, listing[folder], IndexRecords(fs, listing, rootDir, classes, idx));
        }
        idx := idx + 1;
      }
    }

    /** The inner loop of lines 25-29: append every image of one class folder, in listing order. */
    method AddClassImages(folder: Path, idx: nat, names: seq<Name>, ghost before: seq<Record>)
      requires Valid() && idx < |classes| && folder == rootDir + [classes[idx]]
      requires Holds(imagePaths, labels, before)
      modifies this
      ensures Holds(imagePaths, labels, before + ClassRecords(folder, idx, names))
      ensures Valid()
    {
      ghost var recs := before;
      var j := 0;
      while j < |names|
        invariant 0 <= j <= |names|
        invariant recs == before + ClassRecords(folder, idx, names[..j])
        invariant Holds(imagePaths, labels, recs)
        invariant Valid()
      {
        var name := names[j];
        ClassRecordsStep(folder, idx, names, j);
        ghost var step := if IsImageName(name) then [Record(folder + [name], idx)] else [];
        if IsImageName(name) {
          HoldsAppend(imagePaths, labels, recs, folder + [name], idx);
          ImageInClass(rootDir, classes[idx], name);
          imagePaths := imagePaths + [folder + [name]];
          labels := labels + [idx];
        }
        AppendAssociates(before, ClassRecords(folder, idx, names[..j]), step);
        recs := recs + step;
        j := j + 1;
      }
      assert names[..|names|] == names;
    }

    /** Lines 31-32 */
    function Len(): (n: nat)
      reads this
      requires Valid()
      ensures n == |labels|
    {
      |imagePaths|
    }

    /**
     * Lines 34-43: Python list indexing accepts positions from -len to
     * len - 1, counting negative ones from the end, and raises IndexError
     * outside. The item is the image behind the stored path, decoded by
     * `decode` and transformed, with the stored label and path; the label
     * names a class and the path lies in that class folder.
     */
    function GetItem(index: int, decode: Path -> Image): (r: Option<Item<Image>>)
      reads this
      requires Valid()
      ensures r.Some? <==> -(Len() as int) <= index < Len()
      ensures r.Some? ==>
        && r.value.path == imagePaths[index % Len()] && r.value.classIndex == labels[index % Len()]
        && 0 <= r.value.classIndex < |classes|
        && InClass(r.value.path, rootDir, classes[r.value.classIndex])
        && r.value.image == Transformed(transform, decode(r.value.path))
    {
      if index < -|imagePaths| || |imagePaths| <= index then None
      else
        var i := if index < 0 then index + |imagePaths| else index;
        FromEndIsModulo(index, |imagePaths|);
        Some(Item(Transformed(transform, decode(imagePaths[i])), labels[i], imagePaths[i]))
    }

    /**
     * Lines 66-77 without the drawing itself: for each of `numImages` rounds
     * (none when it is negative, as with `range`) draw a position with
     * randint(0, len - 1), fetch that item, claim the next cell of the 2 by 3
     * grid and take the class name its label gives as the title.
     */
    method ShowRandomImages(numImages: int, draws: seq<int>, decode: Path -> Image)
      returns (picked: seq<int>, titles: seq<Name>, err: Option<PreviewError>)
      requires Valid() && numImages <= |draws|
      ensures err == Some(EmptyRange) <==> Len() == 0 && 0 < numImages
      ensures err == Some(GridFull) <==> 0 < Len() && GridCells < numImages
      ensures |picked| == |titles| == if Len() == 0 then 0 else Min(Rounds(numImages), GridCells)
      ensures err.None? ==> |picked| == Rounds(numImages)
      ensures forall k :: 0 <= k < |picked| ==>
        && RandInt(0, Len() - 1, draws[k]) == Some(picked[k])
        && 0 <= picked[k] < Len()
        && titles[k] == classes[labels[picked[k]]]
    {
      picked, titles, err := [], [], None;
      var rounds := Rounds(numImages);
      var i := 0;
      while i < rounds
        invariant 0 <= i <= rounds && i <= GridCells
        invariant |picked| == i && |titles| == i
        invariant 0 < i ==> 0 < Len()
        invariant forall k :: 0 <= k < i ==>
          && RandInt(0, Len() - 1, draws[k]) == Some(picked[k])
          && 0 <= picked[k] < Len()
          && titles[k] == classes[labels[picked[k]]]
      {
        var idx := RandInt(0, Len() - 1, draws[i]);
        if idx == None {
          err := Some(EmptyRange);
          return;
        }
        var item := GetItem(idx.value, decode);
        if GridCells < i + 1 {
          err := Some(GridFull);
          return;
        }
        picked := picked + [idx.value];
        titles := titles + [classes[item.value.classIndex]];
        i := i + 1;
      }
    }
  }

  /**
   * Line 17 on a root that is missing or is a file: os.listdir raises and
   * no dataset is built. Otherwise the dataset is built as the constructor
   * says.
   */
  method Load<Image>(fs: Tree, listing: Listing, rootDir: Path, transform: Option<Image -> Image>)
    returns (ds: BrainTumorDataset?<Image>, err: Option<FsError>)
    requires Covers(fs, listing)
    ensures err == (if rootDir !in fs then Some(NotFound(rootDir))
                    else if fs[rootDir] == File then Some(NotADirectory(rootDir)) else None)
    ensures err.None? <==> ds != null
    ensures ds != null ==>
      && fresh(ds) && ds.Valid() && ds.rootDir == rootDir && ds.transform == transform
      && ds.classes == Sort(listing[rootDir])
      && Holds(ds.imagePaths, ds.labels, IndexRecords(fs, listing, rootDir, ds.classes, |ds.classes|))
  {
    if rootDir !in fs {
      return null, Some(NotFound(rootDir));
    }
    if fs[rootDir] == File {
      return null, Some(NotADirectory(rootDir));
    }
    ds := new BrainTumorDataset(fs, listing, rootDir, transform);
    err := None;
  }

  /** Within -n..n-1, counting a negative position from the end is taking it modulo n. */
  lemma FromEndIsModulo(index: int, n: int)
    requires -n <= index < n
    ensures index % n == if index < 0 then index + n else index
  {
    var i := if index < 0 then index + n else index;
    assert index == (if index < 0 then -1 else 0) * n + i;
  }

  /**
   * The ValueErrors the preview can raise: random.randint on an empty range,
   * and plt.subplot(2, 3, k) for a cell number past the grid.
   */
  datatype PreviewError = EmptyRange | GridFull

  /** The cells of the 2 by 3 subplot grid of line 75. */
  const GridCells: nat := 6

  /** The number of rounds of `range(n)`. */
  function Rounds(n: int): nat {
    if n < 0 then 0 else n
  }

  function Min(a: nat, b: nat): nat {
    if a < b then a else b
  }

  /**
   * random.randint(a, b) driven by a raw draw: an error when the range is
   * empty, otherwise a value between the bounds, both included.
   */
  function RandInt(a: int, b: int, draw: int): (r: Option<int>)
    ensures r.Some? <==> a <= b
    ensures r.Some? ==> a <= r.value <= b
  {
    if b < a then None else Some(a + draw % (b - a + 1))
  }

  /** Every value of a non-empty range can be drawn. */
  lemma RandIntReachesAll(a: int, b: int, v: int)
    requires a <= v <= b
    ensures RandInt(a, b, v - a) == Some(v)
  {
  }

  /** Every record has a label below `k` and lies in the folder of the class it names. */
  predicate Placed(recs: seq<Record>, root: Path, classes: seq<Name>, k: nat) {
    forall i :: 0 <= i < |recs| ==>
      recs[i].classIndex < k && recs[i].classIndex < |classes| && InClass(recs[i].path, root, classes[recs[i].classIndex])
  }

  predicate LabelsAscend(recs: seq<Record>) {
    forall i, j :: 0 <= i < j < |recs| ==> recs[i].classIndex <= recs[j].classIndex
  }

  /** Each record of the first `k` classes has a label below `k` and lies in that class's folder. */
  lemma {:induction false} IndexRecordsPlaced(fs: Tree, listing: Listing, root: Path, classes: seq<Name>, k: nat)
    requires Covers(fs, listing) && k <= |classes|
    ensures Placed(IndexRecords(fs, listing, root, classes, k), root, classes, k)
  {
    if k > 0 {
      IndexRecordsPlaced(fs, listing, root, classes, k - 1);
      var prev := IndexRecords(fs, listing, root, classes, k - 1);
      var folder := root + [classes[k - 1]];
      if IsDirIn(fs, folder) {
        var cr := ClassRecords(folder, k - 1, listing[folder]);
        ClassRecordsShape(folder, k - 1, listing[folder]);
        var recs := prev + cr;
        forall i | 0 <= i < |recs| ensures recs[i].classIndex < k && InClass(recs[i].path, root, classes[recs[i].classIndex]) {
          if i < |prev| {
            assert recs[i] == prev[i];
          } else {
            var j := i - |prev|;
            assert recs[i] == cr[j];
            var p := cr[j].path;
            assert |p| == |folder| + 1 && p[..|folder|] == folder;
            assert p[..|root|] == p[..|folder|][..|root|];
            assert p[|root|] == p[..|folder|][|root|];
            assert folder[..|root|] == root && folder[|root|] == classes[k - 1];
            assert p[|root| + 1] == p[|folder|];
          }
        }
      }
    }
  }

  /** Every record carries label `idx`. */
  predicate LabelledAll(recs: seq<Record>, idx: nat) {
    forall i :: 0 <= i < |recs| ==> recs[i].classIndex == idx
  }

  /** Every record carries a label below `m`. */
  predicate LabelsBelow(recs: seq<Record>, m: nat) {
    forall i :: 0 <= i < |recs| ==> recs[i].classIndex < m
  }

  /** The records of one class folder all carry that class's label. */
  lemma ClassRecordsLabelled(folder: Path, idx: nat, names: seq<Name>)
    ensures LabelledAll(ClassRecords(folder, idx, names), idx)
  {
    ClassRecordsShape(folder, idx, names);
  }

  lemma PlacedLabelsBelow(recs: seq<Record>, root: Path, classes: seq<Name>, k: nat)
    requires Placed(recs, root, classes, k)
    ensures LabelsBelow(recs, k)
  {
  }

  /** Appending records of a label above all earlier ones keeps the labels ascending. */
  lemma AscendAppend(a: seq<Record>, b: seq<Record>, m: nat)
    requires LabelsAscend(a) && LabelsBelow(a, m) && LabelledAll(b, m)
    ensures LabelsAscend(a + b)
  {
    var ab := a + b;
    forall i, j | 0 <= i < j < |ab| ensures ab[i].classIndex <= ab[j].classIndex {
      if j < |a| {
        assert ab[i] == a[i] && ab[j] == a[j];
      } else if i < |a| {
        assert ab[i] == a[i] && ab[j] == b[j - |a|];
      } else {
        assert ab[i] == b[i - |a|] && ab[j] == b[j - |a|];
      }
    }
  }

  /** Labels never decrease along the index: the classes are visited in order. */
  lemma {:induction false} IndexLabelsAscend(fs: Tree, listing: Listing, root: Path, classes: seq<Name>, k: nat)
    requires Covers(fs, listing) && k <= |classes|
    ensures LabelsAscend(IndexRecords(fs, listing, root, classes, k))
  {
    if k > 0 {
      IndexLabelsAscend(fs, listing, root, classes, k - 1);
      var prev := IndexRecords(fs, listing, root, classes, k - 1);
      var folder := root + [classes[k - 1]];
      if IsDirIn(fs, folder) {
        IndexRecordsPlaced(fs, listing, root, classes, k - 1);
        PlacedLabelsBelow(prev, root, classes, k - 1);
        ClassRecordsLabelled(folder, k - 1, listing[folder]);
        AscendAppend(prev, ClassRecords(folder, k - 1, listing[folder]), k - 1);
      }
    }
  }

  /** An image name of a listing yields the record for that name. */
  lemma {:induction false} ClassRecordsComplete(folder: Path, idx: nat, names: seq<Name>, n: Name)
    requires n in names && IsImageName(n)
    ensures Record(folder + [n], idx) in ClassRecords(folder, idx, names)
    decreases |names|
  {
    var last := names[|names| - 1];
    if n != last {
      assert names == names[..|names| - 1] + [last];
      ClassRecordsComplete(folder, idx, names[..|names| - 1], n);
    }
  }

  /**
   * The record of image `n` in class `idx` is in the index exactly when
   * that class entry is a directory listing `n` and `n` has an image
   * extension.
   */
  lemma {:induction false} RecordIffImage(fs: Tree, listing: Listing, root: Path, classes: seq<Name>, k: nat, idx: nat, n: Name)
    requires Covers(fs, listing) && k <= |classes| && idx < |classes|
    ensures var folder := root + [classes[idx]];
      Record(folder + [n], idx) in IndexRecords(fs, listing, root, classes, k) <==>
        idx < k && IsDirIn(fs, folder) && n in listing[folder] && IsImageName(n)
  {
    if k > 0 {
      RecordIffImage(fs, listing, root, classes, k - 1, idx, n);
      var folder := root + [classes[idx]];
      var rec := Record(folder + [n], idx);
      var prev := IndexRecords(fs, listing, root, classes, k - 1);
      var f := root + [classes[k - 1]];
      if IsDirIn(fs, f) {
        var cr := ClassRecords(f, k - 1, listing[f]);
        assert IndexRecords(fs, listing, root, classes, k) == prev + cr;
        assert rec in prev + cr <==> rec in prev || rec in cr;
        if idx == k - 1 {
          assert f == folder;
          ClassRecordsHas(folder, idx, listing[folder], n);
        } else {
          ClassRecordsLabelled(f, k - 1, listing[f]);
          NotLabelled(cr, k - 1, rec);
        }
      } else {
        assert IndexRecords(fs, listing, root, classes, k) == prev;
      }
    }
  }

  /** A class folder yields the record of `n` exactly when `n` is an image entry of its listing. */
  lemma ClassRecordsHas(folder: Path, idx: nat, names: seq<Name>, n: Name)
    ensures Record(folder + [n], idx) in ClassRecords(folder, idx, names) <==> n in names && IsImageName(n)
  {
    var cr := ClassRecords(folder, idx, names);
    if n in names && IsImageName(n) {
      ClassRecordsComplete(folder, idx, names, n);
    }
    if Record(folder + [n], idx) in cr {
      ClassRecordsShape(folder, idx, names);
      var i :| 0 <= i < |cr| && cr[i] == Record(folder + [n], idx);
      assert FromFolder(cr[i], folder, idx, names);
      assert (folder + [n])[|folder|] == n;
    }
  }

  /** A record whose label differs from the one every record carries is not among them. */
  lemma NotLabelled(recs: seq<Record>, m: nat, rec: Record)
    requires LabelledAll(recs, m) && rec.classIndex != m
    ensures rec !in recs
  {
  }

  /**
   * Over the whole index: the record of `n` in class `idx` is there exactly
   * when the class entry is a directory holding an entry `n` whose name has
   * an image extension. The entry itself may be a file or a directory.
   */
  lemma IndexedIffImageEntry(fs: Tree, listing: Listing, root: Path, classes: seq<Name>, idx: nat, n: Name)
    requires ListsTree(fs, listing) && idx < |classes|
    ensures var folder := root + [classes[idx]];
      Record(folder + [n], idx) in IndexRecords(fs, listing, root, classes, |classes|) <==>
        IsDirIn(fs, folder) && folder + [n] in fs && IsImageName(n)
  {
    RecordIffImage(fs, listing, root, classes, |classes|, idx, n);
  }

  lemma {:induction false} WithLabelAppend(a: seq<Record>, b: seq<Record>, idx: nat)
    ensures WithLabel(a + b, idx) == WithLabel(a, idx) + WithLabel(b, idx)
    decreases |b|
  {
    if b == [] {
      assert a + b == a;
    } else {
      assert (a + b)[..|a + b| - 1] == a + b[..|b| - 1];
      WithLabelAppend(a, b[..|b| - 1], idx);
    }
  }

  /** Selecting a label from records that all carry one label. */
  lemma {:induction false} WithLabelUniform(recs: seq<Record>, cls: nat, idx: nat)
    requires LabelledAll(recs, cls)
    ensures WithLabel(recs, idx) == if cls == idx then recs else []
    decreases |recs|
  {
    if recs != [] {
      WithLabelUniform(recs[..|recs| - 1], cls, idx);
    }
  }

  /**
   * The records of class `idx` are the ones its own folder produced, in the
   * order the inner loop visited them; a class entry that is not a
   * directory has none.
   */
  lemma {:induction false} ClassSlice(fs: Tree, listing: Listing, root: Path, classes: seq<Name>, k: nat, idx: nat)
    requires Covers(fs, listing) && k <= |classes| && idx < |classes|
    ensures var folder := root + [classes[idx]];
      WithLabel(IndexRecords(fs, listing, root, classes, k), idx) ==
        if idx < k && IsDirIn(fs, folder) then ClassRecords(folder, idx, listing[folder]) else []
  {
    if k > 0 {
      ClassSlice(fs, listing, root, classes, k - 1, idx);
      var prev := IndexRecords(fs, listing, root, classes, k - 1);
      var f := root + [classes[k - 1]];
      var whole := IndexRecords(fs, listing, root, classes, k);
      if IsDirIn(fs, f) {
        var cr := ClassRecords(f, k - 1, listing[f]);
        assert whole == prev + cr;
        ClassRecordsLabelled(f, k - 1, listing[f]);
        WithLabelStep(prev, cr, k - 1, idx);
        if idx == k - 1 {
          assert f == root + [classes[idx]];
          assert WithLabel(whole, idx) == WithLabel(prev, idx) + cr;
        } else {
          assert WithLabel(whole, idx) == WithLabel(prev, idx) + [];
        }
      } else {
        assert whole == prev;
      }
    }
  }

  /** Selecting one label from an index extended by a folder whose records all carry label `m`. */
  lemma WithLabelStep(prev: seq<Record>, cr: seq<Record>, m: nat, idx: nat)
    requires LabelledAll(cr, m)
    ensures WithLabel(prev + cr, idx) == WithLabel(prev, idx) + if m == idx then cr else []
  {
    WithLabelAppend(prev, cr, idx);
    WithLabelUniform(cr, m, idx);
  }

  /** The inner loop keeps listing order: the records of a split listing are the records of its parts, in turn. */
  lemma {:induction false} ClassRecordsAppend(folder: Path, idx: nat, a: seq<Name>, b: seq<Name>)
    ensures ClassRecords(folder, idx, a + b) == ClassRecords(folder, idx, a) + ClassRecords(folder, idx, b)
    decreases |b|
  {
    if b == [] {
      assert a + b == a;
    } else {
      assert (a + b)[..|a + b| - 1] == a + b[..|b| - 1];
      ClassRecordsAppend(folder, idx, a, b[..|b| - 1]);
    }
  }

  /** Line 17: the class names come out strictly ascending, directories and files alike. */
  lemma ClassesStrictlyAscending(fs: Tree, listing: Listing, root: Path)
    requires ListsTree(fs, listing) && IsDirIn(fs, root)
    ensures StrictlyAscending(Sort(listing[root]))
    ensures multiset(Sort(listing[root])) == multiset(listing[root])
  {
    SortDistinct(listing[root]);
  }
}
