/**
 * What one run of the splitter does, as functions: which directory entries it
 * collects, how many go to training, and the sequence of paired copies
 * (image, then its label if present) it performs, stopping at the first copy
 * that fails and keeping the copies made before it.
 */
module SplitSpec {
  import opened Paths
  import opened Files

  /**
   * `filesToCopy`: the number of images that go to training, the ceiling of
   * `n * percentage / 100`. It is an index bound of the first loop, so it
   * stays within `0..n` for every percentage in `0..100`.
   */
  function TrainCount(n: nat, percentage: int): (k: nat)
    requires 0 <= percentage <= 100
    ensures k <= n
    ensures 100 * k >= n * percentage
    ensures 100 * (k - 1) < n * percentage
  {
    (n * percentage + 99) / 100
  }

  /** Any number meeting the two ceiling inequalities is the train count. */
  lemma TrainCountIsCeiling(n: nat, percentage: int, k: int)
    requires 0 <= percentage <= 100
    requires 100 * k >= n * percentage && 100 * (k - 1) < n * percentage
    ensures k == TrainCount(n, percentage)
  {
  }

  /** With at least one image and a percentage of at least 1, training gets at least one image. */
  lemma TrainCountPositive(n: nat, percentage: int)
    requires 1 <= percentage <= 100 && n >= 1
    ensures TrainCount(n, percentage) >= 1
  {
    assert n * percentage >= 1 by {
      assert n * percentage >= n * 1;
    }
  }

  datatype Split = Train | Valid

  /** The two source directories and the four destination directories of a run. */
  datatype Layout = Layout(
    sourceImages: Path, sourceLabels: Path,
    trainImages: Path, trainLabels: Path,
    validImages: Path, validLabels: Path)
  {
    function ImagesDir(split: Split): Path
    {
      match split
      case Train => trainImages
      case Valid => validImages
    }

    function LabelsDir(split: Split): Path
    {
      match split
      case Train => trainLabels
      case Valid => validLabels
    }

    /** The six directories are pairwise distinct. */
    predicate Separate()
    {
      && sourceImages != sourceLabels
      && trainImages !in {sourceImages, sourceLabels}
      && trainLabels !in {sourceImages, sourceLabels, trainImages}
      && validImages !in {sourceImages, sourceLabels, trainImages, trainLabels}
      && validLabels !in {sourceImages, sourceLabels, trainImages, trainLabels, validImages}
    }
  }

  /** `destImagePath`: the image's filename in the split's images directory. */
  function ImageDest(layout: Layout, split: Split, img: Path): (d: Path)
    ensures d != [] && Parent(d) == layout.ImagesDir(split) && FileName(d) == FileName(img)
  {
    Join(layout.ImagesDir(split), FileName(img))
  }

  /** `sourceLabelPath`: the image's stem followed by ".txt", in the labels directory. */
  function LabelSource(layout: Layout, img: Path): (l: Path)
    ensures l != [] && Parent(l) == layout.sourceLabels && FileName(l) == LabelName(FileName(img))
  {
    Join(layout.sourceLabels, LabelName(FileName(img)))
  }

  /** `destLabelPath`: the label's filename, which is the label name, in the split's labels directory. */
  function LabelDest(layout: Layout, split: Split, img: Path): (d: Path)
    ensures d != [] && Parent(d) == layout.LabelsDir(split) && FileName(d) == LabelName(FileName(img))
  {
    Join(layout.LabelsDir(split), FileName(LabelSource(layout, img)))
  }

  /** An entry of the images directory that the filter keeps. */
  predicate Collected(m: Tree, dir: Path, name: Name)
  {
    IsRegularFile(m, Join(dir, name)) && IsJpgName(name)
  }

  /**
   * `jpgFiles` after the enumeration loop: the paths `dir / name`, in listing
   * order, of the listed names that are regular files with the extension
   * ".jpg" or ".JPG". Every collected path is non-empty.
   */
  function JpgFiles(m: Tree, dir: Path, listing: seq<Name>): (r: seq<Path>)
    ensures |r| <= |listing|
    ensures forall p :: p in r ==>
      p != [] && Parent(p) == dir && FileName(p) in listing && Collected(m, dir, FileName(p))
    ensures forall name :: name in listing && Collected(m, dir, name) ==> Join(dir, name) in r
  {
    if listing == [] then []
    else
      var name := listing[|listing| - 1];
      var before := JpgFiles(m, dir, listing[..|listing| - 1]);
      assert forall x :: x in listing ==> x in listing[..|listing| - 1] || x == name;
      if Collected(m, dir, name) then before + [Join(dir, name)] else before
  }

  /** No two elements are equal. */
  ghost predicate Distinct<T>(s: seq<T>)
  {
    forall i, j :: 0 <= i < j < |s| ==> s[i] != s[j]
  }

  /**
   * `listing` is what iterating `dir` yields: the filename of every entry
   * directly in `dir`, each exactly once, in some order.
   */
  ghost predicate ListsDir(m: Tree, dir: Path, listing: seq<Name>)
  {
    && Distinct(listing)
    && forall name :: Join(dir, name) in m <==> name in listing
  }

  /**
   * Over a listing of the whole directory, the filter keeps exactly the
   * regular files of `dir` whose extension is ".jpg" or ".JPG".
   */
  lemma JpgFilesExact(m: Tree, dir: Path, listing: seq<Name>)
    requires ListsDir(m, dir, listing)
    ensures forall p :: p in JpgFiles(m, dir, listing) <==>
      p != [] && Parent(p) == dir && IsRegularFile(m, p) && IsJpgName(FileName(p))
  {
    var r := JpgFiles(m, dir, listing);
    forall p | p in r
      ensures IsRegularFile(m, p)
    {
      PathDecomposed(p);
    }
    forall p | p != [] && Parent(p) == dir && IsRegularFile(m, p) && IsJpgName(FileName(p))
      ensures p in r
    {
      PathDecomposed(p);
      assert FileName(p) in listing;
    }
  }

  /** Progress of a run: the filesystem so far and the error that stopped it, if any. */
  datatype Progress = Progress(entries: Tree, error: Option<FsError>)

  /**
   * One image and its label into `split`: copy the image; then, if its label
   * exists, copy the label. A failing copy stops the step with what was
   * already copied left in place, and its error names that copy's paths.
   */
  function CopyWithLabel(m: Tree, layout: Layout, split: Split, img: Path): (r: Progress)
    ensures r.error.Some? ==>
      || r.error.value == CopyError(img, ImageDest(layout, split, img))
      || r.error.value == CopyError(LabelSource(layout, img), LabelDest(layout, split, img))
    ensures r.error == Some(CopyError(img, ImageDest(layout, split, img))) && img != LabelSource(layout, img) ==>
      r.entries == m
  {
    match ApplyCopy(m, img, ImageDest(layout, split, img))
    case Err(e) => Progress(m, Some(e))
    case Ok(m1) =>
      if LabelSource(layout, img) !in m1 then Progress(m1, None)
      else
        match ApplyCopy(m1, LabelSource(layout, img), LabelDest(layout, split, img))
        case Err(e) => Progress(m1, Some(e))
        case Ok(m2) => Progress(m2, None)
  }

  /** `e` is the error of the copy of `img`, or of its label, into `split`. */
  predicate FailedCopyOf(layout: Layout, split: Split, img: Path, e: FsError)
  {
    || e == CopyError(img, ImageDest(layout, split, img))
    || e == CopyError(LabelSource(layout, img), LabelDest(layout, split, img))
  }

  /**
   * The images of `imgs`, in order, each with its label, into `split`, up to
   * the first failure, which is always a copy error (`CopyAllFailure` says
   * whose).
   */
  function CopyAll(m: Tree, layout: Layout, split: Split, imgs: seq<Path>): (r: Progress)
    ensures r.error.Some? ==> r.error.value.CopyError?
  {
    if imgs == [] then Progress(m, None)
    else
      var before := CopyAll(m, layout, split, imgs[..|imgs| - 1]);
      if before.error.Some? then before
      else CopyWithLabel(before.entries, layout, split, imgs[|imgs| - 1])
  }

  /** A loop that fails reports the failed copy of one of its images or of that image's label. */
  lemma {:induction false} CopyAllFailure(m: Tree, layout: Layout, split: Split, imgs: seq<Path>)
    ensures var r := CopyAll(m, layout, split, imgs);
      r.error.Some? ==> exists i :: 0 <= i < |imgs| && FailedCopyOf(layout, split, imgs[i], r.error.value)
  {
    if imgs != [] {
      var init := imgs[..|imgs| - 1];
      CopyAllFailure(m, layout, split, init);
      var before := CopyAll(m, layout, split, init);
      if before.error.Some? {
        var i :| 0 <= i < |init| && FailedCopyOf(layout, split, init[i], before.error.value);
        assert imgs[i] == init[i];
      } else {
        var r := CopyAll(m, layout, split, imgs);
        if r.error.Some? {
          assert FailedCopyOf(layout, split, imgs[|imgs| - 1], r.error.value);
        }
      }
    }
  }

  /** A run that has not failed before its last image ends with that image's copies. */
  lemma CopyAllLast(m: Tree, layout: Layout, split: Split, imgs: seq<Path>)
    requires imgs != []
    requires CopyAll(m, layout, split, imgs[..|imgs| - 1]).error.None?
    ensures CopyAll(m, layout, split, imgs)
         == CopyWithLabel(CopyAll(m, layout, split, imgs[..|imgs| - 1]).entries, layout, split, imgs[|imgs| - 1])
  {
  }

  /** The two loops: positions `0..k-1` to training, then positions `k..` to validation. */
  function SplitRun(m: Tree, layout: Layout, jpgs: seq<Path>, k: nat): Progress
    requires k <= |jpgs|
  {
    var train := CopyAll(m, layout, Train, jpgs[..k]);
    if train.error.Some? then train
    else CopyAll(train.entries, layout, Valid, jpgs[k..])
  }

  /**
   * `CopyRandomFiles` on a given shuffled order: the directory iterator over
   * the images directory raises before any copy when that path is not a
   * directory; otherwise the two loops run with the ceiling count.
   */
  function CopyRandomFilesRun(m: Tree, layout: Layout, shuffled: seq<Path>, percentage: int): (r: Progress)
    requires 0 <= percentage <= 100
    ensures r.error == Some(IterationError(layout.sourceImages)) <==> !IsDirectory(m, layout.sourceImages)
    ensures !IsDirectory(m, layout.sourceImages) ==> r.entries == m
    ensures r.error.Some? && IsDirectory(m, layout.sourceImages) ==> r.error.value.CopyError?
  {
    if !IsDirectory(m, layout.sourceImages) then Progress(m, Some(IterationError(layout.sourceImages)))
    else SplitRun(m, layout, shuffled, TrainCount(|shuffled|, percentage))
  }

  /** The non-empty slots, in order: the paths the second loop copies. */
  function NonEmpty(slots: seq<Path>): seq<Path>
  {
    if slots == [] then []
    else
      var last := slots[|slots| - 1];
      NonEmpty(slots[..|slots| - 1]) + (if last != [] then [last] else [])
  }

  /** `slots` is `jpgs` with the first `k` slots cleared and the others as they were. */
  predicate ClearedBelow(slots: seq<Path>, jpgs: seq<Path>, k: nat)
  {
    && |slots| == |jpgs|
    && forall j :: 0 <= j < |slots| ==> slots[j] == if j < k then [] else jpgs[j]
  }

  /** Clearing slot `i` of a sequence cleared below `i` leaves it cleared below `i + 1`. */
  lemma ClearStep(slots: seq<Path>, jpgs: seq<Path>, i: nat)
    requires i < |slots| && ClearedBelow(slots, jpgs, i)
    ensures ClearedBelow(slots[i := []], jpgs, i + 1)
  {
  }

  lemma {:induction false} NonEmptyAppend(a: seq<Path>, b: seq<Path>)
    ensures NonEmpty(a + b) == NonEmpty(a) + NonEmpty(b)
    decreases |b|
  {
    if b == [] {
      assert a + b == a;
    } else {
      var b' := b[..|b| - 1];
      assert (a + b)[..|a + b| - 1] == a + b';
      NonEmptyAppend(a, b');
    }
  }

  /**
   * The clear-then-skip partition: when no path is empty, clearing the first
   * `k` slots and then keeping the non-empty ones leaves exactly the paths at
   * positions `k..`, in order.
   */
  lemma {:induction false} ClearedThenSkipped(slots: seq<Path>, jpgs: seq<Path>, k: nat)
    requires k <= |jpgs|
    requires forall i :: 0 <= i < |jpgs| ==> jpgs[i] != []
    requires ClearedBelow(slots, jpgs, k)
    ensures NonEmpty(slots) == jpgs[k..]
    decreases |jpgs|
  {
    if |jpgs| == k {
      ClearedAllEmpty(slots);
    } else {
      var n := |jpgs|;
      var pre := jpgs[..n - 1];
      var front := slots[..n - 1];
      assert ClearedBelow(front, pre, k) by {
        forall j | 0 <= j < n - 1
          ensures front[j] == if j < k then [] else pre[j]
        {
          assert front[j] == slots[j];
        }
      }
      ClearedThenSkipped(front, pre, k);
      assert slots[n - 1] == jpgs[n - 1] != [];
      assert NonEmpty(slots) == NonEmpty(front) + [slots[n - 1]];
      assert jpgs[k..] == pre[k..] + [jpgs[n - 1]];
    }
  }

  /** A sequence of empty slots has no non-empty slot. */
  lemma {:induction false} ClearedAllEmpty(slots: seq<Path>)
    requires forall i :: 0 <= i < |slots| ==> slots[i] == []
    ensures NonEmpty(slots) == []
    decreases |slots|
  {
    if slots != [] {
      ClearedAllEmpty(slots[..|slots| - 1]);
    }
  }

  /** Slot `j` adds itself to the non-empty slots before it exactly when it is non-empty. */
  lemma NonEmptyStep(slots: seq<Path>, j: nat)
    requires j < |slots|
    ensures NonEmpty(slots[..j + 1])
         == NonEmpty(slots[..j]) + (if slots[j] != [] then [slots[j]] else [])
  {
    assert slots[..j + 1][..j] == slots[..j];
  }

  /** The non-empty slots of a prefix are a prefix of the non-empty slots. */
  lemma NonEmptyPrefix(slots: seq<Path>, j: nat)
    requires j <= |slots|
    ensures var pre := NonEmpty(slots[..j]);
      |pre| <= |NonEmpty(slots)| && NonEmpty(slots)[..|pre|] == pre
  {
    assert slots == slots[..j] + slots[j..];
    NonEmptyAppend(slots[..j], slots[j..]);
  }
}
