/**
 * `CopyRandomFiles` as the imperative procedure it is: an enumeration loop that
 * pushes the kept paths onto `jpgFiles`, a first loop that copies the first
 * `filesToCopy` slots into the training directories and clears each slot it
 * copied, and a second loop that copies every slot still non-empty into the
 * validation directories. Each method is proved against the functions of
 * `SplitSpec`.
 */
module Divfiles {
  import opened Paths
  import opened Files
  import opened SplitSpec

  /**
   * The enumeration loop: of the entries listed in `sourceImages` (their
   * filenames, in iteration order), keep the regular files whose extension is
   * ".JPG" or ".jpg".
   */
  method ListJpgFiles(fs: FileSystem, sourceImages: Path, listing: seq<Name>) returns (jpgFiles: seq<Path>)
    ensures jpgFiles == JpgFiles(fs.entries, sourceImages, listing)
  {
    jpgFiles := [];
    var i := 0;
    while i < |listing|
      invariant 0 <= i <= |listing|
      invariant jpgFiles == JpgFiles(fs.entries, sourceImages, listing[..i])
    {
      var path := Join(sourceImages, listing[i]);
      assert listing[..i + 1][..i] == listing[..i];
      if fs.IsRegular(path) && (Extension(FileName(path)) == ".JPG" || Extension(FileName(path)) == ".jpg") {
        jpgFiles := jpgFiles + [path];
      }
      i := i + 1;
    }
    assert listing[..i] == listing;
  }

  /**
   * The body shared by both loops: copy `img` into the split's images
   * directory, then its same-stem ".txt" label, if that exists, into the
   * split's labels directory. A copy that fails raises its error here.
   */
  method CopyImageAndLabel(fs: FileSystem, layout: Layout, split: Split, img: Path) returns (err: Option<FsError>)
    modifies fs
    ensures Progress(fs.entries, err) == CopyWithLabel(old(fs.entries), layout, split, img)
  {
    var destImagePath := Join(layout.ImagesDir(split), FileName(img));
    err := fs.Copy(img, destImagePath);
    if err.Some? {
      return;
    }
    var sourceLabelPath := Join(layout.sourceLabels, LabelName(FileName(img)));
    var destLabelPath := Join(layout.LabelsDir(split), FileName(sourceLabelPath));
    if fs.Exists(sourceLabelPath) {
      err := fs.Copy(sourceLabelPath, destLabelPath);
    }
  }

  /** One more image copied after a run of copies that all succeeded. */
  lemma CopyAllSnoc(m: Tree, layout: Layout, split: Split, imgs: seq<Path>, i: nat, done: Tree)
    requires i < |imgs|
    requires CopyAll(m, layout, split, imgs[..i]) == Progress(done, None)
    ensures CopyAll(m, layout, split, imgs[..i + 1]) == CopyWithLabel(done, layout, split, imgs[i])
  {
    assert imgs[..i + 1][..i] == imgs[..i];
  }

  /** Once a run of copies has failed, the copies after it are never made. */
  lemma {:induction false} ErrorSticks(m: Tree, layout: Layout, split: Split, imgs: seq<Path>, i: nat)
    requires i <= |imgs|
    requires CopyAll(m, layout, split, imgs[..i]).error.Some?
    ensures CopyAll(m, layout, split, imgs) == CopyAll(m, layout, split, imgs[..i])
    decreases |imgs| - i
  {
    if i == |imgs| {
      assert imgs[..i] == imgs;
    } else {
      var prefix := imgs[..|imgs| - 1];
      assert prefix[..i] == imgs[..i];
      ErrorSticks(m, layout, split, prefix, i);
    }
  }

  /** One slot of the second loop: a non-empty slot is copied, an empty one is skipped. */
  lemma SkipStep(m: Tree, layout: Layout, slots: seq<Path>, j: nat)
    requires j < |slots|
    requires CopyAll(m, layout, Valid, NonEmpty(slots[..j])).error.None?
    ensures slots[j] == [] ==>
      CopyAll(m, layout, Valid, NonEmpty(slots[..j + 1])) == CopyAll(m, layout, Valid, NonEmpty(slots[..j]))
    ensures slots[j] != [] ==>
      CopyAll(m, layout, Valid, NonEmpty(slots[..j + 1]))
      == CopyWithLabel(CopyAll(m, layout, Valid, NonEmpty(slots[..j])).entries, layout, Valid, slots[j])
  {
    NonEmptyStep(slots, j);
    var done := NonEmpty(slots[..j]);
    if slots[j] != [] {
      assert (done + [slots[j]])[..|done|] == done;
    } else {
      assert done + [] == done;
    }
  }

  /** A copy that fails in the second loop ends the whole loop with that failure. */
  lemma SkipStepFails(m: Tree, layout: Layout, slots: seq<Path>, j: nat)
    requires j < |slots| && slots[j] != []
    requires CopyAll(m, layout, Valid, NonEmpty(slots[..j])).error.None?
    requires CopyAll(m, layout, Valid, NonEmpty(slots[..j + 1])).error.Some?
    ensures CopyAll(m, layout, Valid, NonEmpty(slots)) == CopyAll(m, layout, Valid, NonEmpty(slots[..j + 1]))
  {
    var valid := NonEmpty(slots);
    var pre := NonEmpty(slots[..j + 1]);
    NonEmptyPrefix(slots, j + 1);
    assert valid[..|pre|] == pre;
    ErrorSticks(m, layout, Valid, valid, |pre|);
  }

  /**
   * The first loop of `CopyRandomFiles`: copy slot `i` with its label into the
   * training directories, then clear the slot, for `i` in `0..filesToCopy-1`.
   * When every copy succeeds, those slots are left empty and the others as
   * they were.
   */
  method CopyTrainSlots(fs: FileSystem, layout: Layout, jpgFiles: array<Path>, filesToCopy: nat)
    returns (err: Option<FsError>)
    requires filesToCopy <= jpgFiles.Length
    modifies fs, jpgFiles
    ensures Progress(fs.entries, err) == CopyAll(old(fs.entries), layout, Train, old(jpgFiles[..])[..filesToCopy])
    ensures err.None? ==> ClearedBelow(jpgFiles[..], old(jpgFiles[..]), filesToCopy)
  {
    ghost var slots := jpgFiles[..];
    ghost var train := slots[..filesToCopy];
    ghost var start := fs.entries;
    err := None;
    var i := 0;
    while i < filesToCopy
      invariant 0 <= i <= filesToCopy
      invariant ClearedBelow(jpgFiles[..], slots, i)
      invariant err == None
      invariant CopyAll(start, layout, Train, train[..i]) == Progress(fs.entries, err)
      modifies fs, jpgFiles
    {
      CopyAllSnoc(start, layout, Train, train, i, fs.entries);
      ghost var current := jpgFiles[..];
      assert jpgFiles[i] == current[i] == train[i];
      err := CopyImageAndLabel(fs, layout, Train, jpgFiles[i]);
      if err.Some? {
        ErrorSticks(start, layout, Train, train, i + 1);
        return;
      }
      assert jpgFiles[..] == current;
      ClearStep(current, slots, i);
      jpgFiles[i] := [];
      i := i + 1;
    }
    assert train[..i] == train;
  }

  /**
   * The second loop of `CopyRandomFiles`: copy every non-empty slot, in order, with
   * its label into the validation directories; empty slots are skipped.
   */
  method CopyValidSlots(fs: FileSystem, layout: Layout, jpgFiles: array<Path>)
    returns (err: Option<FsError>)
    modifies fs
    ensures Progress(fs.entries, err) == CopyAll(old(fs.entries), layout, Valid, NonEmpty(jpgFiles[..]))
  {
    ghost var slots := jpgFiles[..];
    ghost var start := fs.entries;
    err := None;
    var j := 0;
    while j < jpgFiles.Length
      invariant 0 <= j <= jpgFiles.Length
      invariant CopyAll(start, layout, Valid, NonEmpty(slots[..j])) == Progress(fs.entries, err)
      invariant err == None
    {
      var path := jpgFiles[j];
      SkipStep(start, layout, slots, j);
      if path != [] {
        err := CopyImageAndLabel(fs, layout, Valid, path);
        if err.Some? {
          SkipStepFails(start, layout, slots, j);
          return;
        }
      }
      j := j + 1;
    }
    assert slots[..j] == slots;
  }

  /**
   * The train count, then the two loops over one array of slots. Because no
   * collected path is empty, the slots the second loop finds non-empty are
   * exactly `k..n-1`, so the run is `SplitRun`.
   */
  method SplitAndCopy(fs: FileSystem, layout: Layout, shuffled: seq<Path>, percentage: int)
    returns (err: Option<FsError>)
    requires 0 <= percentage <= 100
    requires forall i :: 0 <= i < |shuffled| ==> shuffled[i] != []
    modifies fs
    ensures Progress(fs.entries, err) == SplitRun(old(fs.entries), layout, shuffled, TrainCount(|shuffled|, percentage))
  {
    var n := |shuffled|;
    var jpgFiles := new Path[n](j requires 0 <= j < n => shuffled[j]);
    var filesToCopy := TrainCount(n, percentage);
    ghost var start := fs.entries;
    assert jpgFiles[..] == shuffled;
    err := CopyTrainSlots(fs, layout, jpgFiles, filesToCopy);
    ghost var train := CopyAll(start, layout, Train, shuffled[..filesToCopy]);
    assert Progress(fs.entries, err) == train;
    if err.Some? {
      return;
    }
    ClearedThenSkipped(jpgFiles[..], shuffled, filesToCopy);
    assert NonEmpty(jpgFiles[..]) == shuffled[filesToCopy..];
    err := CopyValidSlots(fs, layout, jpgFiles);
  }

  /**
   * `CopyRandomFiles`: open the directory iterator on the images directory,
   * which raises when that path is not a directory; collect the images from
   * `listing`, the filenames the iteration yields (every entry once, in an
   * unspecified order); take them in the shuffled order (the shuffle draws
   * from a random device, so the order arrives as a permutation of the
   * collected list); then split and copy.
   */
  method CopyRandomFiles(fs: FileSystem, layout: Layout, listing: seq<Name>, shuffled: seq<Path>, percentage: int)
    returns (err: Option<FsError>)
    requires 0 <= percentage <= 100
    requires ListsDir(fs.entries, layout.sourceImages, listing)
    requires multiset(shuffled) == multiset(JpgFiles(fs.entries, layout.sourceImages, listing))
    modifies fs
    ensures !IsDirectory(old(fs.entries), layout.sourceImages) ==>
      err == Some(IterationError(layout.sourceImages)) && fs.entries == old(fs.entries)
    ensures Progress(fs.entries, err) == CopyRandomFilesRun(old(fs.entries), layout, shuffled, percentage)
  {
    if !IsDirectory(fs.entries, layout.sourceImages) {
      return Some(IterationError(layout.sourceImages));
    }
    var jpgFiles := ListJpgFiles(fs, layout.sourceImages, listing);
    // std::shuffle: the shuffled order is `shuffled`, a rearrangement of `jpgFiles`.
    forall i | 0 <= i < |shuffled|
      ensures shuffled[i] != []
    {
      assert shuffled[i] in multiset(jpgFiles);
      assert shuffled[i] in jpgFiles;
    }
    jpgFiles := shuffled;
    err := SplitAndCopy(fs, layout, jpgFiles, percentage);
  }
}
