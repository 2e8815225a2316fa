/**
 * The outcome of `CopyRandomFiles` on the usual starting point: the four
 * destination directories exist and are empty, the labels directory holds
 * regular files, and the listing names every entry of the images directory
 * once. Image `i` of the shuffled order is then in the training images
 * directory exactly when `i < k` and in the validation images directory
 * exactly when `i >= k`, so every ".jpg"/".JPG" file is in exactly one of
 * them; the two directories hold `k` and `n - k` images; the labels
 * directories hold exactly the existing labels of their split's images; and
 * nothing outside the destinations changes.
 */
module RunOutcome {
  import opened Paths
  import opened Files
  import opened SplitSpec
  import opened SplitProps
  import opened SplitRunProps

  /** No entry lies directly in any of the four destination directories. */
  ghost predicate FreshDestinations(m: Tree, layout: Layout)
  {
    forall p :: p in m ==>
      Parent(p) !in {layout.trainImages, layout.trainLabels, layout.validImages, layout.validLabels}
  }

  /** The four destination directories exist, as `makedir` leaves them. */
  predicate DestinationsExist(m: Tree, layout: Layout)
  {
    && IsDirectory(m, layout.trainImages) && IsDirectory(m, layout.trainLabels)
    && IsDirectory(m, layout.validImages) && IsDirectory(m, layout.validLabels)
  }

  /** Every entry of the labels directory is a regular file. */
  ghost predicate LabelsRegular(m: Tree, layout: Layout)
  {
    forall p :: p in m && Parent(p) == layout.sourceLabels ==> m[p].RegularFile?
  }

  /** The starting point of a run over the image sequence `jpgs`. */
  ghost predicate Setting(m: Tree, layout: Layout, jpgs: seq<Path>)
  {
    && layout.Separate()
    && DestinationsExist(m, layout)
    && FreshDestinations(m, layout)
    && LabelsRegular(m, layout)
    && FromSourceImages(layout, jpgs)
    && Distinct(jpgs)
    && (forall i :: 0 <= i < |jpgs| ==> IsRegularFile(m, jpgs[i]))
  }

  /** The entries directly in `dir`. */
  ghost function DirEntries(m: Tree, dir: Path): set<Path>
  {
    set p | p in m && Parent(p) == dir
  }

  /** Where the existing labels of `imgs` go in `split`. */
  ghost function LabelDests(m: Tree, layout: Layout, split: Split, imgs: seq<Path>): set<Path>
  {
    if imgs == [] then {}
    else
      var last := imgs[|imgs| - 1];
      LabelDests(m, layout, split, imgs[..|imgs| - 1])
        + (if LabelSource(layout, last) in m then {LabelDest(layout, split, last)} else {})
  }

  /** Where the images of `imgs` go in `split`. */
  ghost function ImageDests(layout: Layout, split: Split, imgs: seq<Path>): set<Path>
  {
    if imgs == [] then {}
    else ImageDests(layout, split, imgs[..|imgs| - 1]) + {ImageDest(layout, split, imgs[|imgs| - 1])}
  }

  /** Path `p` leaves the four destination directories alone. */
  predicate OutsideDestinations(layout: Layout, p: Path)
  {
    p == [] || Parent(p) !in {layout.trainImages, layout.trainLabels, layout.validImages, layout.validLabels}
  }

  // ---- Distinctness of the collected images ----

  lemma {:induction false} DistinctCounts<T>(t: seq<T>)
    requires Distinct(t)
    ensures forall x :: multiset(t)[x] <= 1
    decreases |t|
  {
    if t != [] {
      var pre := t[..|t| - 1];
      var last := t[|t| - 1];
      DistinctLast(t);
      DistinctCounts(pre);
      assert t == pre + [last];
    }
  }

  lemma CountsDistinct<T>(s: seq<T>)
    requires forall x :: multiset(s)[x] <= 1
    ensures Distinct(s)
  {
    forall i, j | 0 <= i < j < |s|
      ensures s[i] != s[j]
    {
      assert s[..j + 1] == s[..j] + [s[j]];
      assert s[i] in s[..j];
      assert s == s[..j + 1] + s[j + 1..];
      assert multiset(s)[s[i]] >= multiset(s[..j])[s[i]] + multiset([s[j]])[s[i]];
    }
  }

  /** A rearrangement of a sequence without repetitions has none either. */
  lemma PermutationDistinct<T>(s: seq<T>, t: seq<T>)
    requires multiset(s) == multiset(t)
    requires Distinct(t)
    ensures Distinct(s)
  {
    DistinctCounts(t);
    CountsDistinct(s);
  }

  /** A listing without repeated names yields a collected list without repeated paths. */
  lemma {:induction false} DistinctJpgFiles(m: Tree, dir: Path, listing: seq<Name>)
    requires Distinct(listing)
    ensures Distinct(JpgFiles(m, dir, listing))
    decreases |listing|
  {
    if listing != [] {
      var n := |listing|;
      var pre := listing[..n - 1];
      var name := listing[n - 1];
      assert Distinct(pre);
      DistinctJpgFiles(m, dir, pre);
      var before := JpgFiles(m, dir, pre);
      forall j | 0 <= j < |before|
        ensures before[j] != Join(dir, name)
      {
        assert FileName(before[j]) in pre;
        var t :| 0 <= t < n - 1 && pre[t] == FileName(before[j]);
        assert listing[t] != listing[n - 1];
      }
    }
  }

  /**
   * The shuffled order of a listing of the images directory is a starting
   * point: its paths are distinct regular files of the images directory.
   */
  lemma ShuffledSetting(m: Tree, layout: Layout, listing: seq<Name>, shuffled: seq<Path>)
    requires layout.Separate() && DestinationsExist(m, layout)
    requires FreshDestinations(m, layout) && LabelsRegular(m, layout)
    requires ListsDir(m, layout.sourceImages, listing)
    requires multiset(shuffled) == multiset(JpgFiles(m, layout.sourceImages, listing))
    ensures Setting(m, layout, shuffled)
    ensures |shuffled| == |JpgFiles(m, layout.sourceImages, listing)|
  {
    var jpgFiles := JpgFiles(m, layout.sourceImages, listing);
    DistinctJpgFiles(m, layout.sourceImages, listing);
    PermutationDistinct(shuffled, jpgFiles);
    forall i | 0 <= i < |shuffled|
      ensures shuffled[i] != [] && Parent(shuffled[i]) == layout.sourceImages
      ensures IsRegularFile(m, shuffled[i])
    {
      assert shuffled[i] in multiset(jpgFiles);
      assert shuffled[i] in jpgFiles;
      PathDecomposed(shuffled[i]);
    }
    assert |multiset(shuffled)| == |multiset(jpgFiles)|;
  }

  // ---- The copies can all be made ----

  /** From the starting point, every copy the run attempts into `split` can be made. */
  lemma SettingCopyable(m: Tree, layout: Layout, split: Split, jpgs: seq<Path>, imgs: seq<Path>)
    requires Setting(m, layout, jpgs)
    requires forall i :: 0 <= i < |imgs| ==> imgs[i] in jpgs
    ensures Copyable(m, layout, split, imgs)
  {
    assert layout.ImagesDir(split) in {layout.trainImages, layout.validImages};
    assert layout.LabelsDir(split) in {layout.trainLabels, layout.validLabels};
    forall i | 0 <= i < |imgs|
      ensures CopyableImage(m, layout, split, imgs[i])
    {
      var j :| 0 <= j < |jpgs| && jpgs[j] == imgs[i];
      assert IsRegularFile(m, jpgs[j]);
      assert Parent(ImageDest(layout, split, imgs[i])) == layout.ImagesDir(split);
      assert Parent(LabelDest(layout, split, imgs[i])) == layout.LabelsDir(split);
      assert Parent(LabelSource(layout, imgs[i])) == layout.sourceLabels;
    }
  }

  /** `SplitRunEffect` holds from the starting point, for any train count. */
  lemma SettingRun(m: Tree, layout: Layout, jpgs: seq<Path>, k: nat)
    requires Setting(m, layout, jpgs)
    requires k <= |jpgs|
    ensures var run := SplitRun(m, layout, jpgs, k);
      && run.error.None?
      && (forall i :: 0 <= i < |jpgs| ==>
            Lookup(run.entries, ImageDest(layout, SplitOf(i, k), jpgs[i])) == Lookup(m, jpgs[i]))
      && (forall i :: 0 <= i < |jpgs| && LabelSource(layout, jpgs[i]) in m ==>
            Lookup(run.entries, LabelDest(layout, SplitOf(i, k), jpgs[i])) == Lookup(m, LabelSource(layout, jpgs[i])))
      && (forall p :: !Written(m, layout, Train, jpgs[..k], p) && !Written(m, layout, Valid, jpgs[k..], p) ==>
            Lookup(run.entries, p) == Lookup(m, p))
  {
    assert forall i :: 0 <= i < k ==> jpgs[..k][i] == jpgs[i];
    assert forall i :: 0 <= i < |jpgs| - k ==> jpgs[k..][i] == jpgs[k + i];
    SettingCopyable(m, layout, Train, jpgs, jpgs[..k]);
    SettingCopyable(m, layout, Valid, jpgs, jpgs[k..]);
    SplitRunEffect(m, layout, jpgs, k);
  }

  // ---- Where each image and label ends up ----

  /** Two images of the source directory share a destination only when they are the same image. */
  lemma ImageDestInjective(layout: Layout, split: Split, a: Path, b: Path)
    requires a != [] && Parent(a) == layout.sourceImages
    requires b != [] && Parent(b) == layout.sourceImages
    ensures ImageDest(layout, split, a) == ImageDest(layout, split, b) <==> a == b
  {
    SameDirectory(a, b);
  }

  /** An image outside `imgs` has its destination written by none of their copies. */
  lemma OtherImageNotWritten(m: Tree, layout: Layout, split: Split, imgs: seq<Path>, img: Path)
    requires layout.Separate()
    requires FromSourceImages(layout, imgs)
    requires img != [] && Parent(img) == layout.sourceImages
    requires img !in imgs
    ensures !Written(m, layout, split, imgs, ImageDest(layout, split, img))
  {
    var d := ImageDest(layout, split, img);
    assert layout.LabelsDir(split) != layout.ImagesDir(split);
    forall j | 0 <= j < |imgs|
      ensures !WrittenBy(m, layout, split, imgs[j], d)
    {
      ImageDestInjective(layout, split, imgs[j], img);
    }
  }

  /** A label that does not exist has its destination written by none of the copies. */
  lemma MissingLabelNotWritten(m: Tree, layout: Layout, split: Split, imgs: seq<Path>, img: Path)
    requires layout.Separate()
    requires LabelSource(layout, img) !in m
    ensures !Written(m, layout, split, imgs, LabelDest(layout, split, img))
  {
    var d := LabelDest(layout, split, img);
    assert layout.LabelsDir(split) != layout.ImagesDir(split);
    forall j | 0 <= j < |imgs|
      ensures !WrittenBy(m, layout, split, imgs[j], d)
    {
      SameDirectory(LabelSource(layout, imgs[j]), LabelSource(layout, img));
    }
  }

  /** Every image of `imgs` has its destination among `ImageDests`. */
  lemma {:induction false} ImageDestsHas(layout: Layout, split: Split, imgs: seq<Path>)
    ensures forall i :: 0 <= i < |imgs| ==> ImageDest(layout, split, imgs[i]) in ImageDests(layout, split, imgs)
    decreases |imgs|
  {
    if imgs != [] {
      var pre := imgs[..|imgs| - 1];
      ImageDestsHas(layout, split, pre);
      assert forall i :: 0 <= i < |pre| ==> pre[i] == imgs[i];
    }
  }

  /** Everything in `ImageDests` is the destination of some image of `imgs`. */
  lemma {:induction false} ImageDestsOnly(layout: Layout, split: Split, imgs: seq<Path>, p: Path)
    requires p in ImageDests(layout, split, imgs)
    ensures exists i :: 0 <= i < |imgs| && p == ImageDest(layout, split, imgs[i])
    decreases |imgs|
  {
    var n := |imgs|;
    var pre := imgs[..n - 1];
    if p == ImageDest(layout, split, imgs[n - 1]) {
    } else {
      ImageDestsOnly(layout, split, pre, p);
      var i :| 0 <= i < |pre| && p == ImageDest(layout, split, pre[i]);
      assert pre[i] == imgs[i];
    }
  }

  /** An image not in `imgs` does not have its destination among theirs. */
  lemma {:induction false} ImageDestsLacks(layout: Layout, split: Split, imgs: seq<Path>, img: Path)
    requires FromSourceImages(layout, imgs)
    requires img != [] && Parent(img) == layout.sourceImages
    requires img !in imgs
    ensures ImageDest(layout, split, img) !in ImageDests(layout, split, imgs)
    decreases |imgs|
  {
    if imgs != [] {
      var n := |imgs|;
      var pre := imgs[..n - 1];
      assert forall j :: 0 <= j < |pre| ==> pre[j] == imgs[j];
      assert img != imgs[n - 1];
      ImageDestsLacks(layout, split, pre, img);
      ImageDestInjective(layout, split, imgs[n - 1], img);
    }
  }

  /** Distinct images of the source directory have distinct destinations, one per image. */
  lemma {:induction false} ImageDestsCount(layout: Layout, split: Split, imgs: seq<Path>)
    requires FromSourceImages(layout, imgs)
    requires Distinct(imgs)
    ensures |ImageDests(layout, split, imgs)| == |imgs|
    decreases |imgs|
  {
    if imgs != [] {
      var n := |imgs|;
      var pre := imgs[..n - 1];
      var x := imgs[n - 1];
      DistinctLast(imgs);
      assert FromSourceImages(layout, pre);
      ImageDestsCount(layout, split, pre);
      ImageDestsLacks(layout, split, pre, x);
    }
  }

  /**
   * The images directory of `split` after copies that placed `mine` there and
   * wrote nowhere else in it, when it started empty: exactly the destinations
   * of `mine`.
   */
  lemma ImagesDirContents(m: Tree, r: Tree, layout: Layout, split: Split, mine: seq<Path>, otherSplit: Split, other: seq<Path>)
    requires layout.Separate() && FreshDestinations(m, layout)
    requires split != otherSplit
    requires forall i :: 0 <= i < |mine| ==>
      IsRegularFile(m, mine[i]) && Lookup(r, ImageDest(layout, split, mine[i])) == Lookup(m, mine[i])
    requires forall p :: !Written(m, layout, split, mine, p) && !Written(m, layout, otherSplit, other, p) ==>
      Lookup(r, p) == Lookup(m, p)
    ensures DirEntries(r, layout.ImagesDir(split)) == ImageDests(layout, split, mine)
  {
    var dir := layout.ImagesDir(split);
    assert dir !in {layout.ImagesDir(otherSplit), layout.LabelsDir(otherSplit)};
    assert dir != layout.LabelsDir(split);
    assert dir in {layout.trainImages, layout.validImages};
    ImageDestsHas(layout, split, mine);
    forall p
      ensures p in DirEntries(r, dir) <==> p in ImageDests(layout, split, mine)
    {
      if p in DirEntries(r, dir) {
        NotWrittenOutside(m, layout, otherSplit, other, p);
        assert Written(m, layout, split, mine, p);
        var i :| 0 <= i < |mine| && WrittenBy(m, layout, split, mine[i], p);
        assert p == ImageDest(layout, split, mine[i]);
      }
      if p in ImageDests(layout, split, mine) {
        ImageDestsOnly(layout, split, mine, p);
      }
    }
  }

  /** What the run leaves in each images directory: the destinations of that split's images. */
  lemma ImagesDirAfterRun(m: Tree, layout: Layout, jpgs: seq<Path>, k: nat)
    requires Setting(m, layout, jpgs)
    requires k <= |jpgs|
    ensures DirEntries(SplitRun(m, layout, jpgs, k).entries, layout.trainImages) == ImageDests(layout, Train, jpgs[..k])
    ensures DirEntries(SplitRun(m, layout, jpgs, k).entries, layout.validImages) == ImageDests(layout, Valid, jpgs[k..])
  {
    var r := SplitRun(m, layout, jpgs, k).entries;
    SettingRun(m, layout, jpgs, k);
    var train := jpgs[..k];
    var valid := jpgs[k..];
    forall i | 0 <= i < |train|
      ensures IsRegularFile(m, train[i]) && Lookup(r, ImageDest(layout, Train, train[i])) == Lookup(m, train[i])
    {
      assert train[i] == jpgs[i] && SplitOf(i, k) == Train;
    }
    forall i | 0 <= i < |valid|
      ensures IsRegularFile(m, valid[i]) && Lookup(r, ImageDest(layout, Valid, valid[i])) == Lookup(m, valid[i])
    {
      assert valid[i] == jpgs[k + i] && SplitOf(k + i, k) == Valid;
    }
    ImagesDirContents(m, r, layout, Train, train, Valid, valid);
    ImagesDirContents(m, r, layout, Valid, valid, Train, train);
  }

  /**
   * Each image is in exactly one images directory: image `i` is in the
   * training images directory exactly when `i < k`, and in the validation
   * images directory exactly when `i >= k`.
   */
  lemma ImageInOneSplit(m: Tree, layout: Layout, jpgs: seq<Path>, k: nat)
    requires Setting(m, layout, jpgs)
    requires k <= |jpgs|
    ensures var r := SplitRun(m, layout, jpgs, k).entries;
      forall i :: 0 <= i < |jpgs| ==>
        && (ImageDest(layout, Train, jpgs[i]) in r <==> i < k)
        && (ImageDest(layout, Valid, jpgs[i]) in r <==> k <= i)
  {
    var r := SplitRun(m, layout, jpgs, k).entries;
    ImagesDirAfterRun(m, layout, jpgs, k);
    ImageDestsHas(layout, Train, jpgs[..k]);
    ImageDestsHas(layout, Valid, jpgs[k..]);
    forall i | 0 <= i < |jpgs|
      ensures ImageDest(layout, Train, jpgs[i]) in r <==> i < k
      ensures ImageDest(layout, Valid, jpgs[i]) in r <==> k <= i
    {
      var t := ImageDest(layout, Train, jpgs[i]);
      var v := ImageDest(layout, Valid, jpgs[i]);
      assert t in r <==> t in DirEntries(r, layout.trainImages);
      assert v in r <==> v in DirEntries(r, layout.validImages);
      assert FromSourceImages(layout, jpgs[..k]) && FromSourceImages(layout, jpgs[k..]);
      if i < k {
        assert jpgs[..k][i] == jpgs[i];
        DistinctOutside(jpgs, i, k, |jpgs|);
        ImageDestsLacks(layout, Valid, jpgs[k..], jpgs[i]);
      } else {
        assert jpgs[k..][i - k] == jpgs[i];
        DistinctOutside(jpgs, i, 0, k);
        assert jpgs[0..k] == jpgs[..k];
        ImageDestsLacks(layout, Train, jpgs[..k], jpgs[i]);
      }
    }
  }

  /** The training images directory ends with `k` images and the validation one with `n - k`. */
  lemma SplitSizes(m: Tree, layout: Layout, jpgs: seq<Path>, k: nat)
    requires Setting(m, layout, jpgs)
    requires k <= |jpgs|
    ensures |DirEntries(SplitRun(m, layout, jpgs, k).entries, layout.trainImages)| == k
    ensures |DirEntries(SplitRun(m, layout, jpgs, k).entries, layout.validImages)| == |jpgs| - k
  {
    ImagesDirAfterRun(m, layout, jpgs, k);
    SettingParts(m, layout, jpgs, k);
    ImageDestsCount(layout, Train, jpgs[..k]);
    ImageDestsCount(layout, Valid, jpgs[k..]);
  }

  /** Both parts of the images are distinct images of the source directory. */
  lemma SettingParts(m: Tree, layout: Layout, jpgs: seq<Path>, k: nat)
    requires Setting(m, layout, jpgs)
    requires k <= |jpgs|
    ensures FromSourceImages(layout, jpgs[..k]) && Distinct(jpgs[..k])
    ensures FromSourceImages(layout, jpgs[k..]) && Distinct(jpgs[k..])
  {
    assert forall i :: 0 <= i < k ==> jpgs[..k][i] == jpgs[i];
    assert forall i :: 0 <= i < |jpgs| - k ==> jpgs[k..][i] == jpgs[k + i];
  }

  /**
   * An image's label is in the labels directory of the image's split after
   * the run exactly when it exists in the labels directory, and then with
   * its content.
   */
  lemma LabelWithImage(m: Tree, layout: Layout, jpgs: seq<Path>, k: nat)
    requires Setting(m, layout, jpgs)
    requires k <= |jpgs|
    ensures var r := SplitRun(m, layout, jpgs, k).entries;
      forall i :: 0 <= i < |jpgs| ==>
        && (LabelDest(layout, SplitOf(i, k), jpgs[i]) in r <==> LabelSource(layout, jpgs[i]) in m)
        && (LabelSource(layout, jpgs[i]) in m ==>
              Lookup(r, LabelDest(layout, SplitOf(i, k), jpgs[i])) == Lookup(m, LabelSource(layout, jpgs[i])))
  {
    var r := SplitRun(m, layout, jpgs, k).entries;
    SettingRun(m, layout, jpgs, k);
    forall i | 0 <= i < |jpgs|
      ensures LabelDest(layout, SplitOf(i, k), jpgs[i]) in r <==> LabelSource(layout, jpgs[i]) in m
    {
      var d := LabelDest(layout, SplitOf(i, k), jpgs[i]);
      if LabelSource(layout, jpgs[i]) !in m {
        if i < k {
          MissingLabelNotWritten(m, layout, Train, jpgs[..k], jpgs[i]);
          NotWrittenOutside(m, layout, Valid, jpgs[k..], d);
        } else {
          MissingLabelNotWritten(m, layout, Valid, jpgs[k..], jpgs[i]);
          NotWrittenOutside(m, layout, Train, jpgs[..k], d);
        }
        assert Parent(d) in {layout.trainLabels, layout.validLabels};
        assert Lookup(r, d) == Lookup(m, d);
      }
    }
  }

  /** Nothing outside the four destination directories changes. */
  lemma OutsideUnchangedByRun(m: Tree, layout: Layout, jpgs: seq<Path>, k: nat)
    requires Setting(m, layout, jpgs)
    requires k <= |jpgs|
    ensures forall p :: OutsideDestinations(layout, p) ==>
      Lookup(SplitRun(m, layout, jpgs, k).entries, p) == Lookup(m, p)
  {
    SettingRun(m, layout, jpgs, k);
    forall p | OutsideDestinations(layout, p)
      ensures Lookup(SplitRun(m, layout, jpgs, k).entries, p) == Lookup(m, p)
    {
      NotWrittenOutside(m, layout, Train, jpgs[..k], p);
      NotWrittenOutside(m, layout, Valid, jpgs[k..], p);
    }
  }

  /**
   * `CopyRandomFiles` from empty destination directories, over a listing
   * without repeated names, with any shuffled order of the collected images.
   * When the images directory is not a directory, the iteration raises and
   * nothing changes. Otherwise the run succeeds, the `n` collected images are
   * split `k` to training and `n - k` to validation, with `k` the ceiling of
   * `n * percentage / 100`, and each image is in exactly one of the two
   * images directories.
   */
  lemma CopyRandomFilesOutcome(m: Tree, layout: Layout, listing: seq<Name>, shuffled: seq<Path>, percentage: int)
    requires layout.Separate() && DestinationsExist(m, layout)
    requires FreshDestinations(m, layout) && LabelsRegular(m, layout)
    requires 0 <= percentage <= 100
    requires ListsDir(m, layout.sourceImages, listing)
    requires multiset(shuffled) == multiset(JpgFiles(m, layout.sourceImages, listing))
    ensures var run := CopyRandomFilesRun(m, layout, shuffled, percentage);
      run.error.Some? <==> !IsDirectory(m, layout.sourceImages)
    ensures !IsDirectory(m, layout.sourceImages) ==>
      CopyRandomFilesRun(m, layout, shuffled, percentage) == Progress(m, Some(IterationError(layout.sourceImages)))
    ensures var n := |JpgFiles(m, layout.sourceImages, listing)|;
      var k := TrainCount(|shuffled|, percentage);
      var run := CopyRandomFilesRun(m, layout, shuffled, percentage);
      IsDirectory(m, layout.sourceImages) ==>
        && |shuffled| == n
        && |DirEntries(run.entries, layout.trainImages)| == k
        && |DirEntries(run.entries, layout.validImages)| == n - k
        && (forall i :: 0 <= i < n ==>
              && (ImageDest(layout, Train, shuffled[i]) in run.entries <==> i < k)
              && (ImageDest(layout, Valid, shuffled[i]) in run.entries <==> k <= i))
        && (forall p :: IsSourceImage(m, layout, p) ==>
              (ImageDest(layout, Train, p) in run.entries <==> ImageDest(layout, Valid, p) !in run.entries))
  {
    if IsDirectory(m, layout.sourceImages) {
      ShuffledSetting(m, layout, listing, shuffled);
      var k := TrainCount(|shuffled|, percentage);
      SettingRun(m, layout, shuffled, k);
      SplitSizes(m, layout, shuffled, k);
      ImageInOneSplit(m, layout, shuffled, k);
      EveryImageInOneSplit(m, layout, listing, shuffled, k);
    }
  }

  /** A regular file of the images directory with the extension ".jpg" or ".JPG". */
  predicate IsSourceImage(m: Tree, layout: Layout, p: Path)
  {
    p != [] && Parent(p) == layout.sourceImages && IsRegularFile(m, p) && IsJpgName(FileName(p))
  }

  /**
   * Every regular ".jpg"/".JPG" file of the images directory, not only those
   * of some chosen list, ends up in exactly one of the two images directories.
   */
  lemma EveryImageInOneSplit(m: Tree, layout: Layout, listing: seq<Name>, shuffled: seq<Path>, k: nat)
    requires Setting(m, layout, shuffled)
    requires ListsDir(m, layout.sourceImages, listing)
    requires multiset(shuffled) == multiset(JpgFiles(m, layout.sourceImages, listing))
    requires k <= |shuffled|
    ensures var r := SplitRun(m, layout, shuffled, k).entries;
      forall p :: IsSourceImage(m, layout, p) ==>
        (ImageDest(layout, Train, p) in r <==> ImageDest(layout, Valid, p) !in r)
  {
    var jpgFiles := JpgFiles(m, layout.sourceImages, listing);
    JpgFilesExact(m, layout.sourceImages, listing);
    ImageInOneSplit(m, layout, shuffled, k);
    forall p | IsSourceImage(m, layout, p)
      ensures var r := SplitRun(m, layout, shuffled, k).entries;
        ImageDest(layout, Train, p) in r <==> ImageDest(layout, Valid, p) !in r
    {
      assert p in jpgFiles;
      assert p in multiset(shuffled);
      var i :| 0 <= i < |shuffled| && shuffled[i] == p;
    }
  }

  // ---- What the labels directories hold ----

  /** Two images share a label destination exactly when they share a label. */
  lemma LabelDestInjective(layout: Layout, split: Split, a: Path, b: Path)
    ensures LabelDest(layout, split, a) == LabelDest(layout, split, b) <==> LabelSource(layout, a) == LabelSource(layout, b)
  {
    SameDirectory(LabelSource(layout, a), LabelSource(layout, b));
    SameDirectory(LabelDest(layout, split, a), LabelDest(layout, split, b));
  }

  /** Every existing label of `imgs` has its destination among `LabelDests`. */
  lemma {:induction false} LabelDestsHas(m: Tree, layout: Layout, split: Split, imgs: seq<Path>)
    ensures forall i :: 0 <= i < |imgs| && LabelSource(layout, imgs[i]) in m ==>
      LabelDest(layout, split, imgs[i]) in LabelDests(m, layout, split, imgs)
    decreases |imgs|
  {
    if imgs != [] {
      var pre := imgs[..|imgs| - 1];
      LabelDestsHas(m, layout, split, pre);
      assert forall i :: 0 <= i < |pre| ==> pre[i] == imgs[i];
    }
  }

  /** Everything in `LabelDests` is the destination of an existing label of `imgs`. */
  lemma {:induction false} LabelDestsOnly(m: Tree, layout: Layout, split: Split, imgs: seq<Path>, p: Path)
    requires p in LabelDests(m, layout, split, imgs)
    ensures exists i :: 0 <= i < |imgs| && LabelSource(layout, imgs[i]) in m && p == LabelDest(layout, split, imgs[i])
    decreases |imgs|
  {
    var n := |imgs|;
    var pre := imgs[..n - 1];
    if LabelSource(layout, imgs[n - 1]) in m && p == LabelDest(layout, split, imgs[n - 1]) {
    } else {
      LabelDestsOnly(m, layout, split, pre, p);
      var i :| 0 <= i < |pre| && LabelSource(layout, pre[i]) in m && p == LabelDest(layout, split, pre[i]);
      assert pre[i] == imgs[i];
    }
  }

  /** A label destination that no existing label of `imgs` is copied to is not among theirs. */
  lemma {:induction false} LabelDestsLacks(m: Tree, layout: Layout, split: Split, imgs: seq<Path>, d: Path)
    requires forall j :: 0 <= j < |imgs| && LabelSource(layout, imgs[j]) in m ==> LabelDest(layout, split, imgs[j]) != d
    ensures d !in LabelDests(m, layout, split, imgs)
    decreases |imgs|
  {
    if imgs != [] {
      var pre := imgs[..|imgs| - 1];
      assert forall j :: 0 <= j < |pre| ==> pre[j] == imgs[j];
      LabelDestsLacks(m, layout, split, pre, d);
    }
  }

  /**
   * The labels directory of `split` after copies that placed the existing
   * labels of `mine` there and wrote nowhere else in it, when it started
   * empty: exactly the destinations of those labels.
   */
  lemma LabelsDirContents(m: Tree, r: Tree, layout: Layout, split: Split, mine: seq<Path>, otherSplit: Split, other: seq<Path>)
    requires layout.Separate() && FreshDestinations(m, layout)
    requires split != otherSplit
    requires forall i :: 0 <= i < |mine| && LabelSource(layout, mine[i]) in m ==>
      Lookup(r, LabelDest(layout, split, mine[i])) == Lookup(m, LabelSource(layout, mine[i]))
    requires forall p :: !Written(m, layout, split, mine, p) && !Written(m, layout, otherSplit, other, p) ==>
      Lookup(r, p) == Lookup(m, p)
    ensures DirEntries(r, layout.LabelsDir(split)) == LabelDests(m, layout, split, mine)
  {
    var dir := layout.LabelsDir(split);
    assert dir !in {layout.ImagesDir(otherSplit), layout.LabelsDir(otherSplit)};
    assert dir != layout.ImagesDir(split);
    assert dir in {layout.trainLabels, layout.validLabels};
    LabelDestsHas(m, layout, split, mine);
    forall p
      ensures p in DirEntries(r, dir) <==> p in LabelDests(m, layout, split, mine)
    {
      if p in DirEntries(r, dir) {
        NotWrittenOutside(m, layout, otherSplit, other, p);
        assert Written(m, layout, split, mine, p);
        var i :| 0 <= i < |mine| && WrittenBy(m, layout, split, mine[i], p);
        assert p != ImageDest(layout, split, mine[i]);
      }
      if p in LabelDests(m, layout, split, mine) {
        LabelDestsOnly(m, layout, split, mine, p);
      }
    }
  }

  /** What the run leaves in each labels directory: the existing labels of that split's images. */
  lemma LabelsDirAfterRun(m: Tree, layout: Layout, jpgs: seq<Path>, k: nat)
    requires Setting(m, layout, jpgs)
    requires k <= |jpgs|
    ensures DirEntries(SplitRun(m, layout, jpgs, k).entries, layout.trainLabels) == LabelDests(m, layout, Train, jpgs[..k])
    ensures DirEntries(SplitRun(m, layout, jpgs, k).entries, layout.validLabels) == LabelDests(m, layout, Valid, jpgs[k..])
  {
    var r := SplitRun(m, layout, jpgs, k).entries;
    SettingRun(m, layout, jpgs, k);
    var train := jpgs[..k];
    var valid := jpgs[k..];
    forall i | 0 <= i < |train| && LabelSource(layout, train[i]) in m
      ensures Lookup(r, LabelDest(layout, Train, train[i])) == Lookup(m, LabelSource(layout, train[i]))
    {
      assert train[i] == jpgs[i] && SplitOf(i, k) == Train;
    }
    forall i | 0 <= i < |valid| && LabelSource(layout, valid[i]) in m
      ensures Lookup(r, LabelDest(layout, Valid, valid[i])) == Lookup(m, LabelSource(layout, valid[i]))
    {
      assert valid[i] == jpgs[k + i] && SplitOf(k + i, k) == Valid;
    }
    LabelsDirContents(m, r, layout, Train, train, Valid, valid);
    LabelsDirContents(m, r, layout, Valid, valid, Train, train);
  }

  /** No image on the other side of the split shares image `i`'s label. */
  ghost predicate OwnLabel(layout: Layout, jpgs: seq<Path>, k: nat, i: nat)
    requires i < |jpgs|
  {
    forall j :: 0 <= j < |jpgs| && SplitOf(j, k) != SplitOf(i, k) ==>
      LabelSource(layout, jpgs[j]) != LabelSource(layout, jpgs[i])
  }

  /**
   * The label of an image that shares it with no image of the other split is
   * in the training labels directory exactly when the image is in training
   * and the label exists, and likewise for validation.
   */
  lemma LabelInOneSplit(m: Tree, layout: Layout, jpgs: seq<Path>, k: nat)
    requires Setting(m, layout, jpgs)
    requires k <= |jpgs|
    ensures var r := SplitRun(m, layout, jpgs, k).entries;
      forall i :: 0 <= i < |jpgs| && OwnLabel(layout, jpgs, k, i) ==>
        && (LabelDest(layout, Train, jpgs[i]) in r <==> i < k && LabelSource(layout, jpgs[i]) in m)
        && (LabelDest(layout, Valid, jpgs[i]) in r <==> k <= i && LabelSource(layout, jpgs[i]) in m)
  {
    var r := SplitRun(m, layout, jpgs, k).entries;
    LabelsDirAfterRun(m, layout, jpgs, k);
    forall i | 0 <= i < |jpgs| && OwnLabel(layout, jpgs, k, i)
      ensures LabelDest(layout, Train, jpgs[i]) in r <==> i < k && LabelSource(layout, jpgs[i]) in m
      ensures LabelDest(layout, Valid, jpgs[i]) in r <==> k <= i && LabelSource(layout, jpgs[i]) in m
    {
      OneLabelPlaced(m, r, layout, jpgs, k, i);
    }
  }

  /** `LabelInOneSplit` for one image, from what the two labels directories hold. */
  lemma OneLabelPlaced(m: Tree, r: Tree, layout: Layout, jpgs: seq<Path>, k: nat, i: nat)
    requires k <= |jpgs| && i < |jpgs| && OwnLabel(layout, jpgs, k, i)
    requires DirEntries(r, layout.trainLabels) == LabelDests(m, layout, Train, jpgs[..k])
    requires DirEntries(r, layout.validLabels) == LabelDests(m, layout, Valid, jpgs[k..])
    ensures LabelDest(layout, Train, jpgs[i]) in r <==> i < k && LabelSource(layout, jpgs[i]) in m
    ensures LabelDest(layout, Valid, jpgs[i]) in r <==> k <= i && LabelSource(layout, jpgs[i]) in m
  {
    var t := LabelDest(layout, Train, jpgs[i]);
    var v := LabelDest(layout, Valid, jpgs[i]);
    var src := LabelSource(layout, jpgs[i]);
    assert t in r <==> t in DirEntries(r, layout.trainLabels);
    assert v in r <==> v in DirEntries(r, layout.validLabels);
    var train := jpgs[..k];
    var valid := jpgs[k..];
    LabelDestsHas(m, layout, Train, train);
    LabelDestsHas(m, layout, Valid, valid);
    if i < k && src in m {
      assert train[i] == jpgs[i];
    } else {
      forall j | 0 <= j < |train| && LabelSource(layout, train[j]) in m
        ensures LabelDest(layout, Train, train[j]) != t
      {
        assert train[j] == jpgs[j] && SplitOf(j, k) == Train;
        LabelDestInjective(layout, Train, train[j], jpgs[i]);
      }
      LabelDestsLacks(m, layout, Train, train, t);
    }
    if k <= i && src in m {
      assert valid[i - k] == jpgs[i];
    } else {
      forall j | 0 <= j < |valid| && LabelSource(layout, valid[j]) in m
        ensures LabelDest(layout, Valid, valid[j]) != v
      {
        assert valid[j] == jpgs[k + j] && SplitOf(k + j, k) == Valid;
        LabelDestInjective(layout, Valid, valid[j], jpgs[i]);
      }
      LabelDestsLacks(m, layout, Valid, valid, v);
    }
  }
}
