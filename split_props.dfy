/**
 * What a run guarantees when its directories are separate and every copy it
 * attempts can succeed: every image lands, with its content, in the images
 * directory of exactly one split; its label, when it exists, lands in the
 * labels directory of the same split; and nothing else changes.
 */
module SplitProps {
  import opened Paths
  import opened Files
  import opened SplitSpec

  /** Every path is an entry of the source images directory. */
  ghost predicate FromSourceImages(layout: Layout, imgs: seq<Path>)
  {
    forall i :: 0 <= i < |imgs| ==> imgs[i] != [] && Parent(imgs[i]) == layout.sourceImages
  }

  /** Dropping the last element keeps a sequence without repetitions, and the last is not in the rest. */
  lemma DistinctLast<T>(s: seq<T>)
    requires s != [] && Distinct(s)
    ensures Distinct(s[..|s| - 1]) && s[|s| - 1] !in s[..|s| - 1]
  {
    var pre := s[..|s| - 1];
    forall j | 0 <= j < |pre|
      ensures pre[j] != s[|s| - 1]
    {
      assert pre[j] == s[j];
    }
  }

  /** In a sequence without repetitions, an element outside positions `lo..hi-1` is not among them. */
  lemma DistinctOutside<T>(s: seq<T>, i: nat, lo: nat, hi: nat)
    requires Distinct(s) && i < |s| && lo <= hi <= |s|
    requires i < lo || hi <= i
    ensures s[i] !in s[lo..hi]
  {
    forall j | 0 <= j < hi - lo
      ensures s[lo..hi][j] != s[i]
    {
      assert s[lo..hi][j] == s[lo + j];
    }
  }

  /**
   * The copies for `img` into `split` can be made: the split's two directories
   * exist, the image is a regular file, and the targets are ones a copy may
   * overwrite.
   */
  predicate CopyableImage(m: Tree, layout: Layout, split: Split, img: Path)
  {
    && IsDirectory(m, layout.ImagesDir(split))
    && IsDirectory(m, layout.LabelsDir(split))
    && IsRegularFile(m, img)
    && Overwritable(m, ImageDest(layout, split, img))
    && (LabelSource(layout, img) in m ==>
          IsRegularFile(m, LabelSource(layout, img)) && Overwritable(m, LabelDest(layout, split, img)))
  }

  ghost predicate Copyable(m: Tree, layout: Layout, split: Split, imgs: seq<Path>)
  {
    forall i :: 0 <= i < |imgs| ==> CopyableImage(m, layout, split, imgs[i])
  }

  /** `p` is a destination of the copies made for `img`: its image, or its label when the label exists. */
  predicate WrittenBy(m: Tree, layout: Layout, split: Split, img: Path, p: Path)
  {
    || p == ImageDest(layout, split, img)
    || (LabelSource(layout, img) in m && p == LabelDest(layout, split, img))
  }

  ghost predicate Written(m: Tree, layout: Layout, split: Split, imgs: seq<Path>, p: Path)
  {
    exists i :: 0 <= i < |imgs| && WrittenBy(m, layout, split, imgs[i], p)
  }

  /** The split position `i` goes to when the first `k` go to training. */
  function SplitOf(i: nat, k: nat): Split
  {
    if i < k then Train else Valid
  }

  /** Every destination lies in the split's images or labels directory. */
  lemma WrittenByParent(m: Tree, layout: Layout, split: Split, img: Path, p: Path)
    requires WrittenBy(m, layout, split, img, p)
    ensures p != [] && Parent(p) in {layout.ImagesDir(split), layout.LabelsDir(split)}
  {
  }

  lemma WrittenParent(m: Tree, layout: Layout, split: Split, imgs: seq<Path>, p: Path)
    requires Written(m, layout, split, imgs, p)
    ensures p != [] && Parent(p) in {layout.ImagesDir(split), layout.LabelsDir(split)}
  {
    var i :| 0 <= i < |imgs| && WrittenBy(m, layout, split, imgs[i], p);
    WrittenByParent(m, layout, split, imgs[i], p);
  }

  /**
   * One image and its label: with separate directories and copyable targets
   * the step succeeds, the image's destination holds the image, the label's
   * destination holds the label exactly when the label exists, and every
   * other path is as it was (overwrite semantics).
   */
  lemma CopyWithLabelEffect(m: Tree, layout: Layout, split: Split, img: Path)
    requires layout.Separate()
    requires img != [] && Parent(img) == layout.sourceImages
    requires CopyableImage(m, layout, split, img)
    ensures var r := CopyWithLabel(m, layout, split, img);
      && r.error.None?
      && Lookup(r.entries, ImageDest(layout, split, img)) == Lookup(m, img)
      && (LabelSource(layout, img) in m ==>
            Lookup(r.entries, LabelDest(layout, split, img)) == Lookup(m, LabelSource(layout, img)))
      && (forall p :: !WrittenBy(m, layout, split, img, p) ==> Lookup(r.entries, p) == Lookup(m, p))
  {
    var imageDest := ImageDest(layout, split, img);
    var labelSource := LabelSource(layout, img);
    var labelDest := LabelDest(layout, split, img);
    assert Parent(imageDest) == layout.ImagesDir(split);
    assert Parent(labelSource) == layout.sourceLabels;
    assert Parent(labelDest) == layout.LabelsDir(split);
    assert img != imageDest;
    assert IsDirectory(m, Parent(imageDest));
    var m1 := ApplyCopy(m, img, imageDest).value;
    assert Overwrites(m, m1, imageDest, m[img]);
    assert labelSource != imageDest && labelDest != imageDest;
    assert layout.LabelsDir(split) != imageDest;
    assert Lookup(m1, layout.LabelsDir(split)) == Lookup(m, layout.LabelsDir(split));
    assert Lookup(m1, labelSource) == Lookup(m, labelSource);
    assert Lookup(m1, labelDest) == Lookup(m, labelDest);
    if labelSource in m {
      assert labelSource != labelDest;
      var m2 := ApplyCopy(m1, labelSource, labelDest).value;
      assert Overwrites(m1, m2, labelDest, m1[labelSource]);
    }
  }

  /**
   * `r` is `m` after the copies for `imgs` into `split`: each image's
   * destination holds the image, each existing label's destination holds the
   * label, every destination holds a regular file, and every other path is
   * as it was.
   */
  ghost predicate Placed(m: Tree, layout: Layout, split: Split, imgs: seq<Path>, r: Tree)
  {
    && ImagesPlaced(m, layout, split, imgs, r)
    && LabelsPlaced(m, layout, split, imgs, r)
    && Unwritten(m, layout, split, imgs, r)
    && DestsRegular(m, layout, split, imgs, r)
  }

  /** Each image's destination in `r` holds the image as it was in `m`. */
  ghost predicate ImagesPlaced(m: Tree, layout: Layout, split: Split, imgs: seq<Path>, r: Tree)
  {
    forall i :: 0 <= i < |imgs| ==>
      Lookup(r, ImageDest(layout, split, imgs[i])) == Lookup(m, imgs[i])
  }

  /** Each existing label's destination in `r` holds the label as it was in `m`. */
  ghost predicate LabelsPlaced(m: Tree, layout: Layout, split: Split, imgs: seq<Path>, r: Tree)
  {
    forall i :: 0 <= i < |imgs| && LabelSource(layout, imgs[i]) in m ==>
      Lookup(r, LabelDest(layout, split, imgs[i])) == Lookup(m, LabelSource(layout, imgs[i]))
  }

  /** Every path the copies do not write is the same in `r` as in `m`. */
  ghost predicate Unwritten(m: Tree, layout: Layout, split: Split, imgs: seq<Path>, r: Tree)
  {
    forall p :: !Written(m, layout, split, imgs, p) ==> Lookup(r, p) == Lookup(m, p)
  }

  /** Every path the copies write holds a regular file in `r`. */
  ghost predicate DestsRegular(m: Tree, layout: Layout, split: Split, imgs: seq<Path>, r: Tree)
  {
    forall p :: Written(m, layout, split, imgs, p) ==> IsRegularFile(r, p)
  }

  /** The effect of one loop over `imgs` when every copy it attempts can be made. */
  lemma {:induction false} CopyAllEffect(m: Tree, layout: Layout, split: Split, imgs: seq<Path>)
    requires layout.Separate()
    requires FromSourceImages(layout, imgs)
    requires Copyable(m, layout, split, imgs)
    ensures CopyAll(m, layout, split, imgs).error.None?
    ensures Placed(m, layout, split, imgs, CopyAll(m, layout, split, imgs).entries)
    decreases |imgs|
  {
    if imgs == [] {
      return;
    }
    var pre := imgs[..|imgs| - 1];
    PrefixReady(m, layout, split, imgs);
    CopyAllEffect(m, layout, split, pre);
    var m0 := CopyAll(m, layout, split, pre).entries;
    CopyAllLast(m, layout, split, imgs);
    LastStep(m, m0, layout, split, imgs);
    StepPlaced(m, m0, CopyWithLabel(m0, layout, split, imgs[|imgs| - 1]).entries, layout, split, imgs);
  }

  /** What holds of the images holds of all but the last. */
  lemma PrefixReady(m: Tree, layout: Layout, split: Split, imgs: seq<Path>)
    requires imgs != []
    requires FromSourceImages(layout, imgs)
    requires Copyable(m, layout, split, imgs)
    ensures FromSourceImages(layout, imgs[..|imgs| - 1])
    ensures Copyable(m, layout, split, imgs[..|imgs| - 1])
  {
    var pre := imgs[..|imgs| - 1];
    assert forall i :: 0 <= i < |pre| ==> pre[i] == imgs[i];
  }

  /** The copies for the last image, made after those for the others, succeed as `LastPlaced` says. */
  lemma LastStep(m: Tree, m0: Tree, layout: Layout, split: Split, imgs: seq<Path>)
    requires layout.Separate()
    requires imgs != []
    requires FromSourceImages(layout, imgs)
    requires Copyable(m, layout, split, imgs)
    requires Placed(m, layout, split, imgs[..|imgs| - 1], m0)
    ensures CopyWithLabel(m0, layout, split, imgs[|imgs| - 1]).error.None?
    ensures LastPlaced(m, m0, CopyWithLabel(m0, layout, split, imgs[|imgs| - 1]).entries, layout, split, imgs)
  {
    var x := imgs[|imgs| - 1];
    assert CopyableImage(m, layout, split, x);
    PrefixReady(m, layout, split, imgs);
    StepCopyable(m, m0, layout, split, imgs[..|imgs| - 1], x);
    CopyWithLabelEffect(m0, layout, split, x);
  }

  /** The facts about the last image's copies that let `Placed` extend by one image. */
  ghost predicate LastPlaced(m: Tree, m0: Tree, r: Tree, layout: Layout, split: Split, imgs: seq<Path>)
    requires imgs != []
  {
    var x := imgs[|imgs| - 1];
    && Lookup(m0, x) == Lookup(m, x)
    && Lookup(m0, LabelSource(layout, x)) == Lookup(m, LabelSource(layout, x))
    && IsRegularFile(m, x)
    && (LabelSource(layout, x) in m ==> IsRegularFile(m, LabelSource(layout, x)))
    && Lookup(r, ImageDest(layout, split, x)) == Lookup(m0, x)
    && (LabelSource(layout, x) in m0 ==>
          Lookup(r, LabelDest(layout, split, x)) == Lookup(m0, LabelSource(layout, x)))
    && (forall p :: !WrittenBy(m0, layout, split, x, p) ==> Lookup(r, p) == Lookup(m0, p))
  }

  /** `Placed` extends by one image. */
  lemma StepPlaced(m: Tree, m0: Tree, r: Tree, layout: Layout, split: Split, imgs: seq<Path>)
    requires layout.Separate()
    requires imgs != []
    requires FromSourceImages(layout, imgs)
    requires Placed(m, layout, split, imgs[..|imgs| - 1], m0)
    requires LastPlaced(m, m0, r, layout, split, imgs)
    ensures Placed(m, layout, split, imgs, r)
  {
    StepImages(m, m0, r, layout, split, imgs);
    StepLabels(m, m0, r, layout, split, imgs);
    StepFrame(m, m0, r, layout, split, imgs);
    StepRegular(m, m0, r, layout, split, imgs);
  }

  lemma StepImages(m: Tree, m0: Tree, r: Tree, layout: Layout, split: Split, imgs: seq<Path>)
    requires layout.Separate()
    requires imgs != []
    requires FromSourceImages(layout, imgs)
    requires ImagesPlaced(m, layout, split, imgs[..|imgs| - 1], m0)
    requires Lookup(r, ImageDest(layout, split, imgs[|imgs| - 1])) == Lookup(m, imgs[|imgs| - 1])
    requires forall p :: !WrittenBy(m0, layout, split, imgs[|imgs| - 1], p) ==> Lookup(r, p) == Lookup(m0, p)
    ensures ImagesPlaced(m, layout, split, imgs, r)
  {
    var n := |imgs|;
    var pre := imgs[..n - 1];
    var x := imgs[n - 1];
    forall i | 0 <= i < n - 1
      ensures Lookup(r, ImageDest(layout, split, imgs[i])) == Lookup(m, imgs[i])
    {
      assert imgs[i] == pre[i];
      ImageKept(m, m0, r, layout, split, imgs[i], x);
    }
  }

  lemma StepLabels(m: Tree, m0: Tree, r: Tree, layout: Layout, split: Split, imgs: seq<Path>)
    requires layout.Separate()
    requires imgs != []
    requires LabelsPlaced(m, layout, split, imgs[..|imgs| - 1], m0)
    requires var x := imgs[|imgs| - 1];
      && Lookup(m0, LabelSource(layout, x)) == Lookup(m, LabelSource(layout, x))
      && (LabelSource(layout, x) in m0 ==>
            Lookup(r, LabelDest(layout, split, x)) == Lookup(m0, LabelSource(layout, x)))
    requires forall p :: !WrittenBy(m0, layout, split, imgs[|imgs| - 1], p) ==> Lookup(r, p) == Lookup(m0, p)
    ensures LabelsPlaced(m, layout, split, imgs, r)
  {
    var n := |imgs|;
    var pre := imgs[..n - 1];
    var x := imgs[n - 1];
    forall i | 0 <= i < n && LabelSource(layout, imgs[i]) in m
      ensures Lookup(r, LabelDest(layout, split, imgs[i])) == Lookup(m, LabelSource(layout, imgs[i]))
    {
      if i < n - 1 {
        assert imgs[i] == pre[i];
        LabelKept(m, m0, r, layout, split, imgs[i], x);
      } else {
        assert LabelSource(layout, x) in m0;
      }
    }
  }

  lemma StepFrame(m: Tree, m0: Tree, r: Tree, layout: Layout, split: Split, imgs: seq<Path>)
    requires imgs != []
    requires Unwritten(m, layout, split, imgs[..|imgs| - 1], m0)
    requires Lookup(m0, LabelSource(layout, imgs[|imgs| - 1])) == Lookup(m, LabelSource(layout, imgs[|imgs| - 1]))
    requires forall p :: !WrittenBy(m0, layout, split, imgs[|imgs| - 1], p) ==> Lookup(r, p) == Lookup(m0, p)
    ensures Unwritten(m, layout, split, imgs, r)
  {
    forall p | !Written(m, layout, split, imgs, p)
      ensures Lookup(r, p) == Lookup(m, p)
    {
      NotWrittenPrefix(m, layout, split, imgs, p);
    }
  }

  lemma StepRegular(m: Tree, m0: Tree, r: Tree, layout: Layout, split: Split, imgs: seq<Path>)
    requires imgs != []
    requires DestsRegular(m, layout, split, imgs[..|imgs| - 1], m0)
    requires LastPlaced(m, m0, r, layout, split, imgs)
    ensures DestsRegular(m, layout, split, imgs, r)
  {
    var x := imgs[|imgs| - 1];
    forall p | Written(m, layout, split, imgs, p)
      ensures IsRegularFile(r, p)
    {
      if p == ImageDest(layout, split, x) {
        assert Lookup(r, p) == Lookup(m, x);
      } else if LabelSource(layout, x) in m && p == LabelDest(layout, split, x) {
        assert Lookup(r, p) == Lookup(m, LabelSource(layout, x));
      } else {
        WrittenPrefix(m, layout, split, imgs, p);
        assert !WrittenBy(m0, layout, split, x, p);
        assert Lookup(r, p) == Lookup(m0, p);
      }
    }
  }

  /** A path no copy of `imgs` writes is written by no copy of its prefix, nor of its last image. */
  lemma NotWrittenPrefix(m: Tree, layout: Layout, split: Split, imgs: seq<Path>, p: Path)
    requires imgs != [] && !Written(m, layout, split, imgs, p)
    ensures !Written(m, layout, split, imgs[..|imgs| - 1], p)
    ensures !WrittenBy(m, layout, split, imgs[|imgs| - 1], p)
  {
  }

  /** A path some copy of `imgs` writes, other than the last image's, is written by its prefix. */
  lemma WrittenPrefix(m: Tree, layout: Layout, split: Split, imgs: seq<Path>, p: Path)
    requires imgs != [] && Written(m, layout, split, imgs, p)
    requires !WrittenBy(m, layout, split, imgs[|imgs| - 1], p)
    ensures Written(m, layout, split, imgs[..|imgs| - 1], p)
  {
    var pre := imgs[..|imgs| - 1];
    var i :| 0 <= i < |imgs| && WrittenBy(m, layout, split, imgs[i], p);
    assert i != |imgs| - 1;
    assert pre[i] == imgs[i];
    assert WrittenBy(m, layout, split, pre[i], p);
  }

  /** After the copies for `pre`, the copies for `x` can still be made. */
  lemma StepCopyable(m: Tree, m0: Tree, layout: Layout, split: Split, pre: seq<Path>, x: Path)
    requires layout.Separate()
    requires x != [] && Parent(x) == layout.sourceImages
    requires CopyableImage(m, layout, split, x)
    requires Copyable(m, layout, split, pre)
    requires Placed(m, layout, split, pre, m0)
    ensures CopyableImage(m0, layout, split, x)
    ensures Lookup(m0, x) == Lookup(m, x)
    ensures Lookup(m0, LabelSource(layout, x)) == Lookup(m, LabelSource(layout, x))
    ensures forall p :: WrittenBy(m0, layout, split, x, p) <==> WrittenBy(m, layout, split, x, p)
  {
    DirectoryNotWritten(m, layout, split, pre, layout.ImagesDir(split));
    DirectoryNotWritten(m, layout, split, pre, layout.LabelsDir(split));
    NotWrittenOutside(m, layout, split, pre, x);
    NotWrittenOutside(m, layout, split, pre, LabelSource(layout, x));
    assert Lookup(m0, x) == Lookup(m, x);
    assert Lookup(m0, LabelSource(layout, x)) == Lookup(m, LabelSource(layout, x));
    var d := ImageDest(layout, split, x);
    if Written(m, layout, split, pre, d) {
      assert IsRegularFile(m0, d);
    } else {
      assert Lookup(m0, d) == Lookup(m, d);
    }
    var e := LabelDest(layout, split, x);
    if Written(m, layout, split, pre, e) {
      assert IsRegularFile(m0, e);
    } else {
      assert Lookup(m0, e) == Lookup(m, e);
    }
  }

  /** A directory is never among the paths the copies write: each of those may be overwritten. */
  lemma DirectoryNotWritten(m: Tree, layout: Layout, split: Split, imgs: seq<Path>, d: Path)
    requires Copyable(m, layout, split, imgs)
    requires IsDirectory(m, d)
    ensures !Written(m, layout, split, imgs, d)
  {
    forall i | 0 <= i < |imgs|
      ensures !WrittenBy(m, layout, split, imgs[i], d)
    {
      assert CopyableImage(m, layout, split, imgs[i]);
    }
  }

  /** A path outside the split's two destination directories is not written. */
  lemma NotWrittenOutside(m: Tree, layout: Layout, split: Split, imgs: seq<Path>, p: Path)
    requires p == [] || Parent(p) !in {layout.ImagesDir(split), layout.LabelsDir(split)}
    ensures !Written(m, layout, split, imgs, p)
  {
    if Written(m, layout, split, imgs, p) {
      WrittenParent(m, layout, split, imgs, p);
    }
  }

  /** An earlier image's destination keeps the image after the copies for `x`. */
  lemma ImageKept(m: Tree, m0: Tree, r: Tree, layout: Layout, split: Split, img: Path, x: Path)
    requires layout.Separate()
    requires img != [] && Parent(img) == layout.sourceImages
    requires x != [] && Parent(x) == layout.sourceImages
    requires Lookup(m0, ImageDest(layout, split, img)) == Lookup(m, img)
    requires Lookup(r, ImageDest(layout, split, x)) == Lookup(m, x)
    requires forall p :: !WrittenBy(m0, layout, split, x, p) ==> Lookup(r, p) == Lookup(m0, p)
    ensures Lookup(r, ImageDest(layout, split, img)) == Lookup(m, img)
  {
    var d := ImageDest(layout, split, img);
    if d == ImageDest(layout, split, x) {
      SameDirectory(img, x);
    } else {
      assert Parent(d) != Parent(LabelDest(layout, split, x));
    }
  }

  /** An earlier image's label destination keeps the label after the copies for `x`. */
  lemma LabelKept(m: Tree, m0: Tree, r: Tree, layout: Layout, split: Split, img: Path, x: Path)
    requires layout.Separate()
    requires Lookup(m0, LabelDest(layout, split, img)) == Lookup(m, LabelSource(layout, img))
    requires LabelSource(layout, x) in m0 ==>
      Lookup(r, LabelDest(layout, split, x)) == Lookup(m, LabelSource(layout, x))
    requires forall p :: !WrittenBy(m0, layout, split, x, p) ==> Lookup(r, p) == Lookup(m0, p)
    ensures Lookup(r, LabelDest(layout, split, img)) == Lookup(m, LabelSource(layout, img))
  {
    var d := LabelDest(layout, split, img);
    if LabelSource(layout, x) in m0 && d == LabelDest(layout, split, x) {
      SameDirectory(LabelSource(layout, img), LabelSource(layout, x));
    } else {
      assert Parent(d) != Parent(ImageDest(layout, split, x));
    }
  }
}
