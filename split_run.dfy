/**
 * What a whole run guarantees: the first `k` images of the shuffled order,
 * with their labels, end up in the training directories and the rest in the
 * validation directories, each image in exactly one of them, and nothing
 * outside the four destination directories changes.
 */
module SplitRunProps {
  import opened Paths
  import opened Files
  import opened SplitSpec
  import opened SplitProps

  /** A path the copies for `imgs` into `split` cannot reach is left as it was. */
  lemma OutsideUnchanged(m: Tree, r: Tree, layout: Layout, split: Split, imgs: seq<Path>, p: Path)
    requires Placed(m, layout, split, imgs, r)
    requires p == [] || Parent(p) !in {layout.ImagesDir(split), layout.LabelsDir(split)}
    ensures Lookup(r, p) == Lookup(m, p)
  {
    NotWrittenOutside(m, layout, split, imgs, p);
  }

  /** Which paths the copies write depends on `m` only through which labels exist. */
  lemma WrittenSameLabels(m: Tree, m1: Tree, layout: Layout, split: Split, imgs: seq<Path>)
    requires forall i :: 0 <= i < |imgs| ==> (LabelSource(layout, imgs[i]) in m1 <==> LabelSource(layout, imgs[i]) in m)
    ensures forall p :: Written(m1, layout, split, imgs, p) <==> Written(m, layout, split, imgs, p)
  {
    forall p
      ensures Written(m1, layout, split, imgs, p) ==> Written(m, layout, split, imgs, p)
      ensures Written(m, layout, split, imgs, p) ==> Written(m1, layout, split, imgs, p)
    {
      if Written(m1, layout, split, imgs, p) {
        var i :| 0 <= i < |imgs| && WrittenBy(m1, layout, split, imgs[i], p);
        assert WrittenBy(m, layout, split, imgs[i], p);
      }
      if Written(m, layout, split, imgs, p) {
        var i :| 0 <= i < |imgs| && WrittenBy(m, layout, split, imgs[i], p);
        assert WrittenBy(m1, layout, split, imgs[i], p);
      }
    }
  }

  /**
   * The training loop leaves the validation loop's sources and destinations
   * alone, so the validation loop can make its copies and writes the same
   * paths as it would have on the initial filesystem.
   */
  lemma ValidStageReady(m: Tree, m1: Tree, layout: Layout, train: seq<Path>, valid: seq<Path>)
    requires layout.Separate()
    requires FromSourceImages(layout, valid)
    requires Placed(m, layout, Train, train, m1)
    requires Copyable(m, layout, Train, train)
    requires Copyable(m, layout, Valid, valid)
    ensures Copyable(m1, layout, Valid, valid)
    ensures forall i :: 0 <= i < |valid| ==>
      Lookup(m1, valid[i]) == Lookup(m, valid[i])
      && Lookup(m1, LabelSource(layout, valid[i])) == Lookup(m, LabelSource(layout, valid[i]))
    ensures forall p :: Written(m1, layout, Valid, valid, p) <==> Written(m, layout, Valid, valid, p)
  {
    if valid != [] {
      assert CopyableImage(m, layout, Valid, valid[0]);
      DirectoryNotWritten(m, layout, Train, train, layout.validImages);
      DirectoryNotWritten(m, layout, Train, train, layout.validLabels);
    }
    forall i | 0 <= i < |valid|
      ensures Lookup(m1, valid[i]) == Lookup(m, valid[i])
      ensures Lookup(m1, LabelSource(layout, valid[i])) == Lookup(m, LabelSource(layout, valid[i]))
      ensures CopyableImage(m1, layout, Valid, valid[i])
    {
      var img := valid[i];
      OutsideUnchanged(m, m1, layout, Train, train, img);
      OutsideUnchanged(m, m1, layout, Train, train, LabelSource(layout, img));
      OutsideUnchanged(m, m1, layout, Train, train, ImageDest(layout, Valid, img));
      OutsideUnchanged(m, m1, layout, Train, train, LabelDest(layout, Valid, img));
    }
    WrittenSameLabels(m, m1, layout, Valid, valid);
  }

  /** The state between the two loops and after them, with what each loop did. */
  ghost predicate Staged(m: Tree, m1: Tree, r: Tree, layout: Layout, jpgs: seq<Path>, k: nat)
    requires k <= |jpgs|
  {
    && Placed(m, layout, Train, jpgs[..k], m1)
    && Placed(m1, layout, Valid, jpgs[k..], r)
    && (forall i :: k <= i < |jpgs| ==>
          Lookup(m1, jpgs[i]) == Lookup(m, jpgs[i])
          && Lookup(m1, LabelSource(layout, jpgs[i])) == Lookup(m, LabelSource(layout, jpgs[i])))
    && (forall p :: Written(m1, layout, Valid, jpgs[k..], p) <==> Written(m, layout, Valid, jpgs[k..], p))
  }

  /** Each image ends up, with its content, in the images directory of its split. */
  lemma RunImages(m: Tree, m1: Tree, r: Tree, layout: Layout, jpgs: seq<Path>, k: nat)
    requires layout.Separate()
    requires k <= |jpgs|
    requires Staged(m, m1, r, layout, jpgs, k)
    ensures forall i :: 0 <= i < |jpgs| ==>
      Lookup(r, ImageDest(layout, SplitOf(i, k), jpgs[i])) == Lookup(m, jpgs[i])
  {
    var train := jpgs[..k];
    var valid := jpgs[k..];
    forall i | 0 <= i < |jpgs|
      ensures Lookup(r, ImageDest(layout, SplitOf(i, k), jpgs[i])) == Lookup(m, jpgs[i])
    {
      if i < k {
        assert jpgs[i] == train[i];
        OutsideUnchanged(m1, r, layout, Valid, valid, ImageDest(layout, Train, jpgs[i]));
      } else {
        assert jpgs[i] == valid[i - k];
      }
    }
  }

  /** Each existing label ends up, with its content, in the labels directory of its image's split. */
  lemma RunLabels(m: Tree, m1: Tree, r: Tree, layout: Layout, jpgs: seq<Path>, k: nat)
    requires layout.Separate()
    requires k <= |jpgs|
    requires Staged(m, m1, r, layout, jpgs, k)
    ensures forall i :: 0 <= i < |jpgs| && LabelSource(layout, jpgs[i]) in m ==>
      Lookup(r, LabelDest(layout, SplitOf(i, k), jpgs[i])) == Lookup(m, LabelSource(layout, jpgs[i]))
  {
    var train := jpgs[..k];
    var valid := jpgs[k..];
    forall i | 0 <= i < |jpgs| && LabelSource(layout, jpgs[i]) in m
      ensures Lookup(r, LabelDest(layout, SplitOf(i, k), jpgs[i])) == Lookup(m, LabelSource(layout, jpgs[i]))
    {
      if i < k {
        assert jpgs[i] == train[i];
        OutsideUnchanged(m1, r, layout, Valid, valid, LabelDest(layout, Train, jpgs[i]));
      } else {
        assert jpgs[i] == valid[i - k];
        assert Lookup(m1, LabelSource(layout, jpgs[i])) == Lookup(m, LabelSource(layout, jpgs[i]));
      }
    }
  }

  /** A path neither loop writes is left as it was. */
  lemma RunFrame(m: Tree, m1: Tree, r: Tree, layout: Layout, jpgs: seq<Path>, k: nat)
    requires k <= |jpgs|
    requires Staged(m, m1, r, layout, jpgs, k)
    ensures forall p :: !Written(m, layout, Train, jpgs[..k], p) && !Written(m, layout, Valid, jpgs[k..], p) ==>
      Lookup(r, p) == Lookup(m, p)
  {
  }

  /** Every path either loop writes holds a regular file afterwards. */
  lemma RunRegular(m: Tree, m1: Tree, r: Tree, layout: Layout, jpgs: seq<Path>, k: nat)
    requires layout.Separate()
    requires k <= |jpgs|
    requires Staged(m, m1, r, layout, jpgs, k)
    ensures forall p :: Written(m, layout, Train, jpgs[..k], p) || Written(m, layout, Valid, jpgs[k..], p) ==>
      IsRegularFile(r, p)
  {
    forall p | Written(m, layout, Train, jpgs[..k], p) || Written(m, layout, Valid, jpgs[k..], p)
      ensures IsRegularFile(r, p)
    {
      if Written(m, layout, Train, jpgs[..k], p) {
        WrittenParent(m, layout, Train, jpgs[..k], p);
        OutsideUnchanged(m1, r, layout, Valid, jpgs[k..], p);
      }
    }
  }

  /**
   * The two loops, when every copy they attempt can be made: the run
   * succeeds; image `i` and its label, when it exists, land in the
   * directories of split `SplitOf(i, k)`; every destination holds a regular
   * file; and every path neither loop writes is unchanged.
   */
  lemma SplitRunEffect(m: Tree, layout: Layout, jpgs: seq<Path>, k: nat)
    requires layout.Separate()
    requires FromSourceImages(layout, jpgs)
    requires k <= |jpgs|
    requires Copyable(m, layout, Train, jpgs[..k]) && Copyable(m, layout, Valid, jpgs[k..])
    ensures var run := SplitRun(m, layout, jpgs, k);
      && run.error.None?
      && (forall i :: 0 <= i < |jpgs| ==>
            Lookup(run.entries, ImageDest(layout, SplitOf(i, k), jpgs[i])) == Lookup(m, jpgs[i]))
      && (forall i :: 0 <= i < |jpgs| && LabelSource(layout, jpgs[i]) in m ==>
            Lookup(run.entries, LabelDest(layout, SplitOf(i, k), jpgs[i])) == Lookup(m, LabelSource(layout, jpgs[i])))
      && (forall p :: Written(m, layout, Train, jpgs[..k], p) || Written(m, layout, Valid, jpgs[k..], p) ==>
            IsRegularFile(run.entries, p))
      && (forall p :: !Written(m, layout, Train, jpgs[..k], p) && !Written(m, layout, Valid, jpgs[k..], p) ==>
            Lookup(run.entries, p) == Lookup(m, p))
  {
    var m1 := CopyAll(m, layout, Train, jpgs[..k]).entries;
    var r := SplitRun(m, layout, jpgs, k).entries;
    StagedRun(m, layout, jpgs, k);
    RunImages(m, m1, r, layout, jpgs, k);
    RunLabels(m, m1, r, layout, jpgs, k);
    RunRegular(m, m1, r, layout, jpgs, k);
    RunFrame(m, m1, r, layout, jpgs, k);
  }

  /** The two loops succeed, and what each did is as `Staged` says. */
  lemma StagedRun(m: Tree, layout: Layout, jpgs: seq<Path>, k: nat)
    requires layout.Separate()
    requires FromSourceImages(layout, jpgs)
    requires k <= |jpgs|
    requires Copyable(m, layout, Train, jpgs[..k]) && Copyable(m, layout, Valid, jpgs[k..])
    ensures SplitRun(m, layout, jpgs, k).error.None?
    ensures Staged(m, CopyAll(m, layout, Train, jpgs[..k]).entries, SplitRun(m, layout, jpgs, k).entries, layout, jpgs, k)
  {
    TrainStage(m, layout, jpgs, k);
    var m1 := CopyAll(m, layout, Train, jpgs[..k]).entries;
    ValidStage(m, m1, layout, jpgs, k);
  }

  /** The training loop succeeds and places the first `k` images. */
  lemma TrainStage(m: Tree, layout: Layout, jpgs: seq<Path>, k: nat)
    requires layout.Separate()
    requires FromSourceImages(layout, jpgs)
    requires k <= |jpgs|
    requires Copyable(m, layout, Train, jpgs[..k])
    ensures CopyAll(m, layout, Train, jpgs[..k]).error.None?
    ensures Placed(m, layout, Train, jpgs[..k], CopyAll(m, layout, Train, jpgs[..k]).entries)
  {
    var train := jpgs[..k];
    assert FromSourceImages(layout, train) by {
      assert forall i :: 0 <= i < |train| ==> train[i] == jpgs[i];
    }
    CopyAllEffect(m, layout, Train, train);
  }

  /** After the training loop, the validation loop succeeds and places the remaining images. */
  lemma ValidStage(m: Tree, m1: Tree, layout: Layout, jpgs: seq<Path>, k: nat)
    requires layout.Separate()
    requires FromSourceImages(layout, jpgs)
    requires k <= |jpgs|
    requires Copyable(m, layout, Train, jpgs[..k]) && Copyable(m, layout, Valid, jpgs[k..])
    requires Placed(m, layout, Train, jpgs[..k], m1)
    ensures CopyAll(m1, layout, Valid, jpgs[k..]).error.None?
    ensures Placed(m1, layout, Valid, jpgs[k..], CopyAll(m1, layout, Valid, jpgs[k..]).entries)
    ensures forall i :: k <= i < |jpgs| ==>
      Lookup(m1, jpgs[i]) == Lookup(m, jpgs[i])
      && Lookup(m1, LabelSource(layout, jpgs[i])) == Lookup(m, LabelSource(layout, jpgs[i]))
    ensures forall p :: Written(m1, layout, Valid, jpgs[k..], p) <==> Written(m, layout, Valid, jpgs[k..], p)
  {
    var valid := jpgs[k..];
    assert forall i :: k <= i < |jpgs| ==> jpgs[i] == valid[i - k];
    assert FromSourceImages(layout, valid);
    ValidStageReady(m, m1, layout, jpgs[..k], valid);
    CopyAllEffect(m1, layout, Valid, valid);
  }
}
