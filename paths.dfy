/**
 * Filesystem paths and the filename rules the splitter relies on.
 *
 * A path is a sequence of components; the empty sequence is the empty path
 * (what `path::clear()` leaves behind). `dir / name` with a single relative
 * component appends that component. `extension()` and `stem()` follow the
 * `[fs.path.decompose]` rules of the C++ standard library: the extension is the
 * suffix of the filename starting at its rightmost period, unless the filename
 * is "." or "..", has no period, or that period is its first character; the stem
 * is what precedes the extension.
 */
module Paths {

  type Name = string
  type Path = seq<Name>

  /** `filename()`: the last component, or empty for the empty path. */
  function FileName(p: Path): Name
  {
    if p == [] then "" else p[|p| - 1]
  }

  /** `parent_path()`: every component but the last. */
  function Parent(p: Path): Path
  {
    if p == [] then [] else p[..|p| - 1]
  }

  /** `dir / name`, where `name` is one relative component. */
  function Join(dir: Path, name: Name): (p: Path)
    ensures p != []
    ensures Parent(p) == dir && FileName(p) == name
  {
    dir + [name]
  }

  /** A non-empty path is its parent joined with its filename. */
  lemma PathDecomposed(p: Path)
    requires p != []
    ensures p == Join(Parent(p), FileName(p))
  {
    assert p[..|p| - 1] + [p[|p| - 1]] == p;
  }

  /** Two paths in the same directory are equal exactly when their filenames are. */
  lemma SameDirectory(p: Path, q: Path)
    requires p != [] && q != [] && Parent(p) == Parent(q)
    ensures p == q <==> FileName(p) == FileName(q)
  {
    PathDecomposed(p);
    PathDecomposed(q);
  }

  /** Index of the rightmost '.' in `name`, or -1 when there is none. */
  function RightmostDot(name: Name): (i: int)
    ensures -1 <= i < |name|
    ensures i >= 0 ==> name[i] == '.'
    ensures forall j :: i < j < |name| ==> name[j] != '.'
  {
    if |name| == 0 then -1
    else if name[|name| - 1] == '.' then |name| - 1
    else RightmostDot(name[..|name| - 1])
  }

  /** Where the extension of `name` begins; `|name|` when it has none. */
  function ExtensionStart(name: Name): (i: nat)
    ensures i <= |name|
    ensures i < |name| ==> 0 < i && name[i] == '.' && name != "." && name != ".."
    ensures i < |name| ==> forall j :: i < j < |name| ==> name[j] != '.'
    ensures i == |name| ==> name == "." || name == ".." || forall j :: 0 < j < |name| ==> name[j] != '.'
  {
    if name == "." || name == ".." then |name|
    else
      var d := RightmostDot(name);
      if d <= 0 then |name| else d
  }

  /** `path(name).extension()`. */
  function Extension(name: Name): (e: string)
    ensures e == [] || (e[0] == '.' && '.' !in e[1..])
    ensures Stem(name) + e == name
  {
    name[ExtensionStart(name)..]
  }

  /** `path(name).stem()`. */
  function Stem(name: Name): (s: string)
    ensures |s| <= |name| && s == name[..|s|]
  {
    name[..ExtensionStart(name)]
  }

  /** The extension test of the image filter: exactly ".JPG" or ".jpg". */
  predicate IsJpgName(name: Name)
  {
    Extension(name) == ".JPG" || Extension(name) == ".jpg"
  }

  /** The name of an image's label: its stem followed by ".txt". */
  function LabelName(imageName: Name): Name
  {
    Stem(imageName) + ".txt"
  }

  /** `GetStem`: the filename of `p` without its final extension. */
  function GetStem(p: Path): (s: string)
    ensures s + Extension(FileName(p)) == FileName(p)
    ensures IsJpgName(FileName(p)) ==> s == FileName(p)[..|FileName(p)| - 4] && s != ""
  {
    JpgNameIff(FileName(p));
    Stem(FileName(p))
  }

  /** A period at `i > 0` with no period after it starts the extension (".." excepted). */
  lemma ExtensionStartsAt(name: Name, i: nat)
    requires 0 < i < |name| && name[i] == '.' && name != ".."
    requires forall j :: i < j < |name| ==> name[j] != '.'
    ensures ExtensionStart(name) == i
  {
    var d := RightmostDot(name);
    assert d >= i by {
      assert name[i] == '.';
    }
  }

  /**
   * The filter's extension test, stated on the raw characters: a name passes
   * exactly when it is at least five characters long and ends in ".jpg" or
   * ".JPG". So a file called just ".jpg" does not pass (its period is the first
   * character), and neither do ".Jpg", ".jpeg" or ".jpg.txt".
   */
  lemma JpgNameIff(name: Name)
    ensures IsJpgName(name) <==>
      |name| >= 5 && (name[|name| - 4..] == ".jpg" || name[|name| - 4..] == ".JPG")
  {
    var n := |name|;
    if n >= 5 && (name[n - 4..] == ".jpg" || name[n - 4..] == ".JPG") {
      assert name[n - 4] == name[n - 4..][0] == '.';
      forall j | n - 4 < j < n
        ensures name[j] != '.'
      {
        assert name[j] == name[n - 4..][j - (n - 4)];
      }
      ExtensionStartsAt(name, n - 4);
    }
  }

  /** The spellings the filter accepts. */
  lemma JpgSpellingsAccepted()
    ensures IsJpgName("cat.jpg") && IsJpgName("CAT.JPG") && IsJpgName("a.b.jpg")
  {
    JpgNameIff("cat.jpg");
    JpgNameIff("CAT.JPG");
    JpgNameIff("a.b.jpg");
  }

  /** Spellings the filter refuses: other cases, other extensions, a bare extension. */
  lemma JpgSpellingsRefused()
    ensures !IsJpgName("cat.Jpg") && !IsJpgName("cat.jpeg") && !IsJpgName(".jpg")
    ensures !IsJpgName("cat.jpg.txt") && !IsJpgName("jpg")
  {
    JpgNameIff("cat.Jpg");
    JpgNameIff("cat.jpeg");
    JpgNameIff(".jpg");
    JpgNameIff("cat.jpg.txt");
    JpgNameIff("jpg");
  }

  /**
   * The label of a ".jpg"/".JPG" image shares the image's stem and has the
   * extension ".txt": image and label are paired by stem.
   */
  lemma LabelPairsWithImage(imageName: Name)
    requires IsJpgName(imageName)
    ensures Stem(imageName) == imageName[..|imageName| - 4] != ""
    ensures Extension(LabelName(imageName)) == ".txt"
    ensures Stem(LabelName(imageName)) == Stem(imageName)
    ensures !IsJpgName(LabelName(imageName))
  {
    JpgNameIff(imageName);
    var s := Stem(imageName);
    var txtName := LabelName(imageName);
    assert txtName[|s|] == '.';
    forall j | |s| < j < |txtName|
      ensures txtName[j] != '.'
    {
      assert txtName[j] == ".txt"[j - |s|];
    }
    ExtensionStartsAt(txtName, |s|);
    assert txtName[..|s|] == s;
    assert txtName[|s|..] == ".txt";
  }

  /** Two images whose names differ only in the case of ".jpg" share one label name. */
  lemma SharedLabelName()
    ensures IsJpgName("a.jpg") && IsJpgName("a.JPG") && "a.jpg" != "a.JPG"
    ensures LabelName("a.jpg") == LabelName("a.JPG") == "a.txt"
  {
    ExtensionStartsAt("a.jpg", 1);
    ExtensionStartsAt("a.JPG", 1);
  }
}
