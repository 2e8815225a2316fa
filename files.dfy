/**
 * The filesystem the splitter reads and writes, as a map from paths to
 * entries, and `std::filesystem::copy` with `copy_options::overwrite_existing`
 * as an operation on that map, following `[fs.op.copy]` and `[fs.op.copy.file]`
 * of the C++ standard library for the three kinds of entry modelled here.
 */
module Files {
  import opened Paths

  datatype Option<T> = None | Some(value: T)

  /** What a path names: a regular file with its bytes, a directory, or anything else. */
  datatype Entry = RegularFile(content: seq<bv8>) | Directory | Other

  type Tree = map<Path, Entry>

  /**
   * The `filesystem_error`s the splitter can raise: a failed copy, with the
   * two paths it names, and a directory iterator opened on a path that is not
   * a directory.
   */
  datatype FsError = CopyError(from: Path, to: Path) | IterationError(dir: Path)

  datatype Result<T> = Ok(value: T) | Err(error: FsError)

  /** What `p` names in `m`, if anything. */
  function Lookup(m: Tree, p: Path): Option<Entry>
  {
    if p in m then Some(m[p]) else None
  }

  predicate IsRegularFile(m: Tree, p: Path)
  {
    p in m && m[p].RegularFile?
  }

  predicate IsDirectory(m: Tree, p: Path)
  {
    p in m && m[p].Directory?
  }

  /** A copy may overwrite `p`: nothing is there yet, or a regular file is. */
  predicate Overwritable(m: Tree, p: Path)
  {
    p !in m || m[p].RegularFile?
  }

  /** `m'` is `m` with `to` holding `e`, and every other path as it was. */
  ghost predicate Overwrites(m: Tree, m': Tree, to: Path, e: Entry)
  {
    && Lookup(m', to) == Some(e)
    && forall p :: p != to ==> Lookup(m', p) == Lookup(m, p)
  }

  /** Where a regular file is copied: into `to` when `to` is a directory, else onto `to`. */
  function CopyTarget(m: Tree, from: Path, to: Path): Path
  {
    if to in m && m[to].Directory? then Join(to, FileName(from)) else to
  }

  /**
   * `copy(from, to, overwrite_existing)`. It fails when `from` is missing, is
   * `to` itself, or either side is neither a file nor a directory, or when a
   * directory would be copied onto a file, or when a regular file would be
   * written into a parent that is not an existing directory; a directory is
   * otherwise left alone (the copy is not recursive); a regular file replaces
   * the target's content whether or not the target existed. The error names
   * the two paths the copy was given.
   */
  function ApplyCopy(m: Tree, from: Path, to: Path): (r: Result<Tree>)
    ensures IsRegularFile(m, from) && from != to && Overwritable(m, to) && IsDirectory(m, Parent(to)) ==>
      r.Ok? && Overwrites(m, r.value, to, m[from])
    ensures from !in m || from == to || m[from].Other? || (to in m && m[to].Other?) ==> r.Err?
    ensures IsRegularFile(m, from) && !IsDirectory(m, to) && !IsDirectory(m, Parent(to)) ==> r.Err?
    ensures IsDirectory(m, from) && IsRegularFile(m, to) ==> r.Err?
    ensures var target := Join(to, FileName(from));
      IsRegularFile(m, from) && IsDirectory(m, to) ==>
        if target == from || !Overwritable(m, target) then r.Err?
        else r.Ok? && Overwrites(m, r.value, target, m[from])
    ensures r.Err? ==> r.error == CopyError(from, to)
    ensures r.Ok? ==>
      || (from in m && m[from].Directory? && r.value == m)
      || (&& IsRegularFile(m, from)
          && IsDirectory(m, Parent(CopyTarget(m, from, to)))
          && Overwrites(m, r.value, CopyTarget(m, from, to), m[from]))
  {
    if from !in m || from == to || m[from].Other? || (to in m && m[to].Other?)
       || (m[from].Directory? && to in m && m[to].RegularFile?)
    then Err(CopyError(from, to))
    else if m[from].Directory? then Ok(m)
    else
      // `copy_file(from, target, overwrite_existing)` of a regular file
      var target := CopyTarget(m, from, to);
      if target == from || !Overwritable(m, target) || !IsDirectory(m, Parent(target)) then Err(CopyError(from, to))
      else Ok(m[target := m[from]])
  }

  /** The live filesystem: `fs::exists`, `is_regular_file` and `fs::copy` act on it. */
  class FileSystem {
    var entries: Tree

    constructor (initial: Tree)
      ensures entries == initial
    {
      entries := initial;
    }

    /** `fs::exists(p)`. */
    predicate Exists(p: Path)
      reads this
    {
      p in entries
    }

    /** `is_regular_file(p)`. */
    predicate IsRegular(p: Path)
      reads this
    {
      IsRegularFile(entries, p)
    }

    /** `fs::copy(from, to, overwrite_existing)`: applies the copy, or reports its error and changes nothing. */
    method Copy(from: Path, to: Path) returns (err: Option<FsError>)
      modifies this
      ensures ApplyCopy(old(entries), from, to).Ok? ==>
        err == None && entries == ApplyCopy(old(entries), from, to).value
      ensures ApplyCopy(old(entries), from, to).Err? ==>
        err == Some(ApplyCopy(old(entries), from, to).error) && entries == old(entries)
    {
      match ApplyCopy(entries, from, to)
      case Ok(m) =>
        entries := m;
        err := None;
      case Err(e) =>
        err := Some(e);
    }
  }
}
