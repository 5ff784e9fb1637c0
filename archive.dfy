/**
 * The archive as a value: the scan only lists directories and asks whether
 * paths exist, so a snapshot of the directory tree is a map from each
 * directory to its entry names plus the set of regular files. Paths are
 * sequences of components below the scan root; the root itself is [].
 */
module Archive {

  type Path = seq<string>

  datatype FileSystem = FileSystem(dirs: map<Path, seq<string>>, files: set<Path>)

  /** `Path.is_dir()`. */
  predicate IsDir(fs: FileSystem, p: Path)
  {
    p in fs.dirs
  }

  /** `Path.is_file()`. */
  predicate IsFile(fs: FileSystem, p: Path)
  {
    p in fs.files
  }

  /** `Path.exists()`: a file or a directory. */
  predicate Exists(fs: FileSystem, p: Path)
  {
    IsDir(fs, p) || IsFile(fs, p)
  }

  /**
   * The entry names `iterdir()` yields for a directory, in its order. The
   * scan only lists paths it has checked to be directories; for anything
   * else this is empty.
   */
  function Listing(fs: FileSystem, p: Path): seq<string>
  {
    if p in fs.dirs then fs.dirs[p] else []
  }

  /**
   * Why an operation fails: `iterdir()` was called on a path that is not a
   * directory, or a journal or year was asked for that the results lack.
   */
  datatype Failure = NotFound | NotADirectory(path: Path)

  predicate NoDuplicates<T(==)>(s: seq<T>)
  {
    forall i, j :: 0 <= i < j < |s| ==> s[i] != s[j]
  }

  /** A real directory never lists the same name twice. */
  predicate WellFormed(fs: FileSystem)
  {
    forall p :: p in fs.dirs ==> NoDuplicates(fs.dirs[p])
  }
}
