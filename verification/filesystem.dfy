/**
 * The filesystem the walker reads, as a finite map from directory path to
 * what listing that directory returns. It stands for `canonicalize`,
 * `read_dir`, `metadata` and `symlink_metadata`: paths are taken to be
 * canonical already, and an entry carries the type information those calls
 * would report.
 */
module Filesystem {
  import opened Wrappers
  import opened Paths

  /** The type `metadata` reports for a path. */
  datatype FileType = RegularFile | Directory | Other

  /** What `symlink_metadata` reports for an entry: a plain entry of some
      type, or a symbolic link whose target has a type, or no target at all
      (`None`: a dangling link). */
  datatype Node = Plain(ftype: FileType) | Symlink(target: Option<FileType>)

  /** One entry of a directory listing: its file name and node. */
  datatype Entry = Entry(name: string, node: Node)

  /** The entries `read_dir` yields, in order; `None` is an entry the
      iterator reported as an error. */
  type Listing = seq<Option<Entry>>

  /** Each directory path maps to its listing; `None`, or a path that is not
      a key, means listing the directory fails. */
  type Fs = map<Path, Option<Listing>>

  /** `read_dirs`: the listing of `d`, or `None` when it cannot be read. */
  function ReadDir(fs: Fs, d: Path): (r: Option<Listing>)
    ensures r.Some? ==> d in fs
  {
    if d in fs then fs[d] else None
  }

  /** The directories of `fs` at or beneath `d`. */
  function Below(fs: Fs, d: Path): set<Path> {
    set k | k in fs && d <= k
  }

  /** Descending to a proper descendant of a directory that exists leaves
      strictly fewer directories beneath: the measure that makes every
      recursion over the directory tree terminate. */
  lemma BelowShrinks(fs: Fs, d: Path, c: Path)
    requires d in fs && d <= c && |d| < |c|
    ensures Below(fs, c) < Below(fs, d)
  {
    forall k | k in Below(fs, c) ensures k in Below(fs, d) {
      assert k[..|d|] == c[..|d|];
    }
    assert d in Below(fs, d) && d !in Below(fs, c);
  }
}
