/**
 * The filesystem as the resolver observes it: the outcome of a metadata query
 * for each path and, for each directory that can be read, its entries in the
 * order enumeration yields them. Nothing here changes while a resolution runs.
 */
module FileSystem {
  import opened Options
  import opened Paths

  datatype ErrorKind = NotFound | Other

  /** Outcome of `metadata()` (which follows symbolic links). */
  datatype Meta = Ok | Err(kind: ErrorKind)

  /** One item of a `read_dir` enumeration: an entry, or an item that failed to read. */
  datatype DirItem = Named(name: Seg) | Unreadable

  /**
   * `stat` gives the metadata outcome of the paths it mentions; every other path
   * is not found. `dirs` lists the directories that `read_dir` can open.
   */
  datatype Fs = Fs(stat: map<Path, Meta>, dirs: map<Path, seq<DirItem>>)

  function Metadata(fs: Fs, p: Path): Meta {
    if p in fs.stat then fs.stat[p] else Err(NotFound)
  }

  /** `Path::exists`: the metadata query succeeds. */
  predicate Exists(fs: Fs, p: Path) {
    Metadata(fs, p).Ok?
  }

  function ReadDir(fs: Fs, dir: Path): Option<seq<DirItem>> {
    if dir in fs.dirs then Some(fs.dirs[dir]) else None
  }

  /** Every entry a directory lists exists under its listed name. */
  ghost predicate Consistent(fs: Fs) {
    forall d, i :: d in fs.dirs && 0 <= i < |fs.dirs[d]| && fs.dirs[d][i].Named? ==>
      Exists(fs, d.Push(fs.dirs[d][i].name))
  }
}
