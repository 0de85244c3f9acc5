/**
 * The lazy traversal engine `FileWalker` of src/lib.rs.
 *
 * A walker holds a queue of files found but not yet returned and a queue of
 * directories found but not yet listed. `Next` returns the front file if
 * there is one; otherwise it lists the front directory, appends what it
 * found, and tries again. The filesystem is the abstract map of module
 * Filesystem, passed to every operation.
 */
module Walker {
  import opened Wrappers
  import opened Paths
  import opened Filesystem

  const U32_MODULUS: int := 0x1_0000_0000

  newtype u32 = x: int | 0 <= x < 0x1_0000_0000

  /** `n as u32`: the low 32 bits of `n`. */
  function AsU32(n: nat): (r: u32)
    ensures n < U32_MODULUS ==> r as int == n
    ensures r as int < U32_MODULUS
  {
    (n % U32_MODULUS) as u32
  }

  /** The fields of a walker that never change after `for_path`. */
  datatype Config = Config(origin: Path, maxDepth: u32, followSymlinks: bool)

  /** `FileWalker`: the two queues and the configuration. The `pattern`
      field of the source is stored but never read, so it is not modelled. */
  datatype FileWalker = FileWalker(files: seq<Path>, dirs: seq<Path>, cfg: Config)

  /* ---------------------------------------------------------------- *
   *  Entries                                                          *
   * ---------------------------------------------------------------- */

  /** `is_symlink`: `symlink_metadata` says the entry itself is a link. */
  predicate IsSymlink(n: Node) {
    n.Symlink?
  }

  /** `metadata` (which follows links) succeeds: the entry is not a
      dangling link. */
  predicate HasMetadata(n: Node) {
    n.Plain? || n.target.Some?
  }

  /** The type `metadata` reports, through a link if there is one. */
  function Metadata(n: Node): FileType
    requires HasMetadata(n)
  {
    if n.Plain? then n.ftype else n.target.value
  }

  /** `is_valid_target`: a regular file or a directory, after following
      links. The source unwraps the metadata, so a dangling link here
      panics; the precondition rules that out. */
  predicate IsValidTarget(n: Node)
    requires HasMetadata(n)
  {
    Metadata(n) == RegularFile || Metadata(n) == Directory
  }

  /** `Path::is_file`: a regular file after following links; `false` when
      the metadata cannot be read. */
  predicate IsFile(n: Node) {
    HasMetadata(n) && Metadata(n) == RegularFile
  }

  /** `is_valid_target` is only asked about entries that pass the symlink
      filter; such an entry must have metadata or the source panics. */
  predicate EntryReadable(e: Entry, follow: bool) {
    follow ==> HasMetadata(e.node)
  }

  predicate ListingReadable(l: Listing, follow: bool) {
    forall i :: 0 <= i < |l| && l[i].Some? ==> EntryReadable(l[i].value, follow)
  }

  predicate DirReadable(fs: Fs, d: Path, follow: bool) {
    ReadDir(fs, d).Some? ==> ListingReadable(ReadDir(fs, d).value, follow)
  }

  /** No listing of `fs` makes the walker panic. */
  predicate Readable(fs: Fs, follow: bool) {
    forall d :: d in fs ==> DirReadable(fs, d, follow)
  }

  /** How an entry is walked, stated directly: a plain regular file or
      directory is walked as what it is; a link is walked as its target's
      type only when links are followed; anything else is skipped. */
  function Resolve(n: Node, follow: bool): Option<FileType> {
    match n
    case Plain(t) => if t == Other then None else Some(t)
    case Symlink(t) => if follow && t.Some? && t.value != Other then t else None
  }

  /** `is_symlink` decides exactly what changes when links are not
      followed: a link is then skipped, and any other entry is walked as it
      would be with links followed. */
  lemma UnfollowedLinksSkipped(n: Node)
    ensures Resolve(n, false) == if IsSymlink(n) then None else Resolve(n, true)
  {
  }

  /** `is_valid_target` holds exactly of the entries whose type, links
      followed, is walked as something; among those `is_file` picks out
      the regular files. */
  lemma ValidTargetResolves(n: Node)
    requires HasMetadata(n)
    ensures IsValidTarget(n) <==> Resolve(n, true).Some?
    ensures IsValidTarget(n) ==> (IsFile(n) <==> Resolve(n, true) == Some(RegularFile))
  {
  }

  /** The two filters of `load` and its `partition(is_file)`: an entry is
      kept exactly when it resolves, and goes to the files side exactly
      when it resolves to a regular file. */
  lemma EntryKeptIffResolved(n: Node, follow: bool)
    requires follow ==> HasMetadata(n)
    ensures var kept := (!IsSymlink(n) || follow) && IsValidTarget(n);
      && (kept <==> Resolve(n, follow).Some?)
      && (kept ==> (IsFile(n) <==> Resolve(n, follow) == Some(RegularFile)))
  {
    if !follow {
      UnfollowedLinksSkipped(n);
    }
    if HasMetadata(n) {
      ValidTargetResolves(n);
    }
  }

  /** The listing has an entry called `name` that is walked as `kind`. */
  ghost predicate Lists(l: Listing, name: string, kind: FileType, follow: bool) {
    exists i :: 0 <= i < |l| && l[i].Some? && l[i].value.name == name && Resolve(l[i].value.node, follow) == Some(kind)
  }

  /** `p` names an entry directly inside directory `d`. */
  predicate IsChild(d: Path, p: Path) {
    |p| == |d| + 1 && d <= p
  }

  lemma ListsOfTail(l: Listing, follow: bool)
    requires l != []
    ensures forall name, kind :: Lists(l[1..], name, kind, follow) ==> Lists(l, name, kind, follow)
  {
    forall name, kind | Lists(l[1..], name, kind, follow) ensures Lists(l, name, kind, follow) {
      var j :| 0 <= j < |l[1..]| && l[1..][j].Some? && l[1..][j].value.name == name
        && Resolve(l[1..][j].value.node, follow) == Some(kind);
      assert l[j + 1] == l[1..][j];
    }
  }

  /** The entry pipeline of `load`: drop entries the listing failed on,
      drop links unless they are followed, drop what is not a regular file
      or directory, and split the rest by `is_file`, each side in listing
      order. An entry's path is the directory's path plus its name. */
  function Partition(d: Path, l: Listing, follow: bool): (r: (seq<Path>, seq<Path>))
    requires ListingReadable(l, follow)
    ensures |r.0| + |r.1| <= |l|
    ensures forall p :: p in r.0 ==> IsChild(d, p) && Lists(l, p[|d|], RegularFile, follow)
    ensures forall p :: p in r.1 ==> IsChild(d, p) && Lists(l, p[|d|], Directory, follow)
    ensures forall i :: 0 <= i < |l| && l[i].Some? && Resolve(l[i].value.node, follow) == Some(RegularFile)
              ==> d + [l[i].value.name] in r.0
    ensures forall i :: 0 <= i < |l| && l[i].Some? && Resolve(l[i].value.node, follow) == Some(Directory)
              ==> d + [l[i].value.name] in r.1
    decreases |l|
  {
    if l == [] then ([], [])
    else
      var rest := Partition(d, l[1..], follow);
      ListsOfTail(l, follow);
      assert forall i :: 1 <= i < |l| ==> l[i] == l[1..][i - 1];
      match l[0]
      case None => rest
      case Some(e) =>
        var p := d + [e.name];
        assert p[|d|] == e.name && IsChild(d, p);
        if (!IsSymlink(e.node) || follow) && IsValidTarget(e.node) then
          if IsFile(e.node) then ([p] + rest.0, rest.1)
          else (rest.0, [p] + rest.1)
        else rest
  }

  /** `load`: the files and the subdirectories of `d`, or `None` when `d`
      cannot be listed. A path is returned on the files side exactly when
      it names an entry walked as a regular file, and on the directories
      side exactly when it names an entry walked as a directory. */
  function Load(fs: Fs, d: Path, follow: bool): (r: Option<(seq<Path>, seq<Path>)>)
    requires DirReadable(fs, d, follow)
    ensures r.None? <==> ReadDir(fs, d).None?
    ensures r.Some? ==> forall p :: p in r.value.0 <==> IsChild(d, p) && Lists(ReadDir(fs, d).value, p[|d|], RegularFile, follow)
    ensures r.Some? ==> forall p :: p in r.value.1 <==> IsChild(d, p) && Lists(ReadDir(fs, d).value, p[|d|], Directory, follow)
  {
    match ReadDir(fs, d)
    case None => None
    case Some(l) =>
      var r := Partition(d, l, follow);
      forall p | IsChild(d, p) && Lists(l, p[|d|], RegularFile, follow) ensures p in r.0 {
        var i :| 0 <= i < |l| && l[i].Some? && l[i].value.name == p[|d|] && Resolve(l[i].value.node, follow) == Some(RegularFile);
        assert p == d + [p[|d|]];
      }
      forall p | IsChild(d, p) && Lists(l, p[|d|], Directory, follow) ensures p in r.1 {
        var i :| 0 <= i < |l| && l[i].Some? && l[i].value.name == p[|d|] && Resolve(l[i].value.node, follow) == Some(Directory);
        assert p == d + [p[|d|]];
      }
      Some(r)
  }

  /* ---------------------------------------------------------------- *
   *  Depth and expansion                                              *
   * ---------------------------------------------------------------- */

  /** `depth`: component count of `d` minus that of the origin. The
      source subtracts `usize` values, so a path shallower than the origin
      is a caller error. */
  function Depth(origin: Path, d: Path): nat
    requires |origin| <= |d|
  {
    |d| - |origin|
  }

  /** `depth` counts levels below the origin: the origin is at depth 0,
      and an entry lies one level below the directory that lists it. */
  lemma DepthOfChild(origin: Path, d: Path, p: Path)
    requires |origin| <= |d| && IsChild(d, p)
    ensures Depth(origin, origin) == 0
    ensures Depth(origin, p) == Depth(origin, d) + 1
  {
  }

  /** The depth of `d` is computable whenever `d` gets listed. */
  predicate DepthDefined(fs: Fs, origin: Path, d: Path) {
    ReadDir(fs, d).Some? ==> |origin| <= |d|
  }

  /** `current_depth < self.max_depth`, with the depth cast to `u32` as
      the source writes it. */
  predicate Gate(cfg: Config, d: Path)
    requires |cfg.origin| <= |d|
  {
    AsU32(Depth(cfg.origin, d)) < cfg.maxDepth
  }

  /** `push`: list `d`; on success append its files to the file queue
      and, while `d` is below the depth limit, its subdirectories to the
      directory queue. A listing error changes nothing. */
  function Push(fs: Fs, w: FileWalker, d: Path): (r: FileWalker)
    requires DirReadable(fs, d, w.cfg.followSymlinks)
    requires DepthDefined(fs, w.cfg.origin, d)
    ensures r.cfg == w.cfg
    ensures w.files <= r.files && w.dirs <= r.dirs
    ensures ReadDir(fs, d).None? ==> r == w
    ensures ReadDir(fs, d).Some? ==>
              forall p :: p in r.files[|w.files|..] <==>
                IsChild(d, p) && Lists(ReadDir(fs, d).value, p[|d|], RegularFile, w.cfg.followSymlinks)
    ensures ReadDir(fs, d).Some? && !Gate(w.cfg, d) ==> r.dirs == w.dirs
    ensures ReadDir(fs, d).Some? && Gate(w.cfg, d) ==>
              forall p :: p in r.dirs[|w.dirs|..] <==>
                IsChild(d, p) && Lists(ReadDir(fs, d).value, p[|d|], Directory, w.cfg.followSymlinks)
  {
    match Load(fs, d, w.cfg.followSymlinks)
    case None => w
    case Some((files, dirs)) =>
      var r := w.(files := w.files + files, dirs := if Gate(w.cfg, d) then w.dirs + dirs else w.dirs);
      assert r.files[|w.files|..] == files;
      assert Gate(w.cfg, d) ==> r.dirs[|w.dirs|..] == dirs;
      r
  }

  /** `p` lies strictly beneath the origin, at most `limit` levels down. */
  predicate WithinOrigin(cfg: Config, p: Path, limit: int) {
    cfg.origin <= p && 1 <= |p| - |cfg.origin| <= limit
  }

  /** What every reachable walker state satisfies: queued directories lie
      beneath the origin no deeper than `max_depth`, and queued files no
      deeper than one level more. */
  predicate Inv(w: FileWalker) {
    && (forall i :: 0 <= i < |w.dirs| ==> WithinOrigin(w.cfg, w.dirs[i], w.cfg.maxDepth as int))
    && (forall i :: 0 <= i < |w.files| ==> WithinOrigin(w.cfg, w.files[i], w.cfg.maxDepth as int + 1))
  }

  /** `for_path`: load the root (the source panics when it cannot be
      listed), queue its files, and queue its subdirectories only when
      `max_depth > 0`. */
  function ForPath(fs: Fs, path: Path, maxDepth: u32, follow: bool): (r: FileWalker)
    requires ReadDir(fs, path).Some?
    requires DirReadable(fs, path, follow)
    ensures r.cfg == Config(path, maxDepth, follow)
    ensures Inv(r)
    ensures maxDepth == 0 ==> r.dirs == []
    ensures forall p :: p in r.files <==> IsChild(path, p) && Lists(ReadDir(fs, path).value, p[|path|], RegularFile, follow)
    ensures maxDepth > 0 ==>
              forall p :: p in r.dirs <==> IsChild(path, p) && Lists(ReadDir(fs, path).value, p[|path|], Directory, follow)
  {
    var loaded := Load(fs, path, follow);
    var r := FileWalker(loaded.value.0, if maxDepth > 0 then loaded.value.1 else [], Config(path, maxDepth, follow));
    assert forall i :: 0 <= i < |r.files| ==> r.files[i] in loaded.value.0;
    assert forall i :: 0 <= i < |r.dirs| ==> r.dirs[i] in loaded.value.1;
    r
  }

  /* ---------------------------------------------------------------- *
   *  What remains to be walked                                        *
   * ---------------------------------------------------------------- */

  /** Every directory of the queue can have its depth taken when listed. */
  predicate DepthsDefined(fs: Fs, origin: Path, ds: seq<Path>) {
    forall i :: 0 <= i < |ds| ==> DepthDefined(fs, origin, ds[i])
  }

  /** Every queued directory can have its depth taken when listed. */
  predicate QueueDepthDefined(fs: Fs, w: FileWalker) {
    DepthsDefined(fs, w.cfg.origin, w.dirs)
  }

  /** Entries still reachable from directory `d`, counting `d` itself and
      ignoring the depth limit: an upper bound on the work left below `d`. */
  function Size(fs: Fs, follow: bool, d: Path): (n: nat)
    requires Readable(fs, follow)
    ensures n >= 1
    decreases Below(fs, d), 1
  {
    match ReadDir(fs, d)
    case None => 1
    case Some(l) =>
      var (files, dirs) := Partition(d, l, follow);
      assert forall i :: 0 <= i < |dirs| ==> dirs[i] in dirs;
      1 + |files| + ChildrenSize(fs, follow, d, dirs)
  }

  function ChildrenSize(fs: Fs, follow: bool, parent: Path, cs: seq<Path>): nat
    requires Readable(fs, follow)
    requires parent in fs
    requires forall i :: 0 <= i < |cs| ==> IsChild(parent, cs[i])
    decreases Below(fs, parent), 0, |cs|
  {
    if cs == [] then 0
    else
      assert IsChild(parent, cs[0]);
      BelowShrinks(fs, parent, cs[0]);
      Size(fs, follow, cs[0]) + ChildrenSize(fs, follow, parent, cs[1..])
  }

  function QueueSize(fs: Fs, follow: bool, ds: seq<Path>): nat
    requires Readable(fs, follow)
  {
    if ds == [] then 0 else Size(fs, follow, ds[0]) + QueueSize(fs, follow, ds[1..])
  }

  /** The termination measure of `next`: queued files plus the entries
      still reachable from queued directories. */
  function Measure(fs: Fs, w: FileWalker): nat
    requires Readable(fs, w.cfg.followSymlinks)
  {
    |w.files| + QueueSize(fs, w.cfg.followSymlinks, w.dirs)
  }

  /** The files the walker yields from the subtree of directory `d`: the
      files of `d`, and, while `d` is below the depth limit, those of its
      subdirectories' subtrees. A depth-first reference definition. */
  function Sub(fs: Fs, cfg: Config, d: Path): multiset<Path>
    requires Readable(fs, cfg.followSymlinks)
    requires DepthDefined(fs, cfg.origin, d)
    decreases Below(fs, d), 1
  {
    match ReadDir(fs, d)
    case None => multiset{}
    case Some(l) =>
      var (files, dirs) := Partition(d, l, cfg.followSymlinks);
      assert forall i :: 0 <= i < |dirs| ==> dirs[i] in dirs;
      multiset(files) + (if Gate(cfg, d) then ChildrenSub(fs, cfg, d, dirs) else multiset{})
  }

  function ChildrenSub(fs: Fs, cfg: Config, parent: Path, cs: seq<Path>): multiset<Path>
    requires Readable(fs, cfg.followSymlinks)
    requires parent in fs && |cfg.origin| <= |parent|
    requires forall i :: 0 <= i < |cs| ==> IsChild(parent, cs[i])
    decreases Below(fs, parent), 0, |cs|
  {
    if cs == [] then multiset{}
    else
      assert IsChild(parent, cs[0]);
      BelowShrinks(fs, parent, cs[0]);
      Sub(fs, cfg, cs[0]) + ChildrenSub(fs, cfg, parent, cs[1..])
  }

  function QueueSub(fs: Fs, cfg: Config, ds: seq<Path>): multiset<Path>
    requires Readable(fs, cfg.followSymlinks)
    requires DepthsDefined(fs, cfg.origin, ds)
  {
    if ds == [] then multiset{} else Sub(fs, cfg, ds[0]) + QueueSub(fs, cfg, ds[1..])
  }

  /** Every file the walker has still to yield: the queued files and the
      subtrees of the queued directories. */
  function Reach(fs: Fs, w: FileWalker): multiset<Path>
    requires Readable(fs, w.cfg.followSymlinks)
    requires QueueDepthDefined(fs, w)
  {
    multiset(w.files) + QueueSub(fs, w.cfg, w.dirs)
  }

  lemma {:induction false} ChildrenSizeIsQueueSize(fs: Fs, follow: bool, parent: Path, cs: seq<Path>)
    requires Readable(fs, follow)
    requires parent in fs
    requires forall i :: 0 <= i < |cs| ==> IsChild(parent, cs[i])
    ensures ChildrenSize(fs, follow, parent, cs) == QueueSize(fs, follow, cs)
    decreases |cs|
  {
    if cs != [] {
      ChildrenSizeIsQueueSize(fs, follow, parent, cs[1..]);
    }
  }

  lemma {:induction false} QueueSizeAppend(fs: Fs, follow: bool, a: seq<Path>, b: seq<Path>)
    requires Readable(fs, follow)
    ensures QueueSize(fs, follow, a + b) == QueueSize(fs, follow, a) + QueueSize(fs, follow, b)
    decreases |a|
  {
    if a == [] {
      assert a + b == b;
    } else {
      QueueSizeAppend(fs, follow, a[1..], b);
      assert (a + b)[1..] == a[1..] + b;
    }
  }

  lemma {:induction false} ChildrenSubIsQueueSub(fs: Fs, cfg: Config, parent: Path, cs: seq<Path>)
    requires Readable(fs, cfg.followSymlinks)
    requires parent in fs && |cfg.origin| <= |parent|
    requires forall i :: 0 <= i < |cs| ==> IsChild(parent, cs[i])
    ensures DepthsDefined(fs, cfg.origin, cs)
    ensures ChildrenSub(fs, cfg, parent, cs) == QueueSub(fs, cfg, cs)
    decreases |cs|
  {
    if cs != [] {
      ChildrenSubIsQueueSub(fs, cfg, parent, cs[1..]);
    }
  }

  lemma DepthsDefinedAppend(fs: Fs, origin: Path, a: seq<Path>, b: seq<Path>)
    requires DepthsDefined(fs, origin, a) && DepthsDefined(fs, origin, b)
    ensures DepthsDefined(fs, origin, a + b) && DepthsDefined(fs, origin, (a + b)[|a|..])
  {
    assert (a + b)[|a|..] == b;
  }

  lemma {:induction false} QueueSubAppend(fs: Fs, cfg: Config, a: seq<Path>, b: seq<Path>)
    requires Readable(fs, cfg.followSymlinks)
    requires DepthsDefined(fs, cfg.origin, a) && DepthsDefined(fs, cfg.origin, b)
    ensures DepthsDefined(fs, cfg.origin, a + b)
    ensures QueueSub(fs, cfg, a + b) == QueueSub(fs, cfg, a) + QueueSub(fs, cfg, b)
    decreases |a|
  {
    DepthsDefinedAppend(fs, cfg.origin, a, b);
    if a == [] {
      assert a + b == b;
    } else {
      assert DepthsDefined(fs, cfg.origin, a[1..]);
      QueueSubAppend(fs, cfg, a[1..], b);
      assert (a + b)[1..] == a[1..] + b;
    }
  }

  /** Expanding `d` into a walker adds less than `d`'s size to its
      measure. */
  lemma PushMeasure(fs: Fs, w: FileWalker, d: Path)
    requires Readable(fs, w.cfg.followSymlinks)
    requires DepthDefined(fs, w.cfg.origin, d)
    ensures Measure(fs, Push(fs, w, d)) < Measure(fs, w) + Size(fs, w.cfg.followSymlinks, d)
  {
    var follow := w.cfg.followSymlinks;
    match ReadDir(fs, d)
    case None =>
    case Some(l) =>
      var (files, dirs) := Partition(d, l, follow);
      assert forall i :: 0 <= i < |dirs| ==> dirs[i] in dirs;
      ChildrenSizeIsQueueSize(fs, follow, d, dirs);
      QueueSizeAppend(fs, follow, w.dirs, dirs);
      var r := Push(fs, w, d);
      assert r.files == w.files + files;
      assert r.dirs == w.dirs + dirs || r.dirs == w.dirs;
  }

  /** How `push` extends the queues when `d` can be listed. */
  lemma PushShape(fs: Fs, w: FileWalker, d: Path)
    requires Readable(fs, w.cfg.followSymlinks)
    requires DepthDefined(fs, w.cfg.origin, d)
    requires ReadDir(fs, d).Some?
    ensures var (files, dirs) := Partition(d, ReadDir(fs, d).value, w.cfg.followSymlinks);
      Push(fs, w, d) == w.(files := w.files + files, dirs := if Gate(w.cfg, d) then w.dirs + dirs else w.dirs)
  {
  }

  /** Expanding `d` into a walker adds exactly `d`'s subtree to what the
      walker has still to yield. */
  lemma PushReach(fs: Fs, w: FileWalker, d: Path)
    requires Readable(fs, w.cfg.followSymlinks)
    requires QueueDepthDefined(fs, w)
    requires DepthDefined(fs, w.cfg.origin, d)
    ensures QueueDepthDefined(fs, Push(fs, w, d))
    ensures Reach(fs, Push(fs, w, d)) == Reach(fs, w) + Sub(fs, w.cfg, d)
  {
    var cfg := w.cfg;
    if ReadDir(fs, d).Some? {
      var l := ReadDir(fs, d).value;
      var (files, dirs) := Partition(d, l, cfg.followSymlinks);
      assert forall i :: 0 <= i < |dirs| ==> dirs[i] in dirs;
      ChildrenSubIsQueueSub(fs, cfg, d, dirs);
      PushShape(fs, w, d);
      var r := Push(fs, w, d);
      assert multiset(r.files) == multiset(w.files) + multiset(files);
      if Gate(cfg, d) {
        QueueSubAppend(fs, cfg, w.dirs, dirs);
        assert Sub(fs, cfg, d) == multiset(files) + QueueSub(fs, cfg, dirs);
        assert r.dirs == w.dirs + dirs;
      } else {
        assert Sub(fs, cfg, d) == multiset(files);
        assert r.dirs == w.dirs;
      }
    }
  }

  /** Returning the front file removes exactly that file from what the
      walker has still to yield. */
  lemma PopFile(fs: Fs, w: FileWalker)
    requires Readable(fs, w.cfg.followSymlinks)
    requires QueueDepthDefined(fs, w)
    requires w.files != []
    ensures w.files[0] in Reach(fs, w)
    ensures Reach(fs, w.(files := w.files[1..])) == Reach(fs, w) - multiset{w.files[0]}
    ensures Measure(fs, w.(files := w.files[1..])) < Measure(fs, w)
  {
    assert w.files == [w.files[0]] + w.files[1..];
  }

  /** Popping the front directory and expanding it keeps what is still to
      be yielded and shrinks the measure. */
  lemma ExpandFront(fs: Fs, w: FileWalker)
    requires Readable(fs, w.cfg.followSymlinks)
    requires QueueDepthDefined(fs, w)
    requires w.files == [] && w.dirs != []
    ensures var pushed := Push(fs, w.(dirs := w.dirs[1..]), w.dirs[0]);
      && QueueDepthDefined(fs, pushed)
      && Reach(fs, pushed) == Reach(fs, w)
      && Measure(fs, pushed) < Measure(fs, w)
  {
    var popped := w.(dirs := w.dirs[1..]);
    PushReach(fs, popped, w.dirs[0]);
    PushMeasure(fs, popped, w.dirs[0]);
  }

  /* ---------------------------------------------------------------- *
   *  Iteration                                                        *
   * ---------------------------------------------------------------- */

  /** `Iterator::next`: the front queued file, or else the result of
      expanding the front queued directory and trying again, or `None`
      once both queues are empty. */
  function Next(fs: Fs, w: FileWalker): (r: (Option<Path>, FileWalker))
    requires Readable(fs, w.cfg.followSymlinks)
    requires QueueDepthDefined(fs, w)
    ensures r.1.cfg == w.cfg && QueueDepthDefined(fs, r.1)
    ensures w.files != [] ==> r == (Some(w.files[0]), w.(files := w.files[1..]))
    ensures w.files == [] && w.dirs == [] ==> r == (None, w)
    ensures r.0.None? ==> r.1 == FileWalker([], [], w.cfg)
    ensures r.0.Some? ==> Measure(fs, r.1) < Measure(fs, w)
    decreases Measure(fs, w)
  {
    if w.files != [] then
      PopFile(fs, w);
      (Some(w.files[0]), w.(files := w.files[1..]))
    else if w.dirs == [] then
      (None, w)
    else
      ExpandFront(fs, w);
      Next(fs, Push(fs, w.(dirs := w.dirs[1..]), w.dirs[0]))
  }

  /** The item `next` returns is always one the walker still had to
      yield, and it is removed from that multiset; `None` comes exactly
      when nothing is left. */
  lemma {:induction false} NextYieldsReach(fs: Fs, w: FileWalker)
    requires Readable(fs, w.cfg.followSymlinks)
    requires QueueDepthDefined(fs, w)
    ensures Next(fs, w).0.None? <==> Reach(fs, w) == multiset{}
    ensures Next(fs, w).0.Some? ==>
              && Next(fs, w).0.value in Reach(fs, w)
              && Reach(fs, Next(fs, w).1) == Reach(fs, w) - multiset{Next(fs, w).0.value}
    decreases Measure(fs, w)
  {
    if w.files != [] {
      PopFile(fs, w);
    } else if w.dirs != [] {
      var pushed := Push(fs, w.(dirs := w.dirs[1..]), w.dirs[0]);
      ExpandFront(fs, w);
      assert Next(fs, w) == Next(fs, pushed);
      NextYieldsReach(fs, pushed);
    }
  }

  lemma AddBack<T>(m: multiset<T>, x: T)
    requires x in m
    ensures multiset{x} + (m - multiset{x}) == m
  {
  }

  /** The items of iterating the walker to the end (`collect`), in order. */
  function Drain(fs: Fs, w: FileWalker): seq<Path>
    requires Readable(fs, w.cfg.followSymlinks)
    requires QueueDepthDefined(fs, w)
    decreases Measure(fs, w)
  {
    var step := Next(fs, w);
    if step.0.None? then [] else [step.0.value] + Drain(fs, step.1)
  }

  /** Iterating to the end yields exactly the files still to be yielded,
      each as often as it is reachable. */
  lemma {:induction false} DrainYieldsReach(fs: Fs, w: FileWalker)
    requires Readable(fs, w.cfg.followSymlinks)
    requires QueueDepthDefined(fs, w)
    ensures multiset(Drain(fs, w)) == Reach(fs, w)
    decreases Measure(fs, w)
  {
    var step := Next(fs, w);
    NextYieldsReach(fs, w);
    if step.0.Some? {
      var p := step.0.value;
      DrainYieldsReach(fs, step.1);
      AddBack(Reach(fs, w), p);
      assert Drain(fs, w) == [p] + Drain(fs, step.1);
    }
  }
}
