/**
 * Properties of the traversal engine of src/lib.rs that relate several
 * operations or whole iterations: what a walker yields in total, in what
 * order, within which depth, and a direct description of which files those
 * are.
 */
module WalkerProperties {
  import opened Wrappers
  import opened Paths
  import opened Filesystem
  import opened Walker

  /* ---------------------------------------------------------------- *
   *  Construction                                                     *
   * ---------------------------------------------------------------- */

  /** `for_path` treats the root as a directory at depth 0: its walker is
      the one obtained by expanding the origin into an empty walker, so
      subdirectories of the root are queued exactly when `max_depth > 0`. */
  lemma ForPathExpandsOrigin(fs: Fs, path: Path, maxDepth: u32, follow: bool)
    requires ReadDir(fs, path).Some?
    requires DirReadable(fs, path, follow)
    ensures ForPath(fs, path, maxDepth, follow)
         == Push(fs, FileWalker([], [], Config(path, maxDepth, follow)), path)
  {
    var cfg := Config(path, maxDepth, follow);
    assert Depth(path, path) == 0;
    assert Gate(cfg, path) <==> maxDepth > 0;
  }

  /** Draining a fresh walker yields exactly the depth-limited subtree of
      the root, each file as often as it is reachable. */
  lemma DrainFromRoot(fs: Fs, path: Path, maxDepth: u32, follow: bool)
    requires Readable(fs, follow)
    requires ReadDir(fs, path).Some?
    ensures multiset(Drain(fs, ForPath(fs, path, maxDepth, follow))) == Sub(fs, Config(path, maxDepth, follow), path)
  {
    var cfg := Config(path, maxDepth, follow);
    var empty := FileWalker([], [], cfg);
    ForPathExpandsOrigin(fs, path, maxDepth, follow);
    PushReach(fs, empty, path);
    DrainYieldsReach(fs, ForPath(fs, path, maxDepth, follow));
  }

  /* ---------------------------------------------------------------- *
   *  Order                                                            *
   * ---------------------------------------------------------------- */

  /** One step of `collect` while a file is queued: that file comes first. */
  lemma DrainPopsFile(fs: Fs, w: FileWalker)
    requires Readable(fs, w.cfg.followSymlinks)
    requires QueueDepthDefined(fs, w)
    requires w.files != []
    ensures Drain(fs, w) == [w.files[0]] + Drain(fs, w.(files := w.files[1..]))
  {
    var step := Next(fs, w);
    assert step == (Some(w.files[0]), w.(files := w.files[1..]));
  }

  /** Files already queued come out first, in queue order, before any
      directory is expanded. */
  lemma {:induction false} DrainQueuedFilesFirst(fs: Fs, w: FileWalker)
    requires Readable(fs, w.cfg.followSymlinks)
    requires QueueDepthDefined(fs, w)
    ensures Drain(fs, w) == w.files + Drain(fs, w.(files := []))
    decreases |w.files|
  {
    var empty := w.(files := []);
    if w.files == [] {
      assert empty == w;
      assert w.files + Drain(fs, empty) == Drain(fs, w);
    } else {
      var rest := w.(files := w.files[1..]);
      assert rest.(files := []) == empty;
      DrainPopsFile(fs, w);
      DrainQueuedFilesFirst(fs, rest);
      var tail := Drain(fs, empty);
      calc {
        Drain(fs, w);
        [w.files[0]] + Drain(fs, rest);
        [w.files[0]] + (rest.files + tail);
        { assert [w.files[0]] + (rest.files + tail) == ([w.files[0]] + rest.files) + tail; }
        ([w.files[0]] + rest.files) + tail;
        { assert [w.files[0]] + rest.files == w.files; }
        w.files + tail;
      }
    }
  }

  /** With no file queued, iteration continues with the walker in which
      the front directory has been popped and expanded: directories are
      expanded in first-in first-out order. */
  lemma DrainExpandsFrontDir(fs: Fs, w: FileWalker)
    requires Readable(fs, w.cfg.followSymlinks)
    requires QueueDepthDefined(fs, w)
    requires w.files == [] && w.dirs != []
    ensures var pushed := Push(fs, w.(dirs := w.dirs[1..]), w.dirs[0]);
      QueueDepthDefined(fs, pushed) && Drain(fs, w) == Drain(fs, pushed)
  {
    ExpandFront(fs, w);
  }

  /** With no file queued, `next` pops the front directory, expands it
      and retries. */
  lemma NextExpandsFrontDir(fs: Fs, w: FileWalker)
    requires Readable(fs, w.cfg.followSymlinks)
    requires QueueDepthDefined(fs, w)
    requires w.files == [] && w.dirs != []
    ensures var pushed := Push(fs, w.(dirs := w.dirs[1..]), w.dirs[0]);
      QueueDepthDefined(fs, pushed) && Next(fs, w) == Next(fs, pushed)
  {
    ExpandFront(fs, w);
  }

  /** A directory that cannot be listed is popped and otherwise skipped:
      `next` continues with the rest of the directory queue. */
  lemma NextSkipsUnlistable(fs: Fs, w: FileWalker)
    requires Readable(fs, w.cfg.followSymlinks)
    requires QueueDepthDefined(fs, w)
    requires w.files == [] && w.dirs != [] && ReadDir(fs, w.dirs[0]).None?
    ensures QueueDepthDefined(fs, w.(dirs := w.dirs[1..]))
    ensures Next(fs, w) == Next(fs, w.(dirs := w.dirs[1..]))
  {
    ExpandFront(fs, w);
  }

  /** Where the front entry of a listing goes when partitioning. */
  function Place(d: Path, x: Option<Entry>, follow: bool, rest: (seq<Path>, seq<Path>)): (seq<Path>, seq<Path>)
    requires x.Some? ==> EntryReadable(x.value, follow)
  {
    match x
    case None => rest
    case Some(e) =>
      if (!IsSymlink(e.node) || follow) && IsValidTarget(e.node) then
        if IsFile(e.node) then ([d + [e.name]] + rest.0, rest.1)
        else (rest.0, [d + [e.name]] + rest.1)
      else rest
  }

  lemma PartitionStep(d: Path, l: Listing, follow: bool)
    requires ListingReadable(l, follow) && l != []
    ensures ListingReadable(l[1..], follow)
    ensures l[0].Some? ==> EntryReadable(l[0].value, follow)
    ensures Partition(d, l, follow) == Place(d, l[0], follow, Partition(d, l[1..], follow))
  {
    assert forall i :: 1 <= i < |l| ==> l[i] == l[1..][i - 1];
  }

  /** The paths of the entries of `l` walked as `kind`, in listing order:
      a reference definition of each side of the partition. */
  function Walked(d: Path, l: Listing, kind: FileType, follow: bool): seq<Path>
    decreases |l|
  {
    if l == [] then []
    else
      var head := if l[0].Some? && Resolve(l[0].value.node, follow) == Some(kind)
        then [d + [l[0].value.name]] else [];
      head + Walked(d, l[1..], kind, follow)
  }

  /** `load` keeps listing order: each side of the partition is exactly the
      order-preserving filter of the listing by how its entries are walked. */
  lemma {:induction false} PartitionIsFilter(d: Path, l: Listing, follow: bool)
    requires ListingReadable(l, follow)
    ensures Partition(d, l, follow) == (Walked(d, l, RegularFile, follow), Walked(d, l, Directory, follow))
    decreases |l|
  {
    if l != [] {
      PartitionStep(d, l, follow);
      PartitionIsFilter(d, l[1..], follow);
      var files := Walked(d, l[1..], RegularFile, follow);
      var dirs := Walked(d, l[1..], Directory, follow);
      assert [] + files == files && [] + dirs == dirs;
    }
  }

  /** `push` appends the listed files, and while the depth gate is open
      the listed subdirectories, behind what was queued, in listing order. */
  lemma PushAppendsInListingOrder(fs: Fs, w: FileWalker, d: Path)
    requires DirReadable(fs, d, w.cfg.followSymlinks)
    requires DepthDefined(fs, w.cfg.origin, d)
    requires ReadDir(fs, d).Some?
    ensures var (l, follow) := (ReadDir(fs, d).value, w.cfg.followSymlinks);
      && Push(fs, w, d).files == w.files + Walked(d, l, RegularFile, follow)
      && Push(fs, w, d).dirs == if Gate(w.cfg, d) then w.dirs + Walked(d, l, Directory, follow) else w.dirs
  {
    PartitionIsFilter(d, ReadDir(fs, d).value, w.cfg.followSymlinks);
  }

  /** With `max_depth = 0` the walker yields the root's own files, in
      listing order, and nothing from any subdirectory. */
  lemma MaxDepthZeroYieldsRootFiles(fs: Fs, path: Path, follow: bool)
    requires Readable(fs, follow)
    requires ReadDir(fs, path).Some?
    ensures var w := ForPath(fs, path, 0, follow);
      && Drain(fs, w) == w.files
      && forall p :: p in Drain(fs, w) <==> IsChild(path, p) && Lists(ReadDir(fs, path).value, p[|path|], RegularFile, follow)
  {
    var w := ForPath(fs, path, 0, follow);
    DrainQueuedFilesFirst(fs, w);
    assert w.(files := []) == FileWalker([], [], w.cfg);
    assert Drain(fs, w.(files := [])) == [];
  }

  /** Once `next` has returned `None` it keeps returning `None`. */
  lemma ExhaustedStaysExhausted(fs: Fs, w: FileWalker)
    requires Readable(fs, w.cfg.followSymlinks)
    requires QueueDepthDefined(fs, w)
    requires Next(fs, w).0.None?
    ensures Next(fs, Next(fs, w).1) == (None, Next(fs, w).1)
  {
  }

  /* ---------------------------------------------------------------- *
   *  Depth                                                            *
   * ---------------------------------------------------------------- */

  /** On a queued directory the `as u32` cast of its depth loses nothing,
      so the depth gate compares the true depth. */
  lemma GateMatchesDepth(w: FileWalker, i: nat)
    requires Inv(w) && i < |w.dirs|
    ensures Gate(w.cfg, w.dirs[i]) <==> Depth(w.cfg.origin, w.dirs[i]) < w.cfg.maxDepth as int
  {
  }

  /** A child of a directory within the depth limit lies one level
      deeper beneath the origin. */
  lemma ChildWithin(cfg: Config, d: Path, p: Path, limit: int)
    requires WithinOrigin(cfg, d, limit) && IsChild(d, p)
    ensures WithinOrigin(cfg, p, limit + 1)
  {
    assert p[..|cfg.origin|] == d[..|cfg.origin|];
  }

  /** Expanding a directory within the depth limit keeps the invariant:
      its files lie at most one level deeper, and its subdirectories are
      queued only when that stays within the limit. */
  lemma PushPreservesInv(fs: Fs, w: FileWalker, d: Path)
    requires Readable(fs, w.cfg.followSymlinks)
    requires Inv(w)
    requires WithinOrigin(w.cfg, d, w.cfg.maxDepth as int)
    ensures Inv(Push(fs, w, d))
  {
    var cfg := w.cfg;
    if ReadDir(fs, d).Some? {
      var (files, dirs) := Partition(d, ReadDir(fs, d).value, cfg.followSymlinks);
      PushShape(fs, w, d);
      var r := Push(fs, w, d);
      forall i | 0 <= i < |r.files| ensures WithinOrigin(cfg, r.files[i], cfg.maxDepth as int + 1) {
        if i >= |w.files| {
          assert r.files[i] == files[i - |w.files|];
          assert files[i - |w.files|] in files;
          ChildWithin(cfg, d, r.files[i], cfg.maxDepth as int);
        }
      }
      if Gate(cfg, d) {
        forall i | 0 <= i < |r.dirs| ensures WithinOrigin(cfg, r.dirs[i], cfg.maxDepth as int) {
          if i >= |w.dirs| {
            assert r.dirs[i] == dirs[i - |w.dirs|];
            assert dirs[i - |w.dirs|] in dirs;
            ChildWithin(cfg, d, r.dirs[i], Depth(cfg.origin, d));
          }
        }
      }
    }
  }

  /** `next` keeps the walker invariant, and what it returns lies beneath
      the origin at most `max_depth + 1` levels down. */
  lemma {:induction false} NextPreservesInv(fs: Fs, w: FileWalker)
    requires Readable(fs, w.cfg.followSymlinks)
    requires Inv(w)
    ensures QueueDepthDefined(fs, w)
    ensures Inv(Next(fs, w).1)
    ensures Next(fs, w).0.Some? ==> WithinOrigin(w.cfg, Next(fs, w).0.value, w.cfg.maxDepth as int + 1)
    decreases Measure(fs, w)
  {
    var step := Next(fs, w);
    if w.files != [] {
      var rest := w.(files := w.files[1..]);
      assert step == (Some(w.files[0]), rest);
      assert forall i :: 0 <= i < |rest.files| ==> rest.files[i] == w.files[i + 1];
      assert Inv(rest);
    } else if w.dirs != [] {
      var popped := w.(dirs := w.dirs[1..]);
      var pushed := Push(fs, popped, w.dirs[0]);
      assert forall i :: 0 <= i < |popped.dirs| ==> popped.dirs[i] == w.dirs[i + 1];
      assert Inv(popped);
      PushPreservesInv(fs, popped, w.dirs[0]);
      ExpandFront(fs, w);
      assert step == Next(fs, pushed);
      NextPreservesInv(fs, pushed);
    }
  }

  /** Everything a walker in the invariant yields lies beneath the origin,
      at most `max_depth + 1` levels down. */
  lemma {:induction false} DrainWithinDepth(fs: Fs, w: FileWalker)
    requires Readable(fs, w.cfg.followSymlinks)
    requires Inv(w)
    ensures QueueDepthDefined(fs, w)
    ensures forall f :: f in Drain(fs, w) ==> WithinOrigin(w.cfg, f, w.cfg.maxDepth as int + 1)
    decreases Measure(fs, w)
  {
    NextPreservesInv(fs, w);
    var step := Next(fs, w);
    if step.0.Some? {
      DrainWithinDepth(fs, step.1);
      assert Drain(fs, w) == [step.0.value] + Drain(fs, step.1);
    } else {
      assert Drain(fs, w) == [];
    }
  }

  /* ---------------------------------------------------------------- *
   *  Which files are yielded                                          *
   * ---------------------------------------------------------------- */

  /** Directory `p` lists an entry called `name` that is walked as `kind`. */
  ghost predicate HasEntry(fs: Fs, follow: bool, p: Path, name: string, kind: FileType) {
    ReadDir(fs, p).Some? && Lists(ReadDir(fs, p).value, name, kind, follow)
  }

  /** Step `k` of the way down to `f`: directory `f[..k]` is above the
      depth limit, so its subdirectories get queued, and lists `f[k]` as a
      directory. */
  ghost predicate DescendsAt(fs: Fs, cfg: Config, f: Path, k: int) {
    && 0 <= k < |f|
    && k - |cfg.origin| < cfg.maxDepth as int
    && HasEntry(fs, cfg.followSymlinks, f[..k], f[k], Directory)
  }

  /** `f` is reached from directory `d`: the way down from `d` to the
      parent of `f` descends at every step, and the parent lists the last
      component of `f` as a regular file. */
  ghost predicate ReachableFrom(fs: Fs, cfg: Config, d: Path, f: Path) {
    && d <= f && |d| < |f|
    && (forall k :: |d| <= k < |f| - 1 ==> DescendsAt(fs, cfg, f, k))
    && HasEntry(fs, cfg.followSymlinks, f[..|f| - 1], f[|f| - 1], RegularFile)
  }

  lemma {:induction false} QueueSubMembership(fs: Fs, cfg: Config, ds: seq<Path>, f: Path)
    requires Readable(fs, cfg.followSymlinks)
    requires DepthsDefined(fs, cfg.origin, ds)
    ensures f in QueueSub(fs, cfg, ds) <==> exists i :: 0 <= i < |ds| && f in Sub(fs, cfg, ds[i])
    decreases |ds|
  {
    if ds != [] {
      QueueSubMembership(fs, cfg, ds[1..], f);
      if f in QueueSub(fs, cfg, ds[1..]) {
        var i :| 0 <= i < |ds[1..]| && f in Sub(fs, cfg, ds[1..][i]);
        assert ds[i + 1] == ds[1..][i];
      }
      if exists i :: 0 <= i < |ds| && f in Sub(fs, cfg, ds[i]) {
        var i :| 0 <= i < |ds| && f in Sub(fs, cfg, ds[i]);
        if i > 0 {
          assert ds[1..][i - 1] == ds[i];
        }
      }
    }
  }

  /** A file listed directly by `d` is reached from `d`, and a file one
      level down is reached from `d` only when `d` lists it. */
  lemma ReachedDirectly(fs: Fs, cfg: Config, d: Path, f: Path)
    requires IsChild(d, f)
    ensures ReachableFrom(fs, cfg, d, f) <==> HasEntry(fs, cfg.followSymlinks, d, f[|d|], RegularFile)
  {
    assert f[..|f| - 1] == d;
  }

  /** Reaching a file from `d` through its subdirectory `c`. */
  lemma ReachedThrough(fs: Fs, cfg: Config, d: Path, c: Path, f: Path)
    requires IsChild(d, c) && c <= f
    requires |d| - |cfg.origin| < cfg.maxDepth as int
    requires HasEntry(fs, cfg.followSymlinks, d, c[|d|], Directory)
    requires ReachableFrom(fs, cfg, c, f)
    ensures ReachableFrom(fs, cfg, d, f)
  {
    assert c[..|d|] == d;
    assert f[..|d|] == d;
    forall k | |d| <= k < |f| - 1 ensures DescendsAt(fs, cfg, f, k) {
      if k == |d| {
        assert f[..k] == d && f[k] == c[|d|];
      }
    }
  }

  /** A file more than one level beneath `d` is reached from `d` only
      through the subdirectory on its path. */
  lemma ReachedOnlyThrough(fs: Fs, cfg: Config, d: Path, f: Path)
    requires ReachableFrom(fs, cfg, d, f) && |f| > |d| + 1
    ensures var c := f[..|d| + 1];
      && c == d + [f[|d|]] && IsChild(d, c)
      && |d| - |cfg.origin| < cfg.maxDepth as int
      && HasEntry(fs, cfg.followSymlinks, d, f[|d|], Directory)
      && ReachableFrom(fs, cfg, c, f)
  {
    var c := f[..|d| + 1];
    assert f[..|d|] == d;
    assert c == d + [f[|d|]];
    assert c[..|d|] == d && c <= f;
    assert DescendsAt(fs, cfg, f, |d|);
  }

  /** Nothing is reached from a directory that cannot be listed. */
  lemma ReachedOnlyFromListed(fs: Fs, cfg: Config, d: Path, f: Path)
    requires ReachableFrom(fs, cfg, d, f)
    ensures ReadDir(fs, d).Some?
  {
    if |f| == |d| + 1 {
      assert f[..|f| - 1] == d;
    } else {
      assert f[..|d|] == d;
      assert DescendsAt(fs, cfg, f, |d|);
    }
  }

  /** The subtree of a directory that can be listed, in terms of the
      queue of its subdirectories. */
  lemma SubOfListed(fs: Fs, cfg: Config, d: Path)
    requires Readable(fs, cfg.followSymlinks)
    requires |cfg.origin| <= |d| && ReadDir(fs, d).Some?
    ensures var (files, dirs) := Partition(d, ReadDir(fs, d).value, cfg.followSymlinks);
      && DepthsDefined(fs, cfg.origin, dirs)
      && Sub(fs, cfg, d) == multiset(files) + (if Gate(cfg, d) then QueueSub(fs, cfg, dirs) else multiset{})
      && (forall p :: p in files <==> IsChild(d, p) && HasEntry(fs, cfg.followSymlinks, d, p[|d|], RegularFile))
      && (forall p :: p in dirs <==> IsChild(d, p) && HasEntry(fs, cfg.followSymlinks, d, p[|d|], Directory))
  {
    var (files, dirs) := Partition(d, ReadDir(fs, d).value, cfg.followSymlinks);
    assert Load(fs, d, cfg.followSymlinks) == Some((files, dirs));
    assert forall i :: 0 <= i < |dirs| ==> dirs[i] in dirs;
    ChildrenSubIsQueueSub(fs, cfg, d, dirs);
  }

  /** Every file in the gated subtree of `d` is reached from `d`. */
  lemma {:induction false} SubSound(fs: Fs, cfg: Config, d: Path, f: Path)
    requires Readable(fs, cfg.followSymlinks)
    requires |cfg.origin| <= |d| && Depth(cfg.origin, d) <= cfg.maxDepth as int
    requires f in Sub(fs, cfg, d)
    ensures ReachableFrom(fs, cfg, d, f)
    decreases Below(fs, d)
  {
    var (files, dirs) := Partition(d, ReadDir(fs, d).value, cfg.followSymlinks);
    SubOfListed(fs, cfg, d);
    if f in files {
      ReachedDirectly(fs, cfg, d, f);
    } else {
      QueueSubMembership(fs, cfg, dirs, f);
      var i :| 0 <= i < |dirs| && f in Sub(fs, cfg, dirs[i]);
      var c := dirs[i];
      assert c in dirs;
      BelowShrinks(fs, d, c);
      SubSound(fs, cfg, c, f);
      assert f[..|c|] == c;
      ReachedThrough(fs, cfg, d, c, f);
    }
  }

  /** Every file reached from `d` is in the gated subtree of `d`. */
  lemma {:induction false} SubComplete(fs: Fs, cfg: Config, d: Path, f: Path)
    requires Readable(fs, cfg.followSymlinks)
    requires |cfg.origin| <= |d| && Depth(cfg.origin, d) <= cfg.maxDepth as int
    requires ReachableFrom(fs, cfg, d, f)
    ensures f in Sub(fs, cfg, d)
    decreases Below(fs, d)
  {
    ReachedOnlyFromListed(fs, cfg, d, f);
    var (files, dirs) := Partition(d, ReadDir(fs, d).value, cfg.followSymlinks);
    SubOfListed(fs, cfg, d);
    if |f| == |d| + 1 {
      ReachedDirectly(fs, cfg, d, f);
      assert f in files;
    } else {
      ReachedOnlyThrough(fs, cfg, d, f);
      var c := f[..|d| + 1];
      assert c[|d|] == f[|d|];
      assert c in dirs;
      var i :| 0 <= i < |dirs| && dirs[i] == c;
      BelowShrinks(fs, d, c);
      SubComplete(fs, cfg, c, f);
      QueueSubMembership(fs, cfg, dirs, f);
      assert Gate(cfg, d);
    }
  }

  /** Which files a walk yields: a file comes out of a fresh walker
      exactly when it is reached from the root, that is, every directory
      on the way down lists the next component as a directory and is above
      the depth limit, and the last directory lists the file itself. */
  lemma WalkYieldsExactlyReachable(fs: Fs, path: Path, maxDepth: u32, follow: bool, f: Path)
    requires Readable(fs, follow)
    requires ReadDir(fs, path).Some?
    ensures f in Drain(fs, ForPath(fs, path, maxDepth, follow))
        <==> ReachableFrom(fs, Config(path, maxDepth, follow), path, f)
  {
    var cfg := Config(path, maxDepth, follow);
    DrainFromRoot(fs, path, maxDepth, follow);
    if f in Sub(fs, cfg, path) {
      SubSound(fs, cfg, path, f);
    }
    if ReachableFrom(fs, cfg, path, f) {
      SubComplete(fs, cfg, path, f);
    }
  }
}
