/**
 * The two depth tests of src/lib.rs are stated for a small directory tree. The
 * tests' own fixture directory is not part of this model; the tree below
 * is one with the counts those tests expect: one file at the top, two more
 * one level down, one more below that, and a symbolic link that is not
 * followed.
 */
module WalkerTests {
  import opened Wrappers
  import opened Paths
  import opened Filesystem
  import opened Walker
  import opened WalkerProperties

  function Root(): Path { ["/", "test_dirs"] }
  function Dir0(): Path { Root() + ["dir0"] }
  function Sub0(): Path { Dir0() + ["sub"] }

  function RootListing(): Listing {
    [ Some(Entry("file0", Plain(RegularFile))),
      Some(Entry("link", Symlink(Some(RegularFile)))),
      Some(Entry("dir0", Plain(Directory))) ]
  }

  function Dir0Listing(): Listing {
    [ Some(Entry("file1", Plain(RegularFile))),
      Some(Entry("file2", Plain(RegularFile))),
      Some(Entry("sub", Plain(Directory))) ]
  }

  function SubListing(): Listing {
    [ Some(Entry("file3", Plain(RegularFile))) ]
  }

  function TestTree(): Fs {
    map[Root() := Some(RootListing()), Dir0() := Some(Dir0Listing()), Sub0() := Some(SubListing())]
  }

  lemma TreeReadable()
    ensures Readable(TestTree(), false)
  {
    var fs := TestTree();
    forall d | d in fs ensures DirReadable(fs, d, false) {
      assert d == Root() || d == Dir0() || d == Sub0();
    }
  }

  lemma PartitionFile(d: Path, name: string, rest: Listing)
    requires ListingReadable(rest, false)
    ensures var p := Partition(d, rest, false);
      Partition(d, [Some(Entry(name, Plain(RegularFile)))] + rest, false) == ([d + [name]] + p.0, p.1)
  {
    var l := [Some(Entry(name, Plain(RegularFile)))] + rest;
    assert l[1..] == rest;
  }

  lemma PartitionDir(d: Path, name: string, rest: Listing)
    requires ListingReadable(rest, false)
    ensures var p := Partition(d, rest, false);
      Partition(d, [Some(Entry(name, Plain(Directory)))] + rest, false) == (p.0, [d + [name]] + p.1)
  {
    var l := [Some(Entry(name, Plain(Directory)))] + rest;
    assert l[1..] == rest;
  }

  lemma PartitionSkipsLink(d: Path, name: string, target: Option<FileType>, rest: Listing)
    requires ListingReadable(rest, false)
    ensures Partition(d, [Some(Entry(name, Symlink(target)))] + rest, false) == Partition(d, rest, false)
  {
    var l := [Some(Entry(name, Symlink(target)))] + rest;
    assert l[1..] == rest;
  }

  lemma RootPartition()
    ensures Partition(Root(), RootListing(), false) == ([Root() + ["file0"]], [Dir0()])
  {
    var d := Root();
    var l2: Listing := [Some(Entry("dir0", Plain(Directory)))];
    var l1: Listing := [Some(Entry("link", Symlink(Some(RegularFile))))] + l2;
    assert RootListing() == [Some(Entry("file0", Plain(RegularFile)))] + l1;
    assert l2 == l2 + [];
    assert Partition(d, [], false) == ([], []);
    PartitionDir(d, "dir0", []);
    assert [d + ["dir0"]] + [] == [Dir0()];
    assert Partition(d, l2, false) == ([], [Dir0()]);
    PartitionSkipsLink(d, "link", Some(RegularFile), l2);
    PartitionFile(d, "file0", l1);
    assert [d + ["file0"]] + [] == [Root() + ["file0"]];
  }

  lemma Dir0Partition()
    ensures Partition(Dir0(), Dir0Listing(), false) == ([Dir0() + ["file1"], Dir0() + ["file2"]], [Sub0()])
  {
    var d := Dir0();
    var l2: Listing := [Some(Entry("sub", Plain(Directory)))];
    var l1: Listing := [Some(Entry("file2", Plain(RegularFile)))] + l2;
    assert Dir0Listing() == [Some(Entry("file1", Plain(RegularFile)))] + l1;
    assert l2 == l2 + [];
    assert Partition(d, [], false) == ([], []);
    PartitionDir(d, "sub", []);
    assert [d + ["sub"]] + [] == [Sub0()];
    assert Partition(d, l2, false) == ([], [Sub0()]);
    PartitionFile(d, "file2", l2);
    assert [d + ["file2"]] + [] == [d + ["file2"]];
    assert Partition(d, l1, false) == ([d + ["file2"]], [Sub0()]);
    PartitionFile(d, "file1", l1);
    assert [d + ["file1"]] + [d + ["file2"]] == [d + ["file1"], d + ["file2"]];
  }

  /** With `max_depth = 0` only the top-level regular file is found; the
      link is not followed. */
  lemma DepthOnlyRootDir()
    ensures Drain(TestTree(), ForPath(TestTree(), Root(), 0, false)) == [Root() + ["file0"]]
  {
    TreeReadable();
    RootPartition();
    MaxDepthZeroYieldsRootFiles(TestTree(), Root(), false);
  }

  lemma WalkerAtDepthOne()
    ensures ForPath(TestTree(), Root(), 1, false) == FileWalker([Root() + ["file0"]], [Dir0()], Config(Root(), 1, false))
  {
    RootPartition();
  }

  /** `dir0` is at depth 1, so with `max_depth = 1` its subdirectory is
      not queued. */
  lemma ExpandDir0()
    ensures var cfg := Config(Root(), 1, false);
      Push(TestTree(), FileWalker([], [], cfg), Dir0()) == FileWalker([Dir0() + ["file1"], Dir0() + ["file2"]], [], cfg)
  {
    var cfg := Config(Root(), 1, false);
    TreeReadable();
    Dir0Partition();
    assert !Gate(cfg, Dir0());
    PushShape(TestTree(), FileWalker([], [], cfg), Dir0());
  }

  /** With `max_depth = 1` the files one level down are found too, after
      the top-level one, but nothing from the level below. */
  lemma DepthOne()
    ensures Drain(TestTree(), ForPath(TestTree(), Root(), 1, false))
         == [Root() + ["file0"], Dir0() + ["file1"], Dir0() + ["file2"]]
  {
    var fs := TestTree();
    var cfg := Config(Root(), 1, false);
    TreeReadable();
    WalkerAtDepthOne();
    ExpandDir0();
    var w0 := FileWalker([Root() + ["file0"]], [Dir0()], cfg);
    var w1 := FileWalker([], [Dir0()], cfg);
    var w2 := FileWalker([Dir0() + ["file1"], Dir0() + ["file2"]], [], cfg);
    DrainQueuedFilesFirst(fs, w0);
    DrainExpandsFrontDir(fs, w1);
    DrainQueuedFilesFirst(fs, w2);
    assert Drain(fs, FileWalker([], [], cfg)) == [];
  }
}
