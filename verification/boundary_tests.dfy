/**
 * The cases pinned down by the unit tests of src/fs.rs, on the mount table
 * those tests share. Paths are written as their components.
 */
module BoundaryTests {
  import opened Paths
  import opened Boundaries

  /** The thirteen mount points the tests list, in their order, grouped so
      that each test's root keeps or drops whole groups. Each entry is
      `Components` of the test's string, i.e. what `PathBuf::from` gives:
      "/" is `["/"]`, and "/sys/fs/cgroup/cpu,cpuacct" is
      `["/", "sys", "fs", "cgroup", "cpu,cpuacct"]`. The roots of the tests
      are written the same way. */
  function TestMounts(): seq<Path> {
    SystemMounts() + [["/"]] + UserMounts() + SecurityMounts() + CgroupMounts()
  }

  function SystemMounts(): seq<Path> {
    [ ["/", "proc"],
      ["/", "sys"],
      ["/", "sys", "firmware", "efi", "efivars"],
      ["/", "dev"],
      ["/", "run"] ]
  }

  function UserMounts(): seq<Path> {
    [ ["/", "tmp"],
      ["/", "home"],
      ["/", "boot"] ]
  }

  function SecurityMounts(): seq<Path> {
    [ ["/", "sys", "kernel", "security"] ]
  }

  function CgroupMounts(): seq<Path> {
    [ ["/", "sys", "fs", "cgroup", "memory"],
      ["/", "sys", "fs", "cgroup", "cpu,cpuacct"],
      ["/", "sys", "fs", "cgroup", "freezer"] ]
  }

  /** A root whose ancestors (`/`, `/home`) are mounted has no boundary. */
  lemma NoBoundary()
    ensures FsBoundaries(TestMounts(), ["/", "home", "user"]) == []
  {
    var t := TestMounts();
    var root: Path := ["/", "home", "user"];
    forall i | 0 <= i < |t| ensures !IsBoundary(root, t[i]) {
      assert |t[i]| < 3 || t[i][1] != "home";
    }
    NothingKept(t, root);
  }

  /** The boundaries of the test table, group by group. */
  lemma BoundariesByGroup(root: Path)
    ensures FsBoundaries(TestMounts(), root)
         == FsBoundaries(SystemMounts(), root) + FsBoundaries([["/"]], root) + FsBoundaries(UserMounts(), root)
          + FsBoundaries(SecurityMounts(), root) + FsBoundaries(CgroupMounts(), root)
  {
    var a := SystemMounts() + [["/"]];
    var b := a + UserMounts();
    var c := b + SecurityMounts();
    BoundariesOfConcat(c, CgroupMounts(), root);
    BoundariesOfConcat(b, SecurityMounts(), root);
    BoundariesOfConcat(a, UserMounts(), root);
    BoundariesOfConcat(SystemMounts(), [["/"]], root);
  }

  /** Only the mount beneath `/sys/kernel` is kept; `/sys` and `/` are not. */
  lemma SingleBoundary()
    ensures FsBoundaries(TestMounts(), ["/", "sys", "kernel"]) == SecurityMounts()
  {
    var root: Path := ["/", "sys", "kernel"];
    forall i | 0 <= i < |SystemMounts()| ensures !IsBoundary(root, SystemMounts()[i]) {
      assert |SystemMounts()[i]| < 3 || SystemMounts()[i][2] != "kernel";
    }
    forall i | 0 <= i < |UserMounts()| ensures !IsBoundary(root, UserMounts()[i]) {
      assert |UserMounts()[i]| == 2;
    }
    forall i | 0 <= i < |CgroupMounts()| ensures !IsBoundary(root, CgroupMounts()[i]) {
      assert CgroupMounts()[i][2] == "fs";
    }
    assert IsBoundary(root, SecurityMounts()[0]);
    NothingKept(SystemMounts(), root);
    NothingKept([["/"]], root);
    NothingKept(UserMounts(), root);
    EverythingKept(SecurityMounts(), root);
    NothingKept(CgroupMounts(), root);
    BoundariesByGroup(root);
  }

  /** A root that is itself a mount point is left out of its boundaries;
      every other mount lies beneath it. */
  lemma RootIsNotItsOwnBoundary()
    ensures FsBoundaries(TestMounts(), ["/"])
         == SystemMounts() + UserMounts() + SecurityMounts() + CgroupMounts()
  {
    var root: Path := ["/"];
    forall i | 0 <= i < |SystemMounts()| ensures IsBoundary(root, SystemMounts()[i]) {
      assert SystemMounts()[i][..1] == root;
    }
    forall i | 0 <= i < |UserMounts()| ensures IsBoundary(root, UserMounts()[i]) {
      assert UserMounts()[i][..1] == root;
    }
    forall i | 0 <= i < |CgroupMounts()| ensures IsBoundary(root, CgroupMounts()[i]) {
      assert CgroupMounts()[i][..1] == root;
    }
    assert SecurityMounts()[0][..1] == root;
    EverythingKept(SystemMounts(), root);
    NothingKept([root], root);
    EverythingKept(UserMounts(), root);
    EverythingKept(SecurityMounts(), root);
    EverythingKept(CgroupMounts(), root);
    BoundariesByGroup(root);
    assert SystemMounts() + [] == SystemMounts();
  }

  /** Several boundaries come back in mount-table order. */
  lemma MultipleBoundaries()
    ensures FsBoundaries(TestMounts(), ["/", "sys", "fs"]) == CgroupMounts()
  {
    var root: Path := ["/", "sys", "fs"];
    forall i | 0 <= i < |SystemMounts()| ensures !IsBoundary(root, SystemMounts()[i]) {
      assert |SystemMounts()[i]| < 3 || SystemMounts()[i][2] != "fs";
    }
    forall i | 0 <= i < |UserMounts()| ensures !IsBoundary(root, UserMounts()[i]) {
      assert |UserMounts()[i]| == 2;
    }
    forall i | 0 <= i < |CgroupMounts()| ensures IsBoundary(root, CgroupMounts()[i]) {
      assert CgroupMounts()[i][..3] == root;
    }
    assert SecurityMounts()[0][2] == "kernel";
    NothingKept(SystemMounts(), root);
    NothingKept([["/"]], root);
    NothingKept(UserMounts(), root);
    NothingKept(SecurityMounts(), root);
    EverythingKept(CgroupMounts(), root);
    BoundariesByGroup(root);
  }
}
