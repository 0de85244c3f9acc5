/**
 * The filesystem-boundary filter of src/fs.rs: from the mount points of the
 * system, keep those that lie strictly beneath a root path.
 */
module Boundaries {
  import opened Paths

  /** `fs.starts_with(path) && *fs != path`: the mount point is a proper
      descendant of the root, component by component. */
  predicate IsBoundary(root: Path, mount: Path) {
    root <= mount && mount != root
  }

  /** `fs_boundaries`: the mount points strictly beneath `root`, in the
      order of `mounts`, with repetitions kept. */
  function FsBoundaries(mounts: seq<Path>, root: Path): (r: seq<Path>)
    ensures |r| <= |mounts|
  {
    if mounts == [] then []
    else
      var rest := FsBoundaries(mounts[1..], root);
      if IsBoundary(root, mounts[0]) then [mounts[0]] + rest else rest
  }

  /** A path is returned exactly when it is in the mount table and lies
      strictly beneath the root; in particular the root itself never is. */
  lemma {:induction false} BoundaryMembership(mounts: seq<Path>, root: Path, m: Path)
    ensures m in FsBoundaries(mounts, root) <==> m in mounts && root <= m && |root| < |m|
    ensures root !in FsBoundaries(mounts, root)
    decreases |mounts|
  {
    if mounts != [] {
      BoundaryMembership(mounts[1..], root, m);
      assert mounts == [mounts[0]] + mounts[1..];
      if root <= m && |root| < |m| {
        assert m != root;
      }
    }
  }

  /** The filter does not remove duplicates: a boundary occurs in the result
      exactly as often as in the mount table, and nothing else occurs. */
  lemma {:induction false} BoundariesKeepRepetitions(mounts: seq<Path>, root: Path, m: Path)
    ensures multiset(FsBoundaries(mounts, root))[m] == if IsBoundary(root, m) then multiset(mounts)[m] else 0
    decreases |mounts|
  {
    if mounts != [] {
      BoundariesKeepRepetitions(mounts[1..], root, m);
      assert mounts == [mounts[0]] + mounts[1..];
    }
  }

  /** `a` is `b` with some elements left out, the rest in their order. */
  predicate IsSubsequence<T(==)>(a: seq<T>, b: seq<T>)
    decreases |b|
  {
    if a == [] then true
    else if b == [] then false
    else if a[0] == b[0] then IsSubsequence(a[1..], b[1..])
    else IsSubsequence(a, b[1..])
  }

  /** The filter keeps the mount order of its input. */
  lemma {:induction false} BoundariesAreSubsequence(mounts: seq<Path>, root: Path)
    ensures IsSubsequence(FsBoundaries(mounts, root), mounts)
    decreases |mounts|
  {
    if mounts != [] {
      BoundariesAreSubsequence(mounts[1..], root);
      var rest := FsBoundaries(mounts[1..], root);
      if !IsBoundary(root, mounts[0]) && rest != [] {
        SubsequenceSkip(rest, mounts);
      }
    }
  }

  lemma {:induction false} SubsequenceSkip<T>(a: seq<T>, b: seq<T>)
    requires b != [] && IsSubsequence(a, b[1..])
    ensures IsSubsequence(a, b)
    decreases |b|, 0
  {
    if a != [] && a[0] == b[0] {
      SubsequenceDropFirst(a, b[1..]);
    }
  }

  lemma {:induction false} SubsequenceDropFirst<T>(a: seq<T>, c: seq<T>)
    requires a != [] && IsSubsequence(a, c)
    ensures IsSubsequence(a[1..], c)
    decreases |c|, 1
  {
    if a[0] == c[0] {
      if a[1..] != [] {
        SubsequenceSkip(a[1..], c);
      }
    } else {
      SubsequenceDropFirst(a, c[1..]);
      if a[1..] != [] {
        SubsequenceSkip(a[1..], c);
      }
    }
  }

  /** Filtering a concatenation filters each part: the order of the
      boundaries follows the order of the mount table. */
  lemma {:induction false} BoundariesOfConcat(a: seq<Path>, b: seq<Path>, root: Path)
    ensures FsBoundaries(a + b, root) == FsBoundaries(a, root) + FsBoundaries(b, root)
    decreases |a|
  {
    if a == [] {
      assert a + b == b;
    } else {
      var ab := a + b;
      assert ab[0] == a[0];
      assert ab[1..] == a[1..] + b;
      BoundariesOfConcat(a[1..], b, root);
      if IsBoundary(root, a[0]) {
        calc {
          FsBoundaries(ab, root);
          [a[0]] + FsBoundaries(a[1..] + b, root);
          [a[0]] + (FsBoundaries(a[1..], root) + FsBoundaries(b, root));
          ([a[0]] + FsBoundaries(a[1..], root)) + FsBoundaries(b, root);
        }
      } else {
        calc {
          FsBoundaries(ab, root);
          FsBoundaries(a[1..] + b, root);
        }
      }
    }
  }

  /** Every returned mount point is already a boundary, so a second pass
      with the same root keeps all of them. */
  lemma {:induction false} BoundariesIdempotent(mounts: seq<Path>, root: Path)
    ensures FsBoundaries(FsBoundaries(mounts, root), root) == FsBoundaries(mounts, root)
    decreases |mounts|
  {
    if mounts != [] {
      BoundariesIdempotent(mounts[1..], root);
      var rest := FsBoundaries(mounts[1..], root);
      if IsBoundary(root, mounts[0]) {
        assert ([mounts[0]] + rest)[1..] == rest;
      }
    }
  }

  /** An ancestor of the root, the root itself, and a path beside the root
      are never boundaries. */
  lemma {:induction false} AncestorsAndSiblingsExcluded(mounts: seq<Path>, root: Path, m: Path)
    requires m <= root || !(root <= m)
    ensures m !in FsBoundaries(mounts, root)
  {
    BoundaryMembership(mounts, root, m);
  }

  /** A table without boundaries filters to nothing. */
  lemma {:induction false} NothingKept(mounts: seq<Path>, root: Path)
    requires forall i :: 0 <= i < |mounts| ==> !IsBoundary(root, mounts[i])
    ensures FsBoundaries(mounts, root) == []
    decreases |mounts|
  {
    if mounts != [] {
      NothingKept(mounts[1..], root);
    }
  }

  /** A table of boundaries only is returned whole. */
  lemma {:induction false} EverythingKept(mounts: seq<Path>, root: Path)
    requires forall i :: 0 <= i < |mounts| ==> IsBoundary(root, mounts[i])
    ensures FsBoundaries(mounts, root) == mounts
    decreases |mounts|
  {
    if mounts != [] {
      EverythingKept(mounts[1..], root);
    }
  }
}
