# fwalker core in Dafny

`fwalker` is a lazy directory walker. Given a root directory, it produces the
paths of the regular files beneath it, one at a time. It keeps two FIFO
queues: files already found and directories not yet listed. A directory is
listed only when the file queue has run dry. A depth limit bounds which
subdirectories get queued, and a flag says whether symbolic links are
followed. A companion filter, `fs_boundaries`, picks out the mount points
lying strictly beneath the root, which a single-filesystem walk must not
cross. Those mount points come from the system mount table.

This project models that core as pure functions over an abstract
filesystem and proves properties of the model:

- `paths.dfy` (module `Paths`): `std::path` paths as sequences of
  components, `Path::new(..).components()` on Unix, and the display of
  a path collected from its components.
  `starts_with` becomes sequence prefix.
- `boundaries.dfy` (module `Boundaries`): `fs_boundaries`.
- `boundary_tests.dfy` (module `BoundaryTests`): the four unit tests of
  `fs_boundaries`, stated as lemmas about the model.
- `mounts.dfy` (module `Mounts`): turning the text of the mount table into
  mount-point paths (`lines`, `split_ascii_whitespace`, `nth(1)`).
- `filesystem.dfy` (module `Filesystem`): the filesystem as a finite map
  from directory path to the listing `read_dir` returns.
- `walker.dfy` (module `Walker`): `FileWalker`, `for_path`, `load`,
  `push`, `depth`, `next`, `is_valid_target` and `is_symlink`. It also
  defines the termination measure of `next` and `Sub`, a depth-first
  reference definition of what a walk yields.
- `walker_properties.dfy` (module `WalkerProperties`): order, depth,
  exhaustion and completeness properties of the walk. This includes a
  path-based characterisation of exactly which files a walk yields.
- `walker_tests.dfy` (module `WalkerTests`): the two depth tests of
  `src/lib.rs`, stated for a small tree.

The `expect` panics of `for_path` and `is_valid_target` and the `usize`
underflow in `depth` become preconditions (`ReadDir(..).Some?`,
`DirReadable`, `DepthDefined`). The `unwrap` on a mount-table line without
a second field becomes a `Failure` carrying that line's index. The
`canonicalize().unwrap()` calls in `depth` cannot fail once paths are taken
to be canonical. A directory that cannot be listed gives `None`.

The model keeps the shapes the code has:

- `fs_boundaries` returns a vector that keeps the mount table's order and
  its repetitions.
- `for_path` lists the root eagerly. `WalkerProperties.ForPathExpandsOrigin`
  shows this equals expanding the origin at depth 0 into an empty walker.
- `max_depth` is a plain `u32`.

## Model

| member | source | states |
|---|---|---|
| Boundaries.FsBoundaries | src/fs.rs:4-11 | The result is no longer than the mount table it filters. |
| Boundaries.BoundaryMembership | src/fs.rs:8 | A path is returned iff it is in the mount table, has the root as a prefix and is strictly longer than the root. So the root itself is never returned. |
| Boundaries.BoundariesKeepRepetitions | src/fs.rs:5-10 | Each boundary occurs in the result as often as in the mount table. Non-boundaries occur zero times. |
| Boundaries.BoundariesAreSubsequence | src/fs.rs:5-10 | The result is a subsequence of the mount table, so the table's order is kept. |
| Boundaries.BoundariesOfConcat | src/fs.rs:5-10 | Filtering a concatenation is the concatenation of the filtered parts. |
| Boundaries.BoundariesIdempotent | src/fs.rs:4-11 | Filtering the result again against the same root changes nothing. |
| Boundaries.AncestorsAndSiblingsExcluded | src/fs.rs:8 | An ancestor of the root, the root itself, or a path not beneath the root is never returned. |
| Boundaries.NothingKept | src/fs.rs:8 | A table with no proper descendant of the root filters to the empty vector. |
| Boundaries.EverythingKept | src/fs.rs:8 | A table of proper descendants only is returned unchanged. |
| BoundaryTests.NoBoundary | src/fs.rs:37-60 | With root /home/user, the thirteen-entry test table yields no boundary. |
| BoundaryTests.SingleBoundary | src/fs.rs:63-87 | With root /sys/kernel, the result is exactly [/sys/kernel/security]. |
| BoundaryTests.RootIsNotItsOwnBoundary | src/fs.rs:90-132 | With root /, the result is the table minus "/", in table order. |
| BoundaryTests.MultipleBoundaries | src/fs.rs:135-163 | With root /sys/fs, the result is the three cgroup mounts in table order. |
| Paths.Components | src/fs.rs:25 | `PathBuf::from` gives a well-formed component sequence. It starts with the root component iff the text starts with '/'. |
| Paths.RenderRoundTrip | src/fs.rs:25 | Reading back the displayed form of a well-formed path gives the same components. |
| Paths.ComponentsIdempotent | src/fs.rs:25 | Parsing, displaying and parsing again gives what the first parse gave. |
| Mounts.Fields | src/fs.rs:24 | Every field `split_ascii_whitespace` yields is non-empty and free of ASCII whitespace. |
| Mounts.FieldsOfJoin | src/fs.rs:24 | Words joined by single spaces split back into the same words. |
| Mounts.Lines | src/fs.rs:23 | No line `lines` yields contains a line feed. There are at most as many lines as characters. |
| Mounts.LinesOfUnlines | src/fs.rs:23 | Lines written out with line feeds read back as the same lines. |
| Mounts.MountPoints | src/fs.rs:22-26 | Success iff every line has a second field. On success, entry i is the path of line i's second field. On failure, the error is the index of the first line without one, where the source panics. |
| Mounts.ParseMounts | src/fs.rs:22-26 | The same properties, stated for the whole mount-table text split into lines. |
| Mounts.MountTableRoundTrip | src/fs.rs:22-26 | A mount table written from well-formed records parses back to exactly their mount points, in order. |
| Walker.UnfollowedLinksSkipped | src/lib.rs:95-103 | With links not followed, an entry `is_symlink` reports is skipped, and every other entry is walked as it would be with links followed. |
| Walker.ValidTargetResolves | src/lib.rs:91-94 | `is_valid_target` holds iff the entry's type, links followed, is a regular file or directory. Among valid targets, `is_file` holds iff that type is a regular file. |
| Walker.EntryKeptIffResolved | src/lib.rs:49-51 | The symlink filter followed by `is_valid_target` keeps an entry iff it is walked as something. A kept entry goes to the files side iff it is walked as a regular file. |
| Walker.DepthOfChild | src/lib.rs:66-70 | `depth` is 0 for the origin, and an entry listed by directory d is one level deeper than d. |
| Walker.AsU32 | src/lib.rs:58 | `as u32` keeps every value below 2^32 and always yields a value below 2^32. |
| Walker.Partition | src/lib.rs:46-51 | Every path on the files side (dirs side) names a child entry walked as a regular file (directory). Every such entry is on that side. Links are kept only when followed, and only if their target is a file or directory. |
| Walker.Load | src/lib.rs:41-53 | Fails exactly when the directory cannot be listed. Otherwise a path is among the files (subdirectories) iff it names a child entry walked as a regular file (directory). |
| Walker.Push | src/lib.rs:54-65 | Both queues only grow at the back. A listing error changes nothing. Listed files are appended to the file queue. Subdirectories are appended iff the depth cast to u32 is below max_depth. |
| Walker.ForPath | src/lib.rs:18-40 | The files are exactly the root's own regular files. The directory queue is empty when max_depth is 0 and holds exactly the root's subdirectories otherwise. The walker invariant holds. |
| Walker.PushReach | src/lib.rs:54-65 | Expanding d adds exactly d's depth-limited subtree to the multiset of files still to be yielded. |
| Walker.Next | src/lib.rs:74-85 | With a file queued: returns the front file and leaves the dir queue unchanged. With both queues empty: returns None and leaves the walker unchanged. On None: both queues are empty. On Some: the termination measure strictly decreases. |
| Walker.NextYieldsReach | src/lib.rs:74-85 | `next` returns None iff nothing remains to be yielded. A returned path is one still to be yielded, and it is removed from that multiset exactly once. |
| Walker.DrainYieldsReach | src/lib.rs:74-85 | Iterating to the end yields exactly the multiset of files still to be yielded. |
| WalkerProperties.ForPathExpandsOrigin | src/lib.rs:18-40 | `for_path` equals expanding the origin, at depth 0, into an empty walker. |
| WalkerProperties.DrainFromRoot | src/lib.rs:18-85 | Collecting a fresh walker yields exactly the multiset `Sub` of the root's depth-limited subtree. |
| WalkerProperties.DrainQueuedFilesFirst | src/lib.rs:75-76 | Already queued files come out first, in queue order, before anything found later. |
| WalkerProperties.DrainExpandsFrontDir | src/lib.rs:77-80 | With no file queued, the rest of the walk is the walk of the walker in which the front directory has been expanded. |
| WalkerProperties.NextExpandsFrontDir | src/lib.rs:77-80 | With no file queued, `next` equals `next` on the walker with the front directory popped and expanded. |
| WalkerProperties.NextSkipsUnlistable | src/lib.rs:63-80 | A front directory that cannot be listed is dropped, and `next` continues with the rest of the queue. |
| WalkerProperties.PartitionIsFilter | src/lib.rs:46-51 | Each side of `load`'s partition equals the order-preserving filter of the listing by how each entry is walked, so listing order is kept. |
| WalkerProperties.PushAppendsInListingOrder | src/lib.rs:55-61 | After a successful listing, the file queue is the old one followed by the listed regular files in listing order. The directory queue is the old one followed by the listed subdirectories in listing order when the gate is open, and unchanged otherwise. |
| WalkerProperties.MaxDepthZeroYieldsRootFiles | src/lib.rs:26-30 | With max_depth 0, the walk is exactly the root's file queue, so it keeps listing order. Its members are exactly the root's regular files, with nothing from a subdirectory. |
| WalkerProperties.ExhaustedStaysExhausted | src/lib.rs:82 | Once `next` has returned None, it keeps returning None. |
| WalkerProperties.GateMatchesDepth | src/lib.rs:58-59 | For every queued directory, the u32-cast depth test equals the mathematical test depth < max_depth. |
| WalkerProperties.PushPreservesInv | src/lib.rs:54-65 | Expanding a directory within the depth limit keeps every queued entry beneath the origin and within the depth bounds. |
| WalkerProperties.NextPreservesInv | src/lib.rs:74-85 | `next` keeps the walker invariant. Any path it returns lies beneath the origin, at most max_depth + 1 levels down. |
| WalkerProperties.DrainWithinDepth | src/lib.rs:58-61 | Every path a walk yields lies strictly beneath the origin, at most max_depth + 1 levels down. |
| WalkerProperties.SubSound | src/lib.rs:54-65 | Every file in the depth-limited subtree of d is reachable from d. Each directory on the way is listed, walked as a directory and above the depth limit, and the last step is an entry walked as a regular file. |
| WalkerProperties.SubComplete | src/lib.rs:54-65 | Every file reachable from d in that sense is in d's depth-limited subtree. |
| WalkerProperties.WalkYieldsExactlyReachable | src/lib.rs:18-103 | A path comes out of a fresh walker iff it is reachable from the root by the path condition above. |
| WalkerTests.DepthOnlyRootDir | src/lib.rs:114-118 | With max_depth 0 and links not followed, the walk of the test tree yields exactly its one top-level file. |
| WalkerTests.DepthOne | src/lib.rs:121-125 | With max_depth 1, the walk yields exactly three files: the top-level file, then the two files one level down. |

## Left out

- Reading `/proc/mounts` (`read_to_string`) is I/O. `ParseMounts` takes the file's text as a parameter. The I/O error path of `filesystems` is not modelled.
- `canonicalize`, `read_dir`, `metadata` and `symlink_metadata` are replaced by the map `Fs`. Paths are taken to be canonical already, and each entry carries the type those calls would report. Symbolic-link cycles and the canonical form of link targets are therefore not modelled.
- `log::warn!` calls are side effects only and are dropped.
- The `pattern` field of `FileWalker` is stored but never read, so it is left out. The regex crate is not modelled.
- `src/err.rs` and `examples/walk.rs` (error type and command-line demo) are not part of this model.
- The test fixture directory `test_dirs` is not part of this model. `WalkerTests` uses a small tree with the file counts the two tests expect.
- Walker.Next: requires `Readable` for the whole filesystem: no listed link is dangling when links are followed. The source panics only on entries it actually reaches, so this precondition is stronger than the source's. The same whole-filesystem precondition is on `Walker.Size`, `Walker.Sub`, `Walker.Measure` and `Walker.Drain`, and on the `WalkerProperties` lemmas about walks. `Walker.Push`, `Walker.Load` and `Walker.ForPath` need only the one directory they list to be readable, as the source does.
- Walker.Next: termination and the depth bound carry over to the source only when links are not followed, or when no followed link names a directory. The source lists a followed directory link at its canonical target (src/lib.rs:87-89), so the children come back under the target's path. It also recomputes `depth` from that target (src/lib.rs:66-70). The model instead lists the link's own path in `Fs`. Take origin `/o` holding file `f` and a link `up -> /o`, with links followed and max_depth at least 1. The source's `push(/o/up)` re-lists `/o`, finds depth 0, queues `/o/up` again, and yields `/o/f` forever. The depth limit does not stop the source's walk there. The model yields `/o/up/f`, inside the origin.
- WalkerProperties.DrainWithinDepth: holds for the source only under the same condition as `Walker.Next`: links not followed, or no followed link naming a directory. With a followed directory link, the source yields paths under the link's canonical target, which may lie outside the origin. The example above shows this, and there the depth limit does not bound the walk. `WalkerProperties.NextPreservesInv` has the same condition.
- WalkerProperties.WalkYieldsExactlyReachable: describes the source's walk only when links are not followed, or no followed link names a directory. In the example above, the source yields `/o/f` without end, while the model yields `/o/f` and `/o/up/f`.
- Walker.IsSymlink: the error branch of `is_symlink` (returning false after a failed `symlink_metadata`) is not modelled, because every entry in a listing carries a node.
- Walker.Depth: the source's `usize` subtraction would underflow for a path shallower than the origin. This is a precondition (`DepthDefined`) rather than a modelled panic.
- WalkerProperties.WalkYieldsExactlyReachable: states membership, not absence of duplicates. The model allows a listing to repeat a name, which a real directory does not.
- `Walker.Partition` puts every kept entry that is not a regular file on the directory side, as `partition(is_file)` does. It relies on `is_valid_target` having kept only files and directories.
