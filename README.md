# FileTree: an in-memory mirror of a directory tree

This project models the core of `tiny_server`'s `FileTree.rs` in Dafny and proves properties of it. The core is an in-memory mirror of a directory subtree. A `Node` is one file or directory: its name, its children by name, a link back to its parent, and the metadata the server keeps. `Node::root_from_file` builds such a tree from the filesystem. `FileTree` resolves slash-separated paths from its root.

The model has four modules:

- `Wrappers` (`wrappers.dfy`) holds Rust's `Option` and `Result`, and the unsigned `u32`/`u64` ranges.
- `Fs` (`fs.dfy`) is the filesystem as a value. An `Entry` is everything the builder learns about one path:
  - whether `metadata()` succeeded, and the error kind if it did not;
  - what `file_name()` gave;
  - whether the entry is a file, its length and its creation number, and the `is_symlink` flag of the metadata;
  - for a directory, the `read_dir` listing, whose elements are errors or child entries.
- `PathText` (`pathtext.dfy`) holds the string operations `get_file` uses, with Rust's semantics:
  - `str::trim` strips Unicode `White_Space`;
  - `trim_start_matches('/')` strips every leading slash;
  - `split('/')` keeps empty pieces and never returns an empty list.
- `FileTrees` (`filetree.dfy`) holds the rest:
  - `Node` is a class whose `children` map is updated in place.
  - `Node.RootFromFile` is the builder, written as recursive methods over an `Entry`. Each method is specified by two things:
    - the pure function `BuildError` (the error the build ends in);
    - the ghost predicate `Mirrors` (the shape of the tree it returns, inside a footprint of fresh nodes).
  - `FileTree` holds the path lookup. It is specified by the ghost function `Resolve`, which follows names child by child.

Four behaviours of the code are worth stating plainly, since the model keeps them:

- `add_child` silently replaces a child of the same name. There is no duplicate-name error.
- The builder aborts on the first failing element anywhere below the root, and returns no tree. It does not build what it can and collect per-entry errors.
- `Path::metadata` follows symbolic links, as Rust's standard library documents, so the `is_symlink()` test at lines 89-91 never succeeds on a real filesystem. A link to a file is built as a file, a link to a directory is read into, and a dangling link fails with `NotFoundErr`. The model keeps the flag and the `IsSymlink` branch, but that branch stands for code no real input reaches.
- `get_file` strips every leading `/`, not a single one.

## Model

| member | source | states |
|---|---|---|
| `FileTrees.Node.constructor` | tiny_server/src/data_manip/src/FileTree.rs:76-87 | A new node has the given name, kind, size, creation number and parent; no children; all seven weekly view counters 0; no likes; modified == created. |
| `FileTrees.Node.AddChild` | tiny_server/src/data_manip/src/FileTree.rs:43-46 | The child is stored under its own name and replaces any earlier child of that name. Afterwards `GetChild(child.name)` yields the child and every other name's lookup is unchanged. The map grows by one for a new name and keeps its size for an existing one. |
| `FileTrees.Node.GetChild` | tiny_server/src/data_manip/src/FileTree.rs:48-50 | Yields `None` exactly when the name is not a key; otherwise yields the child stored under it. |
| `FileTrees.Node.GetChildren` | tiny_server/src/data_manip/src/FileTree.rs:52-54 | The result lists the map's values, one per key: some duplicate-free ordering of the keys maps index by index onto the result. Its length is the map's size, and the node is unchanged. |
| `FileTrees.Node.RootFromFile` | tiny_server/src/data_manip/src/FileTree.rs:56-119 | Fails exactly when `BuildError` of the entry is an error, and then with that error, so no partial tree is returned. On success the node and everything below it are fresh and mirror the entry (`Mirrors`), as follows. Each node is initialised as a fresh node with the given parent. A file node has no children. A directory has one child per name its listing yields, built from the last element with that name and linked back to it. |
| `FileTrees.Node.ReadChildren` | tiny_server/src/data_manip/src/FileTree.rs:93-115 | Listing the directory: an unreadable listing fails with `IoErr`. Otherwise the elements are handled in order and the outcome equals the directory's `BuildError`. On success the node's children mirror `ChildrenByName` of the listing, in fresh nodes. |
| `FileTrees.Node.ReadItem` | tiny_server/src/data_manip/src/FileTree.rs:99-113 | One listing element: a bad element fails with `IoErr`; an element with an empty path is skipped; any other is built with the node as parent and added, or fails with its own build error (`ItemError`). On success the children mirror the wanted map updated by `WithItem`. |
| `FileTrees.MetadataError` | tiny_server/src/data_manip/src/FileTree.rs:59-66 | A failed `metadata()` call: `PermissionDenied` becomes `PermissionErr` and `NotFound` becomes `NotFoundErr`, both carrying the path; every other kind becomes `IoErr` carrying the error. |
| `FileTrees.BuildError` | tiny_server/src/data_manip/src/FileTree.rs:56-117 | The outcome of `root_from_file`, checked in the source's order: metadata error, missing file name (`InvalidPath`), the symlink flag (`IsSymlink`), a file (success), an unreadable listing (`IoErr`), and then the first failing listing element. Its meaning is stated by `FirstError`, `FirstFailingChildAborts` and `EveryChildBuilds`. |
| `FileTrees.ItemError` | tiny_server/src/data_manip/src/FileTree.rs:99-111 | The outcome of one listing element: an unreadable element is `IoErr`, an element whose path is empty is skipped (success), and any other element fails exactly as its own build does. |
| `FileTrees.FirstError` | tiny_server/src/data_manip/src/FileTree.rs:99-112 | `None` exactly when every outcome is `None`. Otherwise it is the outcome at some index before which all outcomes are `None`: the first error. |
| `FileTrees.FirstFailingChildAborts` | tiny_server/src/data_manip/src/FileTree.rs:100-111 | When listing element `i` fails and all before it succeed, the directory's build fails with element `i`'s error, whatever follows it. |
| `FileTrees.EveryChildBuilds` | tiny_server/src/data_manip/src/FileTree.rs:99-117 | A directory whose listing elements all build or are skipped builds successfully. |
| `FileTrees.ChildrenByNameFrom` | tiny_server/src/data_manip/src/FileTree.rs:105-112 | Every entry kept for a name comes from the listing, is accessible, and has that name as its file name. |
| `FileTrees.ChildrenByNameLastWins` | tiny_server/src/data_manip/src/FileTree.rs:111-112 | The children map has exactly the names some listing element yields, each with the entry of the LAST element yielding it. This follows from `add_child` replacing earlier children. |
| `FileTrees.MirrorsShape` | tiny_server/src/data_manip/src/FileTree.rs:87-115 | In a built tree, a file node has no children, and every child is stored under its own name and has the directory as its parent. |
| `FileTrees.ResolveMirrors` | tiny_server/src/data_manip/src/FileTree.rs:123-138 | Looking a path up in a built tree succeeds exactly when the filesystem value has an entry at that path (`EntryAt`). The node reached is the one built from that entry. |
| `FileTrees.BuiltRootNeverReached` | tiny_server/src/data_manip/src/FileTree.rs:129-137 | In a tree built with no parent, a successful lookup of at least one name ends at a node with a parent, hence never at the root. |
| `FileTrees.BuiltRootNeverResolved` | tiny_server/src/data_manip/src/FileTree.rs:123-138 | `get_file` on a built tree never returns the root, for any path. |
| `FileTrees.EntryAtNamesNonEmpty` | tiny_server/src/data_manip/src/FileTree.rs:68-71 | Every entry a path leads to in a filesystem with no empty file names has none below it either. |
| `FileTrees.NoEmptyChildInBuilt` | tiny_server/src/data_manip/src/FileTree.rs:68-71 | In a tree built from a filesystem with no empty file names, no node a lookup reaches has a child named `""`. |
| `FileTrees.BuiltEmptyNameNeverResolves` | tiny_server/src/data_manip/src/FileTree.rs:129-134 | In such a built tree, a list of names containing `""` never resolves. |
| `FileTrees.BuiltEmptySegmentPathFails` | tiny_server/src/data_manip/src/FileTree.rs:123-138 | In such a built tree, these paths resolve to `None`: one that normalises to the empty string, one that ends in `/`, and one that holds `//`. |
| `FileTrees.FileTree.constructor` | tiny_server/src/data_manip/src/FileTree.rs:33-39 | A tree has the given root, and the `byPopularity`/`byRecency` ranking queues are empty. |
| `FileTrees.FileTree.GetFile` | tiny_server/src/data_manip/src/FileTree.rs:123-139 | The result is `Resolve` of the root over the segments of the trimmed, slash-stripped, split path. |
| `FileTrees.FileTree.Walk` | tiny_server/src/data_manip/src/FileTree.rs:128-137 | The `while let` loop: following the names from the root, returning `None` at the first missing child, yields `Resolve(root, names)`. |
| `FileTrees.FileTree.GetChildren` | tiny_server/src/data_manip/src/FileTree.rs:141-149 | `None` exactly when the path does not resolve or resolves to a file. Otherwise the result lists the resolved node's children, one per key, and has their number as its length. |
| `FileTrees.ResolveStopsAtMissing` | tiny_server/src/data_manip/src/FileTree.rs:131-133 | Once a prefix of the names fails to resolve, the whole lookup fails. |
| `FileTrees.ResolveFirst` | tiny_server/src/data_manip/src/FileTree.rs:128-136 | Resolving is looking the first name up and then resolving the rest from that child, the order in which the loop consumes the split iterator. |
| `FileTrees.ResolveFailsAtFirstMissing` | tiny_server/src/data_manip/src/FileTree.rs:129-137 | A lookup yields `None` if and only if some prefix of the names resolves to a node that has no child named by the next name. |
| `FileTrees.ResolvedIsChild` | tiny_server/src/data_manip/src/FileTree.rs:129-137 | A successful lookup of at least one name ends at the child stored under the last name in the node the other names reach. |
| `FileTrees.RootNeverReached` | tiny_server/src/data_manip/src/FileTree.rs:129-137 | When the root is nobody's child, no lookup of one or more names ends at the root. |
| `FileTrees.RootNeverResolved` | tiny_server/src/data_manip/src/FileTree.rs:126-137 | When the root is nobody's child, `get_file` never returns it: every path has at least one segment. |
| `FileTrees.EmptyNameNeverResolves` | tiny_server/src/data_manip/src/FileTree.rs:129-134 | Empty names are looked up, not skipped: when no node has a child named `""`, no list of names containing `""` resolves. |
| `FileTrees.EmptySegmentPathFails` | tiny_server/src/data_manip/src/FileTree.rs:126-137 | When no node has a child named `""`, these paths resolve to `None`: a path that normalises to the empty string, one that ends in `/`, and one that holds `//`. |
| `FileTrees.JoinedPathResolves` | tiny_server/src/data_manip/src/FileTree.rs:123-138 | Round trip: names that are non-empty and slash-free, joined by `/` with no whitespace at either end, form a path that resolves to exactly the node those names reach. |
| `PathText.TrimStartMatching` | tiny_server/src/data_manip/src/FileTree.rs:126 | The result is a suffix of the input, every dropped character matches, and the result does not start with a matching character. |
| `PathText.IsWhitespace` | tiny_server/src/data_manip/src/FileTree.rs:126 | Rust's `char::is_whitespace`, the set `trim` strips: the Unicode `White_Space` property (tab to carriage return, space, U+0085, U+00A0, U+1680, U+2000 to U+200A, U+2028, U+2029, U+202F, U+205F, U+3000). |
| `PathText.TrimMatching` | tiny_server/src/data_manip/src/FileTree.rs:126 | The result is a slice of the input with only matching characters outside it, and it neither starts nor ends with a matching character. |
| `PathText.Trim` | tiny_server/src/data_manip/src/FileTree.rs:126 | The result is a slice of the input with only whitespace outside it, and it neither starts nor ends with whitespace. |
| `PathText.Normalize` | tiny_server/src/data_manip/src/FileTree.rs:126 | The normalised path never starts with `/`. |
| `PathText.Split` | tiny_server/src/data_manip/src/FileTree.rs:127 | The pieces are at least one, and none contains `/`. |
| `PathText.Segments` | tiny_server/src/data_manip/src/FileTree.rs:126-127 | Every path yields at least one segment. |
| `PathText.JoinSplit` | tiny_server/src/data_manip/src/FileTree.rs:127 | Joining the pieces of a split with `/` gives back the string. |
| `PathText.SplitSlashFree` | tiny_server/src/data_manip/src/FileTree.rs:127 | A slash-free piece splits to itself, and a slash-free piece followed by `/` is split off whole. |
| `PathText.SplitJoin` | tiny_server/src/data_manip/src/FileTree.rs:127 | Splitting the join of slash-free names gives back the names. |
| `PathText.NormalizeUnchanged` | tiny_server/src/data_manip/src/FileTree.rs:126 | Normalising leaves unchanged a path that starts with neither whitespace nor `/` and does not end in whitespace. |
| `PathText.SegmentsOfJoin` | tiny_server/src/data_manip/src/FileTree.rs:126-127 | Names that are non-empty and slash-free, joined with no whitespace at either end, come back as exactly the path's segments. |
| `PathText.EmptyLaterPiece` | tiny_server/src/data_manip/src/FileTree.rs:127 | Some piece after the first is empty exactly when the string ends in `/` or holds `//`. |
| `PathText.EmptyFirstPiece` | tiny_server/src/data_manip/src/FileTree.rs:127 | The first piece is empty exactly when the string is empty or starts with `/`. |
| `PathText.EmptySegmentPaths` | tiny_server/src/data_manip/src/FileTree.rs:126-127 | A path has an empty segment exactly when its normal form is empty, ends in `/` or holds `//`. |

## Left out

- The real filesystem calls are not modelled: `metadata()`, `file_name()`/`to_string_lossy`, `fs::read_dir` and `to_str().unwrap_or("")`. Their answers are the input value `Fs.Entry`. Only the mapping of error kinds to `FileBuildErr` is modelled.
- `date_created` is an opaque input number. The source computes it from the clock as `created().elapsed().as_secs()`, which can panic. Neither the clock nor the panics are modelled.
- Symbolic links appear only as the `isSymlink` flag of the metadata. Because `Path::metadata` follows links, the flag stands for a branch no real input reaches; a real link is described by the entry of its target.
- A cycle of symbolic links cannot be expressed: an `Entry` is a finite value, so the model does not capture a walk that would loop through links back into a directory above.
- `async`, `Arc`/`Weak` reference counting and `RefCell` borrow checking are not modelled. Nodes are plain heap objects, and the weak parent link is a nullable reference.
- Each `io::Error` is reduced to its kind and its message.
- `size` is a `u64`, i.e. `usize` on a 64-bit target. The cast at line 81 is then the identity.
- `by_popularity` and `by_recency` are only declared in the source and never filled, so they stay empty sequences.
- `build_catalogue` always returns an empty vector. Nothing else happens in it, so it has no member.
- The order of `get_children`'s result is not stated: a `HashMap` iteration order has no contract. Only "each value once per key" is.
- `Node.ReadChildren`, `Node.ReadItem` and `FileTree.Walk` are not separate functions in the source. They split the bodies of `root_from_file` and `get_file` into smaller proof obligations.
- The node allocated at line 88 is modelled; it is dropped when the `IsSymlink` branch returns, and that branch is unreachable (see above).
