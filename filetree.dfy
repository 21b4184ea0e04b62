/**
 * The in-memory mirror of a directory tree: `Node` (one file or directory,
 * its children by name and a link to its parent), the recursive builder
 * `Node.RootFromFile` over an abstract filesystem, and `FileTree`, which
 * resolves slash-separated paths from its root.
 */
module FileTrees {
  import opened Wrappers
  import opened PathText
  import opened Fs

  /** The errors `RootFromFile` returns. */
  datatype FileBuildErr =
    | IoErr(cause: IoError)
    | PermissionErr(path: string)
    | NotFoundErr(path: string)
    | InvalidPath(path: string)
    | IsSymlink(path: string)

  /** Seven weekly view counters. */
  type Week = s: seq<u32> | |s| == 7 witness [0, 0, 0, 0, 0, 0, 0]

  const NoViews: Week := [0, 0, 0, 0, 0, 0, 0]

  class Node {
    /** The last segment of the entry's path; nothing writes it after construction. */
    const name: string
    var children: map<string, Node>
    var parent: Node?
    var isFile: bool
    var size: u64
    var dateCreated: u64
    var dateModified: u64
    var viewsByWeek: Week
    var likes: u32

    /** A node as the builder first makes it: no children, no views, no likes, modified when created. */
    constructor (name: string, isFile: bool, size: u64, dateCreated: u64, parent: Node?)
      ensures this.name == name && this.isFile == isFile && this.size == size
      ensures this.dateCreated == dateCreated && dateModified == dateCreated
      ensures children == map[] && viewsByWeek == NoViews && likes == 0
      ensures this.parent == parent
    {
      this.name := name;
      children := map[];
      this.isFile := isFile;
      this.size := size;
      this.dateCreated := dateCreated;
      dateModified := dateCreated;
      viewsByWeek := NoViews;
      likes := 0;
      this.parent := parent;
    }

    /**
     * Stores `child` under its own name, replacing any child already stored
     * under that name.
     */
    method AddChild(child: Node)
      modifies this`children
      ensures children == old(children)[child.name := child]
      ensures GetChild(child.name) == Some(child)
      ensures forall n :: n != child.name ==> GetChild(n) == old(GetChild(n))
      ensures |children| == if child.name in old(children) then old(|children|) else old(|children|) + 1
    {
      children := children[child.name := child];
    }

    /** The child stored under `name`, if there is one. */
    function GetChild(name: string): (r: Option<Node>)
      reads this
      ensures r.None? <==> name !in children
      ensures r.Some? ==> r.value == children[name]
    {
      if name in children then Some(children[name]) else None
    }

    /** A snapshot of the children: each child once per name, in no particular order. */
    method GetChildren() returns (r: seq<Node>)
      ensures |r| == |children|
      ensures Enumerates(r, children)
    {
      var remaining := children.Keys;
      ghost var keys: seq<string> := [];
      r := [];
      while remaining != {}
        invariant |remaining| + |r| == |children|
        invariant |keys| == |r|
        invariant forall k :: k in children <==> k in remaining || k in keys
        invariant forall k :: k in remaining ==> k !in keys
        invariant Distinct(keys)
        invariant forall i :: 0 <= i < |keys| ==> keys[i] in children && r[i] == children[keys[i]]
        decreases |remaining|
      {
        var k :| k in remaining;
        r := r + [children[k]];
        keys := keys + [k];
        remaining := remaining - {k};
      }
      assert ListsKeys(keys, children);
    }

    /**
     * Builds the node for the filesystem entry `e` and, when it is a directory,
     * the nodes for everything below it, each child linked back to its parent.
     * The first error met anywhere aborts the whole call with that error, and
     * no tree is returned.
     */
    static method RootFromFile(e: Entry, parent: Node?) returns (r: Result<Node, FileBuildErr>, ghost fp: set<object>)
      ensures r.Failure? <==> BuildError(e).Some?
      ensures r.Failure? ==> r.error == BuildError(e).value
      ensures r.Success? ==> fresh(fp) && Mirrors(r.value, e, parent, fp)
      decreases e, 2
    {
      fp := {};
      match e
      case Inaccessible(path, cause) =>
        r := Failure(MetadataError(path, cause));
      case Accessible(path, fileName, meta, listing) =>
        if fileName.None? {
          r := Failure(InvalidPath(path));
          return;
        }
        var node := new Node(fileName.value, meta.isFile, meta.len, meta.created, parent);
        if meta.isSymlink {
          r := Failure(IsSymlink(path));
          return;
        }
        if !meta.isFile {
          var failed, below := ReadChildren(node, listing, e, parent);
          if failed.Some? {
            r := Failure(failed.value);
            return;
          }
          MirrorsEnclose(node, e, parent, below);
          fp := {node} + below;
        } else {
          fp := {node};
        }
        r := Success(node);
    }

    /**
     * The directory part of `RootFromFile`: lists the directory and handles
     * its elements in order; the first element that fails ends the loop with
     * its error.
     */
    static method ReadChildren(node: Node, listing: Listing, ghost e: Entry, ghost parent: Node?)
      returns (failed: Option<FileBuildErr>, ghost below: set<object>)
      requires e.Accessible? && e.fileName.Some? && !e.meta.isSymlink && !e.meta.isFile && e.listing == listing
      requires NodeFrom(node, e, parent) && node.children == map[]
      modifies node`children
      ensures failed == BuildError(e)
      ensures failed.None? ==> listing.Listed? && fresh(below) && node !in below
                               && MirrorsEach(node.children, ChildrenByName(listing.items), node, below)
      decreases e, 1
    {
      below := {};
      if listing.Unlistable? {
        return Some(IoErr(listing.cause)), below;
      }
      var items := listing.items;
      var i := 0;
      while i < |items|
        invariant 0 <= i <= |items|
        invariant forall k :: 0 <= k < i ==> ItemError(items[k]).None?
        invariant fresh(below) && node !in below
        invariant MirrorsEach(node.children, ChildrenByName(items[..i]), node, below)
      {
        var itemFailed, grown := ReadItem(node, items[i], ChildrenByName(items[..i]), below);
        if itemFailed.Some? {
          FirstFailingChildAborts(e, i);
          return itemFailed, below;
        }
        below := grown;
        assert items[..i + 1][..i] == items[..i];
        i := i + 1;
      }
      assert items[..i] == items;
      EveryChildBuilds(e);
      failed := None;
    }

    /**
     * One element of a directory listing: an unreadable element fails, one
     * with an empty path is skipped, and any other is built (with `node` as
     * its parent) and added to `node`, or fails with the error its build
     * failed with.
     */
    static method ReadItem(node: Node, item: DirItem, ghost want: map<string, Entry>, ghost below: set<object>)
      returns (failed: Option<FileBuildErr>, ghost grown: set<object>)
      requires node !in below && MirrorsEach(node.children, want, node, below)
      modifies node`children
      ensures failed == ItemError(item)
      ensures failed.None? ==> below <= grown && fresh(grown - below) && node !in grown
                               && MirrorsEach(node.children, WithItem(want, item), node, grown)
      decreases item, 0
    {
      grown := below;
      match item
      case BadItem(cause) =>
        failed := Some(IoErr(cause));
      case Item(c) =>
        if c.path == "" {
          failed := None;
          return;
        }
        ghost var kids := node.children;
        var sub, subFp := RootFromFile(c, node);
        if sub.Failure? {
          failed := Some(sub.error);
          return;
        }
        var child := sub.value;
        node.AddChild(child);
        AddMirrored(kids, want, node, below, child, c, subFp);
        grown := below + subFp;
        failed := None;
    }
  }

  /** `io::ErrorKind` to `FileBuildErr`, for a failed `metadata()` call. */
  function MetadataError(path: string, cause: IoError): FileBuildErr
  {
    match cause.kind
    case PermissionDenied => PermissionErr(path)
    case NotFound => NotFoundErr(path)
    case OtherKind(_) => IoErr(cause)
  }

  /** The error building `e` ends in, or `None` when the build succeeds. */
  function BuildError(e: Entry): Option<FileBuildErr>
    decreases e
  {
    match e
    case Inaccessible(path, cause) => Some(MetadataError(path, cause))
    case Accessible(path, fileName, meta, listing) =>
      if fileName.None? then Some(InvalidPath(path))
      else if meta.isSymlink then Some(IsSymlink(path))
      else if meta.isFile then None
      else if listing.Unlistable? then Some(IoErr(listing.cause))
      else FirstError(ChildErrors(listing))
  }

  /** The outcome of each element of a directory listing, in order. */
  function ChildErrors(listing: Listing): seq<Option<FileBuildErr>>
    requires listing.Listed?
    decreases listing
  {
    seq(|listing.items|, k requires 0 <= k < |listing.items| => ItemError(listing.items[k]))
  }

  /** The outcome of one listing element: an unreadable one fails, one with an empty path is skipped. */
  function ItemError(item: DirItem): Option<FileBuildErr>
    decreases item
  {
    match item
    case BadItem(cause) => Some(IoErr(cause))
    case Item(c) => if c.path == "" then None else BuildError(c)
  }

  /** The first error in `s`. */
  function FirstError(s: seq<Option<FileBuildErr>>): (r: Option<FileBuildErr>)
    ensures r.None? <==> forall k :: 0 <= k < |s| ==> s[k].None?
    ensures r.Some? ==> exists i :: 0 <= i < |s| && s[i] == r && forall k :: 0 <= k < i ==> s[k].None?
  {
    if s == [] then None
    else if s[0].Some? then s[0]
    else
      var r := FirstError(s[1..]);
      assert forall k :: 1 <= k < |s| ==> s[k] == s[1..][k - 1];
      r
  }

  lemma FirstErrorAt(s: seq<Option<FileBuildErr>>, i: nat)
    requires i < |s| && s[i].Some?
    requires forall k :: 0 <= k < i ==> s[k].None?
    ensures FirstError(s) == s[i]
  {
  }

  lemma FirstErrorNone(s: seq<Option<FileBuildErr>>)
    requires forall k :: 0 <= k < |s| ==> s[k].None?
    ensures FirstError(s) == None
  {
  }

  /**
   * The first failing element of a directory listing decides the directory's
   * build: it fails with that element's error, whatever comes after.
   */
  lemma FirstFailingChildAborts(e: Entry, i: nat)
    requires e.Accessible? && e.fileName.Some? && !e.meta.isSymlink && !e.meta.isFile
    requires e.listing.Listed? && i < |e.listing.items|
    requires ItemError(e.listing.items[i]).Some?
    requires forall k :: 0 <= k < i ==> ItemError(e.listing.items[k]).None?
    ensures BuildError(e) == ItemError(e.listing.items[i])
  {
    FirstErrorAt(ChildErrors(e.listing), i);
  }

  /** A directory whose every listing element is built or skipped is built. */
  lemma EveryChildBuilds(e: Entry)
    requires e.Accessible? && e.fileName.Some? && !e.meta.isSymlink && !e.meta.isFile
    requires e.listing.Listed?
    requires forall k :: 0 <= k < |e.listing.items| ==> ItemError(e.listing.items[k]).None?
    ensures BuildError(e) == None
  {
    FirstErrorNone(ChildErrors(e.listing));
  }

  /** The listing element `item` yields a child node named `name`. */
  predicate Names(item: DirItem, name: string) {
    item.Item? && item.entry.path != "" && item.entry.Accessible? && item.entry.fileName == Some(name)
  }

  /**
   * The entries a directory's children are built from, by name: each name
   * maps to the LAST listing element that carries it, since `add_child`
   * replaces an earlier child of the same name.
   */
  function ChildrenByName(items: seq<DirItem>): map<string, Entry>
  {
    if items == [] then map[] else WithItem(ChildrenByName(items[..|items| - 1]), items[|items| - 1])
  }

  /** `want` after the listing element `item`: a child it yields replaces any earlier one of the same name. */
  function WithItem(want: map<string, Entry>, item: DirItem): map<string, Entry>
  {
    if item.Item? && item.entry.path != "" && item.entry.Accessible? && item.entry.fileName.Some?
    then want[item.entry.fileName.value := item.entry]
    else want
  }

  /** Every entry `ChildrenByName` keeps comes from the listing, under its own name. */
  lemma {:induction false} ChildrenByNameFrom(items: seq<DirItem>)
    ensures var m := ChildrenByName(items);
            forall k :: k in m ==> Item(m[k]) in items && m[k].Accessible? && m[k].fileName == Some(k)
  {
    if items != [] {
      var front := items[..|items| - 1];
      ChildrenByNameFrom(front);
      var last := items[|items| - 1];
      assert forall x :: x in front ==> x in items;
      assert last in items;
      assert ChildrenByName(items) == WithItem(ChildrenByName(front), last);
    }
  }

  /**
   * `ChildrenByName` keeps exactly the names some listing element carries,
   * each with the entry of the last element that carries it.
   */
  lemma {:induction false} ChildrenByNameLastWins(items: seq<DirItem>)
    ensures LastByName(items, ChildrenByName(items))
  {
    if items != [] {
      var front := items[..|items| - 1];
      ChildrenByNameLastWins(front);
      LastByNameStep(items, ChildrenByName(front), ChildrenByName(items));
    }
  }

  /** `m` maps each name carried by an element of `items` to the entry of the last element that carries it. */
  ghost predicate LastByName(items: seq<DirItem>, m: map<string, Entry>) {
    && (forall k :: k in m <==> exists i :: 0 <= i < |items| && Names(items[i], k))
    && (forall k :: k in m ==>
          exists i :: 0 <= i < |items| && items[i] == Item(m[k]) && Names(items[i], k)
                      && forall j :: i < j < |items| ==> !Names(items[j], k))
  }

  lemma LastByNameStep(items: seq<DirItem>, m: map<string, Entry>, r: map<string, Entry>)
    requires |items| > 0
    requires LastByName(items[..|items| - 1], m)
    requires r == WithItem(m, items[|items| - 1])
    ensures LastByName(items, r)
  {
    LastByNameKeys(items, m, r);
    LastByNameValues(items, m, r);
  }

  lemma LastByNameKeys(items: seq<DirItem>, m: map<string, Entry>, r: map<string, Entry>)
    requires |items| > 0
    requires LastByName(items[..|items| - 1], m)
    requires r == WithItem(m, items[|items| - 1])
    ensures forall k :: k in r <==> exists i :: 0 <= i < |items| && Names(items[i], k)
  {
    var n := |items| - 1;
    var front := items[..n];
    forall k
      ensures k in r <==> exists i :: 0 <= i < |items| && Names(items[i], k)
    {
      if exists i :: 0 <= i < |items| && Names(items[i], k) {
        var i :| 0 <= i < |items| && Names(items[i], k);
        if i < n {
          assert Names(front[i], k);
        }
      }
      if k in m {
        var i :| 0 <= i < n && Names(front[i], k);
        assert Names(items[i], k);
      }
    }
  }

  lemma LastByNameValues(items: seq<DirItem>, m: map<string, Entry>, r: map<string, Entry>)
    requires |items| > 0
    requires LastByName(items[..|items| - 1], m)
    requires r == WithItem(m, items[|items| - 1])
    ensures forall k :: k in r ==>
              exists i :: 0 <= i < |items| && items[i] == Item(r[k]) && Names(items[i], k)
                          && forall j :: i < j < |items| ==> !Names(items[j], k)
  {
    var n := |items| - 1;
    var front := items[..n];
    forall k | k in r
      ensures exists i :: 0 <= i < |items| && items[i] == Item(r[k]) && Names(items[i], k)
                          && forall j :: i < j < |items| ==> !Names(items[j], k)
    {
      if Names(items[n], k) {
        assert items[n] == Item(r[k]);
      } else {
        var i :| 0 <= i < n && front[i] == Item(m[k]) && Names(front[i], k)
                 && forall j :: i < j < n ==> !Names(front[j], k);
        assert items[i] == Item(r[k]) && Names(items[i], k);
        assert forall j :: i < j < |items| ==> !Names(items[j], k);
      }
    }
  }

  /** The fields of `n` as the builder sets them from `e`, with parent `p`. */
  ghost predicate NodeFrom(n: Node, e: Entry, p: Node?)
    reads n
  {
    && e.Accessible? && e.fileName.Some?
    && n.name == e.fileName.value
    && n.parent == p
    && n.isFile == e.meta.isFile
    && n.size == e.meta.len
    && n.dateCreated == e.meta.created
    && n.dateModified == e.meta.created
    && n.viewsByWeek == NoViews
    && n.likes == 0
  }

  /**
   * The nodes in `fp` below `n` mirror the entry `e`: `n` is set from `e` and
   * linked to `p`; a file has no children; a directory has one child per name
   * in its listing, each mirroring the entry it was built from and linked
   * back to `n`.
   */
  ghost predicate Mirrors(n: Node, e: Entry, p: Node?, fp: set<object>)
    reads fp
    decreases e
  {
    && n in fp
    && NodeFrom(n, e, p)
    && if e.meta.isFile then n.children == map[]
       else
         && e.listing.Listed?
         && var want := ChildrenByName(e.listing.items);
            ChildrenByNameFrom(e.listing.items);
            && n.children.Keys == want.Keys
            && forall k :: k in want ==> n.children[k] in fp && Mirrors(n.children[k], want[k], n, fp)
  }

  /** Mirroring only depends on the nodes involved being in the footprint. */
  lemma {:induction false} MirrorsGrow(n: Node, e: Entry, p: Node?, fp: set<object>, fp': set<object>)
    requires fp <= fp'
    requires Mirrors(n, e, p, fp)
    ensures Mirrors(n, e, p, fp')
    decreases e
  {
    if !e.meta.isFile {
      var want := ChildrenByName(e.listing.items);
      ChildrenByNameFrom(e.listing.items);
      forall k | k in want
        ensures Mirrors(n.children[k], want[k], n, fp')
      {
        MirrorsGrow(n.children[k], want[k], n, fp, fp');
      }
    }
  }

  /** Each of `kids` mirrors the entry `want` holds under the same name, and is linked to `p`. */
  ghost predicate MirrorsEach(kids: map<string, Node>, want: map<string, Entry>, p: Node, fp: set<object>)
    reads fp
  {
    && kids.Keys == want.Keys
    && forall k :: k in want ==> kids[k] in fp && Mirrors(kids[k], want[k], p, fp)
  }

  /** Adding a child that mirrors `c` under its name keeps the children mirroring their entries. */
  lemma AddMirrored(kids: map<string, Node>, want: map<string, Entry>, p: Node, fp: set<object>,
                    child: Node, c: Entry, childFp: set<object>)
    requires MirrorsEach(kids, want, p, fp)
    requires Mirrors(child, c, p, childFp)
    ensures MirrorsEach(kids[child.name := child], want[child.name := c], p, fp + childFp)
  {
    forall k | k in want
      ensures Mirrors(kids[k], want[k], p, fp + childFp)
    {
      MirrorsGrow(kids[k], want[k], p, fp, fp + childFp);
    }
    MirrorsGrow(child, c, p, childFp, fp + childFp);
  }

  /** A directory node set from `e` whose children mirror its listing mirrors `e`. */
  lemma MirrorsEnclose(n: Node, e: Entry, p: Node?, fp: set<object>)
    requires NodeFrom(n, e, p) && !e.meta.isFile && e.listing.Listed?
    requires MirrorsEach(n.children, ChildrenByName(e.listing.items), n, fp)
    ensures Mirrors(n, e, p, {n} + fp)
  {
    var want := ChildrenByName(e.listing.items);
    forall k | k in want
      ensures Mirrors(n.children[k], want[k], n, {n} + fp)
    {
      MirrorsGrow(n.children[k], want[k], n, fp, {n} + fp);
    }
  }

  /**
   * The shape of a built tree: a file node has no children, and every child
   * of a directory node is stored under its own name and links back to it.
   */
  lemma MirrorsShape(n: Node, e: Entry, p: Node?, fp: set<object>)
    requires Mirrors(n, e, p, fp)
    ensures n.isFile ==> n.children == map[]
    ensures forall k :: k in n.children ==> n.children[k].name == k && n.children[k].parent == n
  {
    if !e.meta.isFile {
      var want := ChildrenByName(e.listing.items);
      ChildrenByNameFrom(e.listing.items);
      forall k | k in n.children
        ensures n.children[k].name == k && n.children[k].parent == n
      {
        assert Mirrors(n.children[k], want[k], n, fp);
      }
    }
  }

  /** The entry `names` leads to in the filesystem value, each name picking a directory's child by name. */
  function EntryAt(e: Entry, names: seq<string>): Option<Entry>
    decreases |names|
  {
    if names == [] then Some(e)
    else match EntryAt(e, names[..|names| - 1])
      case None => None
      case Some(d) =>
        var last := names[|names| - 1];
        if d.Accessible? && !d.meta.isFile && d.listing.Listed? && last in ChildrenByName(d.listing.items)
        then Some(ChildrenByName(d.listing.items)[last])
        else None
  }

  /**
   * Looking a path up in a built tree agrees with looking it up in the
   * filesystem the tree was built from: it succeeds exactly when the
   * filesystem has an entry there, and then ends at the node built from
   * that entry.
   */
  lemma {:induction false} ResolveMirrors(n: Node, e: Entry, p: Node?, fp: set<object>, names: seq<string>)
    requires Mirrors(n, e, p, fp)
    ensures Resolve(n, names).Some? <==> EntryAt(e, names).Some?
    ensures Resolve(n, names).Some? ==> exists q: Node? :: Mirrors(Resolve(n, names).value, EntryAt(e, names).value, q, fp)
    decreases |names|
  {
    if names == [] {
      assert Mirrors(n, e, p, fp);
    } else {
      var front := names[..|names| - 1];
      var last := names[|names| - 1];
      ResolveMirrors(n, e, p, fp, front);
      if Resolve(n, front).Some? {
        var u := Resolve(n, front).value;
        var d := EntryAt(e, front).value;
        var q: Node? :| Mirrors(u, d, q, fp);
        if !d.meta.isFile {
          var want := ChildrenByName(d.listing.items);
          ChildrenByNameFrom(d.listing.items);
          if last in want {
            assert Mirrors(u.children[last], want[last], u, fp);
          }
        }
      }
    }
  }

  /** In a built tree, a lookup of at least one name ends at a node with a parent, so never at the root. */
  lemma BuiltRootNeverReached(root: Node, e: Entry, fp: set<object>, names: seq<string>)
    requires Mirrors(root, e, null, fp) && |names| >= 1
    ensures Resolve(root, names).Some? ==> Resolve(root, names).value.parent != null
    ensures Resolve(root, names) != Some(root)
  {
    if Resolve(root, names).Some? {
      var front := names[..|names| - 1];
      ResolvedIsChild(root, names);
      ResolveMirrors(root, e, null, fp, front);
      var up := Resolve(root, front).value;
      var q: Node? :| Mirrors(up, EntryAt(e, front).value, q, fp);
      MirrorsShape(up, EntryAt(e, front).value, q, fp);
    }
  }

  /** `GetFile` on a built tree never yields its root, whatever the path. */
  lemma BuiltRootNeverResolved(root: Node, e: Entry, fp: set<object>, path: string)
    requires Mirrors(root, e, null, fp)
    ensures Resolve(root, Segments(path)) != Some(root)
  {
    BuiltRootNeverReached(root, e, fp, Segments(path));
  }

  /**
   * No entry at or below `e` has the empty string as its file name, as is
   * the case for `Path::file_name`, which never yields an empty component.
   */
  predicate NamesNonEmpty(e: Entry)
    decreases e
  {
    match e
    case Inaccessible(_, _) => true
    case Accessible(_, fileName, _, listing) =>
      && fileName != Some("")
      && (listing.Listed? ==> forall k :: 0 <= k < |listing.items| ==> ItemNamesNonEmpty(listing.items[k]))
  }

  predicate ItemNamesNonEmpty(item: DirItem)
    decreases item
  {
    item.Item? ==> NamesNonEmpty(item.entry)
  }

  /** Every entry a path leads to in a filesystem without empty names has none below it either. */
  lemma {:induction false} EntryAtNamesNonEmpty(e: Entry, names: seq<string>)
    requires NamesNonEmpty(e) && EntryAt(e, names).Some?
    ensures NamesNonEmpty(EntryAt(e, names).value)
    decreases |names|
  {
    if names != [] {
      var front := names[..|names| - 1];
      EntryAtNamesNonEmpty(e, front);
      var d := EntryAt(e, front).value;
      var items := d.listing.items;
      var want := ChildrenByName(items);
      ChildrenByNameFrom(items);
      var last := names[|names| - 1];
      var k :| 0 <= k < |items| && items[k] == Item(want[last]);
      assert ItemNamesNonEmpty(items[k]);
    }
  }

  /** In a tree built from a filesystem without empty names, no node reached by a lookup has a child named `""`. */
  lemma NoEmptyChildInBuilt(root: Node, e: Entry, fp: set<object>, names: seq<string>)
    requires Mirrors(root, e, null, fp) && NamesNonEmpty(e)
    requires Resolve(root, names).Some?
    ensures "" !in Resolve(root, names).value.children
  {
    ResolveMirrors(root, e, null, fp, names);
    var u := Resolve(root, names).value;
    var d := EntryAt(e, names).value;
    var q: Node? :| Mirrors(u, d, q, fp);
    EntryAtNamesNonEmpty(e, names);
    if !d.meta.isFile {
      var items := d.listing.items;
      var want := ChildrenByName(items);
      ChildrenByNameFrom(items);
      assert u.children.Keys == want.Keys;
      forall x | x in want
        ensures x != ""
      {
        var k :| 0 <= k < |items| && items[k] == Item(want[x]);
        assert ItemNamesNonEmpty(items[k]);
        assert NamesNonEmpty(want[x]);
      }
    }
  }

  /** In such a built tree, no list of names holding `""` resolves. */
  lemma {:induction false} BuiltEmptyNameNeverResolves(root: Node, e: Entry, fp: set<object>, names: seq<string>)
    requires Mirrors(root, e, null, fp) && NamesNonEmpty(e)
    requires "" in names
    ensures Resolve(root, names) == None
    decreases |names|
  {
    var n := |names| - 1;
    if names[n] != "" {
      assert "" in names[..n];
      BuiltEmptyNameNeverResolves(root, e, fp, names[..n]);
    } else if Resolve(root, names[..n]).Some? {
      NoEmptyChildInBuilt(root, e, fp, names[..n]);
    }
  }

  /**
   * `GetFile` on a tree built from a filesystem without empty names yields
   * nothing for a path that normalises to the empty string, ends in a slash
   * or holds two slashes in a row.
   */
  lemma BuiltEmptySegmentPathFails(root: Node, e: Entry, fp: set<object>, path: string)
    requires Mirrors(root, e, null, fp) && NamesNonEmpty(e)
    requires var s := Normalize(path); s == "" || s[|s| - 1] == '/' || HasDoubleSlash(s)
    ensures Resolve(root, Segments(path)) == None
  {
    EmptySegmentPaths(path);
    BuiltEmptyNameNeverResolves(root, e, fp, Segments(path));
  }

  /** `keys` lists each key of `m` exactly once. */
  ghost predicate ListsKeys(keys: seq<string>, m: map<string, Node>) {
    Distinct(keys) && forall k :: k in m <==> k in keys
  }

  ghost predicate Distinct(keys: seq<string>) {
    forall i, j :: 0 <= i < j < |keys| ==> keys[i] != keys[j]
  }

  /** `vals` holds the values of `m`, one for each key. */
  ghost predicate Enumerates(vals: seq<Node>, m: map<string, Node>) {
    exists keys :: ListsKeys(keys, m) && |keys| == |vals| && forall i :: 0 <= i < |vals| ==> vals[i] == m[keys[i]]
  }

  /** A tree of nodes, with the `byPopularity`/`byRecency` ranking queues the server declares beside it. */
  class FileTree {
    const root: Node
    var byPopularity: seq<Node>
    var byRecency: seq<Node>

    constructor (root: Node)
      ensures this.root == root && byPopularity == [] && byRecency == []
    {
      this.root := root;
      byPopularity := [];
      byRecency := [];
    }

    /**
     * The node at `path`: the path is trimmed, stripped of every leading
     * slash and split at each slash, and the pieces are followed one by one
     * from the root; the first piece with no matching child gives `None`.
     */
    method GetFile(path: string) returns (r: Option<Node>)
      ensures r == Resolve(root, Segments(path))
    {
      var names := Segments(path);
      r := Walk(names);
    }

    /** The loop of `GetFile`: follows `names` from the root, child by child, stopping at the first one missing. */
    method Walk(names: seq<string>) returns (r: Option<Node>)
      ensures r == Resolve(root, names)
    {
      var current := root;
      var i := 0;
      while i < |names|
        invariant 0 <= i <= |names|
        invariant Resolve(root, names[..i]) == Some(current)
      {
        assert names[..i + 1][..i] == names[..i];
        var child := current.GetChild(names[i]);
        if child.None? {
          ResolveStopsAtMissing(root, names, i + 1);
          return None;
        }
        current := child.value;
        i := i + 1;
      }
      assert names[..i] == names;
      return Some(current);
    }

    /**
     * The children of the directory at `path`; `None` when the path does not
     * resolve or resolves to a file.
     */
    method GetChildren(path: string) returns (r: Option<seq<Node>>)
      ensures var n := Resolve(root, Segments(path));
              r.None? <==> n.None? || n.value.isFile
      ensures var n := Resolve(root, Segments(path));
              r.Some? ==> |r.value| == |n.value.children| && Enumerates(r.value, n.value.children)
    {
      var node := GetFile(path);
      if node.None? || node.value.isFile {
        return None;
      }
      var children := node.value.GetChildren();
      return Some(children);
    }
  }

  /**
   * The node reached from `from` by following `names` child by child, if
   * every step exists: the last name is looked up in the node the others reach.
   */
  ghost function Resolve(from: Node, names: seq<string>): Option<Node>
    reads *
    decreases |names|
  {
    if names == [] then Some(from)
    else match Resolve(from, names[..|names| - 1])
      case None => None
      case Some(n) => n.GetChild(names[|names| - 1])
  }

  /** A failed lookup stays failed, however many names follow. */
  lemma {:induction false} ResolveStopsAtMissing(from: Node, names: seq<string>, i: nat)
    requires i <= |names| && Resolve(from, names[..i]).None?
    ensures Resolve(from, names).None?
    decreases |names| - i
  {
    if i < |names| {
      assert names[..i + 1][..i] == names[..i];
      ResolveStopsAtMissing(from, names, i + 1);
    } else {
      assert names[..i] == names;
    }
  }

  /** Following the first name and then the rest is following them all. */
  lemma {:induction false} ResolveFirst(from: Node, names: seq<string>)
    requires names != []
    ensures Resolve(from, names) == match from.GetChild(names[0])
                                      case None => None
                                      case Some(c) => Resolve(c, names[1..])
    decreases |names|
  {
    if |names| == 1 {
      assert names[..0] == [];
      assert names[1..] == [];
    } else {
      var n := |names| - 1;
      var front := names[..n];
      ResolveFirst(from, front);
      assert front[0] == names[0];
      assert front[1..] == names[1..][..n - 1];
      assert names[1..][n - 1] == names[n];
    }
  }

  /** The first `i` names resolve, to a node with no child named `names[i]`. */
  ghost predicate MissingAt(from: Node, names: seq<string>, i: nat)
    reads *
    requires i < |names|
  {
    Resolve(from, names[..i]).Some? && names[i] !in Resolve(from, names[..i]).value.children
  }

  /**
   * A lookup fails exactly at the first name with no matching child: it
   * gives `None` if and only if some prefix of the names resolves to a node
   * that lacks the next name.
   */
  lemma {:induction false} ResolveFailsAtFirstMissing(from: Node, names: seq<string>)
    ensures Resolve(from, names).None? <==> exists i :: 0 <= i < |names| && MissingAt(from, names, i)
    decreases |names|
  {
    if names != [] {
      var n := |names| - 1;
      var front := names[..n];
      ResolveFailsAtFirstMissing(from, front);
      if Resolve(from, names).None? {
        if Resolve(from, front).Some? {
          assert names[..n] == front;
          assert MissingAt(from, names, n);
        } else {
          var i :| 0 <= i < n && MissingAt(from, front, i);
          assert names[..i] == front[..i];
          assert MissingAt(from, names, i);
        }
      } else {
        forall i | 0 <= i < |names|
          ensures !MissingAt(from, names, i)
        {
          if i < n {
            assert names[..i] == front[..i];
            assert !MissingAt(from, front, i);
          } else {
            assert names[..i] == front;
          }
        }
      }
    }
  }

  /** A lookup of at least one name that succeeds ends at a child of the node the rest of the path reaches. */
  lemma ResolvedIsChild(from: Node, names: seq<string>)
    requires |names| >= 1 && Resolve(from, names).Some?
    ensures var last := names[|names| - 1];
            var up := Resolve(from, names[..|names| - 1]);
            up.Some? && last in up.value.children && up.value.children[last] == Resolve(from, names).value
  {
  }

  /** A lookup of at least one name never ends at a node that is nobody's child. */
  lemma RootNeverReached(root: Node, names: seq<string>)
    requires forall m: Node :: root !in m.children.Values
    requires |names| >= 1
    ensures Resolve(root, names) != Some(root)
  {
    if Resolve(root, names).Some? {
      var up := Resolve(root, names[..|names| - 1]).value;
      assert root !in up.children.Values;
    }
  }

  /** `GetFile` never yields the root of a tree whose root is nobody's child: every path has a segment. */
  lemma RootNeverResolved(root: Node, path: string)
    requires forall m: Node :: root !in m.children.Values
    ensures Resolve(root, Segments(path)) != Some(root)
  {
    RootNeverReached(root, Segments(path));
  }

  /** When no node has a child named `""`, no list of names holding `""` resolves. */
  lemma {:induction false} EmptyNameNeverResolves(from: Node, names: seq<string>)
    requires forall m: Node :: "" !in m.children
    requires "" in names
    ensures Resolve(from, names) == None
    decreases |names|
  {
    var n := |names| - 1;
    if names[n] != "" {
      assert "" in names[..n];
      EmptyNameNeverResolves(from, names[..n]);
    } else if Resolve(from, names[..n]).Some? {
      var up := Resolve(from, names[..n]).value;
      assert "" !in up.children;
    }
  }

  /**
   * Empty segments are looked up, not skipped: when no node has a child
   * named `""`, a path that normalises to the empty string, ends in a slash
   * or holds two slashes in a row resolves to nothing.
   */
  lemma EmptySegmentPathFails(root: Node, path: string)
    requires forall m: Node :: "" !in m.children
    requires var s := Normalize(path); s == "" || s[|s| - 1] == '/' || HasDoubleSlash(s)
    ensures Resolve(root, Segments(path)) == None
  {
    EmptySegmentPaths(path);
    EmptyNameNeverResolves(root, Segments(path));
  }

  /**
   * Round trip: the path that joins non-empty, slash-free names by `/`,
   * with no whitespace at either end, resolves to the node those names reach.
   */
  lemma JoinedPathResolves(root: Node, names: seq<string>)
    requires |names| >= 1
    requires forall k :: 0 <= k < |names| ==> names[k] != "" && '/' !in names[k]
    requires !IsWhitespace(names[0][0])
    requires !IsWhitespace(names[|names| - 1][|names[|names| - 1]| - 1])
    ensures Resolve(root, Segments(Join(names))) == Resolve(root, names)
  {
    SegmentsOfJoin(names);
  }
}
