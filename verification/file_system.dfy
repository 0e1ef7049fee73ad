/**
 * The file system the folder operations act on, as a value: a tree of
 * directories whose entries are listed in enumeration order, and the few
 * primitives of System.IO that the backup uses (existence tests, directory
 * creation, a copy that refuses to overwrite).
 */
module FileSystem {
  import opened Results

  /** A path as the names below the root; joining a name onto a path is `p + [name]`. */
  type Path = seq<string>

  /** A file with its contents, or a directory with its entries in enumeration order. */
  datatype Node = File(contents: seq<bv8>) | Dir(entries: seq<Entry>)

  datatype Entry = Entry(name: string, node: Node)

  /** Neither path lies inside the other. */
  predicate Disjoint(p: Path, q: Path) {
    !(p <= q) && !(q <= p)
  }

  /** No two entries of a directory share a name. */
  predicate DistinctNames(entries: seq<Entry>)
    decreases |entries|
  {
    entries == [] ||
    ((forall e :: e in entries[1..] ==> e.name != entries[0].name) && DistinctNames(entries[1..]))
  }

  /** Every directory of the tree has distinct entry names, as on a real volume. */
  predicate WellFormed(node: Node)
    decreases node
  {
    node.Dir? ==> DistinctNames(node.entries) && forall e :: e in node.entries ==> WellFormed(e.node)
  }

  /** The node of the first entry called `name`. */
  function Find(entries: seq<Entry>, name: string): (found: Option<Node>)
    ensures found.None? <==> forall e :: e in entries ==> e.name != name
    ensures found.Some? ==> Entry(name, found.value) in entries
    decreases |entries|
  {
    if entries == [] then None
    else if entries[0].name == name then Some(entries[0].node)
    else Find(entries[1..], name)
  }

  /** The entry called `name`, or the empty directory that creating it would start from. */
  function ChildOrEmpty(entries: seq<Entry>, name: string): Node {
    match Find(entries, name)
    case Some(child) => child
    case None => Dir([])
  }

  /** The node at `path`, if every name on the way exists and every step but the last is a directory. */
  function Lookup(root: Node, path: Path): Option<Node>
    decreases |path|
  {
    if path == [] then Some(root)
    else match root
      case File(_) => None
      case Dir(entries) =>
        match Find(entries, path[0])
        case None => None
        case Some(child) => Lookup(child, path[1..])
  }

  /** `Directory.Exists`: there is a directory at `path`. */
  predicate IsDirAt(root: Node, path: Path) {
    Lookup(root, path).Some? && Lookup(root, path).value.Dir?
  }

  /** The entries with `name` set to `node`: the first such entry is replaced, or a new one is appended. */
  function SetEntry(entries: seq<Entry>, name: string, node: Node): (updated: seq<Entry>)
    ensures Find(updated, name) == Some(node)
    ensures forall other :: other != name ==> Find(updated, other) == Find(entries, other)
    ensures forall e :: e in updated ==> e in entries || e == Entry(name, node)
    ensures DistinctNames(entries) ==> DistinctNames(updated)
    decreases |entries|
  {
    if entries == [] then [Entry(name, node)]
    else if entries[0].name == name then [Entry(name, node)] + entries[1..]
    else
      var rest := SetEntry(entries[1..], name, node);
      assert ([entries[0]] + rest)[1..] == rest;
      [entries[0]] + rest
  }

  /**
   * The tree with `node` stored at `path`; directories missing on the way are
   * created empty, and a file on the way is left as it is.
   */
  function Put(root: Node, path: Path, node: Node): Node
    decreases |path|
  {
    if path == [] then node
    else match root
      case File(_) => root
      case Dir(entries) =>
        Dir(SetEntry(entries, path[0], Put(ChildOrEmpty(entries, path[0]), path[1..], node)))
  }

  /** Every step of `path` before the last is a directory or missing: nothing blocks storing at `path`. */
  predicate OpenPath(root: Node, path: Path)
    decreases |path|
  {
    path == [] || (root.Dir? && OpenPath(ChildOrEmpty(root.entries, path[0]), path[1..]))
  }

  /** What `b` keeps of `a` at `q`: an entry that existed is still there, a file unchanged, a directory still a directory. */
  ghost predicate GrowsAt(a: Node, b: Node, q: Path) {
    Lookup(a, q).Some? ==>
      Lookup(b, q).Some? &&
      (Lookup(a, q).value.File? ==> Lookup(b, q) == Lookup(a, q)) &&
      (Lookup(a, q).value.Dir? ==> Lookup(b, q).value.Dir?)
  }

  /** `b` only adds to `a`: nothing was removed, overwritten or turned from a directory into a file. */
  ghost predicate Grows(a: Node, b: Node) {
    forall q :: GrowsAt(a, b, q)
  }

  /**
   * `Directory.CreateDirectory`: an existing directory is left alone; missing
   * directories on the way are created; a file at the path or on the way
   * makes it throw.
   */
  function CreateDirectory(root: Node, path: Path): (r: Result<Node>)
    ensures r.Ok? <==> IsDirAt(root, path) || (Lookup(root, path).None? && OpenPath(root, path))
    ensures r.Ok? ==> IsDirAt(r.value, path)
    ensures IsDirAt(root, path) ==> r == Ok(root)
    ensures Lookup(root, path).None? && r.Ok? ==> Lookup(r.value, path) == Some(Dir([]))
    ensures r.Err? ==> r.error == PathBlocked(path)
  {
    match Lookup(root, path)
    case Some(Dir(_)) => Ok(root)
    case Some(File(_)) => Err(PathBlocked(path))
    case None =>
      if OpenPath(root, path) then
        LookupPutSame(root, path, Dir([]));
        Ok(Put(root, path, Dir([])))
      else Err(PathBlocked(path))
  }

  /**
   * `FileInfo.CopyTo(target, false)` for the file `file`: throws when the
   * target name is taken (by a file or a directory) or its parent directory
   * is missing; otherwise the target is created with the same contents.
   */
  function CopyFile(root: Node, target: Path, file: Node): (r: Result<Node>)
    requires target != []
    ensures r.Ok? <==> Lookup(root, target).None? && IsDirAt(root, target[..|target| - 1])
    ensures r.Ok? ==> Lookup(r.value, target) == Some(file)
    ensures r.Err? && Lookup(root, target).Some? ==> r.error == FileExists(target)
  {
    var parent := target[..|target| - 1];
    if Lookup(root, target).Some? then Err(FileExists(target))
    else if !IsDirAt(root, parent) then Err(DirectoryNotFound(parent))
    else
      assert target == parent + [target[|target| - 1]];
      OpenPathUnderDir(root, parent, target[|target| - 1]);
      LookupPutSame(root, target, file);
      Ok(Put(root, target, file))
  }

  // ----- Lemmas about paths and the tree operations -----

  /** Two prefixes of one path are prefixes of each other. */
  lemma PrefixesComparable(a: Path, b: Path, c: Path)
    ensures a <= c && b <= c ==> a <= b || b <= a
  {
    if a <= c && b <= c {
      if |a| <= |b| {
        assert a == c[..|a|] == b[..|a|];
      } else {
        assert b == c[..|b|] == a[..|b|];
      }
    }
  }

  /** Paths that lie apart stay apart when each is extended. */
  lemma DisjointExtend(p: Path, q: Path, x: Path, y: Path)
    requires Disjoint(p, q)
    ensures Disjoint(p + x, q + y)
  {
    assert p <= p + x && q <= q + y;
    PrefixesComparable(p, q, q + y);
    PrefixesComparable(p, q, p + x);
  }

  lemma {:induction false} FindDistinct(entries: seq<Entry>, e: Entry)
    requires DistinctNames(entries) && e in entries
    ensures Find(entries, e.name) == Some(e.node)
    decreases |entries|
  {
    if entries[0] != e {
      assert e in entries[1..];
      FindDistinct(entries[1..], e);
    }
  }

  lemma {:induction false} LookupAppend(root: Node, path: Path, name: string)
    ensures Lookup(root, path + [name]) ==
      if IsDirAt(root, path) then Find(Lookup(root, path).value.entries, name) else None
    decreases |path|
  {
    if path != [] {
      assert (path + [name])[0] == path[0];
      assert (path + [name])[1..] == path[1..] + [name];
      if root.Dir? {
        match Find(root.entries, path[0])
        case None =>
        case Some(child) => LookupAppend(child, path[1..], name);
      }
    }
  }

  lemma {:induction false} OpenPathUnderDir(root: Node, path: Path, name: string)
    requires IsDirAt(root, path)
    ensures OpenPath(root, path + [name])
    decreases |path|
  {
    if path != [] {
      assert (path + [name])[1..] == path[1..] + [name];
      OpenPathUnderDir(ChildOrEmpty(root.entries, path[0]), path[1..], name);
    }
  }

  lemma {:induction false} LookupPutSame(root: Node, path: Path, node: Node)
    requires OpenPath(root, path)
    ensures Lookup(Put(root, path, node), path) == Some(node)
    decreases |path|
  {
    if path != [] {
      LookupPutSame(ChildOrEmpty(root.entries, path[0]), path[1..], node);
    }
  }

  lemma {:induction false} LookupPutOther(root: Node, path: Path, node: Node, q: Path)
    requires Disjoint(path, q)
    ensures Lookup(Put(root, path, node), q) == Lookup(root, q)
    decreases |path|
  {
    if root.Dir? && q[0] == path[0] {
      var child := ChildOrEmpty(root.entries, path[0]);
      assert path == [path[0]] + path[1..] && q == [q[0]] + q[1..];
      LookupPutOther(child, path[1..], node, q[1..]);
    }
  }

  lemma {:induction false} LookupPutGrows(root: Node, path: Path, node: Node, q: Path)
    requires Lookup(root, path).None?
    ensures GrowsAt(root, Put(root, path, node), q)
    decreases |path|
  {
    if root.Dir? && q != [] && q[0] == path[0] {
      match Find(root.entries, path[0])
      case None =>
      case Some(child) => LookupPutGrows(child, path[1..], node, q[1..]);
    }
  }

  lemma PutGrows(root: Node, path: Path, node: Node)
    requires Lookup(root, path).None?
    ensures Grows(root, Put(root, path, node))
  {
    forall q ensures GrowsAt(root, Put(root, path, node), q) {
      LookupPutGrows(root, path, node, q);
    }
  }

  lemma GrowsTransitive(a: Node, b: Node, c: Node)
    requires Grows(a, b) && Grows(b, c)
    ensures Grows(a, c)
  {
    forall q ensures GrowsAt(a, c, q) {
      assert GrowsAt(a, b, q) && GrowsAt(b, c, q);
    }
  }

  lemma GrowsKeepsDir(a: Node, b: Node, path: Path)
    requires Grows(a, b) && IsDirAt(a, path)
    ensures IsDirAt(b, path)
  {
    assert GrowsAt(a, b, path);
  }

  lemma GrowsKeepsFile(a: Node, b: Node, path: Path)
    requires Grows(a, b) && Lookup(a, path).Some? && Lookup(a, path).value.File?
    ensures Lookup(b, path) == Lookup(a, path)
  {
    assert GrowsAt(a, b, path);
  }

  lemma {:induction false} PutWellFormed(root: Node, path: Path, node: Node)
    requires WellFormed(root) && WellFormed(node)
    ensures WellFormed(Put(root, path, node))
    decreases |path|
  {
    if path != [] && root.Dir? {
      var child := ChildOrEmpty(root.entries, path[0]);
      PutWellFormed(child, path[1..], node);
    }
  }

  lemma {:induction false} LookupWellFormed(root: Node, path: Path)
    requires WellFormed(root) && Lookup(root, path).Some?
    ensures WellFormed(Lookup(root, path).value)
    decreases |path|
  {
    if path != [] {
      var child := Find(root.entries, path[0]).value;
      LookupWellFormed(child, path[1..]);
    }
  }

  /** Creating a directory only adds to the tree. */
  lemma CreateDirectoryGrows(root: Node, path: Path)
    requires CreateDirectory(root, path).Ok?
    ensures Grows(root, CreateDirectory(root, path).value)
  {
    if !IsDirAt(root, path) {
      PutGrows(root, path, Dir([]));
    }
  }

  /** Copying a file only adds to the tree. */
  lemma CopyFileGrows(root: Node, target: Path, file: Node)
    requires target != [] && CopyFile(root, target, file).Ok?
    ensures Grows(root, CopyFile(root, target, file).value)
  {
    PutGrows(root, target, file);
  }

  /** Two different names under one directory lie apart. */
  lemma SiblingsDisjoint(parent: Path, a: string, b: string)
    requires a != b
    ensures Disjoint(parent + [a], parent + [b])
  {
    assert (parent + [a])[|parent|] == a && (parent + [b])[|parent|] == b;
  }

  lemma {:induction false} LookupConcat(root: Node, p: Path, q: Path)
    ensures Lookup(root, p + q) == match Lookup(root, p) case Some(n) => Lookup(n, q) case None => None
    decreases |p|
  {
    if p == [] {
      assert p + q == q;
    } else {
      assert (p + q)[0] == p[0] && (p + q)[1..] == p[1..] + q;
      if root.Dir? {
        match Find(root.entries, p[0])
        case None =>
        case Some(child) => LookupConcat(child, p[1..], q);
      }
    }
  }

  lemma CreateDirectoryWellFormed(root: Node, path: Path)
    requires WellFormed(root) && CreateDirectory(root, path).Ok?
    ensures WellFormed(CreateDirectory(root, path).value)
  {
    if !IsDirAt(root, path) {
      PutWellFormed(root, path, Dir([]));
    }
  }

  /** Creating a directory that is already there changes nothing; in particular a second creation changes nothing more. */
  lemma CreateDirectoryIdempotent(root: Node, path: Path)
    ensures IsDirAt(root, path) ==> CreateDirectory(root, path) == Ok(root)
    ensures CreateDirectory(root, path).Ok? ==>
      CreateDirectory(CreateDirectory(root, path).value, path) == CreateDirectory(root, path)
  {
  }

  lemma CreateDirectoryFrame(root: Node, path: Path, q: Path)
    requires Disjoint(path, q) && CreateDirectory(root, path).Ok?
    ensures Lookup(CreateDirectory(root, path).value, q) == Lookup(root, q)
  {
    if !IsDirAt(root, path) {
      LookupPutOther(root, path, Dir([]), q);
    }
  }

  lemma CopyFileWellFormed(root: Node, target: Path, file: Node)
    requires WellFormed(root) && WellFormed(file) && target != [] && CopyFile(root, target, file).Ok?
    ensures WellFormed(CopyFile(root, target, file).value)
  {
    PutWellFormed(root, target, file);
  }

  lemma CopyFileFrame(root: Node, target: Path, file: Node, q: Path)
    requires Disjoint(target, q) && target != [] && CopyFile(root, target, file).Ok?
    ensures Lookup(CopyFile(root, target, file).value, q) == Lookup(root, q)
  {
    LookupPutOther(root, target, file, q);
  }
}
