/**
 * The recursive backup of a tree folder: the source directory's own files
 * are copied into the backup directory without overwriting, then, when
 * asked, each subdirectory is backed up the same way into the backup
 * directory's entry of the same name.
 *
 * `Backup` and the functions below it state what a backup does to the file
 * system value; `Volume.BackupTrees` performs it step by step on the volume's
 * tree and is proved to agree with `Backup`.
 */
module FolderBackup {
  import opened Results
  import opened FileSystem

  // ----- What a backup does -----

  /** The direct files of a directory, in enumeration order (`GetFiles`). */
  function FilesOf(entries: seq<Entry>): (files: seq<Entry>)
    ensures forall e :: e in files <==> e in entries && e.node.File?
    ensures DistinctNames(entries) ==> DistinctNames(files)
    decreases |entries|
  {
    if entries == [] then []
    else
      var rest := FilesOf(entries[1..]);
      if entries[0].node.File? then
        assert ([entries[0]] + rest)[1..] == rest;
        [entries[0]] + rest
      else rest
  }

  /** The direct subdirectories of a directory, in enumeration order (`GetDirectories`). */
  function SubdirectoriesOf(entries: seq<Entry>): (subdirectories: seq<Entry>)
    ensures forall e :: e in subdirectories <==> e in entries && e.node.Dir?
    decreases |entries|
  {
    if entries == [] then []
    else
      var rest := SubdirectoriesOf(entries[1..]);
      if entries[0].node.Dir? then [entries[0]] + rest else rest
  }

  /** The files of the source directory at `src`. */
  function SourceFiles(fs: Node, src: Path): seq<Entry>
    requires IsDirAt(fs, src)
  {
    FilesOf(Lookup(fs, src).value.entries)
  }

  /** The source exists as a directory whose entries have distinct names. */
  predicate SourceOk(fs: Node, src: Path) {
    IsDirAt(fs, src) && WellFormed(Lookup(fs, src).value)
  }

  /** The backup directory, created when it does not exist yet. */
  function Destination(fs: Node, dst: Path): (r: Result<Node>)
    ensures IsDirAt(fs, dst) ==> r == Ok(fs)
    ensures r.Ok? ==> IsDirAt(r.value, dst) && Grows(fs, r.value)
    ensures r.Ok? && !IsDirAt(fs, dst) ==> Lookup(r.value, dst) == Some(Dir([]))
    ensures r.Err? ==> r.error == PathBlocked(dst) && (Lookup(fs, dst).Some? || !OpenPath(fs, dst))
  {
    if IsDirAt(fs, dst) then Ok(fs)
    else
      var created := CreateDirectory(fs, dst);
      if created.Ok? then CreateDirectoryGrows(fs, dst); created else created
  }

  /** The copy loop: each file copied to `dst` under its own name, stopping at the first copy that throws. */
  function CopyFiles(fs: Node, dst: Path, files: seq<Entry>): (Outcome, Node)
    decreases |files|
  {
    if files == [] then (Pass, fs)
    else
      match CopyFile(fs, dst + [files[0].name], files[0].node)
      case Err(e) => (Fail(e), fs)
      case Ok(copied) => CopyFiles(copied, dst, files[1..])
  }

  /** The backup of the directory `source` into `dst`. */
  function BackupDirectory(source: Node, fs: Node, dst: Path, recurse: bool): (Outcome, Node)
    requires source.Dir?
    decreases source, 1
  {
    match Destination(fs, dst)
    case Err(e) => (Fail(e), fs)
    case Ok(created) =>
      var copied := CopyFiles(created, dst, FilesOf(source.entries));
      if copied.0.Fail? || !recurse then copied
      else BackupSubdirectories(source, SubdirectoriesOf(source.entries), copied.1, dst, recurse)
  }

  /** The loop over the subdirectories of `parent`: each backed up into `dst` under its own name, stopping at the first failure. */
  function BackupSubdirectories(parent: Node, subdirectories: seq<Entry>, fs: Node, dst: Path, recurse: bool): (Outcome, Node)
    requires parent.Dir?
    requires forall e :: e in subdirectories ==> e in parent.entries && e.node.Dir?
    decreases parent, 0, |subdirectories|
  {
    if subdirectories == [] then (Pass, fs)
    else
      var sub := subdirectories[0];
      assert sub in parent.entries;
      var backedUp := BackupDirectory(sub.node, fs, dst + [sub.name], recurse);
      if backedUp.0.Fail? then backedUp
      else BackupSubdirectories(parent, subdirectories[1..], backedUp.1, dst, recurse)
  }

  /** `BackupTrees(src, dst, recurse)` on the file system `fs`: the outcome and the file system afterwards. */
  function Backup(fs: Node, src: Path, dst: Path, recurse: bool): (r: (Outcome, Node))
    ensures !IsDirAt(fs, src) ==> r == (Fail(DirectoryNotFound(src)), fs)
    ensures IsDirAt(fs, src) && Destination(fs, dst).Err? ==> r == (Fail(PathBlocked(dst)), fs)
  {
    match Lookup(fs, src)
    case Some(Dir(entries)) => BackupDirectory(Dir(entries), fs, dst, recurse)
    case _ => (Fail(DirectoryNotFound(src)), fs)
  }

  // ----- The operation on a volume -----

  /** The node at `path`, or an empty directory when there is none: the measure the recursion descends. */
  ghost function NodeAt(fs: Node, path: Path): Node {
    match Lookup(fs, path)
    case Some(node) => node
    case None => Dir([])
  }

  /** A mounted volume: the whole file system tree, changed in place by the operations. */
  class Volume {
    var root: Node

    ghost predicate Valid()
      reads this
    {
      root.Dir? && WellFormed(root)
    }

    constructor (root: Node)
      requires root.Dir? && WellFormed(root)
      ensures Valid() && this.root == root
    {
      this.root := root;
    }

    /** The loop over the source's files: each copied into `backupLocation` under its own name, never overwriting. */
    method CopyFilesTo(files: seq<Entry>, backupLocation: Path) returns (outcome: Outcome)
      requires Valid() && forall e :: e in files ==> e.node.File?
      modifies this
      ensures Valid()
      ensures (outcome, root) == CopyFiles(old(root), backupLocation, files)
    {
      var i := 0;
      while i < |files|
        invariant 0 <= i <= |files|
        invariant Valid()
        invariant CopyFiles(old(root), backupLocation, files) == CopyFiles(root, backupLocation, files[i..])
      {
        var file := files[i];
        assert files[i..][0] == file && files[i..][1..] == files[i + 1..];
        var copied := CopyFile(root, backupLocation + [file.name], file.node);
        if copied.Err? {
          return Fail(copied.error);
        }
        CopyFileWellFormed(root, backupLocation + [file.name], file.node);
        root := copied.value;
        i := i + 1;
      }
      return Pass;
    }

    /**
     * Copies the directory at `currentLocation` into `backupLocation`: its
     * files first, in enumeration order and never overwriting, then, when
     * `copySubDirectories` holds, each subdirectory recursively.
     */
    method BackupTrees(currentLocation: Path, backupLocation: Path, copySubDirectories: bool)
      returns (outcome: Outcome)
      requires Valid() && Disjoint(currentLocation, backupLocation)
      modifies this
      ensures Valid()
      ensures (outcome, root) == Backup(old(root), currentLocation, backupLocation, copySubDirectories)
      decreases NodeAt(root, currentLocation), 1
    {
      var found := Lookup(root, currentLocation);
      if !(found.Some? && found.value.Dir?) {
        return Fail(DirectoryNotFound(currentLocation));
      }
      var sourceDirectory := found.value;
      LookupWellFormed(root, currentLocation);

      if !IsDirAt(root, backupLocation) {
        var created := CreateDirectory(root, backupLocation);
        if created.Err? {
          return Fail(created.error);
        }
        CreateDirectoryWellFormed(root, backupLocation);
        CreateDirectoryFrame(root, backupLocation, currentLocation);
        root := created.value;
      }

      var files := FilesOf(sourceDirectory.entries);
      ghost var destination := root;
      outcome := CopyFilesTo(files, backupLocation);
      CopyFilesFrame(destination, backupLocation, files, currentLocation);
      if outcome.Fail? {
        return;
      }

      if copySubDirectories {
        outcome := BackupSubdirectoriesTo(currentLocation, sourceDirectory, backupLocation);
      }
    }

    /** The loop over the source's subdirectories: each backed up recursively into the backup directory's entry of the same name. */
    method BackupSubdirectoriesTo(currentLocation: Path, sourceDirectory: Node, backupLocation: Path) returns (outcome: Outcome)
      requires Valid() && Disjoint(currentLocation, backupLocation)
      requires Lookup(root, currentLocation) == Some(sourceDirectory) && sourceDirectory.Dir?
      modifies this
      ensures Valid()
      ensures (outcome, root) == BackupSubdirectories(sourceDirectory, SubdirectoriesOf(sourceDirectory.entries), old(root), backupLocation, true)
      decreases NodeAt(root, currentLocation), 0
    {
      LookupWellFormed(root, currentLocation);
      var sourceDirectories := SubdirectoriesOf(sourceDirectory.entries);
      var j := 0;
      while j < |sourceDirectories|
        invariant 0 <= j <= |sourceDirectories|
        invariant Valid() && Lookup(root, currentLocation) == Some(sourceDirectory)
        invariant BackupSubdirectories(sourceDirectory, sourceDirectories, old(root), backupLocation, true) ==
                  BackupSubdirectories(sourceDirectory, sourceDirectories[j..], root, backupLocation, true)
      {
        var subDirectory := sourceDirectories[j];
        assert sourceDirectories[j..][0] == subDirectory && sourceDirectories[j..][1..] == sourceDirectories[j + 1..];
        FindDistinct(sourceDirectory.entries, subDirectory);
        LookupAppend(root, currentLocation, subDirectory.name);
        DisjointExtend(currentLocation, backupLocation, [subDirectory.name], [subDirectory.name]);
        DisjointExtend(currentLocation, backupLocation, [], [subDirectory.name]);
        assert currentLocation + [] == currentLocation;
        ghost var before := root;
        outcome := BackupTrees(currentLocation + [subDirectory.name], backupLocation + [subDirectory.name], true);
        BackupFrame(before, currentLocation + [subDirectory.name], backupLocation + [subDirectory.name], true, currentLocation);
        if outcome.Fail? {
          return;
        }
        j := j + 1;
      }
      return Pass;
    }
  }

  // ----- Nothing outside the backup directory changes -----

  lemma {:induction false} CopyFilesFrame(fs: Node, dst: Path, files: seq<Entry>, q: Path)
    requires Disjoint(q, dst)
    ensures Lookup(CopyFiles(fs, dst, files).1, q) == Lookup(fs, q)
    decreases |files|
  {
    if files != [] {
      var target := dst + [files[0].name];
      var copied := CopyFile(fs, target, files[0].node);
      if copied.Ok? {
        DisjointExtend(q, dst, [], [files[0].name]);
        assert q + [] == q;
        CopyFileFrame(fs, target, files[0].node, q);
        CopyFilesFrame(copied.value, dst, files[1..], q);
      }
    }
  }

  lemma {:induction false} BackupDirectoryFrame(source: Node, fs: Node, dst: Path, recurse: bool, q: Path)
    requires source.Dir? && Disjoint(q, dst)
    ensures Lookup(BackupDirectory(source, fs, dst, recurse).1, q) == Lookup(fs, q)
    decreases source, 1
  {
    match Destination(fs, dst)
    case Err(_) =>
    case Ok(created) =>
      if !IsDirAt(fs, dst) {
        CreateDirectoryFrame(fs, dst, q);
      }
      CopyFilesFrame(created, dst, FilesOf(source.entries), q);
      var copied := CopyFiles(created, dst, FilesOf(source.entries));
      if copied.0.Pass? && recurse {
        BackupSubdirectoriesFrame(source, SubdirectoriesOf(source.entries), copied.1, dst, recurse, q);
      }
  }

  lemma {:induction false} BackupSubdirectoriesFrame(parent: Node, subdirectories: seq<Entry>, fs: Node, dst: Path, recurse: bool, q: Path)
    requires parent.Dir? && Disjoint(q, dst)
    requires forall e :: e in subdirectories ==> e in parent.entries && e.node.Dir?
    ensures Lookup(BackupSubdirectories(parent, subdirectories, fs, dst, recurse).1, q) == Lookup(fs, q)
    decreases parent, 0, |subdirectories|
  {
    if subdirectories != [] {
      var sub := subdirectories[0];
      assert sub in parent.entries;
      DisjointExtend(q, dst, [], [sub.name]);
      assert q + [] == q;
      BackupDirectoryFrame(sub.node, fs, dst + [sub.name], recurse, q);
      var backedUp := BackupDirectory(sub.node, fs, dst + [sub.name], recurse);
      if backedUp.0.Pass? {
        BackupSubdirectoriesFrame(parent, subdirectories[1..], backedUp.1, dst, recurse, q);
      }
    }
  }

  /** A backup changes nothing at any path that neither lies inside the backup directory nor contains it. */
  lemma BackupFrame(fs: Node, src: Path, dst: Path, recurse: bool, q: Path)
    requires Disjoint(q, dst)
    ensures Lookup(Backup(fs, src, dst, recurse).1, q) == Lookup(fs, q)
  {
    if IsDirAt(fs, src) {
      BackupDirectoryFrame(Lookup(fs, src).value, fs, dst, recurse, q);
    }
  }

  // ----- Nothing is overwritten or removed -----

  lemma {:induction false} CopyFilesGrows(fs: Node, dst: Path, files: seq<Entry>)
    ensures Grows(fs, CopyFiles(fs, dst, files).1)
    decreases |files|
  {
    if files != [] {
      var copied := CopyFile(fs, dst + [files[0].name], files[0].node);
      if copied.Ok? {
        CopyFileGrows(fs, dst + [files[0].name], files[0].node);
        CopyFilesGrows(copied.value, dst, files[1..]);
        GrowsTransitive(fs, copied.value, CopyFiles(copied.value, dst, files[1..]).1);
      }
    }
  }

  lemma {:induction false} BackupDirectoryGrows(source: Node, fs: Node, dst: Path, recurse: bool)
    requires source.Dir?
    ensures Grows(fs, BackupDirectory(source, fs, dst, recurse).1)
    decreases source, 1
  {
    match Destination(fs, dst)
    case Err(_) =>
    case Ok(created) =>
      if !IsDirAt(fs, dst) {
        CreateDirectoryGrows(fs, dst);
      }
      CopyFilesGrows(created, dst, FilesOf(source.entries));
      GrowsTransitive(fs, created, CopyFiles(created, dst, FilesOf(source.entries)).1);
      var copied := CopyFiles(created, dst, FilesOf(source.entries));
      if copied.0.Pass? && recurse {
        BackupSubdirectoriesGrows(source, SubdirectoriesOf(source.entries), copied.1, dst, recurse);
        GrowsTransitive(fs, copied.1, BackupSubdirectories(source, SubdirectoriesOf(source.entries), copied.1, dst, recurse).1);
      }
  }

  lemma {:induction false} BackupSubdirectoriesGrows(parent: Node, subdirectories: seq<Entry>, fs: Node, dst: Path, recurse: bool)
    requires parent.Dir?
    requires forall e :: e in subdirectories ==> e in parent.entries && e.node.Dir?
    ensures Grows(fs, BackupSubdirectories(parent, subdirectories, fs, dst, recurse).1)
    decreases parent, 0, |subdirectories|
  {
    if subdirectories != [] {
      var sub := subdirectories[0];
      assert sub in parent.entries;
      BackupDirectoryGrows(sub.node, fs, dst + [sub.name], recurse);
      var backedUp := BackupDirectory(sub.node, fs, dst + [sub.name], recurse);
      if backedUp.0.Pass? {
        BackupSubdirectoriesGrows(parent, subdirectories[1..], backedUp.1, dst, recurse);
        GrowsTransitive(fs, backedUp.1, BackupSubdirectories(parent, subdirectories[1..], backedUp.1, dst, recurse).1);
      }
    }
  }

  /** Whatever the outcome, a backup only adds: no file is overwritten or removed, no directory replaced. */
  lemma BackupOnlyAdds(fs: Node, src: Path, dst: Path, recurse: bool)
    ensures Grows(fs, Backup(fs, src, dst, recurse).1)
  {
    if IsDirAt(fs, src) {
      BackupDirectoryGrows(Lookup(fs, src).value, fs, dst, recurse);
    }
  }

  // ----- The copy loop, file by file -----

  /** The files stored one by one into `dst`, each under its own name. */
  function PutFiles(fs: Node, dst: Path, files: seq<Entry>): Node
    decreases |files|
  {
    if files == [] then fs else PutFiles(Put(fs, dst + [files[0].name], files[0].node), dst, files[1..])
  }

  /** The names under `dst` that the copies would take are all free. */
  predicate NamesFree(fs: Node, dst: Path, files: seq<Entry>) {
    forall e :: e in files ==> Lookup(fs, dst + [e.name]).None?
  }

  /** One successful copy leaves the directory in place and the other names as they were. */
  lemma CopyFileKeeps(fs: Node, dst: Path, files: seq<Entry>)
    requires IsDirAt(fs, dst) && files != [] && DistinctNames(files)
    requires CopyFile(fs, dst + [files[0].name], files[0].node).Ok?
    ensures IsDirAt(CopyFile(fs, dst + [files[0].name], files[0].node).value, dst)
    ensures forall e :: e in files[1..] ==>
      Lookup(CopyFile(fs, dst + [files[0].name], files[0].node).value, dst + [e.name]) == Lookup(fs, dst + [e.name])
  {
    var target := dst + [files[0].name];
    CopyFileGrows(fs, target, files[0].node);
    GrowsKeepsDir(fs, CopyFile(fs, target, files[0].node).value, dst);
    forall e | e in files[1..]
      ensures Lookup(CopyFile(fs, target, files[0].node).value, dst + [e.name]) == Lookup(fs, dst + [e.name])
    {
      SiblingsDisjoint(dst, files[0].name, e.name);
      CopyFileFrame(fs, target, files[0].node, dst + [e.name]);
    }
  }

  /** When no name is taken, the copy loop completes and stores every file. */
  lemma {:induction false} CopyFilesClean(fs: Node, dst: Path, files: seq<Entry>)
    requires IsDirAt(fs, dst) && DistinctNames(files) && NamesFree(fs, dst, files)
    ensures CopyFiles(fs, dst, files) == (Pass, PutFiles(fs, dst, files))
    decreases |files|
  {
    if files != [] {
      var target := dst + [files[0].name];
      assert target[..|target| - 1] == dst;
      var copied := CopyFile(fs, target, files[0].node);
      assert copied.Ok?;
      CopyFileKeeps(fs, dst, files);
      CopyFilesClean(copied.value, dst, files[1..]);
    }
  }

  /**
   * When the `k`-th name is the first one taken, the copy loop stops there
   * with `FileExists`: the files before it stay copied, the rest are not.
   */
  lemma {:induction false} CopyFilesClash(fs: Node, dst: Path, files: seq<Entry>, k: nat)
    requires IsDirAt(fs, dst) && DistinctNames(files) && k < |files|
    requires NamesFree(fs, dst, files[..k]) && Lookup(fs, dst + [files[k].name]).Some?
    ensures CopyFiles(fs, dst, files) == (Fail(FileExists(dst + [files[k].name])), PutFiles(fs, dst, files[..k]))
    decreases k
  {
    var target := dst + [files[0].name];
    var copied := CopyFile(fs, target, files[0].node);
    if k == 0 {
      assert copied == Err(FileExists(target));
    } else {
      assert target[..|target| - 1] == dst;
      assert files[0] in files[..k];
      assert copied.Ok?;
      CopyFileKeeps(fs, dst, files);
      assert files[1..][..k - 1] == files[..k][1..];
      assert files[1..][k - 1] == files[k];
      forall e | e in files[1..][..k - 1]
        ensures Lookup(copied.value, dst + [e.name]).None?
      {
        assert e in files[..k];
      }
      CopyFilesClash(copied.value, dst, files[1..], k - 1);
      assert copied.value == Put(fs, target, files[0].node);
      assert files[..k][0] == files[0];
      assert PutFiles(fs, dst, files[..k]) == PutFiles(copied.value, dst, files[1..][..k - 1]);
    }
  }

  // ----- What a backup copies -----

  /** A backup whose destination already holds the name of the `k`-th source file, and none before it, fails there. */
  lemma BackupStopsAtTakenName(fs: Node, src: Path, dst: Path, recurse: bool, k: nat)
    requires SourceOk(fs, src) && IsDirAt(fs, dst)
    requires k < |SourceFiles(fs, src)|
    requires NamesFree(fs, dst, SourceFiles(fs, src)[..k])
    requires Lookup(fs, dst + [SourceFiles(fs, src)[k].name]).Some?
    ensures Backup(fs, src, dst, recurse) ==
      (Fail(FileExists(dst + [SourceFiles(fs, src)[k].name])), PutFiles(fs, dst, SourceFiles(fs, src)[..k]))
  {
    CopyFilesClash(fs, dst, SourceFiles(fs, src), k);
  }

  /** Without recursion a backup stores exactly the source's own files, in order, and nothing else. */
  lemma BackupWithoutRecursion(fs: Node, src: Path, dst: Path)
    requires SourceOk(fs, src) && Destination(fs, dst).Ok?
    requires NamesFree(Destination(fs, dst).value, dst, SourceFiles(fs, src))
    ensures Backup(fs, src, dst, false) == (Pass, PutFiles(Destination(fs, dst).value, dst, SourceFiles(fs, src)))
  {
    CopyFilesClean(Destination(fs, dst).value, dst, SourceFiles(fs, src));
  }

  /**
   * The tree at `dst` holds a copy of `source`: a directory with each of
   * `source`'s files under the same name and, when `deep`, each of its
   * subdirectories copied the same way under the same name.
   */
  ghost predicate Holds(fs: Node, dst: Path, source: Node, deep: bool)
    decreases source
  {
    source.Dir? && IsDirAt(fs, dst) &&
    (forall e :: e in source.entries && e.node.File? ==> Lookup(fs, dst + [e.name]) == Some(e.node)) &&
    (deep ==> forall e :: e in source.entries && e.node.Dir? ==> Holds(fs, dst + [e.name], e.node, deep))
  }

  lemma {:induction false} HoldsGrows(a: Node, b: Node, dst: Path, source: Node, deep: bool)
    requires Holds(a, dst, source, deep) && Grows(a, b)
    ensures Holds(b, dst, source, deep)
    decreases source
  {
    GrowsKeepsDir(a, b, dst);
    forall e | e in source.entries && e.node.File?
      ensures Lookup(b, dst + [e.name]) == Some(e.node)
    {
      GrowsKeepsFile(a, b, dst + [e.name]);
    }
    if deep {
      forall e | e in source.entries && e.node.Dir?
        ensures Holds(b, dst + [e.name], e.node, deep)
      {
        HoldsGrows(a, b, dst + [e.name], e.node, deep);
      }
    }
  }

  /** A copy loop that completes has stored every one of its files under its name. */
  lemma {:induction false} CopyFilesPlaces(fs: Node, dst: Path, files: seq<Entry>)
    requires forall e :: e in files ==> e.node.File?
    requires CopyFiles(fs, dst, files).0.Pass?
    ensures forall e :: e in files ==> Lookup(CopyFiles(fs, dst, files).1, dst + [e.name]) == Some(e.node)
    decreases |files|
  {
    if files != [] {
      var target := dst + [files[0].name];
      var copied := CopyFile(fs, target, files[0].node);
      var rest := CopyFiles(copied.value, dst, files[1..]);
      CopyFilesPlaces(copied.value, dst, files[1..]);
      CopyFilesGrows(copied.value, dst, files[1..]);
      GrowsKeepsFile(copied.value, rest.1, target);
      forall e | e in files
        ensures Lookup(rest.1, dst + [e.name]) == Some(e.node)
      {
        if e != files[0] {
          assert e in files[1..];
        }
      }
    }
  }

  lemma {:induction false} BackupDirectoryHolds(source: Node, fs: Node, dst: Path, recurse: bool)
    requires source.Dir? && BackupDirectory(source, fs, dst, recurse).0.Pass?
    ensures Holds(BackupDirectory(source, fs, dst, recurse).1, dst, source, recurse)
    decreases source, 1
  {
    var created := Destination(fs, dst).value;
    var files := FilesOf(source.entries);
    var copied := CopyFiles(created, dst, files);
    CopyFilesPlaces(created, dst, files);
    CopyFilesGrows(created, dst, files);
    GrowsKeepsDir(created, copied.1, dst);
    assert Holds(copied.1, dst, source, false);
    if recurse {
      var subdirectories := SubdirectoriesOf(source.entries);
      var result := BackupSubdirectories(source, subdirectories, copied.1, dst, recurse);
      BackupSubdirectoriesGrows(source, subdirectories, copied.1, dst, recurse);
      HoldsGrows(copied.1, result.1, dst, source, false);
      BackupSubdirectoriesHold(source, subdirectories, copied.1, dst, recurse);
    }
  }

  lemma {:induction false} BackupSubdirectoriesHold(parent: Node, subdirectories: seq<Entry>, fs: Node, dst: Path, recurse: bool)
    requires parent.Dir?
    requires forall e :: e in subdirectories ==> e in parent.entries && e.node.Dir?
    requires BackupSubdirectories(parent, subdirectories, fs, dst, recurse).0.Pass?
    ensures forall e :: e in subdirectories ==>
      Holds(BackupSubdirectories(parent, subdirectories, fs, dst, recurse).1, dst + [e.name], e.node, recurse)
    decreases parent, 0, |subdirectories|
  {
    if subdirectories != [] {
      var sub := subdirectories[0];
      assert sub in parent.entries;
      var backedUp := BackupDirectory(sub.node, fs, dst + [sub.name], recurse);
      var rest := BackupSubdirectories(parent, subdirectories[1..], backedUp.1, dst, recurse);
      BackupDirectoryHolds(sub.node, fs, dst + [sub.name], recurse);
      BackupSubdirectoriesGrows(parent, subdirectories[1..], backedUp.1, dst, recurse);
      HoldsGrows(backedUp.1, rest.1, dst + [sub.name], sub.node, recurse);
      BackupSubdirectoriesHold(parent, subdirectories[1..], backedUp.1, dst, recurse);
      forall e | e in subdirectories
        ensures Holds(rest.1, dst + [e.name], e.node, recurse)
      {
        if e != sub {
          assert e in subdirectories[1..];
        }
      }
    }
  }

  /** A backup that completes leaves a copy of the source at the destination: its files, and with recursion its whole tree. */
  lemma BackupHoldsSource(fs: Node, src: Path, dst: Path, recurse: bool)
    requires Backup(fs, src, dst, recurse).0.Pass?
    ensures IsDirAt(fs, src) && Holds(Backup(fs, src, dst, recurse).1, dst, Lookup(fs, src).value, recurse)
  {
    BackupDirectoryHolds(Lookup(fs, src).value, fs, dst, recurse);
  }

  lemma {:induction false} HoldsLookup(fs: Node, dst: Path, source: Node, q: Path)
    requires Holds(fs, dst, source, true) && Lookup(source, q).Some?
    ensures Lookup(source, q).value.File? ==> Lookup(fs, dst + q) == Lookup(source, q)
    ensures Lookup(source, q).value.Dir? ==> IsDirAt(fs, dst + q)
    decreases |q|
  {
    if q == [] {
      assert dst + q == dst;
    } else {
      var child := Find(source.entries, q[0]).value;
      assert Entry(q[0], child) in source.entries;
      assert dst + q == (dst + [q[0]]) + q[1..];
      if q[1..] == [] {
        assert dst + q == dst + [q[0]];
      } else {
        HoldsLookup(fs, dst + [q[0]], child, q[1..]);
      }
    }
  }

  /**
   * After a recursive backup that completes, every file found at `src + q`
   * is found, with the same contents, at `dst + q`, and every directory
   * at `src + q` has a counterpart directory at `dst + q`.
   */
  lemma BackupCopiesTree(fs: Node, src: Path, dst: Path, q: Path)
    requires Backup(fs, src, dst, true).0.Pass? && Lookup(fs, src + q).Some?
    ensures Lookup(fs, src + q).value.File? ==> Lookup(Backup(fs, src, dst, true).1, dst + q) == Lookup(fs, src + q)
    ensures Lookup(fs, src + q).value.Dir? ==> IsDirAt(Backup(fs, src, dst, true).1, dst + q)
  {
    BackupHoldsSource(fs, src, dst, true);
    LookupConcat(fs, src, q);
    HoldsLookup(Backup(fs, src, dst, true).1, dst, Lookup(fs, src).value, q);
  }

  /**
   * Backing up the same source into the same place a second time fails at
   * the first file, with nothing changed: the copies never overwrite.
   */
  lemma BackupTwiceFails(fs: Node, src: Path, dst: Path, recurse: bool)
    requires Disjoint(src, dst) && SourceOk(fs, src) && SourceFiles(fs, src) != []
    requires Backup(fs, src, dst, recurse).0.Pass?
    ensures Backup(Backup(fs, src, dst, recurse).1, src, dst, recurse) ==
      (Fail(FileExists(dst + [SourceFiles(fs, src)[0].name])), Backup(fs, src, dst, recurse).1)
  {
    var after := Backup(fs, src, dst, recurse).1;
    var files := SourceFiles(fs, src);
    BackupFrame(fs, src, dst, recurse, src);
    BackupHoldsSource(fs, src, dst, recurse);
    assert files[0] in Lookup(fs, src).value.entries;
    assert files[..0] == [];
    CopyFilesClash(after, dst, files, 0);
  }
}
