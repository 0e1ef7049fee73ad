# Trees folder logic, modelled in Dafny

This project models `FolderLogic` from `TreesLibrary`, a static utility class
over the file system. A *tree* is a folder under a base directory, and its
*leaves* are the `.docx` documents inside it. The class:

- builds tree paths and leaf file names;
- lists the leaves of a tree, leaving out the `~` lock and meta files the
  word processor writes beside an open document;
- strips the extension off leaf names for display;
- reads the one-line theme status, falling back to `"green"`;
- backs a tree folder up by copying it, recursively on request, without
  overwriting.

The model has four modules:

- `Results` (`results.dfy`) holds the exceptions the code can raise, turned
  into data: `Error`, `Result`, `Outcome` and `Option`.
- `FileSystem` (`file_system.dfy`) stands in for `System.IO`. A volume is a
  tree value, `Node = File(contents) | Dir(entries)`, whose entries come in
  enumeration order. A path is the sequence of names from the root, and
  `Path.Combine(dir, name)` is `dir + [name]`. `Directory.CreateDirectory`
  and `FileInfo.CopyTo(target, false)` are functions on that value that
  return the new tree or the exception. Their lemmas cover three things:
  - what they keep (`Grows`: nothing removed, overwritten or turned into a
    file);
  - what they leave untouched (frame lemmas);
  - that they keep directory entry names distinct (`WellFormed`).
- `FolderLogic` (`folder_logic.dfy`) covers the name handling. Its strings
  are .NET strings: sequences of UTF-16 code units (`Utf16`), which is what
  `Length` and `Substring` count. A character outside the Basic Multilingual
  Plane is two units, and a file name may hold a lone surrogate. `Utf16Of`
  encodes a Dafny text into units, so that examples can be written as text.
  - The path and leaf-name builders are functions.
  - The two listing loops are methods, each proved equal to a specification
    function. The listing they filter is the sequence of file names the
    enumeration produced.
  - `GetThemeStatus` is a function of what the status path holds: missing,
    unreadable, or a text that `File.ReadAllLines` splits into lines.
- `FolderBackup` (`folder_backup.dfy`) holds the backup:
  - `Backup` and the functions below it say what `BackupTrees` does to the
    tree when neither the source path nor the backup path lies inside the
    other. They copy the source as it was when the backup started. The
    source re-lists each directory as it reaches it, which comes to the same
    thing only when the copies land outside the source (see "Left out").
  - The class `Volume` holds the tree as a mutable field. Its recursive
    method `Volume.BackupTrees` performs the copy step by step, with the file
    loop and the subdirectory loop as helper methods. It is proved to end in
    exactly the outcome and tree that `Backup` gives.
  - The lemmas cover three things about a backup:
    - what it never touches;
    - what it never overwrites;
    - where it stops on a clash, and what it has copied when it completes.

## Model

| member | source | states |
|---|---|---|
| `FolderLogic.GetFullTreePath` | TreesLibrary/FolderLogic.cs:10-13 | the path is the base directory, then one `\`, then the tree name, so it ends with `\` followed by the tree name |
| `FolderLogic.LastSegmentOfFullTreePath` | TreesLibrary/FolderLogic.cs:12 | a tree name without `\` is recovered from its full tree path as the text after the last separator |
| `FolderLogic.LastSegment` | TreesLibrary/FolderLogic.cs:29 | the inverse partner of `GetFullTreePath`, the `\`-only reading of `Path.GetFileName`: the last segment of a path holds no separator, is a suffix of the path, and is preceded by a separator whenever it is not the whole path |
| `FolderLogic.GetFullLeafName` | TreesLibrary/FolderLogic.cs:15-20 | the file name ends with `.docx`, and cutting its last five code units gives back the leaf name |
| `FolderLogic.DropExtension` | TreesLibrary/FolderLogic.cs:67 | `Substring(0, Length - 5)` succeeds exactly on names of at least five UTF-16 code units and yields the prefix five units shorter; otherwise it is `ArgumentOutOfRange` |
| `FolderLogic.DropExtensionCountsCodeUnits` | TreesLibrary/FolderLogic.cs:67 | the cut counts code units: `abc` followed by U+1F600 (five units) strips to the empty name, `abcd` followed by U+1F600 strips to `a`, and `abc` throws |
| `FolderLogic.ConstantsEncodeTheirText` | TreesLibrary/FolderLogic.cs:17 | the constants are the UTF-16 encodings of `\`, `.docx`, `~` and `green` |
| `FolderLogic.MetaMarkerOfEncoding` | TreesLibrary/FolderLogic.cs:43 | a name contains `~` exactly when its UTF-16 encoding holds the `~` unit, since no surrogate equals it |
| `FolderLogic.FullLeafNameOfStripped` | TreesLibrary/FolderLogic.cs:17 | a name ending in `.docx` is the full leaf name of its stripped form (stripping and appending are inverse both ways) |
| `FolderLogic.IsMetaFile` | TreesLibrary/FolderLogic.cs:43 | the ordinal `Contains("~")` on the name's code units, here and at line 64; no ensures of its own, `MetaMarkerOfEncoding` ties it to the `~` character |
| `FolderLogic.LeafNames` | TreesLibrary/FolderLogic.cs:40-47 | every leaf is a name of the listing and contains no `~`; there are no more leaves than names |
| `FolderLogic.LeafNamesKeepsLeaves` | TreesLibrary/FolderLogic.cs:43-46 | every listed name without `~` is among the leaves |
| `FolderLogic.LeafPositions` | TreesLibrary/FolderLogic.cs:41-47 | the positions the filter keeps all lie inside the listing |
| `FolderLogic.LeafNamesInOrder` | TreesLibrary/FolderLogic.cs:41-49 | the leaves are the listing read at strictly increasing positions: an order-preserving subsequence |
| `FolderLogic.LeafPositionsExact` | TreesLibrary/FolderLogic.cs:43 | a position is kept exactly when its name contains no `~` |
| `FolderLogic.LeafNamesOfLeaves` | TreesLibrary/FolderLogic.cs:41-49 | a listing without meta files is returned unchanged |
| `FolderLogic.LeafNamesStep` | TreesLibrary/FolderLogic.cs:41-47 | one more listed name adds itself to the leaves exactly when it has no `~` |
| `FolderLogic.GetAllLeafNames` | TreesLibrary/FolderLogic.cs:32-50 | the `foreach` that fills `cleanNames` returns exactly `LeafNames` of the listing |
| `FolderLogic.StripAll` | TreesLibrary/FolderLogic.cs:60-68 | stripping every leaf succeeds exactly when each is at least five UTF-16 code units long; the result then has as many entries, entry `k` being leaf `k` without its last five units; otherwise the error is `ArgumentOutOfRange` |
| `FolderLogic.StripAllPointwise` | TreesLibrary/FolderLogic.cs:60-68 | the stripped list is determined entry by entry: when every name strips to the matching entry of a list of equal length, stripping them all gives that list |
| `FolderLogic.StripAllStep` | TreesLibrary/FolderLogic.cs:67 | one more successfully stripped leaf appends its stripped name to the output |
| `FolderLogic.GetAllLeafNamesWithNoExtension` | TreesLibrary/FolderLogic.cs:55-71 | the indexed `for` loop with `continue` returns exactly `StripAll(LeafNames(listing))`: the leaves of `GetAllLeafNames` with their last five UTF-16 code units cut, or the exception of the first leaf shorter than five units |
| `FolderLogic.FullLeafNames` | TreesLibrary/FolderLogic.cs:17 | a sequence of leaves becomes one file name per leaf, each being that leaf's full leaf name |
| `FolderLogic.FullLeafNameIsLeaf` | TreesLibrary/FolderLogic.cs:64 | appending `.docx` never makes a leaf look like a meta file |
| `FolderLogic.NoExtensionRoundTrip` | TreesLibrary/FolderLogic.cs:55-71 | a tree whose files were named by `GetFullLeafName` lists, without extensions, exactly the leaf names it was built from |
| `FolderLogic.LineLength` | TreesLibrary/FolderLogic.cs:132 | the first line ends at the first line break, or at the end of the text |
| `FolderLogic.ReadAllLines` | TreesLibrary/FolderLogic.cs:132 | `File.ReadAllLines` returns no line exactly for an empty text, and no line it returns contains a line break |
| `FolderLogic.ReadStatusLine` | TreesLibrary/FolderLogic.cs:130-134 | the `try` block: an unreadable file throws (`ReadFailed`), an empty file has no line 0 (`IndexOutOfRange`), and otherwise the result is the first line: a prefix of the text without line break, ended by a break or by the end of the text |
| `FolderLogic.GetThemeStatus` | TreesLibrary/FolderLogic.cs:126-142 | `"green"` for a missing file, an unreadable file or an empty one; otherwise the first line exactly: a prefix of the text with no line break, followed by a break or by the end of the text (possibly empty) |
| `FolderLogic.ReadAllLinesOfJoin` | TreesLibrary/FolderLogic.cs:132 | reading back a file written line by line with `\n`, `\r` or `\r\n` after every line gives exactly those lines |
| `FolderLogic.ThemeStatusOfWrittenFile` | TreesLibrary/FolderLogic.cs:130-133 | the status of a file written line by line is its first line |
| `FileSystem.CreateDirectory` | TreesLibrary/FolderLogic.cs:102-105 | `Directory.CreateDirectory` succeeds exactly when the path is already a directory, or is free with no file on the way; afterwards a directory is there: the tree is returned unchanged when one already was, and a newly created one is empty; otherwise the error names the path |
| `FileSystem.CreateDirectoryIdempotent` | TreesLibrary/FolderLogic.cs:73-76 | creating a directory that is already there, in any tree, returns the tree unchanged, as in `CreateNewTreeFolder`; so a second creation changes nothing more |
| `FileSystem.IsDirAt` | TreesLibrary/FolderLogic.cs:102 | `Directory.Exists`, and `DirectoryInfo.Exists` at line 93: there is a directory at the path; no ensures of its own, it is the test the contracts of `CreateDirectory`, `Destination` and `Backup` are stated in |
| `FileSystem.CreateDirectoryGrows` | TreesLibrary/FolderLogic.cs:104 | creating the backup directory removes and overwrites nothing |
| `FileSystem.CreateDirectoryFrame` | TreesLibrary/FolderLogic.cs:104 | creating a directory changes nothing at a path that neither lies inside it nor contains it |
| `FileSystem.CopyFile` | TreesLibrary/FolderLogic.cs:111-112 | `CopyTo(target, false)` succeeds exactly when the target name is free and its parent is a directory; the target then holds the file; a taken name gives `FileExists(target)` |
| `FileSystem.CopyFileGrows` | TreesLibrary/FolderLogic.cs:112 | a copy without overwrite removes and overwrites nothing |
| `FileSystem.CopyFileFrame` | TreesLibrary/FolderLogic.cs:112 | a copy changes nothing at a path that neither lies inside the target nor contains it |
| `FileSystem.LookupConcat` | TreesLibrary/FolderLogic.cs:121 | looking up `p + q` is looking up `q` inside what `p` names: `subDirectory.FullName` is the source path with the subdirectory's name appended |
| `FolderBackup.FilesOf` | TreesLibrary/FolderLogic.cs:108 | `GetFiles` lists exactly the entries that are files, with distinct names when the directory has them |
| `FolderBackup.SubdirectoriesOf` | TreesLibrary/FolderLogic.cs:99 | `GetDirectories` lists exactly the entries that are directories |
| `FolderBackup.Destination` | TreesLibrary/FolderLogic.cs:101-105 | an existing backup directory is used as it is; otherwise it is created empty, adding and removing nothing else; when the path holds a file or a file blocks the way, the backup fails with `PathBlocked(dst)` |
| `FolderBackup.CopyFiles` | TreesLibrary/FolderLogic.cs:107-113 | the file `foreach`; no ensures of its own: `CopyFilesClean` (all names free: completes, every file stored in order), `CopyFilesClash` (first taken name: `FileExists` there, earlier files copied), `CopyFilesPlaces`, `CopyFilesGrows` and `CopyFilesFrame` characterise it |
| `FolderBackup.BackupDirectory` | TreesLibrary/FolderLogic.cs:99-123 | the body of `BackupTrees` after the existence check; no ensures of its own: `BackupDirectoryHolds` (a completed backup holds a copy of the directory), `BackupDirectoryGrows` and `BackupDirectoryFrame` characterise it |
| `FolderBackup.BackupSubdirectories` | TreesLibrary/FolderLogic.cs:116-123 | the subdirectory `foreach`; no ensures of its own: `BackupSubdirectoriesHold` (a completed loop holds every subdirectory under its name), `BackupSubdirectoriesGrows` and `BackupSubdirectoriesFrame` characterise it |
| `FolderBackup.Backup` | TreesLibrary/FolderLogic.cs:88-124 | what `BackupTrees` does when neither path lies inside the other: a missing source gives `DirectoryNotFound(src)` with nothing changed; a destination that cannot be created gives `PathBlocked(dst)` with nothing changed |
| `FolderBackup.Volume.CopyFilesTo` | TreesLibrary/FolderLogic.cs:107-113 | the file loop leaves the volume holding the tree `CopyFiles` gives and returns its outcome, stopping at the first copy that throws |
| `FolderBackup.Volume.BackupTrees` | TreesLibrary/FolderLogic.cs:88-124 | the recursive method ends with exactly the outcome and the tree `Backup` gives for the tree it started from, keeping the volume well formed |
| `FolderBackup.Volume.BackupSubdirectoriesTo` | TreesLibrary/FolderLogic.cs:115-123 | the subdirectory loop ends as `BackupSubdirectories` gives, each subdirectory backed up recursively into `dst/name`, stopping at the first failure |
| `FolderBackup.CopyFilesFrame` | TreesLibrary/FolderLogic.cs:109-113 | copying the files changes nothing outside the backup directory |
| `FolderBackup.BackupFrame` | TreesLibrary/FolderLogic.cs:88-124 | a backup changes nothing at any path that neither lies inside the backup directory nor contains it, in particular nothing in the source |
| `FolderBackup.CopyFilesGrows` | TreesLibrary/FolderLogic.cs:109-113 | the file loop only adds entries |
| `FolderBackup.BackupOnlyAdds` | TreesLibrary/FolderLogic.cs:88-124 | whatever the outcome, a backup removes nothing, overwrites no file and replaces no directory |
| `FolderBackup.CopyFilesClean` | TreesLibrary/FolderLogic.cs:109-113 | when no target name is taken, the file loop completes and stores every file, in order |
| `FolderBackup.CopyFilesClash` | TreesLibrary/FolderLogic.cs:109-113 | when the `k`-th target name is the first one taken, the loop fails with `FileExists` on it; the files before it stay copied and no later one is copied |
| `FolderBackup.BackupStopsAtTakenName` | TreesLibrary/FolderLogic.cs:108-116 | a backup whose destination already holds the `k`-th source file's name, and none before it, fails there with exactly the earlier files copied: no later file and no subdirectory is processed |
| `FolderBackup.BackupWithoutRecursion` | TreesLibrary/FolderLogic.cs:99-116 | without `copySubDirectories` a backup whose names are free stores exactly the source's direct files into the destination and nothing else |
| `FolderBackup.CopyFilesPlaces` | TreesLibrary/FolderLogic.cs:109-113 | a file loop that completes leaves every file under its own name in the backup directory |
| `FolderBackup.BackupDirectoryHolds` | TreesLibrary/FolderLogic.cs:99-123 | a directory backup that completes leaves a copy of the directory at the destination: its files and, when recursing, each subdirectory under its name |
| `FolderBackup.BackupSubdirectoriesHold` | TreesLibrary/FolderLogic.cs:115-123 | a subdirectory loop that completes leaves every subdirectory copied under its name |
| `FolderBackup.BackupHoldsSource` | TreesLibrary/FolderLogic.cs:88-124 | a backup that completes found the source and leaves a copy of it at the destination |
| `FolderBackup.BackupCopiesTree` | TreesLibrary/FolderLogic.cs:115-123 | after a recursive backup that completes, every file at `src/q` is at `dst/q` with the same contents, and every directory at `src/q` has a directory at `dst/q` |
| `FolderBackup.BackupTwiceFails` | TreesLibrary/FolderLogic.cs:109-113 | backing the same source up again into the same place fails with `FileExists` on the first file and changes nothing |

## Left out

- `GetAllTreePaths` and `GetAllTreeNames` (TreesLibrary/FolderLogic.cs:22-30) only pass `Directory.GetDirectories` and `Path.GetFileName` through, so they are not modelled.
- `FolderLogic.LastSegment` is the name after the last `\`. It stands in for `Path.GetFileName` only as far as `GetFullTreePath` needs it: `/`, drive letters and other platform rules are not modelled.
- `CreateNewTreeFolder` (TreesLibrary/FolderLogic.cs:73-76) is `Directory.CreateDirectory` itself, which `FileSystem.CreateDirectory` models. It has no member of its own.
- `DeleteTree` and `DeleteLeaf` (TreesLibrary/FolderLogic.cs:78-86) are one-line calls to `Directory.Delete` and `File.Delete`. They are not modelled.
- Directory enumeration is an input. `GetAllLeafNames` and `GetAllLeafNamesWithNoExtension` receive the file names the enumeration produced. In a `Node`, the entry order stands for the enumeration order of `GetFiles` and `GetDirectories`. The operating system does not specify that order.
- `Path.Combine`, `Path.GetFileName` and `DirectoryInfo.FullName` follow platform rules that are not modelled. Paths in the backup are sequences of names, and a combine appends one name. The string path of `GetFullTreePath` is not tied to that representation. Relative paths, case-insensitive names, and `.` or `..` are also not modelled.
- `FolderLogic.GetThemeStatus` receives the status file's state rather than a path. File encodings, byte order marks and the decoding itself are not modelled. `Unreadable` stands for every exception that `ReadAllLines` can raise on an existing file.
- The exception types and their messages are collapsed into the constructors of `Error`.
- `FolderBackup.Volume.BackupTrees` requires the source and destination to be disjoint: neither path lies inside the other. A backup into its own subtree, or onto an ancestor, is not modelled. In such a backup the source lists subdirectories afresh on every call (TreesLibrary/FolderLogic.cs:99, 118-121), so it descends into the copies it has just made. Take source `A` holding the directory `s`, backup `A/s/bk`, with recursion. The call for `A/s` finds `bk` and backs it up into `A/s/bk/s/bk`. That call finds the `s` created one level up and backs it up into `A/s/bk/s/bk/s`, and so on, until the file system refuses a path that long and the exception ends the backup.
- `FolderBackup.Backup` and the lemmas about it take no disjointness requirement. On overlapping paths they describe a copy of the source as it stood before the backup, not what the source does on the input above.
- `FolderBackup.Volume.BackupTrees` requires a volume whose directories have distinct entry names, as every real volume has.
- Paths and entry names in `FileSystem` are Dafny strings, not UTF-16 code units, so a backup path cannot hold a lone surrogate. The backup only compares names for equality, so this changes no behaviour of the model.
- Symbolic links and junctions are not modelled: a `Node` is a finite tree. `GetDirectories` lists links to directories, and the recursion follows them. A link to an ancestor of the source makes the backup recurse until an exception ends it.
- File contents are copied as values. Attributes, timestamps, permissions, partially written copies and concurrent changes by other programs are not modelled.
