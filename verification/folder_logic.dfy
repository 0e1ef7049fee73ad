/**
 * The name handling of the folder utilities: building tree paths and leaf
 * file names, listing the leaves of a tree (without the lock and meta files
 * an editor leaves beside an open document), stripping their extension, and
 * reading the theme status. A directory listing is given as the sequence of
 * file names the enumeration produced; a status file as what reading it
 * yields.
 */
module FolderLogic {
  import opened Results

  // ----- .NET strings -----

  /** A UTF-16 code unit: what `Length`, `Substring` and indexing of a .NET string count. */
  newtype CodeUnit = x: int | 0 <= x < 0x1_0000

  /**
   * A .NET string, as its UTF-16 code units. A character outside the Basic
   * Multilingual Plane takes two of them, and a file name may hold a lone
   * surrogate, which no Dafny `string` can.
   */
  type Utf16 = seq<CodeUnit>

  /** The UTF-16 encoding of one character: itself in the Basic Multilingual Plane, a surrogate pair beyond it. */
  function UnitsOf(c: char): (units: Utf16)
    ensures 1 <= |units| <= 2
  {
    var v := c as int;
    if v < 0x1_0000 then [v as CodeUnit]
    else [(0xD800 + (v - 0x1_0000) / 0x400) as CodeUnit, (0xDC00 + (v - 0x1_0000) % 0x400) as CodeUnit]
  }

  /** The UTF-16 encoding of a text, character by character. */
  function Utf16Of(s: string): (units: Utf16)
    ensures |s| <= |units| <= 2 * |s|
    decreases |s|
  {
    if s == [] then [] else UnitsOf(s[0]) + Utf16Of(s[1..])
  }

  /** Encoding a text in two pieces encodes it whole. */
  lemma {:induction false} Utf16OfConcat(a: string, b: string)
    ensures Utf16Of(a + b) == Utf16Of(a) + Utf16Of(b)
    decreases |a|
  {
    if a == [] {
      assert a + b == b;
    } else {
      assert (a + b)[0] == a[0] && (a + b)[1..] == a[1..] + b;
      Utf16OfConcat(a[1..], b);
      calc {
        Utf16Of(a + b);
        UnitsOf(a[0]) + Utf16Of(a[1..] + b);
        UnitsOf(a[0]) + (Utf16Of(a[1..]) + Utf16Of(b));
        (UnitsOf(a[0]) + Utf16Of(a[1..])) + Utf16Of(b);
      }
    }
  }

  /** The separator hard-coded between a base directory and a tree name: `\`. */
  const Separator: CodeUnit := 0x5C

  /** The document extension appended to every leaf name: `.docx`. */
  const Extension: Utf16 := [0x2E, 0x64, 0x6F, 0x63, 0x78]

  /** How many characters are cut off a file name to display it as a leaf. */
  const StripLength: nat := 5

  /** Editor lock and meta files carry this character in their name: `~`. */
  const MetaMarker: CodeUnit := 0x7E

  /** The theme status used whenever the status file yields no first line: `green`. */
  const DefaultStatus: Utf16 := [0x67, 0x72, 0x65, 0x65, 0x6E]

  /** The constants are the encodings of the texts the source writes. */
  lemma ConstantsEncodeTheirText()
    ensures [Separator] == Utf16Of("\\") && Extension == Utf16Of(".docx")
    ensures [MetaMarker] == Utf16Of("~") && DefaultStatus == Utf16Of("green")
  {
  }

  // ----- Tree paths and leaf file names -----

  /** The path of the tree `treeName` under `baseDirectory`. */
  function GetFullTreePath(baseDirectory: Utf16, treeName: Utf16): (path: Utf16)
    ensures |path| == |baseDirectory| + 1 + |treeName|
    ensures path[..|baseDirectory|] == baseDirectory
    ensures path[|baseDirectory|..] == [Separator] + treeName
  {
    baseDirectory + [Separator] + treeName
  }

  /** The name after the last separator of a path: the longest suffix free of separators. */
  function LastSegment(path: Utf16): (name: Utf16)
    ensures Separator !in name
    ensures |name| <= |path| && path[|path| - |name|..] == name
    ensures |name| < |path| ==> path[|path| - |name| - 1] == Separator
    decreases |path|
  {
    if path == [] || path[|path| - 1] == Separator then []
    else
      var prefix, last := path[..|path| - 1], path[|path| - 1];
      var inner := LastSegment(prefix);
      assert path[|path| - |inner| - 1..] == prefix[|prefix| - |inner|..] + [last];
      inner + [last]
  }

  /** A tree name without separators is recovered from its full tree path. */
  lemma {:induction false} LastSegmentOfFullTreePath(baseDirectory: Utf16, treeName: Utf16)
    requires Separator !in treeName
    ensures LastSegment(GetFullTreePath(baseDirectory, treeName)) == treeName
    decreases |treeName|
  {
    var path := GetFullTreePath(baseDirectory, treeName);
    if treeName == [] {
      assert path[|path| - 1] == Separator;
    } else {
      var shorter := treeName[..|treeName| - 1];
      assert path[..|path| - 1] == GetFullTreePath(baseDirectory, shorter);
      assert treeName[|treeName| - 1] in treeName;
      LastSegmentOfFullTreePath(baseDirectory, shorter);
      assert treeName == shorter + [treeName[|treeName| - 1]];
    }
  }

  /** The file name of the leaf `currentLeafName`: the name with the document extension appended. */
  function GetFullLeafName(currentLeafName: Utf16): (fileName: Utf16)
    ensures EndsWithExtension(fileName)
    ensures DropExtension(fileName) == Ok(currentLeafName)
  {
    currentLeafName + Extension
  }

  predicate EndsWithExtension(name: Utf16) {
    |name| >= |Extension| && name[|name| - |Extension|..] == Extension
  }

  /**
   * `name.Substring(0, name.Length - 5)`: the name without its last five
   * characters, whatever they are; on a name shorter than five characters
   * the length is negative and Substring throws.
   */
  function DropExtension(name: Utf16): (r: Result<Utf16>)
    ensures r.Ok? <==> |name| >= StripLength
    ensures r.Ok? ==> |r.value| + StripLength == |name| && r.value <= name
    ensures r.Err? ==> r.error == ArgumentOutOfRange
  {
    if |name| - StripLength < 0 then Err(ArgumentOutOfRange)
    else Ok(name[..|name| - StripLength])
  }

  /**
   * `Substring` counts code units: a character outside the Basic Multilingual
   * Plane is two of the five units cut, and a name of three such units and
   * one such character is long enough to cut.
   */
  lemma DropExtensionCountsCodeUnits()
    ensures DropExtension(Utf16Of("abc\U{1F600}")) == Ok([])
    ensures DropExtension(Utf16Of("abcd\U{1F600}")) == Ok(Utf16Of("a"))
    ensures DropExtension(Utf16Of("abc")) == Err(ArgumentOutOfRange)
  {
    assert Utf16Of("abc\U{1F600}") == [0x61, 0x62, 0x63, 0xD83D, 0xDE00];
    assert Utf16Of("abcd\U{1F600}") == [0x61, 0x62, 0x63, 0x64, 0xD83D, 0xDE00];
    assert Utf16Of("a") == [0x61];
  }

  /** Stripping undoes appending: a name that ends with the extension is the full leaf name of what stripping leaves. */
  lemma FullLeafNameOfStripped(name: Utf16)
    requires EndsWithExtension(name)
    ensures DropExtension(name).Ok? && GetFullLeafName(DropExtension(name).value) == name
  {
    assert name == name[..|name| - StripLength] + name[|name| - StripLength..];
  }

  // ----- Leaf listings -----

  /** Lock and meta files are recognised by the marker in their name. */
  predicate IsMetaFile(name: Utf16) {
    MetaMarker in name
  }

  /** A text contains `~` exactly when its encoding holds the marker unit: no surrogate equals it. */
  lemma {:induction false} MetaMarkerOfEncoding(s: string)
    ensures '~' in s <==> MetaMarker in Utf16Of(s)
    decreases |s|
  {
    if s != [] {
      MetaMarkerOfEncoding(s[1..]);
      assert s == [s[0]] + s[1..];
    }
  }

  /** The leaves of a listing: its names that are not meta files, in listing order. */
  function LeafNames(listing: seq<Utf16>): (leaves: seq<Utf16>)
    ensures forall n :: n in leaves ==> n in listing && !IsMetaFile(n)
    ensures |leaves| <= |listing|
    decreases |listing|
  {
    if listing == [] then []
    else
      var last := listing[|listing| - 1];
      LeafNames(listing[..|listing| - 1]) + (if IsMetaFile(last) then [] else [last])
  }

  /** No name that is not a meta file is dropped from the listing. */
  lemma {:induction false} LeafNamesKeepsLeaves(listing: seq<Utf16>, name: Utf16)
    requires name in listing && !IsMetaFile(name)
    ensures name in LeafNames(listing)
    decreases |listing|
  {
    if listing[|listing| - 1] != name {
      assert name in listing[..|listing| - 1];
      LeafNamesKeepsLeaves(listing[..|listing| - 1], name);
    }
  }

  /** `picked` is `from` at the strictly increasing positions `positions`. */
  ghost predicate PicksInOrder(positions: seq<nat>, from: seq<Utf16>, picked: seq<Utf16>) {
    && |positions| == |picked|
    && (forall k :: 0 <= k < |positions| ==> positions[k] < |from| && picked[k] == from[positions[k]])
    && (forall k, l :: 0 <= k < l < |positions| ==> positions[k] < positions[l])
  }

  /** The positions of a listing that hold leaves. */
  ghost function LeafPositions(listing: seq<Utf16>): (positions: seq<nat>)
    ensures forall k :: 0 <= k < |positions| ==> positions[k] < |listing|
    decreases |listing|
  {
    if listing == [] then []
    else
      var n := |listing| - 1;
      LeafPositions(listing[..n]) + (if IsMetaFile(listing[n]) then [] else [n])
  }

  /**
   * The leaves are the listing with its meta files taken out and nothing else
   * changed: they are picked from the listing in order, at the positions
   * `LeafPositions` gives.
   */
  lemma {:induction false} LeafNamesInOrder(listing: seq<Utf16>)
    ensures PicksInOrder(LeafPositions(listing), listing, LeafNames(listing))
    decreases |listing|
  {
    if listing != [] {
      var n := |listing| - 1;
      var prefix := listing[..n];
      LeafNamesInOrder(prefix);
      var positions, picked := LeafPositions(prefix), LeafNames(prefix);
      if !IsMetaFile(listing[n]) {
        var positions', picked' := positions + [n], picked + [listing[n]];
        assert LeafPositions(listing) == positions';
        assert LeafNames(listing) == picked';
        forall k | 0 <= k < |positions'|
          ensures positions'[k] < |listing| && picked'[k] == listing[positions'[k]]
        {
          if k < |positions| {
            assert picked'[k] == picked[k] == prefix[positions[k]];
          }
        }
      }
    }
  }

  /** `LeafPositions` holds exactly the positions of the listing whose name is not a meta file. */
  lemma {:induction false} LeafPositionsExact(listing: seq<Utf16>, j: nat)
    requires j < |listing|
    ensures j in LeafPositions(listing) <==> !IsMetaFile(listing[j])
    decreases |listing|
  {
    var n := |listing| - 1;
    var prefix := listing[..n];
    if j < n {
      LeafPositionsExact(prefix, j);
    } else {
      assert n !in LeafPositions(prefix);
    }
  }

  /** A listing free of meta files is its own leaf list. */
  lemma {:induction false} LeafNamesOfLeaves(listing: seq<Utf16>)
    requires forall n :: n in listing ==> !IsMetaFile(n)
    ensures LeafNames(listing) == listing
    decreases |listing|
  {
    if listing != [] {
      var n := |listing| - 1;
      var prefix := listing[..n];
      forall name | name in prefix ensures !IsMetaFile(name) {
        assert name in listing;
      }
      LeafNamesOfLeaves(prefix);
      assert listing[n] in listing;
      assert listing == prefix + [listing[n]];
      LeafNamesAppend(prefix, listing[n]);
    }
  }

  /** Appending a name that is not a meta file appends it to the leaves. */
  lemma LeafNamesAppend(listing: seq<Utf16>, name: Utf16)
    requires !IsMetaFile(name)
    ensures LeafNames(listing + [name]) == LeafNames(listing) + [name]
  {
    assert (listing + [name])[..|listing|] == listing;
  }

  lemma LeafNamesStep(listing: seq<Utf16>, i: nat)
    requires i < |listing|
    ensures LeafNames(listing[..i + 1]) ==
      LeafNames(listing[..i]) + (if IsMetaFile(listing[i]) then [] else [listing[i]])
  {
    assert listing[..i + 1][..i] == listing[..i];
  }

  /** `GetAllLeafNames` on the enumerated file names `allNames`. */
  method GetAllLeafNames(allNames: seq<Utf16>) returns (cleanNames: seq<Utf16>)
    ensures cleanNames == LeafNames(allNames)
  {
    cleanNames := [];
    for i := 0 to |allNames|
      invariant cleanNames == LeafNames(allNames[..i])
    {
      LeafNamesStep(allNames, i);
      if !IsMetaFile(allNames[i]) {
        cleanNames := cleanNames + [allNames[i]];
      }
    }
    assert allNames[..|allNames|] == allNames;
  }

  /** Every name stripped of its last five characters, or the error of a strip that fails. */
  function StripAll(names: seq<Utf16>): (r: Result<seq<Utf16>>)
    ensures r.Ok? <==> forall n :: n in names ==> |n| >= StripLength
    ensures r.Ok? ==> |r.value| == |names|
    ensures r.Ok? ==> forall k :: 0 <= k < |names| ==> DropExtension(names[k]) == Ok(r.value[k])
    ensures r.Err? ==> r.error == ArgumentOutOfRange
    decreases |names|
  {
    if names == [] then Ok([])
    else
      var n := |names| - 1;
      match StripAll(names[..n])
      case Err(e) => Err(e)
      case Ok(stripped) =>
        match DropExtension(names[n])
        case Err(e) => Err(e)
        case Ok(last) => Ok(stripped + [last])
  }

  lemma StripAllStep(names: seq<Utf16>, name: Utf16)
    requires StripAll(names).Ok? && DropExtension(name).Ok?
    ensures StripAll(names + [name]) == Ok(StripAll(names).value + [DropExtension(name).value])
  {
    assert (names + [name])[..|names|] == names;
  }

  /** `GetAllLeafNamesWithNoExtension` on the enumerated file names `current`. */
  method GetAllLeafNamesWithNoExtension(current: seq<Utf16>) returns (r: Result<seq<Utf16>>)
    ensures r == StripAll(LeafNames(current))
  {
    var output: seq<Utf16> := [];
    for i := 0 to |current|
      invariant StripAll(LeafNames(current[..i])) == Ok(output)
    {
      ghost var leaves := LeafNames(current[..i]);
      LeafNamesStep(current, i);
      if IsMetaFile(current[i]) {
        assert LeafNames(current[..i + 1]) == leaves;
        continue;
      }
      var stripped := DropExtension(current[i]);
      if stripped.Err? {
        LeafNamesKeepsLeaves(current, current[i]);
        assert !StripAll(LeafNames(current)).Ok?;
        return Err(ArgumentOutOfRange);
      }
      assert LeafNames(current[..i + 1]) == leaves + [current[i]];
      StripAllStep(leaves, current[i]);
      output := output + [stripped.value];
    }
    assert current[..|current|] == current;
    return Ok(output);
  }

  /** The file names of a sequence of leaves. */
  function FullLeafNames(leaves: seq<Utf16>): (names: seq<Utf16>)
    ensures |names| == |leaves|
    ensures forall k :: 0 <= k < |leaves| ==> names[k] == GetFullLeafName(leaves[k])
    decreases |leaves|
  {
    if leaves == [] then []
    else FullLeafNames(leaves[..|leaves| - 1]) + [GetFullLeafName(leaves[|leaves| - 1])]
  }

  /** Appending the extension adds no meta marker. */
  lemma FullLeafNameIsLeaf(leaf: Utf16)
    requires !IsMetaFile(leaf)
    ensures !IsMetaFile(GetFullLeafName(leaf))
  {
    assert MetaMarker !in Extension;
  }

  /**
   * A tree whose files were all named by `GetFullLeafName` lists, without
   * extensions, exactly the leaf names it was built from.
   */
  lemma NoExtensionRoundTrip(leaves: seq<Utf16>)
    requires forall l :: l in leaves ==> !IsMetaFile(l)
    ensures StripAll(LeafNames(FullLeafNames(leaves))) == Ok(leaves)
  {
    FullLeafNamesAreLeaves(leaves);
    LeafNamesOfLeaves(FullLeafNames(leaves));
    StripAllOfFullLeafNames(leaves);
  }

  /** `StripAll` succeeds with `expected` when every name strips to the matching entry of `expected`. */
  lemma StripAllPointwise(names: seq<Utf16>, expected: seq<Utf16>)
    requires |names| == |expected|
    requires forall k :: 0 <= k < |names| ==> DropExtension(names[k]) == Ok(expected[k])
    ensures StripAll(names) == Ok(expected)
  {
    forall name | name in names ensures |name| >= StripLength {
      var k :| 0 <= k < |names| && names[k] == name;
      assert DropExtension(names[k]).Ok?;
    }
    assert StripAll(names).Ok?;
    var stripped := StripAll(names).value;
    forall k | 0 <= k < |names| ensures stripped[k] == expected[k] {
      assert DropExtension(names[k]) == Ok(stripped[k]);
    }
    assert stripped == expected;
  }

  /** Stripping the full leaf names of leaves gives the leaves back. */
  lemma StripAllOfFullLeafNames(leaves: seq<Utf16>)
    ensures StripAll(FullLeafNames(leaves)) == Ok(leaves)
  {
    var names := FullLeafNames(leaves);
    forall k | 0 <= k < |names| ensures DropExtension(names[k]) == Ok(leaves[k]) {
      assert names[k] == GetFullLeafName(leaves[k]);
    }
    StripAllPointwise(names, leaves);
  }


  /** The full leaf names of leaves are file names that are not meta files and are long enough to strip. */
  lemma FullLeafNamesAreLeaves(leaves: seq<Utf16>)
    requires forall l :: l in leaves ==> !IsMetaFile(l)
    ensures forall n :: n in FullLeafNames(leaves) ==> !IsMetaFile(n) && |n| >= StripLength
  {
    var names := FullLeafNames(leaves);
    forall k | 0 <= k < |names| ensures !IsMetaFile(names[k]) && |names[k]| >= StripLength {
      assert leaves[k] in leaves;
      FullLeafNameIsLeaf(leaves[k]);
    }
  }

  // ----- Theme status -----

  /** What the status path holds, as `File.Exists` and `File.ReadAllLines` see it. */
  datatype StatusFile = Missing | Unreadable | Present(text: Utf16)

  predicate IsLineBreak(c: CodeUnit) {
    c == 0x0A || c == 0x0D
  }

  predicate NoLineBreak(line: Utf16) {
    forall i :: 0 <= i < |line| ==> !IsLineBreak(line[i])
  }

  /** The length of the first line of `text`: the position of its first line break, or its length. */
  function LineLength(text: Utf16): (n: nat)
    ensures n <= |text| && NoLineBreak(text[..n])
    ensures n < |text| ==> IsLineBreak(text[n])
    decreases |text|
  {
    if text == [] || IsLineBreak(text[0]) then 0
    else 1 + LineLength(text[1..])
  }

  /**
   * `File.ReadAllLines` on the decoded text: each line ends at "\r\n", "\r"
   * or "\n", and a break at the very end does not start another line.
   */
  function ReadAllLines(text: Utf16): (lines: seq<Utf16>)
    ensures |lines| == 0 <==> text == []
    ensures forall line :: line in lines ==> NoLineBreak(line)
    decreases |text|
  {
    if text == [] then []
    else
      var n := LineLength(text);
      if n == |text| then [text]
      else
        var next := if text[n] == 0x0D && n + 1 < |text| && text[n + 1] == 0x0A then n + 2 else n + 1;
        [text[..n]] + ReadAllLines(text[next..])
  }

  /** The try block: read every line and take the first; both steps can throw. */
  function ReadStatusLine(file: StatusFile): (r: Result<Utf16>)
    requires !file.Missing?
    ensures file.Unreadable? ==> r == Err(ReadFailed)
    ensures file.Present? && file.text == [] ==> r == Err(IndexOutOfRange)
    ensures file.Present? && file.text != [] ==> r.Ok? && r.value <= file.text && NoLineBreak(r.value)
    ensures r.Ok? && |r.value| < |file.text| ==> IsLineBreak(file.text[|r.value|])
  {
    match file
    case Unreadable => Err(ReadFailed)
    case Present(text) =>
      var result := ReadAllLines(text);
      if |result| == 0 then Err(IndexOutOfRange) else Ok(result[0])
  }

  /**
   * `GetThemeStatus`: the first line of the status file, or "green" when the
   * file is missing or reading its first line throws.
   */
  function GetThemeStatus(file: StatusFile): (status: Utf16)
    ensures !file.Present? || file.text == [] ==> status == DefaultStatus
    ensures file.Present? && file.text != [] ==> status <= file.text && NoLineBreak(status)
    ensures file.Present? && |status| < |file.text| ==> IsLineBreak(file.text[|status|])
  {
    if file.Missing? then DefaultStatus
    else
      match ReadStatusLine(file)
      case Ok(line) => line
      case Err(_) => DefaultStatus
  }

  /** The text of a file written line by line, each line followed by `newline`. */
  function JoinLines(lines: seq<Utf16>, newline: Utf16): Utf16
    decreases |lines|
  {
    if lines == [] then [] else lines[0] + newline + JoinLines(lines[1..], newline)
  }

  predicate IsNewline(newline: Utf16) {
    newline == [0x0A] || newline == [0x0D] || newline == [0x0D, 0x0A]
  }

  /** A line followed by a line break: reading splits it off, unless a lone "\r" would pair up with a "\n" after it. */
  lemma ReadAllLinesStep(first: Utf16, newline: Utf16, rest: Utf16)
    requires IsNewline(newline) && NoLineBreak(first)
    requires newline == [0x0D] && rest != [] ==> rest[0] != 0x0A
    ensures ReadAllLines(first + newline + rest) == [first] + ReadAllLines(rest)
  {
    var text := first + newline + rest;
    var n := |first|;
    assert text[..n] == first;
    assert IsLineBreak(text[n]);
    assert LineLength(text) == n by {
      LineLengthOfBreak(text, n);
    }
    assert text[n + |newline|..] == rest;
  }

  lemma {:induction false} LineLengthOfBreak(text: Utf16, n: nat)
    requires n < |text| && NoLineBreak(text[..n]) && IsLineBreak(text[n])
    ensures LineLength(text) == n
    decreases n
  {
    if n > 0 {
      assert text[..n][0] == text[0];
      assert text[1..][..n - 1] == text[..n][1..];
      LineLengthOfBreak(text[1..], n - 1);
    }
  }

  /** Reading the lines of a file written line by line gives those lines back. */
  lemma {:induction false} ReadAllLinesOfJoin(lines: seq<Utf16>, newline: Utf16)
    requires IsNewline(newline)
    requires forall line :: line in lines ==> NoLineBreak(line)
    ensures ReadAllLines(JoinLines(lines, newline)) == lines
    decreases |lines|
  {
    if lines != [] {
      assert lines == [lines[0]] + lines[1..];
      assert lines[0] in lines;
      var rest := JoinLines(lines[1..], newline);
      if newline == [0x0D] && rest != [] {
        if lines[1] == [] {
          assert rest[0] == newline[0];
        } else {
          assert lines[1] in lines;
          assert rest[0] == lines[1][0];
        }
      }
      ReadAllLinesStep(lines[0], newline, rest);
      forall line | line in lines[1..] ensures NoLineBreak(line) {
        assert line in lines;
      }
      ReadAllLinesOfJoin(lines[1..], newline);
    }
  }

  /** The theme status of a status file written line by line is its first line. */
  lemma ThemeStatusOfWrittenFile(lines: seq<Utf16>, newline: Utf16)
    requires IsNewline(newline) && lines != []
    requires forall line :: line in lines ==> NoLineBreak(line)
    ensures GetThemeStatus(Present(JoinLines(lines, newline))) == lines[0]
  {
    ReadAllLinesOfJoin(lines, newline);
  }
}
