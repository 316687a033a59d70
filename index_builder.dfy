/**
 * The HTML page served for a directory that has no index file: one table
 * row per entry, subdirectories first, each group sorted by name, and as
 * the page's modification time the newest modification time among the
 * entries.
 *
 * Text goes through a `PrintWriter`, whose `println` ends each line with the
 * platform line separator `eol`; `TimeUtils.timestampHttp` is the parameter
 * `httpDate`. The generated page is handed out as its UTF-8 bytes.
 */
module IndexBuilder {
  import opened Text
  import opened Utf8
  import opened StaticFiles
  import opened NameOrder

  const HEADER: seq<string> := [
    "<html><head><meta charset='UTF-8'/></head><body>",
    "<table border='0'>",
    "<tr><th>File</th><th>Size</th><th>Last Modified</th></tr>"]

  const FOOTER: seq<string> := ["</table>", "</html>"]

  /** `GeneratedIndex`: the page text and its effective modification time. */
  datatype GeneratedIndex = GeneratedIndex(modTime: int, content: string)

  const ENCODING := "UTF-8"

  /** `getModifiedTime`. */
  function GetModifiedTime(index: GeneratedIndex): int {
    index.modTime
  }

  /** `getContent`: the bytes of the page in `ENCODING`. */
  function GetContent(index: GeneratedIndex): seq<byte> {
    Encode(index.content)
  }

  /** `getContentLength`: the byte count of the page in `ENCODING`. */
  function GetContentLength(index: GeneratedIndex): nat {
    EncodedLength(index.content)
  }

  /** `getEncoding`. */
  function GetEncoding(index: GeneratedIndex): string {
    ENCODING
  }

  /** The advertised length is the number of bytes the content stream yields. */
  lemma ContentLengthMatches(index: GeneratedIndex)
    ensures GetContentLength(index) == |GetContent(index)|
  {
    EncodeLength(index.content);
  }

  // ---------------------------------------------------------------- partition

  /** Whether the child `name` of `dir` is a directory (`f.isDirectory()`). */
  predicate ChildIsDirectory(fs: FileSystem, dir: Path, name: string) {
    IsDirectoryPath(fs, dir + [name])
  }

  /** The subdirectories among `names`, in the order given. */
  function Subdirs(fs: FileSystem, dir: Path, names: seq<string>): seq<string> {
    if names == [] then []
    else
      var last := names[|names| - 1];
      Subdirs(fs, dir, names[..|names| - 1]) + if ChildIsDirectory(fs, dir, last) then [last] else []
  }

  /** The other entries among `names`, in the order given. */
  function Files(fs: FileSystem, dir: Path, names: seq<string>): seq<string> {
    if names == [] then []
    else
      var last := names[|names| - 1];
      Files(fs, dir, names[..|names| - 1]) + if ChildIsDirectory(fs, dir, last) then [] else [last]
  }

  /** The two bins split the names: each is kept once, in its own bin. */
  lemma PartitionSpec(fs: FileSystem, dir: Path, names: seq<string>)
    ensures multiset(Subdirs(fs, dir, names)) + multiset(Files(fs, dir, names)) == multiset(names)
    ensures forall n :: n in Subdirs(fs, dir, names) ==> ChildIsDirectory(fs, dir, n)
    ensures forall n :: n in Files(fs, dir, names) ==> !ChildIsDirectory(fs, dir, n)
  {
    PartitionCounts(fs, dir, names);
    PartitionBins(fs, dir, names);
  }

  lemma {:induction false} PartitionCounts(fs: FileSystem, dir: Path, names: seq<string>)
    ensures multiset(Subdirs(fs, dir, names)) + multiset(Files(fs, dir, names)) == multiset(names)
  {
    if names != [] {
      var init, last := names[..|names| - 1], names[|names| - 1];
      PartitionCounts(fs, dir, init);
      assert names == init + [last];
      PartitionStep(fs, dir, names);
    }
  }

  /** Adding one name puts it in exactly one of the bins. */
  lemma PartitionStep(fs: FileSystem, dir: Path, names: seq<string>)
    requires names != []
    ensures var init, last := names[..|names| - 1], names[|names| - 1];
      multiset(Subdirs(fs, dir, names)) + multiset(Files(fs, dir, names))
        == multiset(Subdirs(fs, dir, init)) + multiset(Files(fs, dir, init)) + multiset{last}
  {
    var init, last := names[..|names| - 1], names[|names| - 1];
    var d, f := Subdirs(fs, dir, init), Files(fs, dir, init);
    if ChildIsDirectory(fs, dir, last) {
      assert Subdirs(fs, dir, names) == d + [last];
      assert Files(fs, dir, names) == f + [];
      assert f + [] == f;
    } else {
      assert Subdirs(fs, dir, names) == d + [];
      assert Files(fs, dir, names) == f + [last];
      assert d + [] == d;
    }
  }

  lemma {:induction false} PartitionBins(fs: FileSystem, dir: Path, names: seq<string>)
    ensures forall n :: n in Subdirs(fs, dir, names) ==> ChildIsDirectory(fs, dir, n)
    ensures forall n :: n in Files(fs, dir, names) ==> !ChildIsDirectory(fs, dir, n)
  {
    if names != [] {
      PartitionBins(fs, dir, names[..|names| - 1]);
    }
  }

  /** The listing order: sorted subdirectories, then sorted files. */
  function ListingOrder(fs: FileSystem, dir: Path): seq<string>
    requires dir in fs
  {
    var children := fs[dir].children;
    Sort(Subdirs(fs, dir, children)) + Sort(Files(fs, dir, children))
  }

  /** How many children of `dir` are subdirectories. */
  function SubdirCount(fs: FileSystem, dir: Path): nat
    requires dir in fs
  {
    |Subdirs(fs, dir, fs[dir].children)|
  }

  /**
   * Every child appears exactly as often as it is listed by the directory,
   * the subdirectories come first and the files after them, and each group
   * is sorted.
   */
  lemma ListingOrderSpec(fs: FileSystem, dir: Path)
    requires dir in fs
    ensures multiset(ListingOrder(fs, dir)) == multiset(fs[dir].children)
    ensures SubdirCount(fs, dir) <= |ListingOrder(fs, dir)|
    ensures forall k :: 0 <= k < SubdirCount(fs, dir) ==> ChildIsDirectory(fs, dir, ListingOrder(fs, dir)[k])
    ensures forall k :: SubdirCount(fs, dir) <= k < |ListingOrder(fs, dir)| ==>
      !ChildIsDirectory(fs, dir, ListingOrder(fs, dir)[k])
    ensures Ascending(ListingOrder(fs, dir)[..SubdirCount(fs, dir)])
    ensures Ascending(ListingOrder(fs, dir)[SubdirCount(fs, dir)..])
  {
    var children := fs[dir].children;
    var dirs, files := Subdirs(fs, dir, children), Files(fs, dir, children);
    PartitionSpec(fs, dir, children);
    SortSpec(dirs);
    SortSpec(files);
    SortedGroup(fs, dir, dirs, true);
    SortedGroup(fs, dir, files, false);
    var a, b := Sort(dirs), Sort(files);
    var order := ListingOrder(fs, dir);
    assert order == a + b;
    assert |a| == |multiset(a)| == |dirs|;
    assert order[..|a|] == a && order[|a|..] == b;
    FilesAfterSubdirs(fs, dir, a, b);
  }

  lemma FilesAfterSubdirs(fs: FileSystem, dir: Path, a: seq<string>, b: seq<string>)
    requires forall k :: 0 <= k < |b| ==> !ChildIsDirectory(fs, dir, b[k])
    ensures forall k :: |a| <= k < |a + b| ==> !ChildIsDirectory(fs, dir, (a + b)[k])
  {
    forall k | |a| <= k < |a + b| ensures !ChildIsDirectory(fs, dir, (a + b)[k]) {
      assert (a + b)[k] == b[k - |a|];
    }
  }

  /** Sorting a bin keeps every name in it. */
  lemma SortedGroup(fs: FileSystem, dir: Path, group: seq<string>, isDir: bool)
    requires multiset(Sort(group)) == multiset(group)
    requires forall n :: n in group ==> ChildIsDirectory(fs, dir, n) == isDir
    ensures forall k :: 0 <= k < |Sort(group)| ==> ChildIsDirectory(fs, dir, Sort(group)[k]) == isDir
  {
    forall k | 0 <= k < |Sort(group)| ensures ChildIsDirectory(fs, dir, Sort(group)[k]) == isDir {
      assert Sort(group)[k] in multiset(group);
    }
  }

  // ---------------------------------------------------------------- rendering

  /** The size column: "DIR" for a directory, else the decimal file length. */
  function SizeColumn(fs: FileSystem, dir: Path, name: string): (size: string)
    ensures size == "DIR" <==> ChildIsDirectory(fs, dir, name)
    ensures !ChildIsDirectory(fs, dir, name) ==>
      (forall i :: 0 <= i < |size| ==> IsDigit(size[i])) && DecimalValue(size) == Length(fs, dir + [name])
  {
    if ChildIsDirectory(fs, dir, name) then "DIR"
    else
      var size := NatToString(Length(fs, dir + [name]));
      DecimalRoundTrip(Length(fs, dir + [name]));
      assert size[0] != 'D';
      size
  }

  /**
   * One table row: a link `dirName/name`, the size and the timestamp, where
   * `dirName` is `getName()` of the `File` that lists `dir`.
   */
  function Row(fs: FileSystem, dir: Path, dirName: string, name: string, httpDate: int -> string): string {
    "<tr><td><a href='" + dirName + "/" + name + "'>" + name + "</a></td><td>"
      + SizeColumn(fs, dir, name) + "</td><td>" + httpDate(LastModified(fs, dir + [name])) + "</td></tr>"
  }

  function Rows(fs: FileSystem, dir: Path, dirName: string, names: seq<string>, httpDate: int -> string): (rows: seq<string>)
    ensures |rows| == |names|
  {
    if names == [] then []
    else
      var last := names[|names| - 1];
      Rows(fs, dir, dirName, names[..|names| - 1], httpDate) + [Row(fs, dir, dirName, last, httpDate)]
  }

  /** Each row shows the entry at the same position. */
  lemma {:induction false} RowsAt(fs: FileSystem, dir: Path, dirName: string, names: seq<string>, httpDate: int -> string, k: nat)
    requires k < |names|
    ensures Rows(fs, dir, dirName, names, httpDate)[k] == Row(fs, dir, dirName, names[k], httpDate)
  {
    if k < |names| - 1 {
      RowsAt(fs, dir, dirName, names[..|names| - 1], httpDate, k);
    }
  }

  function Max(a: int, b: int): int {
    if a < b then b else a
  }

  /** The running `Math.max` of the entries' modification times, from 0. */
  function NewestModTime(fs: FileSystem, dir: Path, names: seq<string>): int {
    if names == [] then 0
    else
      var last := names[|names| - 1];
      Max(NewestModTime(fs, dir, names[..|names| - 1]), LastModified(fs, dir + [last]))
  }

  /**
   * The modification time is never negative and never older than an
   * entry's, and it is 0 or the time of some entry.
   */
  lemma {:induction false} NewestModTimeSpec(fs: FileSystem, dir: Path, names: seq<string>)
    ensures NewestModTime(fs, dir, names) >= 0
    ensures forall n :: n in names ==> NewestModTime(fs, dir, names) >= LastModified(fs, dir + [n])
    ensures NewestModTime(fs, dir, names) == 0
      || exists n :: n in names && NewestModTime(fs, dir, names) == LastModified(fs, dir + [n])
  {
    if names != [] {
      var init, last := names[..|names| - 1], names[|names| - 1];
      NewestModTimeSpec(fs, dir, init);
      assert names == init + [last];
    }
  }

  /** An empty directory's listing is as old as the epoch. */
  lemma EmptyDirectoryModTime(fs: FileSystem, dir: Path)
    requires dir in fs && fs[dir].children == []
    ensures NewestModTime(fs, dir, ListingOrder(fs, dir)) == 0
  {
    assert Subdirs(fs, dir, []) == [] && Files(fs, dir, []) == [];
  }

  /** The page `buildIndexForDir` produces for `dir`, whose `File` has the name `dirName`. */
  function Listing(fs: FileSystem, dir: Path, dirName: string, eol: string, httpDate: int -> string): GeneratedIndex
    requires dir in fs
  {
    var order := ListingOrder(fs, dir);
    GeneratedIndex(
      NewestModTime(fs, dir, order),
      JoinLines(HEADER + Rows(fs, dir, dirName, order, httpDate) + FOOTER, eol))
  }

  /** The three header `println` calls write the header lines. */
  lemma HeaderPrinted(eol: string)
    ensures JoinLines(HEADER, eol) == "" + HEADER[0] + eol + HEADER[1] + eol + HEADER[2] + eol
  {
    JoinLinesAppend([], HEADER[0], eol);
    JoinLinesAppend([HEADER[0]], HEADER[1], eol);
    JoinLinesAppend([HEADER[0], HEADER[1]], HEADER[2], eol);
    assert [HEADER[0], HEADER[1], HEADER[2]] == HEADER;
  }

  /** The two footer `println` calls finish the page. */
  lemma FooterPrinted(lines: seq<string>, eol: string)
    ensures JoinLines(lines + FOOTER, eol) == JoinLines(lines, eol) + FOOTER[0] + eol + FOOTER[1] + eol
  {
    JoinLinesAppend(lines, FOOTER[0], eol);
    JoinLinesAppend(lines + [FOOTER[0]], FOOTER[1], eol);
    assert lines + [FOOTER[0]] + [FOOTER[1]] == lines + FOOTER;
  }

  /**
   * `buildIndexForDir`: bins the children, sorts the bins, prints the page
   * and keeps the newest modification time.
   */
  method BuildIndexForDir(fs: FileSystem, dirToList: Path, dirName: string, eol: string, httpDate: int -> string)
    returns (index: GeneratedIndex)
    requires GetStatus(fs, dirToList) == DIRECTORY
    ensures index == Listing(fs, dirToList, dirName, eol, httpDate)
  {
    var subdirs, files := BinChildren(fs, dirToList);
    subdirs := Sort(subdirs);
    files := Sort(files);
    var contents := subdirs + files;

    var out := "";
    out := out + HEADER[0] + eol;
    out := out + HEADER[1] + eol;
    out := out + HEADER[2] + eol;
    HeaderPrinted(eol);
    var newestModTime;
    out, newestModTime := PrintRows(fs, dirToList, dirName, contents, eol, httpDate, out);
    out := out + FOOTER[0] + eol;
    out := out + FOOTER[1] + eol;
    FooterPrinted(HEADER + Rows(fs, dirToList, dirName, contents, httpDate), eol);
    index := GeneratedIndex(newestModTime, out);
  }

  /** The loops' step: one more element of `s` in the prefix. */
  lemma PrefixSnoc(s: seq<string>, i: nat)
    requires i < |s|
    ensures s[..i + 1][..i] == s[..i] && s[..i + 1][i] == s[i]
  {
  }

  /** The loop that sorts the children of `dir` into subdirectories and files. */
  method BinChildren(fs: FileSystem, dir: Path) returns (subdirs: seq<string>, files: seq<string>)
    requires dir in fs
    ensures subdirs == Subdirs(fs, dir, fs[dir].children)
    ensures files == Files(fs, dir, fs[dir].children)
  {
    subdirs, files := [], [];
    var children := fs[dir].children;
    for i := 0 to |children|
      invariant subdirs == Subdirs(fs, dir, children[..i])
      invariant files == Files(fs, dir, children[..i])
    {
      var f := children[i];
      PrefixSnoc(children, i);
      if IsDirectoryPath(fs, dir + [f]) {
        subdirs := subdirs + [f];
      } else {
        files := files + [f];
      }
    }
    assert children[..|children|] == children;
  }

  /**
   * The loop that prints one row per entry after the header and keeps the
   * running maximum of the entries' modification times.
   */
  method PrintRows(fs: FileSystem, dir: Path, dirName: string, contents: seq<string>, eol: string, httpDate: int -> string, out0: string)
    returns (out: string, newestModTime: int)
    requires out0 == JoinLines(HEADER, eol)
    ensures out == JoinLines(HEADER + Rows(fs, dir, dirName, contents, httpDate), eol)
    ensures newestModTime == NewestModTime(fs, dir, contents)
  {
    out, newestModTime := out0, 0;
    assert HEADER + Rows(fs, dir, dirName, contents[..0], httpDate) == HEADER;
    for i := 0 to |contents|
      invariant out == JoinLines(HEADER + Rows(fs, dir, dirName, contents[..i], httpDate), eol)
      invariant newestModTime == NewestModTime(fs, dir, contents[..i])
    {
      var f := contents[i];
      var size := if IsDirectoryPath(fs, dir + [f]) then "DIR" else NatToString(Length(fs, dir + [f]));
      var time := httpDate(LastModified(fs, dir + [f]));
      newestModTime := Max(newestModTime, LastModified(fs, dir + [f]));
      var row := "<tr><td><a href='" + dirName + "/" + f + "'>" + f + "</a></td><td>"
        + size + "</td><td>" + time + "</td></tr>";
      assert row == Row(fs, dir, dirName, f, httpDate);
      PrefixSnoc(contents, i);
      JoinLinesAppend(HEADER + Rows(fs, dir, dirName, contents[..i], httpDate), row, eol);
      AppendAssoc(HEADER, Rows(fs, dir, dirName, contents[..i], httpDate), [row]);
      out := out + row + eol;
    }
    assert contents[..|contents|] == contents;
  }
}
