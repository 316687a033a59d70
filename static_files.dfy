/**
 * The document tree the server serves from, and what it can say about the
 * file behind a requested URL: whether it is a directory, a file or not
 * there at all, which index page a directory has, and the file's extension.
 *
 * The filesystem is a read-only snapshot: a map from a path (its list of
 * name segments) to what `java.io.File` reports about it. `new File(root,
 * url)` normalises `url` and appends it to the root: repeated and trailing
 * slashes vanish, except that a URL made of slashes alone normalises to "/",
 * which leaves a path ending in '/' (the root followed by '/'). Such a path
 * has the name "", and it exists only when the root is a directory.
 */
module StaticFiles {
  import opened Wrappers
  import opened Text
  import opened Utf8

  type Path = seq<string>

  /**
   * What the filesystem reports about one path: `canRead()`,
   * `isDirectory()`, the `listFiles()` names in enumeration order, the
   * bytes a `FileInputStream` yields, and `lastModified()`.
   */
  datatype Entry = Entry(
    readable: bool,
    isDirectory: bool,
    children: seq<string>,
    content: seq<byte>,
    lastModified: int)

  /** A path is present exactly when `exists()` holds for it. */
  type FileSystem = map<Path, Entry>

  /** `java.io.File.isDirectory()`: false for a path that is not there. */
  predicate IsDirectoryPath(fs: FileSystem, path: Path) {
    path in fs && fs[path].isDirectory
  }

  /** `java.io.File.length()`: 0 for a path that is not there. */
  function Length(fs: FileSystem, path: Path): nat {
    if path in fs then |fs[path].content| else 0
  }

  /** `java.io.File.lastModified()`: 0 for a path that is not there. */
  function LastModified(fs: FileSystem, path: Path): int {
    if path in fs then fs[path].lastModified else 0
  }

  /** `java.io.File.getName()` of a path not ending in '/': the last segment, or "" for an empty path. */
  function Name(path: Path): string {
    if path == [] then "" else path[|path| - 1]
  }

  // ---------------------------------------------------------------- URL to path

  /** The non-empty '/'-separated segments of `url`, in order. */
  function Segments(url: string): seq<string>
    decreases |url|
  {
    var i := IndexOf(url, '/');
    if i == -1 then
      if url == "" then [] else [url]
    else
      (if i == 0 then [] else [url[..i]]) + Segments(url[i + 1..])
  }

  /** Every segment is non-empty and free of '/'. */
  predicate ProperSegments(segs: seq<string>) {
    forall k :: 0 <= k < |segs| ==> segs[k] != "" && '/' !in segs[k]
  }

  lemma ProperSegmentsAppend(a: seq<string>, b: seq<string>)
    requires ProperSegments(a) && ProperSegments(b)
    ensures ProperSegments(a + b)
  {
    forall k | |a| <= k < |a + b| ensures (a + b)[k] == b[k - |a|] { }
  }

  /** `Segments` yields proper segments only. */
  lemma {:induction false} SegmentsProper(url: string)
    ensures ProperSegments(Segments(url))
    decreases |url|
  {
    var i := IndexOf(url, '/');
    IndexOfFirst(url, '/');
    if i != -1 {
      SegmentsAt(url, i);
      SegmentsProper(url[i + 1..]);
      if i > 0 {
        IndexOfPrefixFree(url, '/');
      }
      ProperSegmentsAppend(if i == 0 then [] else [url[..i]], Segments(url[i + 1..]));
    }
  }

  /** The canonical URL of a segment list: each segment after a '/'. */
  function Join(segs: seq<string>): string {
    if segs == [] then "" else "/" + segs[0] + Join(segs[1..])
  }

  /** Splitting a URL on '/' undoes joining proper segments. */
  lemma {:induction false} SegmentsOfJoin(segs: seq<string>)
    requires ProperSegments(segs)
    ensures Segments(Join(segs)) == segs
  {
    if segs != [] {
      var rest := segs[1..];
      forall k | 0 <= k < |rest| ensures rest[k] != "" && '/' !in rest[k] {
        assert rest[k] == segs[k + 1];
      }
      SegmentsOfJoin(rest);
      SegmentsOfJoinStep(segs[0], rest);
      assert segs == [segs[0]] + rest;
    }
  }

  /** One segment in front of a joined list adds exactly that segment. */
  lemma SegmentsOfJoinStep(a: string, rest: seq<string>)
    requires a != "" && '/' !in a
    ensures Segments(Join([a] + rest)) == [a] + Segments(Join(rest))
  {
    assert ([a] + rest)[1..] == rest;
    var r := Join(rest);
    AppendAssoc("/", a, r);
    SegmentsLeadingSlash(a + r);
    if rest == [] {
      assert a + r == a;
      SegmentsOfOne(a);
    } else {
      var t := rest[0] + Join(rest[1..]);
      AppendAssoc("/", rest[0], Join(rest[1..]));
      SegmentsCons(a, t);
      SegmentsLeadingSlash(t);
    }
  }

  lemma SegmentsOfOne(s: string)
    requires s != "" && '/' !in s
    ensures Segments(s) == [s]
  {
  }

  lemma SegmentsLeadingSlash(t: string)
    ensures Segments("/" + t) == Segments(t)
  {
    assert ("/" + t)[1..] == t;
  }

  lemma SegmentsCons(s: string, t: string)
    requires s != "" && '/' !in s
    ensures Segments(s + ("/" + t)) == [s] + Segments(t)
  {
    var url := s + ("/" + t);
    assert ("/" + t)[0] == '/';
    IndexOfAppend(s, "/" + t, '/');
    assert url[..|s|] == s;
    assert url[|s| + 1..] == t;
  }

  /** A `StaticFiles` instance: the directory files are served from. */
  datatype StaticFiles = StaticFiles(root: Path)

  /**
   * A `FileInfo`: the segments its `File` resolves to, whether that `File`'s
   * path string ends in '/', and the URL it was requested by.
   */
  datatype FileInfo = FileInfo(path: Path, endsInSlash: bool, originalUrl: string)

  /** A non-empty URL with no character other than '/'. */
  predicate AllSlashes(url: string) {
    url != "" && forall i :: 0 <= i < |url| ==> url[i] == '/'
  }

  /**
   * `getInfoForUrl`: the URL's segments under the root, keeping the URL; the
   * path ends in '/' exactly for a URL of slashes alone, and is then the root.
   */
  function GetInfoForUrl(files: StaticFiles, url: string): (info: FileInfo)
    ensures info.originalUrl == url
    ensures |info.path| >= |files.root| && info.path[..|files.root|] == files.root
    ensures forall k :: |files.root| <= k < |info.path| ==> info.path[k] != "" && '/' !in info.path[k]
    ensures info.endsInSlash <==> AllSlashes(url)
    ensures info.endsInSlash ==> info.path == files.root
  {
    SegmentsProper(url);
    SegmentsEmpty(url);
    var segs := Segments(url);
    FileInfo(files.root + segs, url != "" && segs == [], url)
  }

  /** A URL has no segments exactly when it holds nothing but slashes. */
  lemma {:induction false} SegmentsEmpty(url: string)
    ensures Segments(url) == [] <==> forall i :: 0 <= i < |url| ==> url[i] == '/'
    decreases |url|
  {
    var i := IndexOf(url, '/');
    IndexOfFirst(url, '/');
    if i != -1 {
      SegmentsAt(url, i);
      var rest := url[i + 1..];
      SegmentsEmpty(rest);
      if i == 0 {
        forall j | 0 <= j < |rest| ensures rest[j] == url[j + 1] { }
        if forall j :: 0 <= j < |rest| ==> rest[j] == '/' {
          forall j | 0 <= j < |url| ensures url[j] == '/' {
            if j > 0 { assert url[j] == rest[j - 1]; }
          }
        }
      } else {
        assert url[0] != '/';
      }
    } else if url != "" {
      assert url[0] != '/';
    }
  }

  /** `java.io.File.getName()` of the `File` behind a `FileInfo`. */
  function FileName(info: FileInfo): string {
    if info.endsInSlash then "" else Name(info.path)
  }

  /**
   * A URL of slashes alone names the root through a path ending in '/':
   * its name is "", and it is found only when the root is a readable
   * directory.
   */
  lemma SlashesNameTheRoot(fs: FileSystem, files: StaticFiles, url: string)
    requires AllSlashes(url)
    ensures var info := GetInfoForUrl(files, url);
      && info.path == files.root
      && FileName(info) == ""
      && (Found(fs, info) <==> IsDir(fs, info))
      && (IsDir(fs, info) <==> files.root in fs && fs[files.root].readable && fs[files.root].isDirectory)
  {
  }

  /** A URL written in canonical form resolves to exactly those segments under the root. */
  lemma ResolveCanonicalUrl(files: StaticFiles, segs: seq<string>)
    requires ProperSegments(segs)
    ensures GetInfoForUrl(files, Join(segs)).path == files.root + segs
  {
    SegmentsOfJoin(segs);
  }

  // ---------------------------------------------------------------- status

  datatype Status = DIRECTORY | FILE | NON_EXISTENT

  /** `FileInfo.getStatus`: missing or unreadable paths do not exist. */
  function GetStatus(fs: FileSystem, path: Path): (s: Status)
    ensures s == NON_EXISTENT <==> path !in fs || !fs[path].readable
    ensures s == DIRECTORY <==> path in fs && fs[path].readable && fs[path].isDirectory
  {
    if path !in fs || !fs[path].readable then NON_EXISTENT
    else if IsDirectoryPath(fs, path) then DIRECTORY
    else FILE
  }

  /**
   * The status of the `File` behind a `FileInfo`: `exists()` fails for a
   * path that ends in '/' but names a file.
   */
  function InfoStatus(fs: FileSystem, info: FileInfo): Status {
    var s := GetStatus(fs, info.path);
    if info.endsInSlash && s == FILE then NON_EXISTENT else s
  }

  predicate Found(fs: FileSystem, info: FileInfo) {
    InfoStatus(fs, info) != NON_EXISTENT
  }

  predicate IsFile(fs: FileSystem, info: FileInfo) {
    InfoStatus(fs, info) == FILE
  }

  predicate IsDir(fs: FileSystem, info: FileInfo) {
    InfoStatus(fs, info) == DIRECTORY
  }

  /** Exactly one of `isDir()`, `isFile()` and `!found()` holds. */
  lemma StatusPartition(fs: FileSystem, info: FileInfo)
    ensures Found(fs, info) <==> IsDir(fs, info) || IsFile(fs, info)
    ensures !(IsDir(fs, info) && IsFile(fs, info))
    ensures IsDir(fs, info) <==> info.path in fs && fs[info.path].readable && fs[info.path].isDirectory
    ensures IsFile(fs, info) <==>
      !info.endsInSlash && info.path in fs && fs[info.path].readable && !fs[info.path].isDirectory
  {
  }

  // ---------------------------------------------------------------- index files

  /** The index filename filter: "index.htm" or "index.html", ignoring case. */
  predicate IsIndexName(name: string) {
    ToLower(name) == "index.htm" || ToLower(name) == "index.html"
  }

  /** The filter does not depend on the case of the name. */
  lemma {:induction false} IndexNameIgnoresCase(name: string)
    ensures IsIndexName(ToUpper(name)) == IsIndexName(name)
    ensures IsIndexName(ToLower(name)) == IsIndexName(name)
  {
    CaseFoldAbsorbs(name);
  }

  /** `listFiles(indexFilenameFilter)`: the accepted names, in listing order. */
  function IndexNames(names: seq<string>): (r: seq<string>)
    ensures |r| <= |names|
    ensures forall k :: 0 <= k < |r| ==> IsIndexName(r[k]) && r[k] in names
  {
    if names == [] then []
    else (if IsIndexName(names[0]) then [names[0]] else []) + IndexNames(names[1..])
  }

  /** The filter keeps nothing exactly when no name passes it. */
  lemma {:induction false} IndexNamesEmpty(names: seq<string>)
    ensures IndexNames(names) == [] <==> forall k :: 0 <= k < |names| ==> !IsIndexName(names[k])
  {
    if names != [] {
      IndexNamesEmpty(names[1..]);
      if IndexNames(names) == [] {
        forall k | 0 <= k < |names| ensures !IsIndexName(names[k]) {
          if k > 0 { assert names[k] == names[1..][k - 1]; }
        }
      }
    }
  }

  /** The filter's first result is the first name that passes it. */
  lemma {:induction false} IndexNamesFirst(names: seq<string>)
    ensures IndexNames(names) != [] ==>
      exists k :: 0 <= k < |names| && names[k] == IndexNames(names)[0]
        && (forall j :: 0 <= j < k ==> !IsIndexName(names[j]))
  {
    if names != [] && IndexNames(names) != [] {
      if IsIndexName(names[0]) {
        assert names[0] == IndexNames(names)[0];
      } else {
        IndexNamesFirst(names[1..]);
        var tail := names[1..];
        assert IndexNames(names) == IndexNames(tail);
        var k :| 0 <= k < |tail| && tail[k] == IndexNames(tail)[0]
          && (forall j :: 0 <= j < k ==> !IsIndexName(tail[j]));
        forall j | 0 <= j < k + 1 ensures !IsIndexName(names[j]) {
          if j > 0 { assert names[j] == tail[j - 1]; }
        }
        assert names[k + 1] == IndexNames(names)[0];
      }
    }
  }

  /**
   * `getIndexFile`: for a directory, the first child the filter accepts,
   * reached by the URL `originalUrl + '/' + name`; `None` for `null`.
   */
  function GetIndexFile(fs: FileSystem, info: FileInfo): (r: Option<FileInfo>)
    ensures r.Some? ==> IsDir(fs, info)
    ensures r.Some? ==> exists name :: (name in fs[info.path].children && IsIndexName(name)
      && r.value == FileInfo(info.path + [name], false, info.originalUrl + "/" + name))
  {
    if IsDir(fs, info) then
      var matches := IndexNames(fs[info.path].children);
      if |matches| > 0 then
        Some(FileInfo(info.path + [matches[0]], false, info.originalUrl + "/" + matches[0]))
      else None
    else None
  }

  predicate HasIndexFile(fs: FileSystem, info: FileInfo) {
    GetIndexFile(fs, info) != None
  }

  /**
   * A directory has an index file exactly when one of its children's names
   * passes the filter, and the one chosen is the first in listing order.
   */
  lemma IndexFileChoice(fs: FileSystem, info: FileInfo)
    ensures HasIndexFile(fs, info) <==>
      IsDir(fs, info) && exists k :: 0 <= k < |fs[info.path].children| && IsIndexName(fs[info.path].children[k])
    ensures HasIndexFile(fs, info) ==>
      var children := fs[info.path].children;
      exists k :: 0 <= k < |children| && IsIndexName(children[k])
        && (forall j :: 0 <= j < k ==> !IsIndexName(children[j]))
        && GetIndexFile(fs, info).value.path == info.path + [children[k]]
  {
    if IsDir(fs, info) {
      IndexNamesEmpty(fs[info.path].children);
      IndexNamesFirst(fs[info.path].children);
    }
  }

  // ---------------------------------------------------------------- extension

  /** `getExtension`: what follows the last '.' of the file's name, or "". */
  function GetExtension(info: FileInfo): string {
    Extension(FileName(info))
  }

  /** The extension of one file name. */
  function Extension(filename: string): (ext: string)
    ensures '.' !in ext
    ensures ext == "" <==> '.' !in filename || filename[|filename| - 1] == '.'
    ensures ext != "" ==>
      |ext| < |filename| && filename == filename[..|filename| - |ext| - 1] + "." + ext
  {
    var dotIndex := LastIndexOf(filename, '.');
    if dotIndex >= 0 then
      if dotIndex == |filename| - 1 then ""
      else
        assert filename == filename[..dotIndex] + "." + filename[dotIndex + 1..];
        filename[dotIndex + 1..]
    else ""
  }

  /**
   * The name of a resolved URL is the text after its last '/', when that
   * text is not empty.
   */
  lemma {:induction false} LastSegment(url: string, j: nat)
    requires j + 1 < |url| && url[j] == '/' && '/' !in url[j + 1..]
    ensures Segments(url) != [] && Segments(url)[|Segments(url)| - 1] == url[j + 1..]
    decreases |url|
  {
    var i := IndexOf(url, '/');
    FirstSlashBefore(url, j);
    SegmentsAt(url, i);
    var rest := url[i + 1..];
    if i == j {
      SegmentsOfOne(rest);
    } else {
      assert rest[j - i - 1] == '/' && rest[j - i..] == url[j + 1..];
      LastSegment(rest, j - i - 1);
    }
    LastOfAppend(if i == 0 then [] else [url[..i]], Segments(rest));
  }

  lemma LastOfAppend(a: seq<string>, b: seq<string>)
    requires b != []
    ensures a + b != [] && (a + b)[|a + b| - 1] == b[|b| - 1]
  {
  }

  lemma FirstSlashBefore(url: string, j: nat)
    requires j < |url| && url[j] == '/'
    ensures 0 <= IndexOf(url, '/') <= j
  {
    IndexOfFirst(url, '/');
  }

  /** One step of `Segments`: the text before the first '/', then the segments after it. */
  lemma SegmentsAt(url: string, i: int)
    requires i == IndexOf(url, '/') && i != -1
    ensures Segments(url) == (if i == 0 then [] else [url[..i]]) + Segments(url[i + 1..])
  {
  }

  /** The extension of a resolved URL is that of the text after its last '/'. */
  lemma ExtensionOfUrl(files: StaticFiles, dir: string, name: string)
    requires name != "" && '/' !in name
    ensures GetExtension(GetInfoForUrl(files, dir + "/" + name)) == Extension(name)
  {
    NameOfUrl(files, dir, name);
  }

  /** The name of a resolved URL is the text after its last '/'. */
  lemma NameOfUrl(files: StaticFiles, dir: string, name: string)
    requires name != "" && '/' !in name
    ensures FileName(GetInfoForUrl(files, dir + "/" + name)) == name
  {
    var url := dir + "/" + name;
    assert url[|dir|] == '/' && url[|dir| + 1..] == name;
    assert url[|dir| + 1] == name[0] != '/';
    LastSegment(url, |dir|);
    var segs := Segments(url);
    var path := files.root + segs;
    assert path[|path| - 1] == segs[|segs| - 1];
  }

  /** The extensions of the five paths in the server's extension tests. */
  lemma ExtensionOfTxt(files: StaticFiles)
    ensures GetExtension(GetInfoForUrl(files, "/blah/blah" + "/" + "blah.txt")) == "txt"
  {
    TxtExtension();
    ExtensionOfUrl(files, "/blah/blah", "blah.txt");
  }

  lemma TxtExtension()
    ensures '/' !in "blah.txt" && Extension("blah.txt") == "txt"
  {
    LastIndexOfAt("blah.txt", '.', 4);
  }

  lemma ExtensionOfTrailingDot(files: StaticFiles)
    ensures GetExtension(GetInfoForUrl(files, "" + "/" + "abc.")) == ""
  {
    ExtensionOfUrl(files, "", "abc.");
  }

  lemma ExtensionOfNoDot(files: StaticFiles)
    ensures GetExtension(GetInfoForUrl(files, "" + "/" + "no-extension-whatsoever")) == ""
  {
    NoDotInName();
    ExtensionOfUrl(files, "", "no-extension-whatsoever");
  }

  lemma NoDotInName()
    ensures '/' !in "no-extension-whatsoever" && Extension("no-extension-whatsoever") == ""
  {
    NoDot("no-extension-whatsoever");
  }

  lemma NoDot(name: string)
    requires forall k :: 0 <= k < |name| ==> name[k] != '.'
    ensures Extension(name) == ""
  {
  }

  lemma ExtensionUnderDottedDir(files: StaticFiles)
    ensures GetExtension(GetInfoForUrl(files, "/some.dir" + "/" + "something.zzz")) == "zzz"
  {
    ZzzExtension();
    ExtensionOfUrl(files, "/some.dir", "something.zzz");
  }

  lemma ZzzExtension()
    ensures '/' !in "something.zzz" && Extension("something.zzz") == "zzz"
  {
    LastIndexOfAt("something.zzz", '.', 9);
  }

  lemma NoExtensionUnderDottedDir(files: StaticFiles)
    ensures GetExtension(GetInfoForUrl(files, "/some.dir" + "/" + "then-no-file-extension")) == ""
  {
    NoDotInFileUnderDottedDir();
    ExtensionOfUrl(files, "/some.dir", "then-no-file-extension");
  }

  lemma NoDotInFileUnderDottedDir()
    ensures '/' !in "then-no-file-extension" && Extension("then-no-file-extension") == ""
  {
    NoDot("then-no-file-extension");
  }
}
