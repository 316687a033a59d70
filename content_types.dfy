/**
 * The table from file extensions to MIME content types, loaded once from two
 * text files: a tab-separated "extension, type" table and a one-line file
 * with the type for every other extension.
 *
 * The Java class keeps the table in static fields; here they are the fields
 * of one `ContentTypes` object, `None` standing for `null`. A text file is
 * passed in as its lines, or `None` when it cannot be opened.
 */
module ContentTypes {
  import opened Wrappers
  import opened Text

  const MIME_TYPES_FILE := "mime-types.tsv"
  const DEFAULT_TYPE_FILE := "mime-type-default.txt"
  const DEFAULT_FALLBACK_TYPE := "application/octet-stream"
  const DEFAULT_HTML_TYPE := "text/html"

  // ---------------------------------------------------------------- line rule

  /** `s` with its leading tabs removed. */
  function DropTabs(s: string): (r: string)
    ensures |r| <= |s| && r == s[|s| - |r|..]
    ensures r == [] || r[0] != '\t'
    ensures s != [] && s[0] == '\t' ==> |r| < |s|
  {
    if s != [] && s[0] == '\t' then DropTabs(s[1..]) else s
  }

  /** The pieces of `s` between runs of tabs, empty pieces included. */
  function Pieces(s: string): (parts: seq<string>)
    ensures |parts| > 0
    decreases |s|
  {
    var i := IndexOf(s, '\t');
    if i == -1 then [s] else [s[..i]] + Pieces(DropTabs(s[i..]))
  }

  lemma {:induction false} PiecesTabFree(s: string)
    ensures forall k :: 0 <= k < |Pieces(s)| ==> '\t' !in Pieces(s)[k]
    decreases |s|
  {
    var i := IndexOf(s, '\t');
    IndexOfFirst(s, '\t');
    if i != -1 {
      var rest := DropTabs(s[i..]);
      PiecesTabFree(rest);
      var parts := Pieces(s);
      assert parts == [s[..i]] + Pieces(rest);
      forall k | 0 <= k < |parts| ensures '\t' !in parts[k] {
        if k > 0 { assert parts[k] == Pieces(rest)[k - 1]; }
      }
    }
  }

  /** Drops the empty strings at the end of `parts`. */
  function DropTrailingEmpty(parts: seq<string>): (r: seq<string>)
    ensures |r| <= |parts| && r == parts[..|r|]
    ensures r == [] || r[|r| - 1] != ""
    ensures forall k :: |r| <= k < |parts| ==> parts[k] == ""
  {
    if parts == [] || parts[|parts| - 1] != "" then parts
    else DropTrailingEmpty(parts[..|parts| - 1])
  }

  /**
   * `line.split("\t+")`: the pieces between runs of tabs, without the empty
   * pieces at the end; a line with no tab is its own single piece.
   */
  function SplitTabs(line: string): (parts: seq<string>)
    ensures '\t' !in line ==> parts == [line]
  {
    if '\t' !in line then [line] else DropTrailingEmpty(Pieces(line))
  }

  /** No part contains a tab, and a line with a tab never ends in an empty part. */
  lemma SplitTabsParts(line: string)
    ensures forall k :: 0 <= k < |SplitTabs(line)| ==> '\t' !in SplitTabs(line)[k]
    ensures '\t' in line && SplitTabs(line) != [] ==> SplitTabs(line)[|SplitTabs(line)| - 1] != ""
  {
    if '\t' in line {
      PiecesTabFree(line);
      var parts := Pieces(line);
      var r := DropTrailingEmpty(parts);
      forall k | 0 <= k < |r| ensures '\t' !in r[k] {
        assert r[k] == parts[k];
      }
    }
  }

  /** The entry one line of the table defines: exactly two pieces, the first lowercased. */
  function LineEntry(line: string): Option<(string, string)> {
    var split := SplitTabs(line);
    if |split| != 2 then None else Some((ToLower(split[0]), split[1]))
  }

  /** `s` is a (possibly empty) run of tabs. */
  predicate AllTabs(s: string) {
    s == [] || (s[0] == '\t' && AllTabs(s[1..]))
  }

  /** `DropTabs` skips exactly a run of tabs. */
  lemma {:induction false} DropTabsOfRun(tabs: string, rest: string)
    requires AllTabs(tabs)
    requires rest == [] || rest[0] != '\t'
    ensures DropTabs(tabs + rest) == rest
  {
    if tabs != [] {
      assert (tabs + rest)[1..] == tabs[1..] + rest;
      DropTabsOfRun(tabs[1..], rest);
    } else {
      assert tabs + rest == rest;
    }
  }

  /** `Pieces` of a tab-free text followed by a run of tabs and more text. */
  lemma PiecesCons(key: string, tabs: string, rest: string)
    requires '\t' !in key
    requires tabs != [] && AllTabs(tabs)
    requires rest == [] || rest[0] != '\t'
    ensures Pieces(key + (tabs + rest)) == [key] + Pieces(rest)
  {
    var s := key + (tabs + rest);
    IndexOfAppend(key, tabs + rest, '\t');
    assert (tabs + rest)[0] == '\t';
    assert s[..|key|] == key && s[|key|..] == tabs + rest;
    DropTabsOfRun(tabs, rest);
  }

  /** A tab-free text is one piece. */
  lemma PiecesOfTabFree(s: string)
    requires '\t' !in s
    ensures Pieces(s) == [s]
  {
  }

  /** A tab-free text followed by a run of tabs: the text, then an empty piece. */
  lemma PiecesOfTrailingRun(key: string, tabs: string)
    requires '\t' !in key
    requires tabs != [] && AllTabs(tabs)
    ensures Pieces(key + tabs) == [key, ""]
  {
    assert tabs + "" == tabs;
    PiecesCons(key, tabs, "");
    PiecesOfTabFree("");
    AppendEmptyPiece(key);
  }

  lemma AppendEmptyPiece(key: string)
    ensures [key] + [""] == [key, ""]
  {
  }

  /**
   * A well-formed table line: a tab-free key, a run of tabs, a non-empty
   * tab-free type and possibly more tabs. It splits into exactly those two.
   */
  lemma SplitWellFormedLine(key: string, tabs: string, mime: string, trailing: string)
    requires '\t' !in key && '\t' !in mime && mime != ""
    requires tabs != [] && AllTabs(tabs)
    requires AllTabs(trailing)
    ensures SplitTabs(key + tabs + mime + trailing) == [key, mime]
    ensures LineEntry(key + tabs + mime + trailing) == Some((ToLower(key), mime))
  {
    var line := key + tabs + mime + trailing;
    var rest := mime + trailing;
    AppendAssoc(key, tabs, mime);
    AppendAssoc(key + tabs, mime, trailing);
    AppendAssoc(key, tabs, rest);
    assert line == key + (tabs + rest);
    PiecesCons(key, tabs, rest);
    SplitAfterKey(line, key, mime, trailing);
  }

  lemma SplitAfterKey(line: string, key: string, mime: string, trailing: string)
    requires '\t' !in mime && mime != "" && AllTabs(trailing)
    requires Pieces(line) == [key] + Pieces(mime + trailing) && '\t' in line
    ensures SplitTabs(line) == [key, mime]
  {
    PiecesOfValue(mime, trailing);
    PrependKey(key, mime);
    if trailing == [] {
      SplitOfTwo(line, key, mime);
    } else {
      SplitOfThree(line, key, mime);
    }
  }

  /** The text after the key's tabs: the type alone, or the type and an empty piece. */
  lemma PiecesOfValue(mime: string, trailing: string)
    requires '\t' !in mime && AllTabs(trailing)
    ensures Pieces(mime + trailing) == if trailing == [] then [mime] else [mime, ""]
  {
    if trailing == [] {
      assert mime + trailing == mime;
      PiecesOfTabFree(mime);
    } else {
      PiecesOfTrailingRun(mime, trailing);
    }
  }

  lemma PrependKey(key: string, mime: string)
    ensures [key] + [mime] == [key, mime]
    ensures [key] + [mime, ""] == [key, mime, ""]
  {
  }

  lemma SplitOfTwo(line: string, key: string, mime: string)
    requires '\t' in line && mime != "" && Pieces(line) == [key, mime]
    ensures SplitTabs(line) == [key, mime]
  {
    SplitTabsOfPieces(line, [key, mime]);
    KeepTwoPieces(key, mime);
  }

  lemma SplitOfThree(line: string, key: string, mime: string)
    requires '\t' in line && mime != "" && Pieces(line) == [key, mime, ""]
    ensures SplitTabs(line) == [key, mime]
  {
    SplitTabsOfPieces(line, [key, mime, ""]);
    KeepTwoPieces(key, mime);
  }

  lemma SplitTabsOfPieces(line: string, parts: seq<string>)
    requires '\t' in line && Pieces(line) == parts
    ensures SplitTabs(line) == DropTrailingEmpty(parts)
  {
  }

  lemma KeepTwoPieces(key: string, mime: string)
    requires mime != ""
    ensures DropTrailingEmpty([key, mime]) == [key, mime]
    ensures DropTrailingEmpty([key, mime, ""]) == [key, mime]
  {
    var parts := [key, mime, ""];
    assert parts[..2] == [key, mime];
  }

  /** Lines without a tab, or with nothing but tabs after the key, define nothing. */
  lemma RefusedLines(line: string, key: string, tabs: string)
    requires '\t' !in key
    requires AllTabs(tabs)
    ensures '\t' !in line ==> LineEntry(line) == None
    ensures LineEntry(key + tabs) == None
  {
    if tabs == [] {
      assert key + tabs == key;
    } else {
      var line := key + tabs;
      assert line[|key|] == '\t';
      PiecesOfTrailingRun(key, tabs);
      SplitTabsOfPieces(line, [key, ""]);
      KeepKeyPiece(key);
    }
  }

  lemma KeepKeyPiece(key: string)
    ensures |DropTrailingEmpty([key, ""])| < 2
  {
    assert [key, ""][..1] == [key];
  }

  // ---------------------------------------------------------------- table

  type TableEntry = Option<(string, string)>

  /** What each line defines, in file order. */
  function Entries(lines: seq<string>): (entries: seq<TableEntry>)
    ensures |entries| == |lines|
  {
    if lines == [] then [] else Entries(lines[..|lines| - 1]) + [LineEntry(lines[|lines| - 1])]
  }

  lemma {:induction false} EntriesAt(lines: seq<string>, i: nat)
    requires i < |lines|
    ensures Entries(lines)[i] == LineEntry(lines[i])
  {
    if i < |lines| - 1 {
      EntriesAt(lines[..|lines| - 1], i);
    }
  }

  /** The table the entries build, each overwriting earlier ones with the same key. */
  function TableOf(entries: seq<TableEntry>): map<string, string> {
    if entries == [] then map[]
    else
      var before := TableOf(entries[..|entries| - 1]);
      match entries[|entries| - 1]
      case None => before
      case Some(entry) => before[entry.0 := entry.1]
  }

  /** The table that the lines of a table file define. */
  function Table(lines: seq<string>): map<string, string> {
    TableOf(Entries(lines))
  }

  predicate Defines(entry: TableEntry, key: string) {
    entry.Some? && entry.value.0 == key
  }

  /** Exactly the keys some entry defines are in the table. */
  lemma {:induction false} TableKeys(entries: seq<TableEntry>, key: string)
    ensures key in TableOf(entries) <==> exists i :: 0 <= i < |entries| && Defines(entries[i], key)
  {
    if entries != [] {
      var init := entries[..|entries| - 1];
      TableKeys(init, key);
      if key in TableOf(init) {
        var i :| 0 <= i < |init| && Defines(init[i], key);
        assert entries[i] == init[i];
      }
      if exists i :: 0 <= i < |entries| && Defines(entries[i], key) {
        var i :| 0 <= i < |entries| && Defines(entries[i], key);
        if i < |init| { assert entries[i] == init[i]; }
      }
    }
  }

  /** The last entry that defines a key decides its type. */
  lemma {:induction false} TableLastWins(entries: seq<TableEntry>, key: string, i: nat)
    requires i < |entries| && Defines(entries[i], key)
    requires forall j :: i < j < |entries| ==> !Defines(entries[j], key)
    ensures key in TableOf(entries) && TableOf(entries)[key] == entries[i].value.1
  {
    var init := entries[..|entries| - 1];
    if i < |init| {
      forall j | i < j < |init| ensures !Defines(init[j], key) {
        assert init[j] == entries[j];
      }
      assert init[i] == entries[i];
      TableLastWins(init, key, i);
    }
  }

  /** `getMimeTypeForExtension` on a loaded table: the entry of the lowercased extension, or the default. */
  function MimeTypeFor(types: map<string, string>, defaultType: string, ext: string): string {
    var key := ToLower(ext);
    if key in types then types[key] else defaultType
  }

  /** The lookup ignores the case of the extension. */
  lemma {:induction false} MimeTypeIgnoresCase(types: map<string, string>, defaultType: string, ext: string)
    ensures MimeTypeFor(types, defaultType, ToUpper(ext)) == MimeTypeFor(types, defaultType, ext)
    ensures MimeTypeFor(types, defaultType, ToLower(ext)) == MimeTypeFor(types, defaultType, ext)
  {
    CaseFoldAbsorbs(ext);
  }

  /** A table line decides the type of its extension, in any case, unless a later line redefines it. */
  lemma LookupFindsLine(lines: seq<string>, defaultType: string, i: nat, ext: string)
    requires i < |lines| && Defines(LineEntry(lines[i]), ToLower(ext))
    requires forall j :: i < j < |lines| ==> !Defines(LineEntry(lines[j]), ToLower(ext))
    ensures MimeTypeFor(Table(lines), defaultType, ext) == LineEntry(lines[i]).value.1
  {
    var entries := Entries(lines);
    forall j | i <= j < |lines| ensures entries[j] == LineEntry(lines[j]) {
      EntriesAt(lines, j);
    }
    TableLastWins(entries, ToLower(ext), i);
  }

  /** An extension no line defines gets the default type. */
  lemma LookupFallsBack(lines: seq<string>, defaultType: string, ext: string)
    requires forall j :: 0 <= j < |lines| ==> !Defines(LineEntry(lines[j]), ToLower(ext))
    ensures MimeTypeFor(Table(lines), defaultType, ext) == defaultType
  {
    var entries := Entries(lines);
    forall j | 0 <= j < |lines| ensures entries[j] == LineEntry(lines[j]) {
      EntriesAt(lines, j);
    }
    TableKeys(entries, ToLower(ext));
  }

  /** The type of every unlisted extension. */
  function DefaultTypeFrom(file: Option<seq<string>>): (t: string)
    ensures file.None? || file.value == [] ==> t == DEFAULT_FALLBACK_TYPE
    ensures file.Some? && file.value != [] ==> t == Trim(file.value[0])
  {
    if file.Some? && file.value != [] then Trim(file.value[0]) else DEFAULT_FALLBACK_TYPE
  }

  /** The type table, empty when its file cannot be opened. */
  function TableFrom(file: Option<seq<string>>): map<string, string> {
    if file.Some? then Table(file.value) else map[]
  }

  /** Without a table file, every extension gets the default type. */
  lemma MissingTableUsesDefault(defaultFile: Option<seq<string>>, ext: string)
    ensures MimeTypeFor(TableFrom(None), DefaultTypeFrom(defaultFile), ext) == DefaultTypeFrom(defaultFile)
  {
  }

  // ---------------------------------------------------------------- state

  class ContentTypes {
    var types: Option<map<string, string>>
    var defaultType: Option<string>

    /** The default type is set before the table, so a loaded table always has one. */
    predicate Valid()
      reads this
    {
      types.Some? ==> defaultType.Some?
    }

    constructor ()
      ensures Valid() && types == None && defaultType == None
    {
      types, defaultType := None, None;
    }

    /** `getMimeTypeForExtension`; the table must have been loaded. */
    method GetMimeTypeForExtension(ext: string) returns (mime: string)
      requires Valid() && types.Some?
      ensures mime == MimeTypeFor(types.value, defaultType.value, ext)
    {
      var key := ToLower(ext);
      if key in types.value {
        mime := types.value[key];
      } else {
        mime := defaultType.value;
      }
    }

    /** `init`: loads both files on the first call only. */
    method Init(defaultFile: Option<seq<string>>, typesFile: Option<seq<string>>)
      requires Valid()
      modifies this
      ensures Valid() && types.Some?
      ensures old(types).Some? ==> types == old(types) && defaultType == old(defaultType)
      ensures old(types).None? ==>
        defaultType == Some(DefaultTypeFrom(defaultFile)) && types == Some(TableFrom(typesFile))
    {
      if types.None? {
        InitDefaultType(defaultFile);
        InitMappedTypes(typesFile);
      }
    }

    /** `initDefaultType`: the trimmed first line of the file, or the fallback. */
    method InitDefaultType(file: Option<seq<string>>)
      modifies this
      ensures defaultType == Some(DefaultTypeFrom(file)) && types == old(types)
    {
      if file.Some? {
        if |file.value| > 0 {
          defaultType := Some(Trim(file.value[0]));
        } else {
          defaultType := Some(DEFAULT_FALLBACK_TYPE);
        }
      } else {
        defaultType := Some(DEFAULT_FALLBACK_TYPE);
      }
    }

    /** `initMappedTypes`: a fresh table, filled line by line. */
    method InitMappedTypes(file: Option<seq<string>>)
      modifies this
      ensures types == Some(TableFrom(file)) && defaultType == old(defaultType)
    {
      var table: map<string, string> := map[];
      types := Some(table);
      if file.Some? {
        var lines := file.value;
        var i := 0;
        while i < |lines|
          invariant 0 <= i <= |lines|
          invariant table == Table(lines[..i])
        {
          var line := lines[i];
          var split := SplitTabs(line);
          assert lines[..i + 1][..i] == lines[..i];
          assert Entries(lines[..i + 1]) == Entries(lines[..i]) + [LineEntry(line)];
          if |split| == 2 {
            table := table[ToLower(split[0]) := split[1]];
          }
          i := i + 1;
        }
        assert lines[..|lines|] == lines;
        types := Some(table);
      }
    }
  }
}
