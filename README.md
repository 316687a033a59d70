# wobsurv-jchern in Dafny

This project models the core of wobsurv-jchern, a small HTTP/1.1 file server in Java. A worker handles each connection:

1. It reads the request with a security-bounded line reader. At most 3000 characters may go to leading blank lines plus the request line.
2. It parses the request line `METHOD URL HTTP/VERSION` into an immutable request.
3. It strips the query string from the url and URL-decodes it.
4. It dispatches on the method. HEAD and GET are served, PUT, POST and DELETE get 405, and anything else gets 501. A request the parser rejects gets 400.
5. For HEAD and GET, it resolves the url under the document root:
   - a missing or unreadable path gets 404;
   - a directory with an `index.htm`/`index.html` child gets that file;
   - a directory without one gets a generated HTML listing;
   - anything else gets the file itself, typed from a MIME table keyed by file extension.
6. It writes a status line, a fixed ordered list of header fields and a blank line, then the body (GET only), and closes the socket.

One Dafny module per Java source file:

| module | models |
|---|---|
| `HttpRequestParsing` | the reader and `parse` |
| `RequestLines` | the request-line grammar, as a hand tokenizer in place of the regular expression |
| `HttpRequests` | the request value |
| `HttpRequestFactories` | its builder |
| `HttpMethods` | the method enum |
| `StaticFiles` | file resolution over a filesystem snapshot |
| `IndexBuilder` | directory listings |
| `NameOrder` | the name ordering the listing sorts by |
| `ContentTypes` | the MIME table |
| `HttpFields` | header fields |
| `ResponseCodes` | the status catalogue |
| `HttpResponses` | header construction and serialisation |
| `HttpRequestHandling` | the per-connection worker |
| `ParsingErrors` | the reasons `ParsingException` is thrown |

Helper modules:
- `Streams` models the reader over the request text, a byte source and the socket's output.
- `Text` models character classes, ASCII case mapping, `indexOf`, `trim`, decimals and line joining.
- `Utf8` models the encoding bytes go out in.
- `Wrappers` defines Option and Result values.

Each imperative Java method becomes a Dafny method with the same loops and the same state: the parser's `charsConsumedSoFar`, the factory's fields, the response's field list, the MIME table, and the written bytes. Each method is proved to compute a specification function. The properties of those functions are proved as lemmas. The worker's methods are proved to write to the socket exactly the bytes that `HttpRequestHandling.Handle` describes.

## Model

| member | source | states |
|---|---|---|
| `HttpMethods.GetMethod` | simple-web-server/src/org/jchern/http/HttpMethod.java:12-18 | a method other than UNKNOWN has the upper-cased argument as its name; UNKNOWN only when no constant has that name |
| `HttpMethods.NamesDistinctUpper` | simple-web-server/src/org/jchern/http/HttpMethod.java:3-10 | constant names are pairwise distinct and already upper case |
| `HttpMethods.GetMethodOfName` | simple-web-server/src/org/jchern/http/HttpMethod.java:3-18 | looking up a constant's own name gives the constant back, for all six constants |
| `HttpMethods.GetMethodCaseInsensitive` | simple-web-server/src/org/jchern/http/HttpMethod.java:14 | two spellings with the same upper-case form map to the same method |
| `HttpMethods.GetMethodExact` | simple-web-server/src/org/jchern/http/HttpMethod.java:12-17 | for a known method m, the lookup gives m if and only if the upper-cased argument is m's name |
| `HttpFields.ToString` | simple-web-server/src/org/jchern/http/HttpField.java:16-18 | the header line is the name, then ": ", then the value, and has length \|name\| + \|value\| + 2 |
| `HttpFields.SplitField` | simple-web-server/src/org/jchern/http/HttpField.java:16-18 | a field read back from a line has a name free of ':' and renders to that same line |
| `HttpFields.SplitFieldOfToString` | simple-web-server/src/org/jchern/http/HttpField.java:16-18 | a field whose name has no ':' is recovered exactly from its header line |
| `HttpRequests.NewRequest` | simple-web-server/src/org/jchern/http/HttpRequest.java:19-24 | the method is `getMethod` of the method string; version, url and fields are kept unchanged |
| `HttpRequests.UrlWithoutParams` | simple-web-server/src/org/jchern/http/HttpRequest.java:42-45 | the result is the url's prefix before its first '?', so it contains no '?' and is followed by one |
| `HttpRequestFactories.WithField` | simple-web-server/src/org/jchern/http/HttpRequestFactory.java:33-35 | the map gains the lower-cased key with the new value; every other key keeps its value |
| `HttpRequestFactories.FieldLastWriteWins` | simple-web-server/src/org/jchern/http/HttpRequestFactory.java:33-35 | a second set under a key differing only in case replaces the first and leaves nothing of it |
| `HttpRequestFactories.FieldKeyIsLowerCase` | simple-web-server/src/org/jchern/http/HttpRequestFactory.java:12-35 | a stored field is found by the lower-cased form of any spelling of its key |
| `HttpRequestFactories.HttpRequestFactory.constructor` | simple-web-server/src/org/jchern/http/HttpRequestFactory.java:16-19 | method, version and url are "" and the field map is empty |
| `HttpRequestFactories.HttpRequestFactory.Instance` | simple-web-server/src/org/jchern/http/HttpRequestFactory.java:46-48 | each call returns a freshly allocated factory in the initial state |
| `HttpRequestFactories.HttpRequestFactory.SetMethod` | simple-web-server/src/org/jchern/http/HttpRequestFactory.java:21-23 | overwrites the method and nothing else |
| `HttpRequestFactories.HttpRequestFactory.SetVersion` | simple-web-server/src/org/jchern/http/HttpRequestFactory.java:25-27 | overwrites the version and nothing else |
| `HttpRequestFactories.HttpRequestFactory.SetUrl` | simple-web-server/src/org/jchern/http/HttpRequestFactory.java:29-31 | overwrites the url and nothing else |
| `HttpRequestFactories.HttpRequestFactory.SetHeaderField` | simple-web-server/src/org/jchern/http/HttpRequestFactory.java:33-35 | the fields become `WithField` of the old fields; method, version and url are unchanged |
| `HttpRequestFactories.HttpRequestFactory.GetRequest` | simple-web-server/src/org/jchern/http/HttpRequestFactory.java:37-41 | returns a request value with the mapped method, the current version and url, and a copy of the fields |
| `ResponseCodes.DescriptionHasNoEol` | simple-web-server/src/org/jchern/http/ResponseCode.java:10-18 | no description contains CR or LF |
| `ResponseCodes.CodeOfNumber` | simple-web-server/src/org/jchern/http/ResponseCode.java:10-18 | a code found for a number carries that number |
| `ResponseCodes.CodeOfNumberRoundTrip` | simple-web-server/src/org/jchern/http/ResponseCode.java:10-18 | every code is found again from its number |
| `ResponseCodes.NumbersDistinct` | simple-web-server/src/org/jchern/http/ResponseCode.java:10-18 | the nine numbers are pairwise distinct |
| `ResponseCodes.StatusClasses` | simple-web-server/src/org/jchern/http/ResponseCode.java:10-18 | ERROR_ codes are exactly the 4xx numbers, SERVER_ codes exactly the 5xx numbers, SUCCESS_200 exactly the 2xx |
| `ResponseCodes.ToString` | simple-web-server/src/org/jchern/http/ResponseCode.java:27-30 | three decimal digits, a space, then the description |
| `ResponseCodes.ToStringNumber` | simple-web-server/src/org/jchern/http/ResponseCode.java:27-30 | the three digits read back as the code's number |
| `ResponseCodes.ToStringInjective` | simple-web-server/src/org/jchern/http/ResponseCode.java:27-30 | distinct codes render to distinct texts |
| `RequestLines.SplitToken` | simple-web-server/src/org/jchern/http/HttpRequestParser.java:20 | splits off the longest whitespace-free prefix; the rest is empty or starts with whitespace |
| `RequestLines.SplitLws` | simple-web-server/src/org/jchern/http/HttpRequestParser.java:21-22 | splits off the longest space/tab prefix; the rest is empty or starts with another character |
| `RequestLines.MatchComplete` | simple-web-server/src/org/jchern/http/HttpRequestParser.java:20-27 | every line built as token, LWS, token, LWS, "HTTP/" token, optional LWS is accepted, with exactly those three tokens as groups |
| `RequestLines.MatchSound` | simple-web-server/src/org/jchern/http/HttpRequestParser.java:20-27 | every accepted line is built that way from its three groups |
| `RequestLines.LeadingWhitespaceRejected` | simple-web-server/src/org/jchern/http/HttpRequestParser.java:26 | a line starting with whitespace is rejected |
| `RequestLines.SeparatorsIrrelevant` | simple-web-server/src/org/jchern/http/HttpRequestParser.java:21-26 | how many spaces or tabs separate the parts does not change the groups extracted |
| `HttpRequestParsing.FirstEol` | simple-web-server/src/org/jchern/http/HttpRequestParser.java:154-162 | the result is -1 or the index of a CR or LF |
| `HttpRequestParsing.FirstEolFirst` | simple-web-server/src/org/jchern/http/HttpRequestParser.java:154-162 | -1 exactly when there is no CR or LF; no CR or LF precedes the index found |
| `HttpRequestParsing.FirstEolUnique` | simple-web-server/src/org/jchern/http/HttpRequestParser.java:154-162 | any index with the first-CR-or-LF property is the one found |
| `HttpRequestParsing.ReadLine` | simple-web-server/src/org/jchern/http/HttpRequestParser.java:118-145 | only a line read consumes budget; the line is shorter than what it consumes, and that is at most maxLen and at most the unread text |
| `HttpRequestParsing.ReadLineMeaning` | simple-web-server/src/org/jchern/http/HttpRequestParser.java:121-144 | see below |
| `HttpRequestParsing.ReadLineLimits` | simple-web-server-tests/src/org/jchern/http/HttpRequestParserTests.java:37-56 | a line of length n followed by CRLF is rejected as too long for limits n and n + 1, and read whole, consuming n + 2, for limit n + 2 |
| `HttpRequestParsing.SearchStep` | simple-web-server/src/org/jchern/http/HttpRequestParser.java:101-104 | one loop turn: a blank line hands the search on to the text after it, with the budget used grown by what it consumed; anything else ends the search |
| `HttpRequestParsing.FirstNonemptyLine` | simple-web-server/src/org/jchern/http/HttpRequestParser.java:97-106 | never ends on a blank line; the budget stays within 3000; a line found consumed exactly what the reader moved past |
| `HttpRequestParsing.BudgetFitsMeansPlain` | simple-web-server/src/org/jchern/http/HttpRequestParser.java:97-106 | while all unread text fits the budget, the outcome is that of skipping CR, LF and CRLF blank lines with no budget at all |
| `HttpRequestParsing.OverBudgetRejected` | simple-web-server/src/org/jchern/http/HttpRequestParser.java:123-125 | unread text longer than the remaining budget fails at once with length-exceeded, consuming nothing |
| `HttpRequestParsing.SkipBlankLine` | simple-web-server/src/org/jchern/http/HttpRequestParser.java:101-103 | a leading LF, CRLF, or CR not followed by LF does not change the unbudgeted outcome |
| `HttpRequestParsing.LongRequestRejected` | simple-web-server/src/org/jchern/http/HttpRequestParser.java:56-125 | a request text longer than 3000 characters fails with length-exceeded |
| `HttpRequestParsing.LeadingBlankLineIgnored` | simple-web-server-tests/src/org/jchern/http/HttpRequestParserTests.java:175-188 | within the budget, a leading blank line changes neither the parsed request nor the error |
| `HttpRequestParsing.ParsedRequestShape` | simple-web-server/src/org/jchern/http/HttpRequestParser.java:69-88 | a parsed request has a non-empty whitespace-free url and version and an empty field map |
| `HttpRequestParsing.HttpRequestParser.constructor` | simple-web-server/src/org/jchern/http/HttpRequestParser.java:57-60 | the counter starts at 0 |
| `HttpRequestParsing.HttpRequestParser.FindFirstEol` | simple-web-server/src/org/jchern/http/HttpRequestParser.java:154-162 | the loop returns `FirstEol` of the first maxLen buffer characters, and -1 for maxLen <= 0 |
| `HttpRequestParsing.HttpRequestParser.SecureReadLine` | simple-web-server/src/org/jchern/http/HttpRequestParser.java:118-145 | returns what `ReadLine` gives on the unread text; the reader moves and the counter grows exactly as it says |
| `HttpRequestParsing.HttpRequestParser.GetFirstNonemptyLine` | simple-web-server/src/org/jchern/http/HttpRequestParser.java:97-106 | the loop returns what `FirstNonemptyLine` gives; the counter stays in [0, 3000] |
| `HttpRequestParsing.HttpRequestParser.ParseRequestLine` | simple-web-server/src/org/jchern/http/HttpRequestParser.java:171-183 | on a match, sets method, url and version to the three groups and leaves the fields; otherwise fails and changes nothing |
| `HttpRequestParsing.HttpRequestParser.Parse` | simple-web-server/src/org/jchern/http/HttpRequestParser.java:69-88 | returns `ParseRequest` of the unread text (end of stream before any line is an error) with the counter reset and kept in [0, 3000] |
| `StaticFiles.SegmentsProper` | simple-web-server/src/org/jchern/file/StaticFiles.java:35-38 | the path segments of a url are non-empty and free of '/' |
| `StaticFiles.SegmentsOfJoin` | simple-web-server/src/org/jchern/file/StaticFiles.java:35-38 | splitting a joined list of proper segments gives the list back |
| `StaticFiles.GetInfoForUrl` | simple-web-server/src/org/jchern/file/StaticFiles.java:35-38 | keeps the requested url; the path is the root followed by proper segments; the `File`'s path ends in '/' exactly for a url of slashes alone, and its path is then the root |
| `StaticFiles.SegmentsEmpty` | simple-web-server/src/org/jchern/file/StaticFiles.java:35-38 | a url has no segments exactly when it holds nothing but slashes |
| `StaticFiles.SlashesNameTheRoot` | simple-web-server/src/org/jchern/file/StaticFiles.java:35-38 | a url of slashes alone resolves to the root with `getName()` "", and is found only when the root is a readable directory (`exists()` fails on "root/" for a file) |
| `StaticFiles.ResolveCanonicalUrl` | simple-web-server/src/org/jchern/file/StaticFiles.java:35-38 | a url written as '/'-joined proper segments resolves to exactly those segments under the root |
| `StaticFiles.GetStatus` | simple-web-server/src/org/jchern/file/StaticFiles.java:67-75 | NON_EXISTENT exactly when the path is missing or unreadable; DIRECTORY exactly for a readable directory |
| `StaticFiles.StatusPartition` | simple-web-server/src/org/jchern/file/StaticFiles.java:77-87 | `found()` holds exactly when `isDir()` or `isFile()` holds; never both; `isDir()` exactly for a readable directory; `isFile()` exactly for a readable non-directory reached by a path not ending in '/' |
| `StaticFiles.IndexNameIgnoresCase` | simple-web-server/src/org/jchern/file/StaticFiles.java:11-23 | the index-name filter does not depend on letter case |
| `StaticFiles.IndexNames` | simple-web-server/src/org/jchern/file/StaticFiles.java:104 | the filter keeps only index names taken from the listing |
| `StaticFiles.IndexNamesEmpty` | simple-web-server/src/org/jchern/file/StaticFiles.java:104-105 | the filter keeps nothing exactly when no name passes it |
| `StaticFiles.IndexNamesFirst` | simple-web-server/src/org/jchern/file/StaticFiles.java:104-107 | the filter's first result is the first passing name in listing order |
| `StaticFiles.GetIndexFile` | simple-web-server/src/org/jchern/file/StaticFiles.java:102-114 | a result only for a directory: an accepted child, reached by the url `originalUrl + "/" + name` |
| `StaticFiles.IndexFileChoice` | simple-web-server/src/org/jchern/file/StaticFiles.java:93-114 | `hasIndexFile()` exactly when the entry is a directory with an accepted child; the chosen one is the first in listing order |
| `StaticFiles.Extension` | simple-web-server/src/org/jchern/file/StaticFiles.java:120-132 | see below |
| `StaticFiles.LastSegment` | simple-web-server/src/org/jchern/file/StaticFiles.java:121 | the last path segment of a url is the text after its last '/' |
| `StaticFiles.NameOfUrl` | simple-web-server/src/org/jchern/file/StaticFiles.java:35-38 | `getName()` of `dir + "/" + name` resolved is `name` |
| `StaticFiles.ExtensionOfUrl` | simple-web-server/src/org/jchern/file/StaticFiles.java:120-132 | the extension of `dir + "/" + name` resolved is the extension of `name`, whatever dots `dir` contains |
| `StaticFiles.ExtensionOfTxt` | simple-web-server-tests/src/org/jchern/file/StaticFilesTests.java:18-38 | "/blah/blah/blah.txt" has extension "txt" |
| `StaticFiles.ExtensionOfTrailingDot` | simple-web-server-tests/src/org/jchern/file/StaticFilesTests.java:18-38 | "/abc." has extension "" |
| `StaticFiles.ExtensionOfNoDot` | simple-web-server-tests/src/org/jchern/file/StaticFilesTests.java:18-38 | "/no-extension-whatsoever" has extension "" |
| `StaticFiles.ExtensionUnderDottedDir` | simple-web-server-tests/src/org/jchern/file/StaticFilesTests.java:18-38 | "/some.dir/something.zzz" has extension "zzz" |
| `StaticFiles.NoExtensionUnderDottedDir` | simple-web-server-tests/src/org/jchern/file/StaticFilesTests.java:18-38 | "/some.dir/then-no-file-extension" has extension "" |
| `ContentTypes.SplitTabs` | simple-web-server/src/org/jchern/file/ContentTypes.java:71 | a line without a tab splits into itself alone |
| `ContentTypes.SplitTabsParts` | simple-web-server/src/org/jchern/file/ContentTypes.java:71 | no part contains a tab, and a line with a tab never yields a trailing empty part |
| `ContentTypes.SplitWellFormedLine` | simple-web-server/src/org/jchern/file/ContentTypes.java:69-76 | key, tabs, non-empty type, optional trailing tabs splits into exactly the key and the type, defining the lower-cased key |
| `ContentTypes.RefusedLines` | simple-web-server/src/org/jchern/file/ContentTypes.java:71-73 | a line without a tab, or a key followed only by tabs, defines nothing |
| `ContentTypes.TableKeys` | simple-web-server/src/org/jchern/file/ContentTypes.java:69-77 | exactly the keys some line defines are in the table |
| `ContentTypes.TableLastWins` | simple-web-server/src/org/jchern/file/ContentTypes.java:75 | the last line defining a key decides its type |
| `ContentTypes.MimeTypeIgnoresCase` | simple-web-server/src/org/jchern/file/ContentTypes.java:33-34 | lookup does not depend on the letter case of the extension |
| `ContentTypes.LookupFindsLine` | simple-web-server/src/org/jchern/file/ContentTypes.java:33-39 | an extension defined by a table line, and not redefined later, gets that line's type |
| `ContentTypes.LookupFallsBack` | simple-web-server/src/org/jchern/file/ContentTypes.java:35-39 | an extension no line defines gets the default type |
| `ContentTypes.DefaultTypeFrom` | simple-web-server/src/org/jchern/file/ContentTypes.java:49-62 | the trimmed first line of the default file, or "application/octet-stream" when the file is missing or empty |
| `ContentTypes.MissingTableUsesDefault` | simple-web-server/src/org/jchern/file/ContentTypes.java:64-83 | without a table file every extension gets the default type |
| `ContentTypes.ContentTypes.constructor` | simple-web-server/src/org/jchern/file/ContentTypes.java:30-31 | both static fields start out null |
| `ContentTypes.ContentTypes.GetMimeTypeForExtension` | simple-web-server/src/org/jchern/file/ContentTypes.java:33-40 | returns `MimeTypeFor` the loaded table, the default type and the extension |
| `ContentTypes.ContentTypes.Init` | simple-web-server/src/org/jchern/file/ContentTypes.java:42-47 | the first call loads both files; later calls change nothing |
| `ContentTypes.ContentTypes.InitDefaultType` | simple-web-server/src/org/jchern/file/ContentTypes.java:49-62 | sets the default type to `DefaultTypeFrom` the file and leaves the table |
| `ContentTypes.ContentTypes.InitMappedTypes` | simple-web-server/src/org/jchern/file/ContentTypes.java:64-83 | the loop builds `TableFrom` the file, or an empty table when it is missing |
| `NameOrder.NameLessEqTotal` | simple-web-server/src/org/jchern/webserver/IndexBuilder.java:40-41 | any two names are comparable |
| `NameOrder.NameLessEqTransitive` | simple-web-server/src/org/jchern/webserver/IndexBuilder.java:40-41 | the order is transitive |
| `NameOrder.NameLessEqAntisymmetric` | simple-web-server/src/org/jchern/webserver/IndexBuilder.java:40-41 | the order is antisymmetric |
| `NameOrder.SortSpec` | simple-web-server/src/org/jchern/webserver/IndexBuilder.java:40-41 | sorting gives an ascending permutation of its input |
| `NameOrder.AscendingUnique` | simple-web-server/src/org/jchern/webserver/IndexBuilder.java:40-41 | two ascending permutations of the same names are equal, so the sorted order is determined |
| `IndexBuilder.ContentLengthMatches` | simple-web-server/src/org/jchern/webserver/IndexBuilder.java:86-103 | `getContentLength` is the number of bytes `getContent` yields |
| `IndexBuilder.PartitionSpec` | simple-web-server/src/org/jchern/webserver/IndexBuilder.java:31-37 | every child lands in exactly one bin: subdirectories in one, everything else in the other |
| `IndexBuilder.ListingOrderSpec` | simple-web-server/src/org/jchern/webserver/IndexBuilder.java:28-45 | the listing is a permutation of the children, subdirectories first, files after, each group ascending |
| `IndexBuilder.SizeColumn` | simple-web-server/src/org/jchern/webserver/IndexBuilder.java:53 | "DIR" exactly for a directory, otherwise digits reading back as the file length |
| `IndexBuilder.RowsAt` | simple-web-server/src/org/jchern/webserver/IndexBuilder.java:52-60 | row k shows entry k of the listing order, linked under the listed `File`'s `getName()` |
| `IndexBuilder.NewestModTimeSpec` | simple-web-server/src/org/jchern/webserver/IndexBuilder.java:25-55 | the page time is at least 0 and every entry's time, and is 0 or some entry's time |
| `IndexBuilder.EmptyDirectoryModTime` | simple-web-server/src/org/jchern/webserver/IndexBuilder.java:25-65 | an empty directory's page time is 0 |
| `IndexBuilder.HeaderPrinted` | simple-web-server/src/org/jchern/webserver/IndexBuilder.java:48-50 | the page starts with the three fixed header lines |
| `IndexBuilder.FooterPrinted` | simple-web-server/src/org/jchern/webserver/IndexBuilder.java:62-63 | the page ends with the two fixed footer lines |
| `IndexBuilder.BinChildren` | simple-web-server/src/org/jchern/webserver/IndexBuilder.java:31-37 | the loop yields `Subdirs` and `Files` of the children |
| `IndexBuilder.PrintRows` | simple-web-server/src/org/jchern/webserver/IndexBuilder.java:52-60 | the loop prints one row per entry after the header and keeps the running maximum time |
| `IndexBuilder.BuildIndexForDir` | simple-web-server/src/org/jchern/webserver/IndexBuilder.java:20-66 | returns `Listing` of the directory |
| `HttpResponses.GeneralFieldsFirst` | simple-web-server/src/org/jchern/http/HttpResponse.java:20-43 | Date, Connection: close and Server: WobSurb-jchern lead; 3 to 7 fields, 3 exactly without a content type |
| `HttpResponses.NoEntityFields` | simple-web-server/src/org/jchern/http/HttpResponse.java:35-51 | without a content type there is no Content-Type, Content-Length, Last-Modified or Cache-Control |
| `HttpResponses.FieldsWithContentType` | simple-web-server/src/org/jchern/http/HttpResponse.java:35-41 | with a content type: Content-Type, Content-Length, Last-Modified at positions 3 to 5, then Cache-Control: no-cache exactly when caching is off |
| `HttpResponses.EntityFields` | simple-web-server/src/org/jchern/http/HttpResponse.java:35-38 | a receiver finds the content type, the decimal length and the formatted time |
| `HttpResponses.CacheControlField` | simple-web-server/src/org/jchern/http/HttpResponse.java:39-41 | Cache-Control is no-cache exactly when a content type is given and caching is disallowed, and absent otherwise |
| `HttpResponses.ContentLengthReadBack` | simple-web-server/src/org/jchern/http/HttpResponse.java:37 | a non-negative Content-Length is digits reading back as the length |
| `HttpResponses.StatusLine` | simple-web-server/src/org/jchern/http/HttpResponse.java:70 | "HTTP/1.1", a space, then the code's `toString` |
| `HttpResponses.ReadStatusLineOf` | simple-web-server/src/org/jchern/http/HttpResponse.java:70 | a receiver recovers the code from the status line |
| `HttpResponses.ReadFieldLines` | simple-web-server/src/org/jchern/http/HttpResponse.java:73-75 | field lines whose names have no ':' are read back as the fields, in order |
| `HttpResponses.StatusLineHasNoEol` | simple-web-server/src/org/jchern/http/HttpResponse.java:70 | the status line holds no CR or LF |
| `HttpResponses.HeaderLinesAvoid` | simple-web-server/src/org/jchern/http/HttpResponse.java:70-76 | no header line holds a line-ending character that no field holds |
| `HttpResponses.HeaderRoundTrip` | simple-web-server/src/org/jchern/http/HttpResponse.java:66-78 | see below |
| `HttpResponses.EncodeHeaderText` | simple-web-server/src/org/jchern/http/HttpResponse.java:66-78 | the header bytes are the status line, then the field lines, then the blank line |
| `HttpResponses.HttpResponse.constructor` | simple-web-server/src/org/jchern/http/HttpResponse.java:20-43 | keeps the code (`getStatus`) and builds `ResponseFields` |
| `HttpResponses.HttpResponse.NoContent` | simple-web-server/src/org/jchern/http/HttpResponse.java:49-51 | keeps the code and builds the fields of a response with no content type |
| `HttpResponses.HttpResponse.AddFields` | simple-web-server/src/org/jchern/http/HttpResponse.java:27-42 | the sequence of `addField` calls yields `ResponseFields` |
| `HttpResponses.HttpResponse.AddField` | simple-web-server/src/org/jchern/http/HttpResponse.java:57-59 | appends one field at the end |
| `HttpResponses.HttpResponse.WriteToOutput` | simple-web-server/src/org/jchern/http/HttpResponse.java:66-78 | appends the encoded header text to the stream and leaves it open |
| `HttpRequestHandling.DiscardUrlParams` | simple-web-server/src/org/jchern/webserver/HttpRequestHandler.java:93-96 | see below |
| `HttpRequestHandling.DiscardUrlParamsIdempotent` | simple-web-server/src/org/jchern/webserver/HttpRequestHandler.java:93-96 | discarding twice is the same as once |
| `HttpRequestHandling.ErrorResponseShape` | simple-web-server/src/org/jchern/webserver/HttpRequestHandler.java:179-182 | an error response has the given code, exactly three fields, no entity fields and no body |
| `HttpRequestHandling.FulfillOutcome` | simple-web-server/src/org/jchern/webserver/HttpRequestHandler.java:104-126 | see below |
| `HttpRequestHandling.HeadIsGetWithoutBody` | simple-web-server/src/org/jchern/webserver/HttpRequestHandler.java:132-154 | HEAD answers with GET's status and fields and no body, so GET's bytes are HEAD's followed by the body |
| `HttpRequestHandling.GetContentLengthIsBodyLength` | simple-web-server/src/org/jchern/webserver/HttpRequestHandler.java:137-167 | every 200 answer to GET announces a Content-Length equal to the number of body bytes sent |
| `HttpRequestHandling.IndexFileServed` | simple-web-server/src/org/jchern/webserver/HttpRequestHandler.java:110-112 | a GET of a directory with an openable index file gets 200 with that file's bytes, typed by its own extension |
| `HttpRequestHandling.ListingServed` | simple-web-server/src/org/jchern/webserver/HttpRequestHandler.java:161-175 | a GET of a directory without an index file gets 200 with the listing in UTF-8 as "text/html; charset=UTF-8", stamped with the newest entry time |
| `HttpRequestHandling.DispatchStatus` | simple-web-server/src/org/jchern/webserver/HttpRequestHandler.java:55-84 | see below |
| `HttpRequestHandling.HttpRequestHandler.constructor` | simple-web-server/src/org/jchern/webserver/HttpRequestHandler.java:39-43 | keeps the connection and root, creates a fresh parser, socket open |
| `HttpRequestHandling.HttpRequestHandler.Run` | simple-web-server/src/org/jchern/webserver/HttpRequestHandler.java:46-91 | writes exactly the bytes of `Handle` on the request text; the socket is closed on every path |
| `HttpRequestHandling.HttpRequestHandler.FulfillRequestedUrl` | simple-web-server/src/org/jchern/webserver/HttpRequestHandler.java:104-126 | writes exactly the bytes of `Fulfill` |
| `HttpRequestHandling.HttpRequestHandler.RespondWithFile` | simple-web-server/src/org/jchern/webserver/HttpRequestHandler.java:132-154 | writes exactly the bytes of `FileResponse` |
| `HttpRequestHandling.HttpRequestHandler.RespondWithGeneratedIndex` | simple-web-server/src/org/jchern/webserver/HttpRequestHandler.java:161-175 | writes exactly the bytes of `IndexResponse` and closes the output |
| `HttpRequestHandling.HttpRequestHandler.RespondWithError` | simple-web-server/src/org/jchern/webserver/HttpRequestHandler.java:179-182 | writes exactly the bytes of `ErrorResponse` and closes the output |
| `HttpRequestHandling.HttpRequestHandler.SendResponse` | simple-web-server/src/org/jchern/webserver/HttpRequestHandler.java:184-204 | the header block first, then the whole content only when asked; the output is closed afterwards |
| `HttpRequestHandling.CopyToOutputStream` | simple-web-server/src/org/jchern/webserver/HttpRequestHandler.java:206-221 | the output receives exactly the unread input bytes, in order, and the input is closed |

Details for the rows marked "see below":

- `HttpRequestParsing.ReadLineMeaning` gives each outcome of a read its meaning:
  - end of stream exactly when nothing is left;
  - length-exceeded exactly when more than maxLen characters are left;
  - no-EOL exactly when what is left holds no CR or LF;
  - otherwise, the line is the text before the first CR or LF and holds neither.
  - After the line, one terminator is consumed. CRLF is taken whole; a lone CR is taken only when no LF follows it.
- `StaticFiles.Extension`:
  - the result contains no '.';
  - it is "" exactly when the name has no '.' or ends in '.';
  - otherwise it is the text after the name's last '.'.
- `HttpResponses.HeaderRoundTrip`: a receiver that splits on the line separator reads back exactly the status and the fields, in order. This holds for a separator starting with CR or LF, field names without ':', and fields without line breaks.
- `HttpRequestHandling.DiscardUrlParams`:
  - the result is a prefix of the url;
  - it is the url unchanged when the url has no '?' or starts with one;
  - otherwise it is the text before the first '?'.
- `HttpRequestHandling.FulfillOutcome`:
  - 404 exactly when nothing readable is there;
  - otherwise 200;
  - nothing is sent only when a GET's index file cannot be opened.
- `HttpRequestHandling.DispatchStatus`:
  - 400 exactly for a rejected request;
  - nothing when the url does not decode;
  - 405 exactly for PUT, POST and DELETE;
  - 501 exactly for an unknown method;
  - 200 or 404 for HEAD and GET;
  - no body for HEAD.

## Left out

- Sockets, threads, the accept loop and command-line parsing (HttpFileServer.java, Launcher.java) are not part of this model. Logging (BasicLogger.java, SingleLogger.java, ILogger.java) and message templates (Strings.java) are treated as doing nothing.
- I/O failures are not modelled:
  - The streams never throw, so the `IOException` branches of `run`, `sendResponse` and `copyToOutputStream` are not modelled.
  - Partial socket reads are not modelled. A read returns min(requested, remaining) characters, as the reader over a `StringReader` does.
  - The request text is given whole, up front.
- `TimeUtils` is not part of this model. The clock is the parameter `now`, and the HTTP date format is the parameter `httpDate`.
- `HttpRequestHandling.Dispatch`: `URLDecoder.decode` is the parameter `decode`. Its `IllegalArgumentException` is `None`: nothing is written and the socket is still closed, as the `finally` does.
- Text is encoded as UTF-8 throughout, both the platform charset behind `PrintStream` and `InputStreamReader` and the listing's own encoding. A Java string is read as its sequence of Unicode code points, not UTF-16 units.
- `Text.ToLower`, `Text.ToUpper`: case mapping covers ASCII letters only. Locale-dependent mappings such as the Turkish dotless i are not modelled, nor are mappings outside ASCII such as 'ſ' to "S" or 'ﬆ' to "ST".
- `HttpMethods.GetMethod`: it upper-cases through `Text.ToUpper`, so only ASCII letters are mapped. A method spelt "poſt" gets 405 from the Java server and 501 from the model.
- `NameOrder.NameLessEq`: listings sort by code point. Java's `File.compareTo` compares UTF-16 units, which can differ only for characters outside the Basic Multilingual Plane.
- `StaticFiles.GetInfoForUrl`: `new File(root, url)` is modelled by appending the url's non-empty '/'-separated segments to the root, with a flag for the path "root/" a url of slashes alone gives. ".." and "." are not resolved, and no check is made that the result stays under the root.
- `StaticFiles.Length`: `File.length()` of a directory is taken as the length of its content, which is unspecified in Java.
- The filesystem is a fixed snapshot. It cannot change between the status check and the opening of a file.
- `HttpRequests.UrlWithoutParams` requires a '?' in the url. The Java method throws `StringIndexOutOfBoundsException` without one, and nothing calls it.
- `ContentTypes.ContentTypes.GetMimeTypeForExtension` requires the table to be loaded. Before `init` the Java method dereferences a null map and throws.
- `IndexBuilder.BuildIndexForDir` requires a readable directory. `listFiles()` returns null for anything else, and the handler only calls it for directories.
- The table files are passed as their lines, or as `None` when they cannot be opened. `Scanner`'s own line splitting is not modelled.
- `GeneratedIndex`: the `UnsupportedEncodingException` branches are not modelled, because "UTF-8" is always supported. `getContent` gives the bytes rather than a stream over them.
- `HttpRequestParsing.HttpRequestParser.FindFirstEol` requires maxLen to be at most the buffer length.
- `HttpRequestParsing.HttpRequestParser.SecureReadLine` requires a non-negative maxLen smaller than the buffer. Its caller always passes the remaining budget, which is between 0 and 3000, with a 3001-character buffer.
- `parseRequestHeaders` and `RequestHeaderPattern` are not modelled. They are an empty stub and unused patterns, and requests carry an empty field map.
- Widths are not modelled:
  - `long` file lengths and times are unbounded integers, so no 64-bit overflow is modelled;
  - `charsConsumedSoFar` never exceeds 3000, so its `int` width cannot matter.
