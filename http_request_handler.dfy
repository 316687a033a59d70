/**
 * The per-connection worker (HttpRequestHandler.java): parse the request
 * read from the socket, decode its url, and answer with a file, the
 * directory's index file, a generated listing or an error status, then
 * close the socket.
 *
 * What the socket finally carries is described by functions (`Handle` and
 * the `...Response` functions below, `None` where the Java code sends
 * nothing because an exception escapes); the class's methods follow the
 * Java statements and are proved to write exactly those bytes.
 */
module HttpRequestHandling {
  import opened Wrappers
  import opened Text
  import opened Utf8
  import opened Streams
  import opened HttpMethods
  import opened HttpRequests
  import opened ParsingErrors
  import opened HttpRequestParsing
  import opened StaticFiles
  import opened IndexBuilder
  import ContentTypes
  import opened HttpFields
  import opened HttpResponses
  import opened ResponseCodes

  const READ_BUFFER_SIZE: nat := 8192

  /**
   * What the handler runs against: the filesystem snapshot, the served
   * root, the loaded MIME table and default type, the clock reading, the
   * HTTP date format and the line separator.
   */
  datatype Env = Env(
    fs: FileSystem,
    fileRoot: StaticFiles,
    types: map<string, string>,
    defaultType: string,
    now: int,
    httpDate: int -> string,
    eol: string)

  /** One response as sent: status, header fields and body bytes. */
  datatype Response = Response(code: ResponseCode, fields: seq<HttpField>, body: seq<byte>)

  /** The bytes a response puts on the socket: the header block, then the body. */
  function Wire(r: Option<Response>, eol: string): seq<byte> {
    match r
    case None => []
    case Some(resp) => Encode(HeaderText(resp.code, resp.fields, eol)) + resp.body
  }

  // ---------------------------------------------------------------- url

  /** `discardUrlParams`: the url up to its first '?', unless that '?' is the very first character. */
  function DiscardUrlParams(url: string): (r: string)
    ensures |r| <= |url| && r == url[..|r|]
    ensures '?' !in url || url[0] == '?' ==> r == url
    ensures '?' in url && url[0] != '?' ==> '?' !in r && |r| < |url| && url[|r|] == '?'
  {
    var index := IndexOf(url, '?');
    IndexOfFirst(url, '?');
    if index > 0 then url[..index] else url
  }

  /** Discarding the parameters twice is the same as once. */
  lemma DiscardUrlParamsIdempotent(url: string)
    ensures DiscardUrlParams(DiscardUrlParams(url)) == DiscardUrlParams(url)
  {
  }

  // ---------------------------------------------------------------- responses

  /** `new FileInputStream(path)` succeeds: a readable regular file that is there. */
  predicate Openable(fs: FileSystem, path: Path) {
    path in fs && fs[path].readable && !fs[path].isDirectory
  }

  /** `respondWithError`: the status alone, no entity fields, no body. */
  function ErrorResponse(code: ResponseCode, now: int, httpDate: int -> string): Response {
    Response(code, ResponseFields(None, 0, 0, false, now, httpDate), [])
  }

  /**
   * `respondWithFile`: 200 with the type of the file's extension, its
   * length and modification time, caching allowed; the body is the file
   * for GET. When GET cannot open the file, nothing is sent.
   */
  function FileResponse(env: Env, info: FileInfo, sendContent: bool): Option<Response> {
    var contentType := ContentTypes.MimeTypeFor(env.types, env.defaultType, GetExtension(info));
    var fields := ResponseFields(Some(contentType), Length(env.fs, info.path), LastModified(env.fs, info.path),
                                 true, env.now, env.httpDate);
    if !sendContent then Some(Response(SUCCESS_200, fields, []))
    else if Openable(env.fs, info.path) then Some(Response(SUCCESS_200, fields, env.fs[info.path].content))
    else None
  }

  /** The content type announced for a generated listing. */
  function IndexContentType(index: GeneratedIndex): string {
    ContentTypes.DEFAULT_HTML_TYPE + "; charset=" + GetEncoding(index)
  }

  /**
   * `respondWithGeneratedIndex`: 200 with the listing's HTML type, length
   * and newest modification time, caching allowed; the body is the
   * listing for GET.
   */
  function IndexResponse(fs: FileSystem, dir: FileInfo, sendContent: bool,
                         now: int, httpDate: int -> string, eol: string): Response
    requires dir.path in fs
  {
    var index := Listing(fs, dir.path, FileName(dir), eol, httpDate);
    Response(SUCCESS_200,
      ResponseFields(Some(IndexContentType(index)), GetContentLength(index), GetModifiedTime(index),
                     true, now, httpDate),
      if sendContent then GetContent(index) else [])
  }

  /** `fulfillRequestedUrl`: 404, the directory's index file, a generated listing, or the file. */
  function Fulfill(env: Env, url: string, sendContent: bool): Option<Response> {
    var info := GetInfoForUrl(env.fileRoot, url);
    if !Found(env.fs, info) then Some(ErrorResponse(ERROR_404, env.now, env.httpDate))
    else if IsDir(env.fs, info) then
      if HasIndexFile(env.fs, info) then FileResponse(env, GetIndexFile(env.fs, info).value, sendContent)
      else Some(IndexResponse(env.fs, info, sendContent, env.now, env.httpDate, env.eol))
    else FileResponse(env, info, sendContent)
  }

  /**
   * The `switch` in `run`, from the parser's outcome, with
   * `URLDecoder.decode` as `decode` (`None` where it throws): 400 for a
   * rejected request; nothing when the url does not decode; HEAD and GET
   * served; PUT, POST and DELETE refused with 405; any other method 501.
   */
  function Dispatch(env: Env, decode: string -> Option<string>, parsed: Result<HttpRequest, ParseError>): Option<Response> {
    match parsed
    case Failure(_) => Some(ErrorResponse(ERROR_400, env.now, env.httpDate))
    case Success(request) =>
      match decode(DiscardUrlParams(request.url))
      case None => None
      case Some(url) =>
        match request.httpMethod
        case HEAD => Fulfill(env, url, false)
        case GET => Fulfill(env, url, true)
        case PUT => Some(ErrorResponse(ERROR_405, env.now, env.httpDate))
        case POST => Some(ErrorResponse(ERROR_405, env.now, env.httpDate))
        case DELETE => Some(ErrorResponse(ERROR_405, env.now, env.httpDate))
        case UNKNOWN => Some(ErrorResponse(SERVER_501, env.now, env.httpDate))
  }

  /** `run` on the text the client sent. */
  function Handle(env: Env, decode: string -> Option<string>, input: string): Option<Response> {
    Dispatch(env, decode, ParseRequest(input))
  }

  // ---------------------------------------------------------------- properties

  /** An error response has exactly the three general fields, no entity fields and no body. */
  lemma ErrorResponseShape(code: ResponseCode, now: int, httpDate: int -> string)
    ensures var r := ErrorResponse(code, now, httpDate);
      && r.code == code && r.body == [] && |r.fields| == 3
      && FieldValue(r.fields, "Content-Type") == None
      && FieldValue(r.fields, "Content-Length") == None
  {
    GeneralFieldsFirst(None, 0, 0, false, now, httpDate);
    NoEntityFields(0, 0, false, now, httpDate);
  }

  /**
   * A url is answered 404 exactly when it names nothing readable; a HEAD is
   * always answered, with 200 otherwise; a GET is answered 200 unless the
   * file to send cannot be opened, which can only be a directory's index
   * file that is itself a directory or unreadable.
   */
  lemma FulfillOutcome(env: Env, url: string, sendContent: bool)
    ensures var info := GetInfoForUrl(env.fileRoot, url);
      var r := Fulfill(env, url, sendContent);
      && (r.Some? ==> (r.value.code == ERROR_404 <==> !Found(env.fs, info)))
      && (r.Some? ==> r.value.code == ERROR_404 || r.value.code == SUCCESS_200)
      && (r.None? <==> sendContent && HasIndexFile(env.fs, info)
                       && !Openable(env.fs, GetIndexFile(env.fs, info).value.path))
  {
    var info := GetInfoForUrl(env.fileRoot, url);
    StatusPartition(env.fs, info);
    if Found(env.fs, info) && !IsDir(env.fs, info) {
      assert Openable(env.fs, info.path);
    }
    if HasIndexFile(env.fs, info) {
      assert IsDir(env.fs, info);
    }
  }

  /**
   * HEAD answers with the same status and header fields as GET and no
   * body, so its bytes are a prefix of GET's: the GET bytes are the HEAD
   * bytes followed by the body.
   */
  lemma {:induction false} HeadIsGetWithoutBody(env: Env, url: string)
    ensures var head := Fulfill(env, url, false);
      var get := Fulfill(env, url, true);
      && head.Some? && head.value.body == []
      && (get.Some? ==> head.value.code == get.value.code && head.value.fields == get.value.fields
                        && Wire(get, env.eol) == Wire(head, env.eol) + get.value.body)
  {
    var head := Fulfill(env, url, false);
    var get := Fulfill(env, url, true);
    if get.Some? {
      assert Encode(HeaderText(head.value.code, head.value.fields, env.eol)) + [] ==
        Encode(HeaderText(head.value.code, head.value.fields, env.eol));
    }
  }

  /**
   * Whatever 200 a GET gets, its Content-Length field reads back as the
   * number of body bytes that follow the header block.
   */
  lemma GetContentLengthIsBodyLength(env: Env, url: string)
    ensures var r := Fulfill(env, url, true);
      r.Some? && r.value.code == SUCCESS_200 ==>
        var v := FieldValue(r.value.fields, "Content-Length");
        v.Some? && (forall i :: 0 <= i < |v.value| ==> IsDigit(v.value[i])) && DecimalValue(v.value) == |r.value.body|
  {
    var info := GetInfoForUrl(env.fileRoot, url);
    var r := Fulfill(env, url, true);
    if r.Some? && r.value.code == SUCCESS_200 {
      if IsDir(env.fs, info) && !HasIndexFile(env.fs, info) {
        var index := Listing(env.fs, info.path, FileName(info), env.eol, env.httpDate);
        ContentLengthMatches(index);
        ContentLengthReadBack(IndexContentType(index), GetContentLength(index), GetModifiedTime(index),
                              true, env.now, env.httpDate);
      } else {
        var file := if IsDir(env.fs, info) then GetIndexFile(env.fs, info).value else info;
        var contentType := ContentTypes.MimeTypeFor(env.types, env.defaultType, GetExtension(file));
        ContentLengthReadBack(contentType, Length(env.fs, file.path), LastModified(env.fs, file.path),
                              true, env.now, env.httpDate);
      }
    }
  }

  /**
   * A GET of a directory with an index file sends that file's bytes, typed
   * by the index file's own extension.
   */
  lemma IndexFileServed(env: Env, url: string)
    requires var info := GetInfoForUrl(env.fileRoot, url);
      HasIndexFile(env.fs, info) && Openable(env.fs, GetIndexFile(env.fs, info).value.path)
    ensures var info := GetInfoForUrl(env.fileRoot, url);
      var index := GetIndexFile(env.fs, info).value;
      var r := Fulfill(env, url, true);
      && r.Some? && r.value.code == SUCCESS_200
      && r.value.body == env.fs[index.path].content
      && FieldValue(r.value.fields, "Content-Type")
         == Some(ContentTypes.MimeTypeFor(env.types, env.defaultType, GetExtension(index)))
  {
    var info := GetInfoForUrl(env.fileRoot, url);
    var index := GetIndexFile(env.fs, info).value;
    assert IsDir(env.fs, info);
    EntityFields(ContentTypes.MimeTypeFor(env.types, env.defaultType, GetExtension(index)),
                 Length(env.fs, index.path), LastModified(env.fs, index.path), true, env.now, env.httpDate);
  }

  /**
   * A GET of a directory without an index file sends the generated
   * listing of that directory as HTML in UTF-8, stamped with the newest
   * modification time among its children.
   */
  lemma ListingServed(env: Env, url: string)
    requires var info := GetInfoForUrl(env.fileRoot, url);
      IsDir(env.fs, info) && !HasIndexFile(env.fs, info)
    ensures var info := GetInfoForUrl(env.fileRoot, url);
      var index := Listing(env.fs, info.path, FileName(info), env.eol, env.httpDate);
      var r := Fulfill(env, url, true);
      && r.Some? && r.value.code == SUCCESS_200
      && r.value.body == Encode(index.content)
      && FieldValue(r.value.fields, "Content-Type") == Some("text/html; charset=UTF-8")
      && FieldValue(r.value.fields, "Last-Modified")
         == Some(env.httpDate(NewestModTime(env.fs, info.path, ListingOrder(env.fs, info.path))))
  {
    var info := GetInfoForUrl(env.fileRoot, url);
    assert Fulfill(env, url, true) == Some(IndexResponse(env.fs, info, true, env.now, env.httpDate, env.eol));
    ListingResponse(env.fs, info, env.now, env.httpDate, env.eol);
  }

  lemma ListingResponse(fs: FileSystem, dir: FileInfo, now: int, httpDate: int -> string, eol: string)
    requires dir.path in fs
    ensures var index := Listing(fs, dir.path, FileName(dir), eol, httpDate);
      var r := IndexResponse(fs, dir, true, now, httpDate, eol);
      && r.code == SUCCESS_200
      && r.body == Encode(index.content)
      && FieldValue(r.fields, "Content-Type") == Some("text/html; charset=UTF-8")
      && FieldValue(r.fields, "Last-Modified") == Some(httpDate(NewestModTime(fs, dir.path, ListingOrder(fs, dir.path))))
  {
    var index := Listing(fs, dir.path, FileName(dir), eol, httpDate);
    HtmlUtf8(index);
    EntityFields(IndexContentType(index), GetContentLength(index), GetModifiedTime(index), true, now, httpDate);
  }

  lemma HtmlUtf8(index: GeneratedIndex)
    ensures IndexContentType(index) == "text/html; charset=UTF-8"
  {
  }

  /**
   * The status `run` answers with, by what the parser made of the request:
   * 400 exactly for a rejected request; for a parsed request whose url
   * decodes, 405 exactly for PUT, POST and DELETE, 501 exactly for an
   * unknown method, and 200 or 404 for HEAD and GET. A HEAD answer never
   * has a body.
   */
  lemma DispatchStatus(env: Env, decode: string -> Option<string>, parsed: Result<HttpRequest, ParseError>)
    ensures var r := Dispatch(env, decode, parsed);
      && (parsed.Failure? ==> r.Some? && r.value.code == ERROR_400)
      && (parsed.Success? && decode(DiscardUrlParams(parsed.value.url)).None? ==> r.None?)
      && (parsed.Success? && decode(DiscardUrlParams(parsed.value.url)).Some? && parsed.value.httpMethod != GET ==> r.Some?)
      && (parsed.Success? && r.Some? ==>
            && (r.value.code == ERROR_405 <==> parsed.value.httpMethod in {PUT, POST, DELETE})
            && (r.value.code == SERVER_501 <==> parsed.value.httpMethod == UNKNOWN)
            && (r.value.code in {SUCCESS_200, ERROR_404} <==> parsed.value.httpMethod in {HEAD, GET})
            && (parsed.value.httpMethod == HEAD ==> r.value.body == []))
  {
    if parsed.Success? {
      var url := decode(DiscardUrlParams(parsed.value.url));
      if url.Some? {
        match parsed.value.httpMethod
        case HEAD =>
          FulfillOutcome(env, url.value, false);
          HeadIsGetWithoutBody(env, url.value);
        case GET =>
          FulfillOutcome(env, url.value, true);
        case _ =>
      }
    }
  }

  // ---------------------------------------------------------------- the worker

  /**
   * One connection: the text the client sent, the socket's output stream
   * and whether the socket has been closed.
   */
  class HttpRequestHandler {
    const socketIn: string
    const socketOut: ByteSink
    var socketClosed: bool
    const parser: HttpRequestParser
    const fileRoot: StaticFiles

    constructor (cxnIn: string, cxnOut: ByteSink, fileRoot: StaticFiles)
      ensures socketIn == cxnIn && socketOut == cxnOut && this.fileRoot == fileRoot && !socketClosed
      ensures fresh(parser)
    {
      socketIn, socketOut := cxnIn, cxnOut;
      socketClosed := false;
      parser := new HttpRequestParser();
      this.fileRoot := fileRoot;
    }

    /**
     * `run`: parse, decode, dispatch on the method, answer 400 on a
     * parsing failure; the socket is closed on every path. The socket
     * carries exactly what `Handle` describes, and its output stream is
     * closed exactly when a response was sent.
     */
    method Run(fs: FileSystem, mimeTypes: ContentTypes.ContentTypes, decode: string -> Option<string>,
               now: int, httpDate: int -> string, eol: string)
      requires mimeTypes.Valid() && mimeTypes.types.Some?
      modifies this, parser, socketOut
      ensures socketClosed
      ensures var env := Env(fs, fileRoot, mimeTypes.types.value, mimeTypes.defaultType.value, now, httpDate, eol);
        && socketOut.written == old(socketOut.written) + Wire(Handle(env, decode, socketIn), eol)
        && socketOut.closed == (old(socketOut.closed) || Handle(env, decode, socketIn).Some?)
    {
      ghost var env := Env(fs, fileRoot, mimeTypes.types.value, mimeTypes.defaultType.value, now, httpDate, eol);
      var input := new CharReader(socketIn);
      assert input.Rest() == socketIn;
      var request := parser.Parse(input);
      ghost var expected := Dispatch(env, decode, request);
      assert Handle(env, decode, socketIn) == expected;
      if request.Failure? {
        RespondWithError(ERROR_400, now, httpDate, eol);
        assert expected == Some(ErrorResponse(ERROR_400, now, httpDate));
      } else {
        var requestedUrl := decode(DiscardUrlParams(request.value.url));
        if requestedUrl.Some? {
          var url := requestedUrl.value;
          match request.value.httpMethod
          case HEAD =>
            FulfillRequestedUrl(fs, mimeTypes, url, false, now, httpDate, eol);
            assert expected == Fulfill(env, url, false);
          case GET =>
            FulfillRequestedUrl(fs, mimeTypes, url, true, now, httpDate, eol);
            assert expected == Fulfill(env, url, true);
          case PUT =>
            RespondWithError(ERROR_405, now, httpDate, eol);
            assert expected == Some(ErrorResponse(ERROR_405, now, httpDate));
          case POST =>
            RespondWithError(ERROR_405, now, httpDate, eol);
            assert expected == Some(ErrorResponse(ERROR_405, now, httpDate));
          case DELETE =>
            RespondWithError(ERROR_405, now, httpDate, eol);
            assert expected == Some(ErrorResponse(ERROR_405, now, httpDate));
          case UNKNOWN =>
            RespondWithError(SERVER_501, now, httpDate, eol);
            assert expected == Some(ErrorResponse(SERVER_501, now, httpDate));
        } else {
          // URLDecoder.decode throws: nothing is sent
          assert expected == None;
        }
      }
      socketClosed := true;
    }

    /** `fulfillRequestedUrl`: sends what `Fulfill` describes. */
    method FulfillRequestedUrl(fs: FileSystem, mimeTypes: ContentTypes.ContentTypes, requestUrl: string,
                               sendContent: bool, now: int, httpDate: int -> string, eol: string)
      requires mimeTypes.Valid() && mimeTypes.types.Some?
      modifies socketOut
      ensures var env := Env(fs, fileRoot, mimeTypes.types.value, mimeTypes.defaultType.value, now, httpDate, eol);
        var r := Fulfill(env, requestUrl, sendContent);
        && socketOut.written == old(socketOut.written) + Wire(r, eol)
        && socketOut.closed == (old(socketOut.closed) || r.Some?)
    {
      var requestedUrl := GetInfoForUrl(fileRoot, requestUrl);
      if Found(fs, requestedUrl) {
        if IsDir(fs, requestedUrl) {
          if HasIndexFile(fs, requestedUrl) {
            RespondWithFile(fs, mimeTypes, GetIndexFile(fs, requestedUrl).value, sendContent, now, httpDate, eol);
          } else {
            RespondWithGeneratedIndex(fs, requestedUrl, sendContent, now, httpDate, eol);
          }
        } else {
          RespondWithFile(fs, mimeTypes, requestedUrl, sendContent, now, httpDate, eol);
        }
      } else {
        RespondWithError(ERROR_404, now, httpDate, eol);
      }
    }

    /**
     * `respondWithFile`: the headers, then for GET the opened file's bytes;
     * when GET cannot open the file, nothing is sent.
     */
    method RespondWithFile(fs: FileSystem, mimeTypes: ContentTypes.ContentTypes, fileToSend: FileInfo,
                           sendFileContent: bool, now: int, httpDate: int -> string, eol: string)
      requires mimeTypes.Valid() && mimeTypes.types.Some?
      modifies socketOut
      ensures var env := Env(fs, fileRoot, mimeTypes.types.value, mimeTypes.defaultType.value, now, httpDate, eol);
        var r := FileResponse(env, fileToSend, sendFileContent);
        && socketOut.written == old(socketOut.written) + Wire(r, eol)
        && socketOut.closed == (old(socketOut.closed) || r.Some?)
    {
      ghost var env := Env(fs, fileRoot, mimeTypes.types.value, mimeTypes.defaultType.value, now, httpDate, eol);
      ghost var r := FileResponse(env, fileToSend, sendFileContent);
      var contentType := mimeTypes.GetMimeTypeForExtension(GetExtension(fileToSend));
      var contentLen := Length(fs, fileToSend.path);
      var modifiedMs := LastModified(fs, fileToSend.path);
      var headers := new HttpResponse(SUCCESS_200, Some(contentType), contentLen, modifiedMs, true, now, httpDate);
      if sendFileContent {
        if !Openable(fs, fileToSend.path) {
          // the FileNotFoundException is logged and nothing is sent
          assert r == None;
          return;
        }
        var fileInputStream := new ByteSource(fs[fileToSend.path].content);
        assert fileInputStream.Rest() == fs[fileToSend.path].content;
        SendResponse(headers, true, fileInputStream, eol);
        fileInputStream.Close();
        assert r == Some(Response(SUCCESS_200, headers.fields, fs[fileToSend.path].content));
      } else {
        SendResponse(headers, false, null, eol);
        assert r == Some(Response(SUCCESS_200, headers.fields, []));
      }
    }

    /** `respondWithGeneratedIndex`: the listing's headers, then for GET the listing. */
    method RespondWithGeneratedIndex(fs: FileSystem, dirToList: FileInfo, sendContent: bool,
                                     now: int, httpDate: int -> string, eol: string)
      requires IsDir(fs, dirToList)
      modifies socketOut
      ensures var r := IndexResponse(fs, dirToList, sendContent, now, httpDate, eol);
        && socketOut.written == old(socketOut.written) + Wire(Some(r), eol)
        && socketOut.closed
    {
      var indexInfo := BuildIndexForDir(fs, dirToList.path, FileName(dirToList), eol, httpDate);
      var contentType := ContentTypes.DEFAULT_HTML_TYPE + "; charset=" + GetEncoding(indexInfo);
      var contentLen := GetContentLength(indexInfo);
      var modTime := GetModifiedTime(indexInfo);
      var headers := new HttpResponse(SUCCESS_200, Some(contentType), contentLen, modTime, true, now, httpDate);
      var contents := new ByteSource(GetContent(indexInfo));
      SendResponse(headers, sendContent, contents, eol);
    }

    /** `respondWithError`: the status line and general fields only. */
    method RespondWithError(code: ResponseCode, now: int, httpDate: int -> string, eol: string)
      modifies socketOut
      ensures var r := ErrorResponse(code, now, httpDate);
        && socketOut.written == old(socketOut.written) + Wire(Some(r), eol)
        && socketOut.closed
    {
      var headers := new HttpResponse.NoContent(code, now, httpDate);
      SendResponse(headers, false, null, eol);
    }

    /**
     * `sendResponse`: writes the header block, then, when asked to, copies
     * the whole content stream; the output stream is closed afterwards.
     */
    method SendResponse(headers: HttpResponse, sendContent: bool, content: ByteSource?, eol: string)
      requires sendContent ==> content != null && content.Valid()
      modifies socketOut, content
      ensures socketOut.written == old(socketOut.written)
        + Wire(Some(Response(headers.code, headers.fields, if sendContent then old(content.Rest()) else [])), eol)
      ensures socketOut.closed
      ensures sendContent ==> content.closed
      ensures !sendContent ==> content == null || unchanged(content)
    {
      headers.WriteToOutput(socketOut, eol);
      if sendContent {
        CopyToOutputStream(content, socketOut);
      }
      socketOut.Close();
      AppendAssoc(old(socketOut.written), Encode(HeaderText(headers.code, headers.fields, eol)),
                  if sendContent then old(content.Rest()) else []);
    }
  }

  /**
   * `copyToOutputStream`: reads the input in chunks of READ_BUFFER_SIZE
   * bytes until its end, writes each chunk as read, and closes the input.
   * The output receives exactly the unread input.
   */
  method CopyToOutputStream(input: ByteSource, output: ByteSink)
    requires input.Valid()
    modifies input, output
    ensures output.written == old(output.written) + old(input.Rest())
    ensures output.closed == old(output.closed) && input.closed
  {
    var buffer := new byte[READ_BUFFER_SIZE];
    var readLen := input.Read(buffer);
    while readLen != -1
      invariant input.Valid() && old(input.pos) <= input.pos && output.closed == old(output.closed)
      invariant readLen != -1 ==>
        && 0 < readLen <= buffer.Length && readLen <= input.pos - old(input.pos)
        && buffer[..readLen] == input.data[input.pos - readLen..input.pos]
      invariant readLen == -1 ==> input.pos == |input.data|
      invariant output.written == old(output.written)
        + input.data[old(input.pos)..input.pos - (if readLen == -1 then 0 else readLen)]
      decreases |input.data| - input.pos, readLen
    {
      output.Write(buffer, readLen);
      ghost var before := input.pos;
      assert input.data[old(input.pos)..before]
        == input.data[old(input.pos)..before - readLen] + input.data[before - readLen..before];
      assert output.written == old(output.written) + input.data[old(input.pos)..before];
      readLen := input.Read(buffer);
    }
    input.Close();
  }
}
