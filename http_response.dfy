/**
 * A response's status and header fields, and their serialisation
 * (HttpResponse.java). The wall clock and the HTTP date format are
 * parameters: `now` is the current time in milliseconds and `httpDate`
 * renders a millisecond timestamp as an HTTP date.
 */
module HttpResponses {
  import opened Wrappers
  import opened Text
  import opened Utf8
  import opened Streams
  import opened HttpFields
  import opened ResponseCodes

  const HTTP_VERSION := "HTTP/1.1"
  const SERVER_TYPE := "WobSurb-jchern"

  /** The header fields a response is built with, in the order they are added. */
  function ResponseFields(contentType: Option<string>, contentLength: int, lastModified: int,
                          allowCaching: bool, now: int, httpDate: int -> string): seq<HttpField>
  {
    [HttpField("Date", httpDate(now)), HttpField("Connection", "close"), HttpField("Server", SERVER_TYPE)]
    + match contentType
      case None => []
      case Some(t) =>
        [HttpField("Content-Type", t), HttpField("Content-Length", IntToString(contentLength)),
         HttpField("Last-Modified", httpDate(lastModified))]
        + if allowCaching then [] else [HttpField("Cache-Control", "no-cache")]
  }

  /** The value of the first field with the given name, as a receiver looks it up. */
  function FieldValue(fields: seq<HttpField>, name: string): (r: Option<string>)
    ensures r.None? <==> forall k :: 0 <= k < |fields| ==> fields[k].name != name
    ensures r.Some? ==> HttpField(name, r.value) in fields
  {
    if fields == [] then None
    else if fields[0].name == name then Some(fields[0].value)
    else
      FieldValue(fields[1..], name)
  }

  /** Date, then Connection: close, then Server always lead; a response has 3 to 7 fields, 3 exactly when it has no content type. */
  lemma GeneralFieldsFirst(contentType: Option<string>, contentLength: int, lastModified: int,
                           allowCaching: bool, now: int, httpDate: int -> string)
    ensures var fields := ResponseFields(contentType, contentLength, lastModified, allowCaching, now, httpDate);
      && 3 <= |fields| <= 7
      && (|fields| == 3 <==> contentType.None?)
      && fields[0] == HttpField("Date", httpDate(now))
      && fields[1] == HttpField("Connection", "close")
      && fields[2] == HttpField("Server", SERVER_TYPE)
  {
  }

  /** Without a content type there are no entity headers at all. */
  lemma NoEntityFields(contentLength: int, lastModified: int, allowCaching: bool, now: int, httpDate: int -> string)
    ensures var fields := ResponseFields(None, contentLength, lastModified, allowCaching, now, httpDate);
      && FieldValue(fields, "Content-Type") == None
      && FieldValue(fields, "Content-Length") == None
      && FieldValue(fields, "Last-Modified") == None
      && FieldValue(fields, "Cache-Control") == None
  {
    var fields := ResponseFields(None, contentLength, lastModified, allowCaching, now, httpDate);
    assert fields == [HttpField("Date", httpDate(now)), HttpField("Connection", "close"), HttpField("Server", SERVER_TYPE)];
  }

  /** The fields of a response with a content type, position by position. */
  lemma FieldsWithContentType(contentType: string, contentLength: int, lastModified: int,
                              allowCaching: bool, now: int, httpDate: int -> string)
    ensures var fields := ResponseFields(Some(contentType), contentLength, lastModified, allowCaching, now, httpDate);
      && |fields| == (if allowCaching then 6 else 7)
      && fields[0].name == "Date" && fields[1].name == "Connection" && fields[2].name == "Server"
      && fields[3] == HttpField("Content-Type", contentType)
      && fields[4] == HttpField("Content-Length", IntToString(contentLength))
      && fields[5] == HttpField("Last-Modified", httpDate(lastModified))
      && (!allowCaching ==> fields[6] == HttpField("Cache-Control", "no-cache"))
  {
  }

  /**
   * With a content type, Content-Type, Content-Length in decimal and
   * Last-Modified follow the general fields, in that order.
   */
  lemma {:induction false} EntityFields(contentType: string, contentLength: int, lastModified: int,
                                        allowCaching: bool, now: int, httpDate: int -> string)
    ensures var fields := ResponseFields(Some(contentType), contentLength, lastModified, allowCaching, now, httpDate);
      && fields[3].name == "Content-Type" && fields[4].name == "Content-Length" && fields[5].name == "Last-Modified"
      && FieldValue(fields, "Content-Type") == Some(contentType)
      && FieldValue(fields, "Content-Length") == Some(IntToString(contentLength))
      && FieldValue(fields, "Last-Modified") == Some(httpDate(lastModified))
  {
    var fields := ResponseFields(Some(contentType), contentLength, lastModified, allowCaching, now, httpDate);
    FieldsWithContentType(contentType, contentLength, lastModified, allowCaching, now, httpDate);
    assert fields[0..] == fields;
    SkipGeneralFields(fields, "Content-Type");
    SkipGeneralFields(fields, "Content-Length");
    SkipField(fields, 3, "Content-Length");
    SkipGeneralFields(fields, "Last-Modified");
    SkipField(fields, 3, "Last-Modified");
    SkipField(fields, 4, "Last-Modified");
  }

  lemma SkipGeneralFields(fields: seq<HttpField>, name: string)
    requires |fields| > 3 && fields[0].name == "Date" && fields[1].name == "Connection" && fields[2].name == "Server"
    requires name != "Date" && name != "Connection" && name != "Server"
    ensures FieldValue(fields, name) == FieldValue(fields[3..], name)
  {
    assert fields[0..] == fields;
    SkipField(fields, 0, name);
    SkipField(fields, 1, name);
    SkipField(fields, 2, name);
  }

  /** A field with another name does not answer the lookup. */
  lemma SkipField(fields: seq<HttpField>, k: nat, name: string)
    requires k < |fields| && fields[k].name != name
    ensures FieldValue(fields[k..], name) == FieldValue(fields[k + 1..], name)
  {
    assert fields[k..][1..] == fields[k + 1..];
  }

  /** Cache-Control: no-cache is there exactly when a content type is given and caching is not allowed. */
  lemma {:induction false} CacheControlField(contentType: Option<string>, contentLength: int, lastModified: int,
                                             allowCaching: bool, now: int, httpDate: int -> string)
    ensures var fields := ResponseFields(contentType, contentLength, lastModified, allowCaching, now, httpDate);
      FieldValue(fields, "Cache-Control") == if contentType.Some? && !allowCaching then Some("no-cache") else None
  {
    var fields := ResponseFields(contentType, contentLength, lastModified, allowCaching, now, httpDate);
    if contentType.None? {
      NoEntityFields(contentLength, lastModified, allowCaching, now, httpDate);
    } else {
      FieldsWithContentType(contentType.value, contentLength, lastModified, allowCaching, now, httpDate);
      SkipGeneralFields(fields, "Cache-Control");
      SkipField(fields, 3, "Cache-Control");
      SkipField(fields, 4, "Cache-Control");
      SkipField(fields, 5, "Cache-Control");
      if allowCaching {
        assert fields[6..] == [];
      }
    }
  }

  /** A content length that is not negative is read back from its header value. */
  lemma ContentLengthReadBack(contentType: string, contentLength: nat, lastModified: int,
                              allowCaching: bool, now: int, httpDate: int -> string)
    ensures var fields := ResponseFields(Some(contentType), contentLength, lastModified, allowCaching, now, httpDate);
      var v := FieldValue(fields, "Content-Length");
      v.Some? && (forall i :: 0 <= i < |v.value| ==> IsDigit(v.value[i])) && DecimalValue(v.value) == contentLength
  {
    EntityFields(contentType, contentLength, lastModified, allowCaching, now, httpDate);
    DecimalRoundTrip(contentLength);
  }

  /** The status line: protocol version, number, description. */
  function StatusLine(code: ResponseCode): (line: string)
    ensures line == HTTP_VERSION + " " + ResponseCodes.ToString(code)
  {
    HTTP_VERSION + " " + NatToString(Number(code)) + " " + Description(code)
  }

  /** The lines `writeToOutput` prints: the status line, each field in order, an empty line. */
  function HeaderLines(code: ResponseCode, fields: seq<HttpField>): seq<string> {
    [StatusLine(code)] + FieldLines(fields) + [""]
  }

  function FieldLines(fields: seq<HttpField>): seq<string> {
    seq(|fields|, k requires 0 <= k < |fields| => HttpFields.ToString(fields[k]))
  }

  /** The header block as text, each line ended by the platform line separator `eol`. */
  function HeaderText(code: ResponseCode, fields: seq<HttpField>, eol: string): string {
    JoinLines(HeaderLines(code, fields), eol)
  }

  /**
   * How a client reads a header block back: split it into lines, expect a
   * known status line first, an empty line last, and a field on every line
   * in between.
   */
  function ReadHeader(text: string, eol: string): Option<(ResponseCode, seq<HttpField>)>
    requires |eol| > 0
  {
    ReadHeaderLines(SplitLines(text, eol))
  }

  function ReadHeaderLines(lines: seq<string>): Option<(ResponseCode, seq<HttpField>)> {
    if |lines| < 2 || lines[|lines| - 1] != "" then None
    else
      match ReadStatusLine(lines[0])
      case None => None
      case Some(code) =>
        match ReadFields(lines[1..|lines| - 1])
        case None => None
        case Some(fields) => Some((code, fields))
  }

  /** The code whose status line this is, found through the three digits after the version. */
  function ReadStatusLine(status: string): (r: Option<ResponseCode>)
    ensures r.Some? ==> status == StatusLine(r.value)
  {
    if |status| < 12 || !(forall i :: 9 <= i < 12 ==> IsDigit(status[i])) then None
    else
      match CodeOfNumber(DecimalValue(status[9..12]))
      case None => None
      case Some(code) => if status == StatusLine(code) then Some(code) else None
  }

  lemma ReadStatusLineOf(code: ResponseCode)
    ensures ReadStatusLine(StatusLine(code)) == Some(code)
  {
    var status := StatusLine(code);
    DigitsOfThreeDigitNumber(Number(code));
    assert status[9..12] == NatToString(Number(code));
    DecimalRoundTrip(Number(code));
    CodeOfNumberRoundTrip(code);
  }

  function ReadFields(lines: seq<string>): (r: Option<seq<HttpField>>)
    ensures r.Some? ==> |r.value| == |lines|
  {
    if lines == [] then Some([])
    else
      match (SplitField(lines[0]), ReadFields(lines[1..]))
      case (Some(f), Some(fs)) => Some([f] + fs)
      case _ => None
  }

  lemma {:induction false} ReadFieldLines(fields: seq<HttpField>)
    requires forall k :: 0 <= k < |fields| ==> ':' !in fields[k].name
    ensures ReadFields(FieldLines(fields)) == Some(fields)
  {
    if fields != [] {
      SplitFieldOfToString(fields[0]);
      assert FieldLines(fields)[1..] == FieldLines(fields[1..]);
      ReadFieldLines(fields[1..]);
      assert [fields[0]] + fields[1..] == fields;
    }
  }

  /** No line of the status text breaks the line: numbers and descriptions hold no CR or LF. */
  lemma StatusLineHasNoEol(code: ResponseCode)
    ensures forall i :: 0 <= i < |StatusLine(code)| ==> !IsEol(StatusLine(code)[i])
  {
    var line := StatusLine(code);
    var n := NatToString(Number(code));
    var d := Description(code);
    DescriptionHasNoEol(code);
    assert line == HTTP_VERSION + " " + n + " " + d;
    forall i | 0 <= i < |line|
      ensures !IsEol(line[i])
    {
      if i < 9 {
        assert line[i] == (HTTP_VERSION + " ")[i];
      } else if i < 9 + |n| {
        assert line[i] == n[i - 9];
      } else if i > 9 + |n| {
        assert line[i] == d[i - 10 - |n|];
      }
    }
  }

  /**
   * With CR or LF starting the line separator, a field name free of ':',
   * and no CR or LF inside fields, the client reads back exactly the
   * status and the fields, in order.
   */
  lemma HeaderRoundTrip(code: ResponseCode, fields: seq<HttpField>, eol: string)
    requires |eol| > 0 && IsEol(eol[0])
    requires forall k :: 0 <= k < |fields| ==> ':' !in fields[k].name
    requires forall k :: 0 <= k < |fields| ==> eol[0] !in fields[k].name && eol[0] !in fields[k].value
    ensures ReadHeader(HeaderText(code, fields, eol), eol) == Some((code, fields))
  {
    HeaderLinesAvoid(code, fields, eol[0]);
    SplitJoinLines(HeaderLines(code, fields), eol);
    ReadHeaderLinesOf(code, fields);
  }

  /** No header line holds a line-ending character that no field holds. */
  lemma HeaderLinesAvoid(code: ResponseCode, fields: seq<HttpField>, c: char)
    requires IsEol(c)
    requires forall k :: 0 <= k < |fields| ==> c !in fields[k].name && c !in fields[k].value
    ensures var lines := HeaderLines(code, fields);
      forall k :: 0 <= k < |lines| ==> c !in lines[k]
  {
    var lines := HeaderLines(code, fields);
    StatusLineHasNoEol(code);
    forall k | 0 <= k < |lines|
      ensures c !in lines[k]
    {
      if k == 0 {
        assert lines[0] == StatusLine(code);
      } else if k < |lines| - 1 {
        assert lines[k] == FieldLines(fields)[k - 1];
        FieldAvoids(fields[k - 1], c);
      }
    }
  }

  /** A field line holds a line-ending character only if its name or value does. */
  lemma FieldAvoids(f: HttpField, c: char)
    requires IsEol(c) && c !in f.name && c !in f.value
    ensures c !in HttpFields.ToString(f)
  {
    var line := HttpFields.ToString(f);
    forall i | 0 <= i < |line| ensures line[i] != c {
      if i < |f.name| {
        assert line[i] == line[..|f.name|][i];
      } else if i >= |f.name| + 2 {
        assert line[i] == line[|f.name| + 2..][i - |f.name| - 2];
      } else {
        assert line[i] == line[|f.name|..|f.name| + 2][i - |f.name|];
      }
    }
  }

  /** The header lines are read back as the status and the fields. */
  lemma ReadHeaderLinesOf(code: ResponseCode, fields: seq<HttpField>)
    requires forall k :: 0 <= k < |fields| ==> ':' !in fields[k].name
    ensures ReadHeaderLines(HeaderLines(code, fields)) == Some((code, fields))
  {
    var lines := HeaderLines(code, fields);
    ReadStatusLineOf(code);
    assert lines[0] == StatusLine(code);
    assert lines[1..|lines| - 1] == FieldLines(fields);
    ReadFieldLines(fields);
  }

  /** Printing one more line adds the encoding of that line and the separator. */
  lemma PrintLine(lines: seq<string>, line: string, eol: string)
    ensures Encode(JoinLines(lines + [line], eol)) == Encode(JoinLines(lines, eol)) + Encode(line + eol)
  {
    JoinLinesAppend(lines, line, eol);
    assert JoinLines(lines, eol) + line + eol == JoinLines(lines, eol) + (line + eol);
    EncodeAppend(JoinLines(lines, eol), line + eol);
  }

  /** The header block's bytes: the status line, the field lines, then the blank line. */
  lemma EncodeHeaderText(code: ResponseCode, fields: seq<HttpField>, eol: string)
    ensures Encode(HeaderText(code, fields, eol))
      == Encode(StatusLine(code) + eol) + Encode(JoinLines(FieldLines(fields), eol)) + Encode(eol)
  {
    var status := StatusLine(code);
    var body := JoinLines(FieldLines(fields), eol);
    HeaderTextParts(code, fields, eol);
    EncodeAppend((status + eol) + body, eol);
    EncodeAppend(status + eol, body);
  }

  /** The header block as text: the status line, the field lines, then the blank line. */
  lemma HeaderTextParts(code: ResponseCode, fields: seq<HttpField>, eol: string)
    ensures HeaderText(code, fields, eol)
      == (StatusLine(code) + eol) + JoinLines(FieldLines(fields), eol) + eol
  {
    var status := StatusLine(code);
    var lines := [status] + FieldLines(fields);
    assert HeaderLines(code, fields) == lines + [""];
    JoinLinesAppend(lines, "", eol);
    JoinLinesPrepend(status, FieldLines(fields), eol);
    ConcatEmpty(JoinLines(lines, eol), eol);
  }

  lemma ConcatEmpty(a: string, eol: string)
    ensures a + "" + eol == a + eol
  {
  }

  lemma FieldLinesSnoc(fields: seq<HttpField>, i: nat)
    requires i < |fields|
    ensures FieldLines(fields[..i + 1]) == FieldLines(fields[..i]) + [HttpFields.ToString(fields[i])]
  {
  }

  class HttpResponse {
    const code: ResponseCode
    var fields: seq<HttpField>

    /** The full constructor: general fields, then entity fields when a content type is given. */
    constructor (code: ResponseCode, contentType: Option<string>, contentLength: int, lastModified: int,
                 allowCaching: bool, now: int, httpDate: int -> string)
      ensures this.code == code
      ensures fields == ResponseFields(contentType, contentLength, lastModified, allowCaching, now, httpDate)
    {
      this.code := code;
      fields := [];
      new;
      AddFields(contentType, contentLength, lastModified, allowCaching, now, httpDate);
    }

    /** The constructor for a response without content: no content type, so no entity fields. */
    constructor NoContent(code: ResponseCode, now: int, httpDate: int -> string)
      ensures this.code == code
      ensures fields == ResponseFields(None, 0, 0, false, now, httpDate)
    {
      this.code := code;
      fields := [];
      new;
      AddFields(None, 0, 0, false, now, httpDate);
    }

    method AddFields(contentType: Option<string>, contentLength: int, lastModified: int,
                     allowCaching: bool, now: int, httpDate: int -> string)
      requires fields == []
      modifies this
      ensures fields == ResponseFields(contentType, contentLength, lastModified, allowCaching, now, httpDate)
    {
      AddField("Date", httpDate(now));
      AddField("Connection", "close");
      AddField("Server", SERVER_TYPE);
      if contentType.Some? {
        AddField("Content-Type", contentType.value);
        AddField("Content-Length", IntToString(contentLength));
        AddField("Last-Modified", httpDate(lastModified));
        if !allowCaching {
          AddField("Cache-Control", "no-cache");
        }
      }
    }

    method AddField(name: string, value: string)
      modifies this
      ensures fields == old(fields) + [HttpField(name, value)]
    {
      fields := fields + [HttpField(name, value)];
    }

    /** `writeToOutput(os)`: prints the header block and leaves the stream open. */
    method WriteToOutput(os: ByteSink, eol: string)
      modifies os
      ensures os.written == old(os.written) + Encode(HeaderText(code, fields, eol))
      ensures os.closed == old(os.closed)
    {
      var fs := fields;
      os.Print(StatusLine(code) + eol);
      ghost var start := os.written;
      var i := 0;
      while i < |fs|
        invariant 0 <= i <= |fs| && os.closed == old(os.closed)
        invariant os.written == start + Encode(JoinLines(FieldLines(fs[..i]), eol))
      {
        var line := HttpFields.ToString(fs[i]);
        os.Print(line + eol);
        FieldLinesSnoc(fs, i);
        PrintLine(FieldLines(fs[..i]), line, eol);
        AppendAssoc(start, Encode(JoinLines(FieldLines(fs[..i]), eol)), Encode(line + eol));
        i := i + 1;
      }
      assert fs[..i] == fs;
      os.Print(eol);
      EncodeHeaderText(code, fs, eol);
      AppendAssoc(old(os.written), Encode(StatusLine(code) + eol), Encode(JoinLines(FieldLines(fs), eol)));
      AppendAssoc(old(os.written), Encode(StatusLine(code) + eol) + Encode(JoinLines(FieldLines(fs), eol)), Encode(eol));
    }
  }
}
