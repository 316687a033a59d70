/**
 * The security-bounded request reader (HttpRequestParser.java).
 *
 * Each parser counts the characters it has consumed since `parse` began.
 * Leading blank lines (skipped as section 4.1 of RFC 2616 allows) and the
 * request line together may take at most MAX_REQUEST_LENGTH characters.
 * Each line read looks ahead one character beyond what the budget still
 * allows, so that a longer stream is detected without being consumed.
 */
module HttpRequestParsing {
  import opened Wrappers
  import opened Text
  import opened ParsingErrors
  import opened RequestLines
  import opened Streams
  import opened HttpMethods
  import opened HttpRequests
  import opened HttpRequestFactories

  const MAX_REQUEST_LENGTH: nat := 3000

  /** What one `secureReadLine` yields: end of stream (null), a line, or a `ParsingException`. */
  datatype LineRead = EndOfStream | Line(text: string) | Rejected(error: ParseError)

  /** A line that was read and is empty (`line != null && line.isEmpty()`). */
  predicate IsBlank(r: LineRead) {
    r.Line? && |r.text| == 0
  }

  /**
   * One read as a function of the unread text: the outcome, how many
   * characters were added to the budget counter, and how far the reader moved.
   */
  datatype ReadStep = ReadStep(result: LineRead, consumed: nat, advanced: nat)

  /** The index of the first CR or LF, or -1. */
  function FirstEol(s: string): (i: int)
    ensures -1 <= i < |s|
    ensures 0 <= i ==> IsEol(s[i])
  {
    if |s| == 0 then -1
    else if IsEol(s[0]) then 0
    else
      var j := FirstEol(s[1..]);
      if j == -1 then -1 else j + 1
  }

  /** -1 exactly when there is no CR or LF; otherwise no CR or LF comes before the one found. */
  lemma {:induction false} FirstEolFirst(s: string)
    ensures FirstEol(s) == -1 <==> forall k :: 0 <= k < |s| ==> !IsEol(s[k])
    ensures forall k :: 0 <= k < FirstEol(s) ==> !IsEol(s[k])
  {
    if |s| > 0 && !IsEol(s[0]) {
      FirstEolFirst(s[1..]);
      forall k | 1 <= k < |s| ensures s[k] == s[1..][k - 1] { }
    }
  }

  /** Any index with the first-EOL property is the one FirstEol finds. */
  lemma FirstEolUnique(s: string, i: int)
    requires -1 <= i < |s|
    requires i == -1 ==> forall k :: 0 <= k < |s| ==> !IsEol(s[k])
    requires 0 <= i ==> IsEol(s[i]) && forall k :: 0 <= k < i ==> !IsEol(s[k])
    ensures i == FirstEol(s)
  {
    FirstEolFirst(s);
  }

  /** The terminator at an EOL position: CRLF counts two when the LF is within reach, else one. */
  function TerminatorLength(s: string, i: nat): nat
    requires i < |s|
  {
    if s[i] == '\r' && i + 1 < |s| && s[i + 1] == '\n' then 2 else 1
  }

  predicate IsTerminator(t: string) {
    t == "\n" || t == "\r" || t == "\r\n"
  }

  /**
   * `secureReadLine(in, maxLen, buffer)` as a function of the unread text
   * `rest`. The look-ahead of maxLen + 1 characters sees min(maxLen + 1,
   * |rest|) of them, so:
   *  - nothing left: end of stream, nothing consumed;
   *  - more than maxLen left: length exceeded, wherever the first EOL is;
   *  - no CR or LF in what is left: no EOL marker;
   *  - otherwise the text before the first CR or LF, with the terminator
   *    (CRLF taken whole) consumed after it.
   * On a failure the look-ahead is not rewound, so the reader has moved.
   */
  function ReadLine(rest: string, maxLen: nat): (step: ReadStep)
    ensures step.result.Line? ==> |step.result.text| < step.consumed == step.advanced <= |rest| <= maxLen
    ensures !step.result.Line? ==> step.consumed == 0
  {
    if |rest| == 0 then ReadStep(EndOfStream, 0, 0)
    else if |rest| > maxLen then ReadStep(Rejected(LengthExceeded), 0, maxLen + 1)
    else
      var i := FirstEol(rest);
      if i == -1 then ReadStep(Rejected(NoEolMarker), 0, |rest|)
      else
        var n := i + TerminatorLength(rest, i);
        ReadStep(Line(rest[..i]), n, n)
  }

  /** What each outcome of ReadLine means for the unread text. */
  lemma ReadLineMeaning(rest: string, maxLen: nat)
    ensures var step := ReadLine(rest, maxLen);
      && (step.result == EndOfStream <==> rest == [])
      && (step.result == Rejected(LengthExceeded) <==> |rest| > maxLen)
      && (step.result == Rejected(NoEolMarker) <==>
           0 < |rest| <= maxLen && forall k :: 0 <= k < |rest| ==> !IsEol(rest[k]))
      && (step.result.Rejected? ==> step.advanced == Min(maxLen + 1, |rest|))
      && (step.result == EndOfStream ==> step.advanced == 0)
      && (step.result.Line? ==>
           var t := step.result.text;
           && (forall k :: 0 <= k < |t| ==> !IsEol(t[k]))
           && rest[..|t|] == t
           && IsTerminator(rest[|t|..step.consumed])
           && (rest[|t|..step.consumed] == "\r" ==> step.consumed == |rest| || rest[step.consumed] != '\n'))
  {
    var step := ReadLine(rest, maxLen);
    FirstEolFirst(rest);
    if step.result.Line? {
      var i := |step.result.text|;
      var n := step.consumed;
      assert n == i + 2 ==> rest[i..n] == "\r\n";
      assert n == i + 1 ==> rest[i..n] == [rest[i]];
    }
  }

  /** A line of exactly maxLen characters ending in CRLF is rejected at maxLen and maxLen + 1, and read at maxLen + 2. */
  lemma ReadLineLimits(t: string)
    requires forall k :: 0 <= k < |t| ==> !IsEol(t[k])
    ensures ReadLine(t + "\r\n", |t|).result == Rejected(LengthExceeded)
    ensures ReadLine(t + "\r\n", |t| + 1).result == Rejected(LengthExceeded)
    ensures ReadLine(t + "\r\n", |t| + 2) == ReadStep(Line(t), |t| + 2, |t| + 2)
  {
    var s := t + "\r\n";
    assert s[|t|] == '\r' && s[|t| + 1] == '\n';
    assert s[..|t|] == t;
    FirstEolUnique(s, |t|);
  }

  /** A search result shifted by what earlier turns consumed and advanced. */
  function After(consumed: nat, advanced: nat, s: ReadStep): ReadStep {
    ReadStep(s.result, consumed + s.consumed, advanced + s.advanced)
  }

  /**
   * One turn of the search, with the read, the unread text after it and
   * the budget used after it named: a blank line hands the search over to
   * what follows it, anything else ends it.
   */
  lemma SearchStep(rest: string, used: nat, consumed: nat, advanced: nat) returns (step: ReadStep, rest': string, used': nat)
    requires used <= MAX_REQUEST_LENGTH
    ensures step == ReadLine(rest, MAX_REQUEST_LENGTH - used)
    ensures step.consumed <= |rest| && rest' == rest[step.consumed..]
    ensures used' == used + step.consumed <= MAX_REQUEST_LENGTH
    ensures IsBlank(step.result) ==>
      After(consumed, advanced, FirstNonemptyLine(rest, used))
        == After(consumed + step.consumed, advanced + step.advanced, FirstNonemptyLine(rest', used'))
    ensures !IsBlank(step.result) ==>
      After(consumed, advanced, FirstNonemptyLine(rest, used))
        == ReadStep(step.result, consumed + step.consumed, advanced + step.advanced)
  {
    step := ReadLine(rest, MAX_REQUEST_LENGTH - used);
    rest', used' := rest[step.consumed..], used + step.consumed;
  }

  /**
   * `getFirstNonemptyLine` from the budget already used: reads lines with
   * the remaining budget until one is non-empty, the stream ends, or a read
   * fails; skipped blank lines count against the budget.
   */
  function FirstNonemptyLine(rest: string, used: nat): (s: ReadStep)
    requires used <= MAX_REQUEST_LENGTH
    ensures !IsBlank(s.result)
    ensures used + s.consumed <= MAX_REQUEST_LENGTH
    ensures s.consumed <= s.advanced <= |rest|
    ensures s.result.Line? ==> s.consumed == s.advanced
    decreases |rest|
  {
    var step := ReadLine(rest, MAX_REQUEST_LENGTH - used);
    if IsBlank(step.result) then
      var next := FirstNonemptyLine(rest[step.consumed..], used + step.consumed);
      ReadStep(next.result, step.consumed + next.consumed, step.advanced + next.advanced)
    else step
  }

  /**
   * The same search with no budget at all: skip CR, LF and CRLF blank lines
   * and return the first non-empty line, end of stream, or a missing EOL.
   */
  function PlainFirstLine(s: string): LineRead
    decreases |s|
  {
    if s == [] then EndOfStream
    else
      var i := FirstEol(s);
      if i == -1 then Rejected(NoEolMarker)
      else if i == 0 then PlainFirstLine(s[TerminatorLength(s, 0)..])
      else Line(s[..i])
  }

  /** While everything unread fits in the budget, the budget never changes the outcome. */
  lemma {:induction false} BudgetFitsMeansPlain(rest: string, used: nat)
    requires used + |rest| <= MAX_REQUEST_LENGTH
    ensures FirstNonemptyLine(rest, used).result == PlainFirstLine(rest)
    decreases |rest|
  {
    var step := ReadLine(rest, MAX_REQUEST_LENGTH - used);
    if IsBlank(step.result) {
      assert FirstEol(rest) == 0;
      BudgetFitsMeansPlain(rest[step.consumed..], used + step.consumed);
    } else if step.result.Line? {
      FirstEolFirst(rest);
    }
  }

  /** Once the unread text is longer than the remaining budget, the search fails at once. */
  lemma OverBudgetRejected(rest: string, used: nat)
    requires used <= MAX_REQUEST_LENGTH < used + |rest|
    ensures FirstNonemptyLine(rest, used) == ReadStep(Rejected(LengthExceeded), 0, MAX_REQUEST_LENGTH - used + 1)
  {
  }

  /** A blank line (LF, CRLF, or a CR not followed by LF) is skipped without changing the outcome. */
  lemma SkipBlankLine(t: string, rest: string)
    requires IsTerminator(t)
    requires t == "\r" ==> rest == [] || rest[0] != '\n'
    ensures PlainFirstLine(t + rest) == PlainFirstLine(rest)
  {
    var s := t + rest;
    assert FirstEol(s) == 0;
    assert s[TerminatorLength(s, 0)..] == rest;
  }

  /** `parse` as a function of the whole request text. */
  function ParseRequest(input: string): Result<HttpRequest, ParseError> {
    ParseRequestFrom(FirstNonemptyLine(input, 0).result)
  }

  /** The outcome of `parse` once the first non-empty line has been read. */
  function ParseRequestFrom(first: LineRead): Result<HttpRequest, ParseError> {
    match first
    case EndOfStream => Failure(NoRequestLine)
    case Rejected(e) => Failure(e)
    case Line(l) =>
      match MatchRequestLine(l)
      case None => Failure(MalformedRequestLine)
      case Some(rl) => Success(NewRequest(rl.methodName, rl.version, rl.url, map[]))
  }

  /** A request text longer than the budget is rejected as too long, whatever it holds. */
  lemma LongRequestRejected(input: string)
    requires |input| > MAX_REQUEST_LENGTH
    ensures ParseRequest(input) == Failure(LengthExceeded)
  {
    OverBudgetRejected(input, 0);
  }

  /** Within the budget, leading blank lines do not change the parsed request or the error. */
  lemma LeadingBlankLineIgnored(t: string, rest: string)
    requires IsTerminator(t)
    requires t == "\r" ==> rest == [] || rest[0] != '\n'
    requires |t| + |rest| <= MAX_REQUEST_LENGTH
    ensures ParseRequest(t + rest) == ParseRequest(rest)
  {
    BudgetFitsMeansPlain(t + rest, 0);
    BudgetFitsMeansPlain(rest, 0);
    SkipBlankLine(t, rest);
  }

  /** A parsed request has a non-empty url and version free of whitespace and an empty field map. */
  lemma ParsedRequestShape(input: string)
    requires ParseRequest(input).Success?
    ensures var r := ParseRequest(input).value;
      IsToken(r.url) && IsToken(r.version) && r.fields == map[]
  {
    var l := FirstNonemptyLine(input, 0).result.text;
    MatchSound(l);
  }

  class HttpRequestParser {
    var charsConsumedSoFar: int

    constructor ()
      ensures charsConsumedSoFar == 0
    {
      charsConsumedSoFar := 0;
    }

    /** `findFirstEol(buffer, maxLen)`: the first CR or LF among the first maxLen characters, or -1. */
    static method FindFirstEol(buffer: array<char>, maxLen: int) returns (index: int)
      requires maxLen <= buffer.Length
      ensures maxLen <= 0 ==> index == -1
      ensures 0 <= maxLen ==> index == FirstEol(buffer[..maxLen])
    {
      var i := 0;
      while i < maxLen
        invariant 0 <= i <= buffer.Length && (i == 0 || i <= maxLen)
        invariant forall k :: 0 <= k < i ==> !IsEol(buffer[k])
      {
        if buffer[i] == '\r' || buffer[i] == '\n' {
          FirstEolUnique(buffer[..maxLen], i);
          return i;
        }
        i := i + 1;
      }
      if 0 <= maxLen {
        FirstEolUnique(buffer[..maxLen], -1);
      }
      return -1;
    }

    /** `secureReadLine(in, maxLen, buffer)`: one budgeted line read, as ReadLine describes. */
    method SecureReadLine(input: CharReader, maxLen: int, buffer: array<char>, ghost rest: string) returns (r: LineRead)
      requires input.Valid() && 0 <= maxLen < buffer.Length
      requires rest == input.Rest()
      modifies this, input, buffer
      ensures input.Valid()
      ensures var step := ReadLine(rest, maxLen);
        && r == step.result
        && input.pos == old(input.pos) + step.advanced
        && input.Rest() == rest[step.advanced..]
        && charsConsumedSoFar == old(charsConsumedSoFar) + step.consumed
    {
      input.Mark(maxLen + 1);
      ghost var start := input.pos;
      var charsRead := input.Read(buffer, maxLen + 1);
      DropTwice(input.text, start, input.pos - start);
      if charsRead == -1 {
        assert rest == [];
        assert ReadLine(rest, maxLen) == ReadStep(EndOfStream, 0, 0);
        return EndOfStream;
      }
      if charsRead > maxLen {
        assert ReadLine(rest, maxLen) == ReadStep(Rejected(LengthExceeded), 0, charsRead);
        return Rejected(LengthExceeded);
      }
      assert buffer[..charsRead] == rest;
      var index := FindFirstEol(buffer, Min(maxLen, charsRead));
      assert index == FirstEol(rest);
      if index == -1 {
        assert ReadLine(rest, maxLen) == ReadStep(Rejected(NoEolMarker), 0, charsRead);
        return Rejected(NoEolMarker);
      }
      var crlf := buffer[index] == '\r' && index + 1 < charsRead && buffer[index + 1] == '\n';
      assert crlf == (TerminatorLength(rest, index) == 2) by {
        assert buffer[index] == rest[index];
        if index + 1 < charsRead { assert buffer[index + 1] == rest[index + 1]; }
      }
      var line := buffer[..index];
      assert line == rest[..index];
      var consumeLen := index + if crlf then 2 else 1;
      assert ReadLine(rest, maxLen) == ReadStep(Line(line), consumeLen, consumeLen);
      input.Reset();
      var _ := input.Read(buffer, consumeLen);
      DropTwice(input.text, start, consumeLen);
      charsConsumedSoFar := charsConsumedSoFar + consumeLen;
      return Line(line);
    }

    /** `getFirstNonemptyLine(in)`: the loop over blank lines, as FirstNonemptyLine describes. */
    method GetFirstNonemptyLine(input: CharReader) returns (line: LineRead)
      requires input.Valid() && 0 <= charsConsumedSoFar <= MAX_REQUEST_LENGTH
      modifies this, input
      ensures input.Valid() && 0 <= charsConsumedSoFar <= MAX_REQUEST_LENGTH
      ensures var s := FirstNonemptyLine(old(input.Rest()), old(charsConsumedSoFar));
        && line == s.result
        && input.pos == old(input.pos) + s.advanced
        && charsConsumedSoFar == old(charsConsumedSoFar) + s.consumed
    {
      ghost var whole := After(0, 0, FirstNonemptyLine(input.Rest(), charsConsumedSoFar));
      ghost var consumed: nat, advanced: nat := 0, 0;
      ghost var remaining: string, used: nat := input.Rest(), charsConsumedSoFar;
      line := Line([]);
      var buffer := new char[MAX_REQUEST_LENGTH + 1];
      while IsBlank(line)
        invariant input.Valid() && used <= MAX_REQUEST_LENGTH
        invariant charsConsumedSoFar == used == old(charsConsumedSoFar) + consumed
        invariant input.pos == old(input.pos) + advanced
        invariant IsBlank(line) ==> input.Rest() == remaining
        invariant IsBlank(line) ==> whole == After(consumed, advanced, FirstNonemptyLine(remaining, used))
        invariant !IsBlank(line) ==> whole == ReadStep(line, consumed, advanced)
        decreases |input.text| - input.pos, if IsBlank(line) then 1 else 0
      {
        var maxLen := MAX_REQUEST_LENGTH - charsConsumedSoFar;
        ghost var step, rest', used' := SearchStep(remaining, used, consumed, advanced);
        line := SecureReadLine(input, maxLen, buffer, remaining);
        consumed, advanced := consumed + step.consumed, advanced + step.advanced;
        remaining, used := rest', used';
      }
    }

    /**
     * `parseRequestLine(factory, line)`: on a match, sets the factory's
     * method, url and version to the three groups and nothing else; on no
     * match, leaves the factory alone and fails.
     */
    static method ParseRequestLine(factory: HttpRequestFactory, line: string) returns (r: Outcome<ParseError>)
      modifies factory
      ensures MatchRequestLine(line).None? ==> r == Fail(MalformedRequestLine) && unchanged(factory)
      ensures MatchRequestLine(line).Some? ==>
        var rl := MatchRequestLine(line).value;
        && r == Pass
        && factory.methodName == rl.methodName && factory.url == rl.url && factory.version == rl.version
        && factory.fields == old(factory.fields)
    {
      var m := MatchRequestLine(line);
      if m.Some? {
        factory.SetMethod(m.value.methodName);
        factory.SetUrl(m.value.url);
        factory.SetVersion(m.value.version);
        r := Pass;
      } else {
        r := Fail(MalformedRequestLine);
      }
    }

    /**
     * `parse(in)`: resets the budget counter, finds the request line, parses
     * it into a fresh factory and returns the factory's request. The counter
     * stays within [0, MAX_REQUEST_LENGTH].
     */
    method Parse(input: CharReader) returns (r: Result<HttpRequest, ParseError>)
      requires input.Valid()
      modifies this, input
      ensures input.Valid()
      ensures r == ParseRequest(old(input.Rest()))
      ensures 0 <= charsConsumedSoFar <= MAX_REQUEST_LENGTH
    {
      charsConsumedSoFar := 0;
      ghost var first := FirstNonemptyLine(input.Rest(), 0);
      assert ParseRequest(input.Rest()) == ParseRequestFrom(first.result);
      var factory := HttpRequestFactory.Instance();
      var requestLine := GetFirstNonemptyLine(input);
      assert requestLine == first.result;
      match requestLine
      case EndOfStream =>
        return Failure(NoRequestLine);
      case Rejected(e) =>
        return Failure(e);
      case Line(l) =>
        var outcome := ParseRequestLine(factory, l);
        if outcome.Fail? {
          return Failure(outcome.error);
        }
        var request := factory.GetRequest();
        return Success(request);
    }
  }
}
