/** The status codes the server can answer with (ResponseCode.java). */
module ResponseCodes {
  import opened Wrappers
  import opened Text

  datatype ResponseCode =
    | SUCCESS_200
    | REDIRECTION_304
    | ERROR_400
    | ERROR_404
    | ERROR_405
    | ERROR_406
    | SERVER_500
    | SERVER_501
    | SERVER_505

  function Number(c: ResponseCode): nat {
    match c
    case SUCCESS_200 => 200
    case REDIRECTION_304 => 304
    case ERROR_400 => 400
    case ERROR_404 => 404
    case ERROR_405 => 405
    case ERROR_406 => 406
    case SERVER_500 => 500
    case SERVER_501 => 501
    case SERVER_505 => 505
  }

  function Description(c: ResponseCode): string {
    match c
    case SUCCESS_200 => "OK"
    case REDIRECTION_304 => "Not Modified"
    case ERROR_400 => "Bad Request"
    case ERROR_404 => "File not Found"
    case ERROR_405 => "Method not Allowed"
    case ERROR_406 => "Not Acceptable"
    case SERVER_500 => "Internal Server Error"
    case SERVER_501 => "Not Implemented"
    case SERVER_505 => "HTTP Version not Supported"
  }

  /** Descriptions are single lines: no CR or LF in any of them. */
  lemma DescriptionHasNoEol(c: ResponseCode)
    ensures NoEol(Description(c))
  {
    match c
    case SUCCESS_200 => assert NoEol("OK");
    case REDIRECTION_304 => assert NoEol("Not Modified");
    case ERROR_400 => assert NoEol("Bad Request");
    case ERROR_404 => assert NoEol("File not Found");
    case ERROR_405 => assert NoEol("Method not Allowed");
    case ERROR_406 => assert NoEol("Not Acceptable");
    case SERVER_500 => assert NoEol("Internal Server Error");
    case SERVER_501 => assert NoEol("Not Implemented");
    case SERVER_505 => assert NoEol("HTTP Version not Supported");
  }

  /** The constants named ERROR_ are the client errors. */
  predicate IsClientError(c: ResponseCode) {
    c.ERROR_400? || c.ERROR_404? || c.ERROR_405? || c.ERROR_406?
  }

  /** The constants named SERVER_ are the server errors. */
  predicate IsServerError(c: ResponseCode) {
    c.SERVER_500? || c.SERVER_501? || c.SERVER_505?
  }

  /** The code with a given number, if the catalog has one. */
  function CodeOfNumber(n: nat): (r: Option<ResponseCode>)
    ensures r.Some? ==> Number(r.value) == n
  {
    if n == 200 then Some(SUCCESS_200)
    else if n == 304 then Some(REDIRECTION_304)
    else if n == 400 then Some(ERROR_400)
    else if n == 404 then Some(ERROR_404)
    else if n == 405 then Some(ERROR_405)
    else if n == 406 then Some(ERROR_406)
    else if n == 500 then Some(SERVER_500)
    else if n == 501 then Some(SERVER_501)
    else if n == 505 then Some(SERVER_505)
    else None
  }

  /** Numbering loses nothing: every code is found again from its number, so numbers are pairwise distinct. */
  lemma CodeOfNumberRoundTrip(c: ResponseCode)
    ensures CodeOfNumber(Number(c)) == Some(c)
  {
  }

  lemma NumbersDistinct(c: ResponseCode, d: ResponseCode)
    requires c != d
    ensures Number(c) != Number(d)
  {
    CodeOfNumberRoundTrip(c);
    CodeOfNumberRoundTrip(d);
  }

  /** The class of a code, read off its number, agrees with its name. */
  lemma StatusClasses(c: ResponseCode)
    ensures IsClientError(c) <==> 400 <= Number(c) < 500
    ensures IsServerError(c) <==> 500 <= Number(c) < 600
    ensures c == SUCCESS_200 <==> 200 <= Number(c) < 300
  {
  }

  /** `toString()`: the number in decimal, a space, the description. */
  function ToString(c: ResponseCode): (s: string)
    ensures |s| == 4 + |Description(c)|
    ensures forall i :: 0 <= i < 3 ==> IsDigit(s[i])
    ensures s[3] == ' ' && s[4..] == Description(c)
  {
    var n := NatToString(Number(c));
    assert |n| == 3 by { DigitsOfThreeDigitNumber(Number(c)); }
    n + " " + Description(c)
  }

  lemma DigitsOfThreeDigitNumber(n: nat)
    requires 100 <= n < 1000
    ensures |NatToString(n)| == 3
  {
    assert 10 <= n / 10 < 100 && 1 <= n / 100 < 10;
    assert |NatToString(n / 100)| == 1;
    assert |NatToString(n / 10)| == 2;
  }

  /** The status text gives back the number it was made from. */
  lemma {:induction false} ToStringNumber(c: ResponseCode)
    ensures DecimalValue(ToString(c)[..3]) == Number(c)
  {
    DigitsOfThreeDigitNumber(Number(c));
    assert ToString(c)[..3] == NatToString(Number(c));
    DecimalRoundTrip(Number(c));
  }

  /** Distinct codes are rendered as distinct status texts. */
  lemma ToStringInjective(c: ResponseCode, d: ResponseCode)
    requires ToString(c) == ToString(d)
    ensures c == d
  {
    ToStringNumber(c);
    ToStringNumber(d);
    CodeOfNumberRoundTrip(c);
    CodeOfNumberRoundTrip(d);
  }
}
