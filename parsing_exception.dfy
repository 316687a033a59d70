/** The reasons a `ParsingException` is thrown while a request is read (ParsingException.java). */
module ParsingErrors {

  datatype ParseError =
    | LengthExceeded        // more characters than the remaining budget
    | NoEolMarker           // no CR or LF among the characters read
    | MalformedRequestLine  // the request line does not have the required shape
    | NoRequestLine         // end of stream before any non-empty line
}
