/**
 * The stream objects the core reads from and writes to, with the sockets and
 * files behind them replaced by fixed contents: a `BufferedReader` over the
 * request text (read returns min(n, remaining) characters, as the reader
 * over a `StringReader` does), an `InputStream` over bytes, and the
 * socket's `OutputStream` as a growing byte sequence.
 */
module Streams {
  import opened Utf8
  import opened Text

  /** A `BufferedReader` with a cursor and one mark. */
  class CharReader {
    const text: string
    var pos: nat
    var markPos: nat
    var markLimit: int  // -1 while no mark is set

    ghost predicate Valid()
      reads this
    {
      markPos <= pos <= |text|
    }

    /** What is still unread. */
    function Rest(): string
      reads this
      requires Valid()
    {
      text[pos..]
    }

    constructor (t: string)
      ensures Valid() && text == t && pos == 0 && markLimit == -1
    {
      text := t;
      pos, markPos, markLimit := 0, 0, -1;
    }

    /** `mark(readAheadLimit)`. */
    method Mark(readAheadLimit: nat)
      requires Valid()
      modifies this
      ensures Valid() && pos == old(pos) && markPos == pos && markLimit == readAheadLimit
    {
      markPos, markLimit := pos, readAheadLimit;
    }

    /**
     * `read(buffer, 0, len)`: -1 at end of stream, otherwise the number of
     * characters copied into the front of the buffer, min(len, remaining).
     */
    method Read(buffer: array<char>, len: nat) returns (n: int)
      requires Valid() && len <= buffer.Length
      modifies this, buffer
      ensures Valid() && markPos == old(markPos) && markLimit == old(markLimit)
      ensures 0 < len && old(pos) == |text| ==> n == -1 && pos == old(pos) && buffer[..] == old(buffer[..])
      ensures !(0 < len && old(pos) == |text|) ==>
        && n == Min(len, |text| - old(pos))
        && pos == old(pos) + n
        && buffer[..n] == text[old(pos)..pos]
        && buffer[n..] == old(buffer[n..])
    {
      if len == 0 {
        return 0;
      }
      if pos == |text| {
        return -1;
      }
      n := Min(len, |text| - pos);
      forall k | 0 <= k < n {
        buffer[k] := text[pos + k];
      }
      pos := pos + n;
    }

    /** `reset()`: back to the mark, which must still be valid. */
    method Reset()
      requires Valid() && 0 <= markLimit && pos - markPos <= markLimit
      modifies this
      ensures Valid() && pos == old(markPos) && markPos == old(markPos) && markLimit == old(markLimit)
    {
      pos := markPos;
    }
  }

  /** An `InputStream` over a file's or a generated page's bytes. */
  class ByteSource {
    const data: seq<byte>
    var pos: nat
    var closed: bool

    ghost predicate Valid()
      reads this
    {
      pos <= |data|
    }

    function Rest(): seq<byte>
      reads this
      requires Valid()
    {
      data[pos..]
    }

    constructor (d: seq<byte>)
      ensures Valid() && data == d && pos == 0 && !closed
    {
      data := d;
      pos, closed := 0, false;
    }

    /** `read(buffer)`: -1 at end of stream, otherwise min(buffer.Length, remaining) bytes. */
    method Read(buffer: array<byte>) returns (n: int)
      requires Valid() && buffer.Length > 0
      modifies this, buffer
      ensures Valid() && closed == old(closed)
      ensures old(pos) == |data| ==> n == -1 && pos == old(pos)
      ensures old(pos) < |data| ==>
        && n == Min(buffer.Length, |data| - old(pos))
        && pos == old(pos) + n
        && buffer[..n] == data[old(pos)..pos]
    {
      if pos == |data| {
        return -1;
      }
      n := Min(buffer.Length, |data| - pos);
      forall k | 0 <= k < n {
        buffer[k] := data[pos + k];
      }
      pos := pos + n;
    }

    method Close()
      modifies this
      ensures closed && pos == old(pos)
    {
      closed := true;
    }
  }

  /** The socket's `OutputStream`: everything written so far, and whether it is closed. */
  class ByteSink {
    var written: seq<byte>
    var closed: bool

    constructor ()
      ensures written == [] && !closed
    {
      written, closed := [], false;
    }

    /** `write(buffer, 0, len)`. */
    method Write(buffer: array<byte>, len: nat)
      requires len <= buffer.Length
      modifies this
      ensures written == old(written) + buffer[..len] && closed == old(closed)
    {
      written := written + buffer[..len];
    }

    /** `PrintStream.print(s)` over this stream: the text's bytes in the platform charset. */
    method Print(s: string)
      modifies this
      ensures written == old(written) + Encode(s) && closed == old(closed)
    {
      written := written + Encode(s);
    }

    method Close()
      modifies this
      ensures closed && written == old(written)
    {
      closed := true;
    }
  }
}
