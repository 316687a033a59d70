/**
 * Character classes and string helpers used throughout the server: the
 * whitespace classes of the request-line grammar, ASCII case mapping (the
 * server only ever folds ASCII names and extensions), `indexOf` /
 * `lastIndexOf`, `String.trim` and decimal rendering of numbers.
 */
module Text {

  /** Java's regex class `\s`: space, tab, LF, VT, FF, CR. */
  predicate IsWhitespace(c: char) {
    c == ' ' || c == '\t' || c == '\n' || c == '\U{0B}' || c == '\U{0C}' || c == '\r'
  }

  /** Linear whitespace, the regex class `[ \t]`. */
  predicate IsLws(c: char) {
    c == ' ' || c == '\t'
  }

  /** An end-of-line marker character. */
  predicate IsEol(c: char) {
    c == '\r' || c == '\n'
  }

  /** A single line of text: no CR or LF anywhere in it. */
  predicate NoEol(s: string) {
    forall i :: 0 <= i < |s| ==> !IsEol(s[i])
  }

  function LowerChar(c: char): char {
    if 'A' <= c <= 'Z' then (c as int + 32) as char else c
  }

  function UpperChar(c: char): char {
    if 'a' <= c <= 'z' then (c as int - 32) as char else c
  }

  /** `String.toLowerCase`, restricted to ASCII letters. */
  function ToLower(s: string): (r: string)
    ensures |r| == |s|
    ensures forall i :: 0 <= i < |s| ==> r[i] == LowerChar(s[i])
  {
    seq(|s|, i requires 0 <= i < |s| => LowerChar(s[i]))
  }

  /** `String.toUpperCase`, restricted to ASCII letters. */
  function ToUpper(s: string): (r: string)
    ensures |r| == |s|
    ensures forall i :: 0 <= i < |s| ==> r[i] == UpperChar(s[i])
  {
    seq(|s|, i requires 0 <= i < |s| => UpperChar(s[i]))
  }

  /** Folding case twice is the same as folding once, in either direction. */
  lemma CaseFoldAbsorbs(s: string)
    ensures ToUpper(ToLower(s)) == ToUpper(s) && ToUpper(ToUpper(s)) == ToUpper(s)
    ensures ToLower(ToUpper(s)) == ToLower(s) && ToLower(ToLower(s)) == ToLower(s)
  {
  }

  /** `s.indexOf(c)`: the first position of `c`, or -1. */
  function IndexOf(s: string, c: char): (i: int)
    ensures -1 <= i < |s|
    ensures 0 <= i ==> s[i] == c
  {
    if |s| == 0 then -1
    else if s[0] == c then 0
    else
      var j := IndexOf(s[1..], c);
      if j == -1 then -1 else j + 1
  }

  /** -1 exactly when `c` is absent; otherwise the position found is the first one. */
  lemma {:induction false} IndexOfFirst(s: string, c: char)
    ensures IndexOf(s, c) == -1 <==> c !in s
    ensures forall k :: 0 <= k < IndexOf(s, c) ==> s[k] != c
  {
    if |s| > 0 && s[0] != c {
      IndexOfFirst(s[1..], c);
      assert s == [s[0]] + s[1..];
      forall k | 1 <= k < IndexOf(s, c) ensures s[k] != c {
        assert s[k] == s[1..][k - 1];
      }
    }
  }

  /** The text before the first `c` holds no `c`. */
  lemma IndexOfPrefixFree(s: string, c: char)
    requires IndexOf(s, c) != -1
    ensures c !in s[..IndexOf(s, c)]
  {
    IndexOfFirst(s, c);
    var i := IndexOf(s, c);
    forall k | 0 <= k < i ensures s[..i][k] != c {
      assert s[..i][k] == s[k];
    }
  }

  /** Searching a concatenation: a character absent from the first part is found in the second. */
  lemma IndexOfAppend(a: string, b: string, c: char)
    requires c !in a
    ensures IndexOf(a + b, c) == if IndexOf(b, c) == -1 then -1 else |a| + IndexOf(b, c)
  {
    var i := IndexOf(a + b, c);
    var j := IndexOf(b, c);
    IndexOfFirst(a + b, c);
    IndexOfFirst(b, c);
    if i != -1 {
      assert (a + b)[i] == c;
    }
    if j != -1 {
      assert (a + b)[|a| + j] == c;
    }
  }


  /** `s.lastIndexOf(c)`: the last position of `c`, or -1. */
  function LastIndexOf(s: string, c: char): (i: int)
    ensures -1 <= i < |s|
    ensures i == -1 <==> c !in s
    ensures 0 <= i ==> s[i] == c && c !in s[i + 1..]
  {
    if |s| == 0 then -1
    else if s[|s| - 1] == c then |s| - 1
    else
      var init := s[..|s| - 1];
      var j := LastIndexOf(init, c);
      assert s == init + [s[|s| - 1]];
      if j == -1 then -1
      else
        assert s[j + 1..] == init[j + 1..] + [s[|s| - 1]];
        j
  }

  /** A position holding `c` with no `c` after it is the last position of `c`. */
  lemma LastIndexOfAt(s: string, c: char, d: nat)
    requires d < |s| && s[d] == c && c !in s[d + 1..]
    ensures LastIndexOf(s, c) == d
  {
    var i := LastIndexOf(s, c);
    assert c in s;
  }

  /** `String.trim`: drops every character at or below U+0020 from both ends. */
  function Trim(s: string): (r: string)
    ensures |r| <= |s|
    ensures r == [] || (r[0] > ' ' && r[|r| - 1] > ' ')
    decreases |s|
  {
    if |s| > 0 && s[0] <= ' ' then Trim(s[1..])
    else if |s| > 0 && s[|s| - 1] <= ' ' then Trim(s[..|s| - 1])
    else s
  }

  predicate IsDigit(c: char) {
    '0' <= c <= '9'
  }

  function DigitChar(d: nat): char
    requires d < 10
  {
    ('0' as int + d) as char
  }

  /** `String.valueOf` of a non-negative number: its decimal digits. */
  function NatToString(n: nat): (r: string)
    ensures |r| > 0
    ensures forall i :: 0 <= i < |r| ==> IsDigit(r[i])
    ensures r[0] == '0' ==> n == 0 && r == "0"
  {
    if n < 10 then [DigitChar(n)] else NatToString(n / 10) + [DigitChar(n % 10)]
  }

  /** `String.valueOf` of a `long`: a minus sign before the digits of a negative number. */
  function IntToString(n: int): string {
    if n < 0 then "-" + NatToString(-n) else NatToString(n)
  }

  /** Reads a string of decimal digits back as a number. */
  function DecimalValue(s: string): nat
    requires forall i :: 0 <= i < |s| ==> IsDigit(s[i])
  {
    if s == [] then 0
    else
      var last := s[|s| - 1];
      assert IsDigit(last);
      10 * DecimalValue(s[..|s| - 1]) + (last as int - '0' as int)
  }

  /** Decimal rendering loses nothing: reading the digits back gives the number. */
  lemma {:induction false} DecimalRoundTrip(n: nat)
    ensures DecimalValue(NatToString(n)) == n
  {
    if n >= 10 {
      var s := NatToString(n);
      assert s[..|s| - 1] == NatToString(n / 10);
      DecimalRoundTrip(n / 10);
    }
  }

  /** Distinct numbers have distinct renderings. */
  lemma NatToStringInjective(a: nat, b: nat)
    requires NatToString(a) == NatToString(b)
    ensures a == b
  {
    DecimalRoundTrip(a);
    DecimalRoundTrip(b);
  }

  lemma DropTwice<T>(s: seq<T>, a: nat, b: nat)
    requires a + b <= |s|
    ensures s[a..][b..] == s[a + b..]
  {
  }

  lemma AppendAssoc<T>(a: seq<T>, b: seq<T>, c: seq<T>)
    ensures a + b + c == a + (b + c)
  {
  }

  /** Text written line by line, each line followed by the line separator `eol`. */
  function JoinLines(lines: seq<string>, eol: string): string {
    if lines == [] then [] else lines[0] + eol + JoinLines(lines[1..], eol)
  }

  lemma {:induction false} JoinLinesAppend(lines: seq<string>, line: string, eol: string)
    ensures JoinLines(lines + [line], eol) == JoinLines(lines, eol) + line + eol
  {
    if lines == [] {
      assert JoinLines([line], eol) == line + eol + JoinLines([], eol);
    } else {
      assert (lines + [line])[1..] == lines[1..] + [line];
      JoinLinesAppend(lines[1..], line, eol);
    }
  }

  lemma JoinLinesPrepend(line: string, lines: seq<string>, eol: string)
    ensures JoinLines([line] + lines, eol) == line + eol + JoinLines(lines, eol)
  {
    assert ([line] + lines)[1..] == lines;
  }

  /**
   * How a reader splits text into lines: each line ends at the first
   * character of the separator, and the whole separator is skipped.
   */
  function SplitLines(s: string, eol: string): seq<string>
    requires |eol| > 0
    decreases |s|
  {
    if s == [] then []
    else
      var i := IndexOf(s, eol[0]);
      if i == -1 then [s]
      else [s[..i]] + SplitLines(s[Min(i + |eol|, |s|)..], eol)
  }

  function Min(a: int, b: int): int {
    if a < b then a else b
  }

  /** Lines that do not contain the separator's first character are read back exactly as written. */
  lemma {:induction false} SplitJoinLines(lines: seq<string>, eol: string)
    requires |eol| > 0
    requires forall k :: 0 <= k < |lines| ==> eol[0] !in lines[k]
    ensures SplitLines(JoinLines(lines, eol), eol) == lines
  {
    if lines != [] {
      var rest := JoinLines(lines[1..], eol);
      SplitFirstLine(lines[0], rest, eol);
      SplitJoinLines(lines[1..], eol);
    }
  }

  /** A line free of the separator's first character, then the separator: that line comes off first. */
  lemma SplitFirstLine(l: string, rest: string, eol: string)
    requires |eol| > 0 && eol[0] !in l
    ensures SplitLines(l + eol + rest, eol) == [l] + SplitLines(rest, eol)
  {
    var s := l + eol + rest;
    AppendAssoc(l, eol, rest);
    assert (eol + rest)[0] == eol[0];
    IndexOfAppend(l, eol + rest, eol[0]);
    assert s[..|l|] == l;
    assert s[|l| + |eol|..] == rest;
  }
}
