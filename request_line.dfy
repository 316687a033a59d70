/**
 * The request-line grammar of HttpRequestParser.java, written as a hand
 * tokenizer instead of the regular expression
 *   (\S+)[ \t]+(\S+)[ \t]+HTTP/(\S+)[ \t]*
 * matched against the whole line. It is a relaxed form of the Request-Line of
 * section 5.1 of RFC 2616: any runs of spaces and tabs separate the three
 * parts, trailing spaces and tabs are allowed, and leading ones are not.
 */
module RequestLines {
  import opened Wrappers
  import opened Text

  datatype RequestLine = RequestLine(methodName: string, url: string, version: string)

  /** `\S+`: one or more characters outside Java's `\s`. */
  predicate IsToken(s: string) {
    |s| > 0 && NoWhitespace(s)
  }

  /** `[ \t]*`: any run of spaces and tabs. */
  predicate IsLwsRun(s: string) {
    forall i :: 0 <= i < |s| ==> IsLws(s[i])
  }

  /** A line assembled from its parts: method, separator, url, separator, "HTTP/" version, trailer. */
  function Render(m: string, w1: string, u: string, w2: string, v: string, w3: string): string {
    m + (w1 + (u + (w2 + ("HTTP/" + (v + w3)))))
  }

  /** The parts of a line the regular expression accepts. */
  predicate WellFormed(m: string, w1: string, u: string, w2: string, v: string, w3: string) {
    && IsToken(m) && |w1| > 0 && IsLwsRun(w1)
    && IsToken(u) && |w2| > 0 && IsLwsRun(w2)
    && IsToken(v) && IsLwsRun(w3)
  }

  predicate NoWhitespace(s: string) {
    forall i :: 0 <= i < |s| ==> !IsWhitespace(s[i])
  }

  /** The greedy `\S*`: the longest non-whitespace prefix, and what follows it. */
  function SplitToken(s: string): (r: (string, string))
    ensures r.0 + r.1 == s
    ensures NoWhitespace(r.0)
    ensures r.1 == [] || IsWhitespace(r.1[0])
  {
    if s == [] || IsWhitespace(s[0]) then ([], s)
    else
      var (t, rest) := SplitToken(s[1..]);
      assert [s[0]] + t + rest == s;
      ([s[0]] + t, rest)
  }

  /** The greedy `[ \t]*`: the longest space/tab prefix, and what follows it. */
  function SplitLws(s: string): (r: (string, string))
    ensures r.0 + r.1 == s
    ensures IsLwsRun(r.0)
    ensures r.1 == [] || !IsLws(r.1[0])
  {
    if s == [] || !IsLws(s[0]) then ([], s)
    else
      var (w, rest) := SplitLws(s[1..]);
      assert [s[0]] + w + rest == s;
      ([s[0]] + w, rest)
  }

  /**
   * `parseRequestLine`'s match: the three captured groups when the whole
   * line matches, None when it does not (the source then throws). Each
   * greedy run is forced, because `\S` and `[ \t]` share no character.
   */
  function MatchRequestLine(line: string): Option<RequestLine> {
    var (m, r1) := SplitToken(line);
    var (w1, r2) := SplitLws(r1);
    var (u, r3) := SplitToken(r2);
    var (w2, r4) := SplitLws(r3);
    var (hv, w3) := SplitToken(r4);
    if |m| > 0 && |w1| > 0 && |u| > 0 && |w2| > 0 && |hv| > 5 && hv[..5] == "HTTP/" && IsLwsRun(w3)
    then Some(RequestLine(m, u, hv[5..]))
    else None
  }

  /** The greedy token split is the only one: a token followed by whitespace or nothing. */
  lemma {:induction false} SplitTokenOf(t: string, rest: string)
    requires NoWhitespace(t)
    requires rest == [] || IsWhitespace(rest[0])
    ensures SplitToken(t + rest) == (t, rest)
  {
    if t != [] {
      assert (t + rest)[1..] == t[1..] + rest;
      SplitTokenOf(t[1..], rest);
      assert [t[0]] + t[1..] == t;
    } else {
      assert t + rest == rest;
    }
  }

  /** The greedy space/tab split is the only one: a run followed by a non-separator or nothing. */
  lemma {:induction false} SplitLwsOf(w: string, rest: string)
    requires IsLwsRun(w)
    requires rest == [] || !IsLws(rest[0])
    ensures SplitLws(w + rest) == (w, rest)
  {
    if w != [] {
      assert (w + rest)[1..] == w[1..] + rest;
      SplitLwsOf(w[1..], rest);
      assert [w[0]] + w[1..] == w;
    } else {
      assert w + rest == rest;
    }
  }

  /** Every line built from well-formed parts is accepted, and the groups are exactly those parts. */
  lemma MatchComplete(m: string, w1: string, u: string, w2: string, v: string, w3: string)
    requires WellFormed(m, w1, u, w2, v, w3)
    ensures MatchRequestLine(Render(m, w1, u, w2, v, w3)) == Some(RequestLine(m, u, v))
  {
    var hv := "HTTP/" + v;
    assert NoWhitespace(hv) by {
      forall i | 0 <= i < |hv| ensures !IsWhitespace(hv[i]) {
        if i >= 5 { assert hv[i] == v[i - 5]; }
      }
    }
    var s4 := hv + w3;
    assert s4 == "HTTP/" + (v + w3);
    var s3 := w2 + s4;
    var s2 := u + s3;
    var s1 := w1 + s2;
    SplitTokenOf(m, s1);
    SplitLwsOf(w1, s2);
    SplitTokenOf(u, s3);
    SplitLwsOf(w2, s4);
    SplitTokenOf(hv, w3);
    assert hv[..5] == "HTTP/" && hv[5..] == v;
  }

  /** Every accepted line is built from well-formed parts, with the groups as method, url and version. */
  lemma MatchSound(line: string)
    requires MatchRequestLine(line).Some?
    ensures var rl := MatchRequestLine(line).value;
      exists w1, w2, w3 :: WellFormed(rl.methodName, w1, rl.url, w2, rl.version, w3)
        && Render(rl.methodName, w1, rl.url, w2, rl.version, w3) == line
  {
    var (m, r1) := SplitToken(line);
    var (w1, r2) := SplitLws(r1);
    var (u, r3) := SplitToken(r2);
    var (w2, r4) := SplitLws(r3);
    var (hv, w3) := SplitToken(r4);
    var v := hv[5..];
    assert hv == "HTTP/" + v;
    assert NoWhitespace(v) by {
      forall i | 0 <= i < |v| ensures !IsWhitespace(v[i]) {
        assert v[i] == hv[i + 5];
      }
    }
    assert r4 == "HTTP/" + (v + w3);
    assert WellFormed(m, w1, u, w2, v, w3);
    assert Render(m, w1, u, w2, v, w3) == line;
  }

  /** A line that begins with any whitespace is rejected. */
  lemma LeadingWhitespaceRejected(line: string)
    requires |line| > 0 && IsWhitespace(line[0])
    ensures MatchRequestLine(line) == None
  {
  }

  /** How many spaces or tabs separate the parts does not change what is extracted. */
  lemma SeparatorsIrrelevant(m: string, w1: string, u: string, w2: string, v: string, w3: string,
                             x1: string, x2: string, x3: string)
    requires WellFormed(m, w1, u, w2, v, w3) && WellFormed(m, x1, u, x2, v, x3)
    ensures MatchRequestLine(Render(m, w1, u, w2, v, w3)) == MatchRequestLine(Render(m, x1, u, x2, v, x3))
  {
    MatchComplete(m, w1, u, w2, v, w3);
    MatchComplete(m, x1, u, x2, v, x3);
  }
}
