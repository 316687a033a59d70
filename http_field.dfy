/** One header line of a response (HttpField.java). */
module HttpFields {
  import opened Wrappers
  import opened Text

  /** A header field; both parts are fixed at construction. */
  datatype HttpField = HttpField(name: string, value: string)

  /** `toString()`: the field as a header line, name and value separated by ": ". */
  function ToString(f: HttpField): (line: string)
    ensures |line| == |f.name| + 2 + |f.value|
    ensures line[..|f.name|] == f.name
    ensures line[|f.name|..|f.name| + 2] == ": "
    ensures line[|f.name| + 2..] == f.value
  {
    f.name + ": " + f.value
  }

  /**
   * How a receiver reads a header line back: the name is everything
   * before the first ':', which must be followed by a space; the value is
   * everything after that space.
   */
  function SplitField(line: string): (r: Option<HttpField>)
    ensures r.Some? ==> ':' !in r.value.name && ToString(r.value) == line
  {
    var i := IndexOf(line, ':');
    if i == -1 || i + 1 == |line| || line[i + 1] != ' ' then None
    else
      IndexOfFirst(line, ':');
      var f := HttpField(line[..i], line[i + 2..]);
      assert ToString(f) == line[..i] + line[i..i + 2] + line[i + 2..];
      assert line[..i] + line[i..i + 2] + line[i + 2..] == line;
      Some(f)
  }

  /** A field whose name has no ':' survives the round trip through its header line. */
  lemma SplitFieldOfToString(f: HttpField)
    requires ':' !in f.name
    ensures SplitField(ToString(f)) == Some(f)
  {
    var line := ToString(f);
    assert line[|f.name|] == ':';
    assert line[..|f.name|] == f.name;
    IndexOfFirst(line, ':');
    assert IndexOf(line, ':') == |f.name|;
  }
}
