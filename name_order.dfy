/**
 * The order in which a directory listing shows entries: `File.compareTo`
 * on two children of one directory compares their names character by
 * character, a proper prefix first, and `Collections.sort` arranges a list
 * ascending in that order. The sort is a library call; here it is an
 * insertion sort, proved to give an ascending permutation of its input.
 */
module NameOrder {

  /** Lexicographic order on names: `a.compareTo(b) <= 0`. */
  predicate NameLessEq(a: string, b: string) {
    a == [] || (b != [] && (a[0] < b[0] || (a[0] == b[0] && NameLessEq(a[1..], b[1..]))))
  }

  lemma {:induction false} NameLessEqTotal(a: string, b: string)
    ensures NameLessEq(a, b) || NameLessEq(b, a)
  {
    if a != [] && b != [] && a[0] == b[0] {
      NameLessEqTotal(a[1..], b[1..]);
    }
  }

  lemma {:induction false} NameLessEqTransitive(a: string, b: string, c: string)
    requires NameLessEq(a, b) && NameLessEq(b, c)
    ensures NameLessEq(a, c)
  {
    if a != [] && b != [] && c != [] && a[0] == b[0] == c[0] {
      NameLessEqTransitive(a[1..], b[1..], c[1..]);
    }
  }

  lemma {:induction false} NameLessEqAntisymmetric(a: string, b: string)
    requires NameLessEq(a, b) && NameLessEq(b, a)
    ensures a == b
  {
    if a != [] {
      NameLessEqAntisymmetric(a[1..], b[1..]);
      assert a == [a[0]] + a[1..] && b == [b[0]] + b[1..];
    }
  }

  predicate Ascending(s: seq<string>) {
    forall i, j :: 0 <= i < j < |s| ==> NameLessEq(s[i], s[j])
  }

  /** Puts `x` into an ascending list before the first name not below it. */
  function Insert(x: string, s: seq<string>): (r: seq<string>)
    ensures multiset(r) == multiset(s) + multiset{x}
  {
    if s == [] then [x]
    else if NameLessEq(x, s[0]) then [x] + s
    else
      assert s == [s[0]] + s[1..];
      [s[0]] + Insert(x, s[1..])
  }

  lemma {:induction false} InsertAscending(x: string, s: seq<string>)
    requires Ascending(s)
    ensures Ascending(Insert(x, s))
  {
    if s != [] {
      if NameLessEq(x, s[0]) {
        var r := [x] + s;
        forall i, j | 0 <= i < j < |r| ensures NameLessEq(r[i], r[j]) {
          if i == 0 && j > 1 { NameLessEqTransitive(x, s[0], s[j - 1]); }
        }
      } else {
        NameLessEqTotal(x, s[0]);
        var tail := Insert(x, s[1..]);
        InsertAscending(x, s[1..]);
        var r := [s[0]] + tail;
        forall i, j | 0 <= i < j < |r| ensures NameLessEq(r[i], r[j]) {
          if i == 0 {
            var y := r[j];
            assert y in multiset(tail);
            assert y == x || y in multiset(s[1..]);
            if y != x {
              var k :| 1 <= k < |s| && s[k] == y by {
                assert y in s[1..];
              }
            }
          }
        }
      }
    }
  }

  /** `Collections.sort` on a list of names. */
  function Sort(s: seq<string>): seq<string> {
    if s == [] then [] else Insert(s[0], Sort(s[1..]))
  }

  /** The sort yields the same names, ascending. */
  lemma {:induction false} SortSpec(s: seq<string>)
    ensures Ascending(Sort(s))
    ensures multiset(Sort(s)) == multiset(s)
  {
    if s != [] {
      SortSpec(s[1..]);
      InsertAscending(s[0], Sort(s[1..]));
      assert s == [s[0]] + s[1..];
    }
  }

  /** Ascending order leaves no choice: two ascending lists of the same names are equal. */
  lemma {:induction false} AscendingUnique(a: seq<string>, b: seq<string>)
    requires Ascending(a) && Ascending(b) && multiset(a) == multiset(b)
    ensures a == b
    decreases |a|
  {
    assert |a| == |multiset(a)| == |b|;
    if a != [] {
      SameHead(a, b);
      MultisetTail(a, b);
      AscendingTail(a);
      AscendingTail(b);
      AscendingUnique(a[1..], b[1..]);
      assert a == [a[0]] + a[1..] && b == [b[0]] + b[1..];
    }
  }

  /** Two ascending lists of the same names start with the same name. */
  lemma SameHead(a: seq<string>, b: seq<string>)
    requires Ascending(a) && Ascending(b) && multiset(a) == multiset(b) && a != [] && b != []
    ensures a[0] == b[0]
  {
    assert a[0] in multiset(b) && b[0] in multiset(a);
    var i :| 0 <= i < |b| && b[i] == a[0];
    var j :| 0 <= j < |a| && a[j] == b[0];
    if a[0] != b[0] {
      assert NameLessEq(b[0], b[i]) && NameLessEq(a[0], a[j]);
      NameLessEqAntisymmetric(a[0], b[0]);
    }
  }

  lemma MultisetTail(a: seq<string>, b: seq<string>)
    requires multiset(a) == multiset(b) && a != [] && b != [] && a[0] == b[0]
    ensures multiset(a[1..]) == multiset(b[1..])
  {
    assert a == [a[0]] + a[1..] && b == [b[0]] + b[1..];
    assert multiset(a) == multiset{a[0]} + multiset(a[1..]);
    assert multiset(b) == multiset{b[0]} + multiset(b[1..]);
    assert multiset(a[1..]) == multiset(a) - multiset{a[0]};
    assert multiset(b[1..]) == multiset(b) - multiset{b[0]};
  }

  lemma AscendingTail(s: seq<string>)
    requires Ascending(s) && s != []
    ensures Ascending(s[1..])
  {
    forall i, j | 0 <= i < j < |s| - 1 ensures NameLessEq(s[1..][i], s[1..][j]) {
      assert s[1..][i] == s[i + 1] && s[1..][j] == s[j + 1];
    }
  }
}
