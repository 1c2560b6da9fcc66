/**
 * The functions of Go's `strings` package that the sender uses, on strings
 * seen as sequences of Unicode characters.
 */
module GoStrings {

  /**
   * unicode.IsSpace: the characters with Unicode's White_Space property
   * (the ASCII controls TAB, LF, VT, FF, CR and SPACE, plus NEL, NBSP,
   * OGHAM SPACE MARK, the spaces U+2000 to U+200A, LINE and PARAGRAPH
   * SEPARATOR, NARROW NBSP, MEDIUM MATHEMATICAL SPACE and IDEOGRAPHIC SPACE).
   */
  predicate IsSpace(c: char) {
    var n := c as int;
    (0x09 <= n <= 0x0D) || n == 0x20 || n == 0x85 || n == 0xA0 || n == 0x1680 ||
    (0x2000 <= n <= 0x200A) || n == 0x2028 || n == 0x2029 || n == 0x202F ||
    n == 0x205F || n == 0x3000
  }

  /** Every character of `s` is white space (the empty string included). */
  predicate IsBlank(s: string) {
    forall i :: 0 <= i < |s| ==> IsSpace(s[i])
  }

  /** The end of the run of white space that starts at `i`. */
  function SpaceEnd(s: string, i: nat): (j: nat)
    requires i <= |s|
    ensures i <= j <= |s|
    ensures forall k :: i <= k < j ==> IsSpace(s[k])
    ensures j == |s| || !IsSpace(s[j])
    decreases |s| - i
  {
    if i == |s| || !IsSpace(s[i]) then i else SpaceEnd(s, i + 1)
  }

  /** The start of the run of white space that ends at `j`, going no lower than `lo`. */
  function SpaceStart(s: string, lo: nat, j: nat): (i: nat)
    requires lo <= j <= |s|
    ensures lo <= i <= j
    ensures forall k :: i <= k < j ==> IsSpace(s[k])
    ensures i == lo || !IsSpace(s[i - 1])
  {
    if j == lo || !IsSpace(s[j - 1]) then j else SpaceStart(s, lo, j - 1)
  }

  /**
   * strings.TrimSpace: `s` without its leading and trailing white space.
   * The result is a slice of `s` with only white space before and after it
   * that neither starts nor ends with white space; it is empty exactly when
   * `s` is blank.
   */
  function TrimSpace(s: string): (r: string)
    ensures var p := SpaceEnd(s, 0);
      p + |r| <= |s| && IsBlank(s[..p]) && r == s[p..p + |r|] && IsBlank(s[p + |r|..])
    ensures r != [] ==> !IsSpace(r[0]) && !IsSpace(r[|r| - 1])
    ensures r == [] <==> IsBlank(s)
  {
    var p := SpaceEnd(s, 0);
    var q := SpaceStart(s, p, |s|);
    TrimSpaceSlice(s, p, q);
    s[p..q]
  }

  /** What the two scans of TrimSpace establish about the slice they cut. */
  lemma TrimSpaceSlice(s: string, p: nat, q: nat)
    requires p <= q <= |s|
    requires forall k :: 0 <= k < p ==> IsSpace(s[k])
    requires p == |s| || !IsSpace(s[p])
    requires forall k :: q <= k < |s| ==> IsSpace(s[k])
    requires q == p || !IsSpace(s[q - 1])
    ensures var r := s[p..q];
      p + |r| <= |s| && IsBlank(s[..p]) && r == s[p..p + |r|] && IsBlank(s[p + |r|..])
    ensures var r := s[p..q]; r != [] ==> !IsSpace(r[0]) && !IsSpace(r[|r| - 1])
    ensures s[p..q] == [] <==> IsBlank(s)
  {
    assert p + |s[p..q]| == q;
    assert forall k :: 0 <= k < p ==> s[..p][k] == s[k];
    assert forall k :: 0 <= k < |s| - q ==> s[q..][k] == s[q + k];

  }

  /** strings.HasPrefix. */
  predicate HasPrefix(s: string, prefix: string) {
    |prefix| <= |s| && s[..|prefix|] == prefix
  }

  /** strings.IndexByte for one character: the first position of `c` in `s`, or -1. */
  function IndexOf(s: string, c: char): (k: int)
    ensures -1 <= k < |s|
    ensures k == -1 <==> c !in s
    ensures 0 <= k ==> s[k] == c && c !in s[..k]
  {
    if s == [] then -1
    else if s[0] == c then 0
    else
      var k := IndexOf(s[1..], c);
      if k == -1 then -1
      else
        assert s[..k + 1] == [s[0]] + s[1..][..k];
        k + 1
  }

  /**
   * strings.Replace(s, string(c), "", 1): `s` with the first occurrence of `c`
   * removed, or `s` itself when `c` does not occur.
   */
  function RemoveFirst(s: string, c: char): (r: string)
    ensures IndexOf(s, c) == -1 ==> r == s
    ensures IndexOf(s, c) >= 0 ==> r == s[..IndexOf(s, c)] + s[IndexOf(s, c) + 1..]
  {
    if s == [] then []
    else if s[0] == c then s[1..]
    else
      var rest := RemoveFirst(s[1..], c);
      RemoveFirstStep(s, c, IndexOf(s[1..], c), rest);
      [s[0]] + rest
  }

  /** Putting back a head that is not `c` in front of the tail with `c` removed. */
  lemma RemoveFirstStep(s: string, c: char, k: int, rest: string)
    requires s != [] && s[0] != c && k == IndexOf(s[1..], c)
    requires k == -1 ==> rest == s[1..]
    requires k >= 0 ==> rest == s[1..][..k] + s[1..][k + 1..]
    ensures IndexOf(s, c) == -1 ==> [s[0]] + rest == s
    ensures IndexOf(s, c) >= 0 ==> [s[0]] + rest == s[..IndexOf(s, c)] + s[IndexOf(s, c) + 1..]
  {
    if k == -1 {
      assert s == [s[0]] + s[1..];
    } else {
      ConsRemoved(s, k, rest);
    }
  }

  /** Deleting position `k + 1` of `s` is deleting position `k` of its tail, behind the head. */
  lemma ConsRemoved(s: string, k: nat, rest: string)
    requires k + 1 < |s| && rest == s[1..][..k] + s[1..][k + 1..]
    ensures [s[0]] + rest == s[..k + 1] + s[k + 2..]
  {
    assert s[..k + 1] == [s[0]] + s[1..][..k];
    assert s[k + 2..] == s[1..][k + 1..];
  }

  /** strings.Join. */
  function Join(elems: seq<string>, sep: string): (r: string)
    ensures |elems| == 1 ==> r == elems[0]
  {
    if |elems| == 0 then []
    else if |elems| == 1 then elems[0]
    else elems[0] + sep + Join(elems[1..], sep)
  }

  /**
   * strings.Split(s, string(sep)): the pieces of `s` between occurrences of
   * `sep`. It always has at least one piece, and no piece contains `sep`.
   */
  function Split(s: string, sep: char): (r: seq<string>)
    ensures |r| >= 1
    ensures forall i :: 0 <= i < |r| ==> sep !in r[i]
    decreases |s|
  {
    var k := IndexOf(s, sep);
    if k == -1 then [s] else [s[..k]] + Split(s[k + 1..], sep)
  }

  /** A character occurs in a join only if it occurs in the separator or in an element. */
  lemma {:induction false} NotInJoin(elems: seq<string>, sep: string, c: char)
    requires c !in sep
    requires forall i :: 0 <= i < |elems| ==> c !in elems[i]
    ensures c !in Join(elems, sep)
  {
    if |elems| > 1 {
      NotInJoin(elems[1..], sep, c);
    }
  }

  lemma {:induction false} IndexOfConcat(x: string, c: char, y: string)
    requires c !in x
    ensures IndexOf(x + [c] + y, c) == |x|
  {
    var s := x + [c] + y;
    var k := IndexOf(s, c);
    assert s[|x|] == c;
  }

  /** Splitting at the first separator. */
  lemma SplitAtFirst(x: string, sep: char, rest: string)
    requires sep !in x
    ensures Split(x + [sep] + rest, sep) == [x] + Split(rest, sep)
  {
    var s := x + [sep] + rest;
    IndexOfConcat(x, sep, rest);
    assert s[..|x|] == x;
    assert s[|x| + 1..] == rest;
  }

  /** Splitting a join recovers the elements when none of them contains the separator. */
  lemma {:induction false} SplitJoin(elems: seq<string>, sep: char)
    requires |elems| >= 1
    requires forall i :: 0 <= i < |elems| ==> sep !in elems[i]
    ensures Split(Join(elems, [sep]), sep) == elems
  {
    if |elems| > 1 {
      var rest := Join(elems[1..], [sep]);
      assert Join(elems, [sep]) == elems[0] + [sep] + rest;
      SplitAtFirst(elems[0], sep, rest);
      SplitJoin(elems[1..], sep);
      assert elems == [elems[0]] + elems[1..];
    }
  }
}
