/** String operations of Python's `str` that the services rely on:
    stripping characters from either end, joining, prefix tests,
    searching for a character and replacing every occurrence of a substring. */
module Text {

  /** Python's `str.isspace()` for one character, which is also what `\s`
      matches in a `str` regular expression and what `str.strip()` removes
      when called without arguments. */
  predicate IsSpace(c: char) {
    var n := c as int;
    || 9 <= n <= 13
    || 0x1c <= n <= 0x20
    || n == 0x85 || n == 0xa0 || n == 0x1680
    || 0x2000 <= n <= 0x200a
    || n == 0x2028 || n == 0x2029 || n == 0x202f || n == 0x205f || n == 0x3000
  }

  predicate StartsWith(s: string, prefix: string) {
    |prefix| <= |s| && s[..|prefix|] == prefix
  }

  /** `s.lstrip(chars)`: the longest suffix of `s` that does not start with a
      character `drop` accepts. */
  function TrimStart(s: string, drop: char -> bool): (r: string)
    ensures |r| <= |s| && r == s[|s| - |r|..]
    ensures forall k :: 0 <= k < |s| - |r| ==> drop(s[k])
    ensures r == [] || !drop(r[0])
    decreases |s|
  {
    if s != [] && drop(s[0]) then TrimStart(s[1..], drop) else s
  }

  /** `s.rstrip(chars)`: the longest prefix of `s` that does not end with a
      character `drop` accepts. */
  function TrimEnd(s: string, drop: char -> bool): (r: string)
    ensures |r| <= |s| && r == s[..|r|]
    ensures forall k :: |r| <= k < |s| ==> drop(s[k])
    ensures r == [] || !drop(r[|r| - 1])
    decreases |s|
  {
    if s != [] && drop(s[|s| - 1]) then TrimEnd(s[..|s| - 1], drop) else s
  }

  /** Every character of `s` from `lo` up to `hi` is one `drop` accepts. */
  predicate DroppedBetween(s: string, lo: int, hi: int, drop: char -> bool) {
    forall k :: lo <= k < hi && 0 <= k < |s| ==> drop(s[k])
  }

  /** `r` is the slice `s[i..j]`, and everything around it is dropped. */
  predicate StripAt(r: string, s: string, drop: char -> bool, i: int, j: int) {
    0 <= i <= j <= |s| && r == s[i..j] && DroppedBetween(s, 0, i, drop) && DroppedBetween(s, j, |s|, drop)
  }

  /** `r` is `s` with the characters `drop` accepts cut off both ends: a
      slice of `s` outside of which every character is dropped, and whose
      end characters are not. */
  ghost predicate StripOf(r: string, s: string, drop: char -> bool) {
    && (r == [] || (!drop(r[0]) && !drop(r[|r| - 1])))
    && exists i, j :: StripAt(r, s, drop, i, j)
  }

  /** At most one string is `s` stripped. */
  lemma StripOfUnique(r1: string, r2: string, s: string, drop: char -> bool)
    requires StripOf(r1, s, drop) && StripOf(r2, s, drop)
    ensures r1 == r2
  {
    var i1, j1 :| StripAt(r1, s, drop, i1, j1);
    var i2, j2 :| StripAt(r2, s, drop, i2, j2);
    if r1 != [] {
      assert s[i1] == r1[0] && s[j1 - 1] == r1[|r1| - 1];
      StripBounds(r2, s, drop, i2, j2, i1, j1);
    }
    if r2 != [] {
      assert s[i2] == r2[0] && s[j2 - 1] == r2[|r2| - 1];
      StripBounds(r1, s, drop, i1, j1, i2, j2);
    }
  }

  /** A kept character at `a` and one at `b - 1` lie inside every slice the
      strip can be taken at. */
  lemma StripBounds(r: string, s: string, drop: char -> bool, i: int, j: int, a: int, b: int)
    requires StripAt(r, s, drop, i, j)
    requires 0 <= a < b <= |s| && !drop(s[a]) && !drop(s[b - 1])
    ensures i <= a && b <= j
  {
  }

  /** `s.strip(chars)` */
  function Trim(s: string, drop: char -> bool): (r: string)
    ensures StripOf(r, s, drop)
  {
    var left := TrimStart(s, drop);
    var r := TrimEnd(left, drop);
    TrimIsStrip(s, left, r, drop);
    r
  }

  /** Stripping the front, then the back, leaves the slice `strip` takes. */
  lemma TrimIsStrip(s: string, left: string, r: string, drop: char -> bool)
    requires |left| <= |s| && left == s[|s| - |left|..]
    requires forall k :: 0 <= k < |s| - |left| ==> drop(s[k])
    requires left == [] || !drop(left[0])
    requires |r| <= |left| && r == left[..|r|]
    requires forall k :: |r| <= k < |left| ==> drop(left[k])
    requires r == [] || !drop(r[|r| - 1])
    ensures StripOf(r, s, drop)
  {
    var i := |s| - |left|;
    assert r == s[i..i + |r|];
    assert DroppedBetween(s, i + |r|, |s|, drop) by {
      forall k | i + |r| <= k < |s|
        ensures drop(s[k])
      {
        assert s[k] == left[k - i];
      }
    }
    assert r != [] ==> r[0] == left[0];
    assert StripAt(r, s, drop, i, i + |r|);
  }

  /** A string whose ends `drop` does not accept is left alone by `Trim`. */
  lemma TrimUnchanged(s: string, drop: char -> bool)
    requires s == [] || (!drop(s[0]) && !drop(s[|s| - 1]))
    ensures Trim(s, drop) == s
  {
  }

  /** Concatenation is associative. */
  lemma AppendAssociates<T>(a: seq<T>, b: seq<T>, c: seq<T>)
    ensures (a + b) + c == a + (b + c)
  {
  }

  /** `sep.join(parts)` */
  function Join(sep: string, parts: seq<string>): string
    decreases |parts|
  {
    if parts == [] then ""
    else if |parts| == 1 then parts[0]
    else parts[0] + sep + Join(sep, parts[1..])
  }

  /** Where part `k` starts in `sep.join(parts)`: the lengths of the parts
      before it, each followed by a separator. */
  function JoinOffset(sep: string, parts: seq<string>, k: nat): nat
    requires k < |parts|
  {
    if k == 0 then 0 else |parts[0]| + |sep| + JoinOffset(sep, parts[1..], k - 1)
  }

  /** Each part starts a part and a separator after the one before it. */
  lemma {:induction false} JoinOffsetStep(sep: string, parts: seq<string>, k: nat)
    requires k + 1 < |parts|
    ensures JoinOffset(sep, parts, k + 1) == JoinOffset(sep, parts, k) + |parts[k]| + |sep|
    decreases k
  {
    if k > 0 {
      JoinOffsetStep(sep, parts[1..], k - 1);
    }
  }

  /** From the offset of part `k` on, `sep.join(parts)` is the join of the
      parts from `k` on. */
  lemma {:induction false} JoinSuffix(sep: string, parts: seq<string>, k: nat)
    requires k < |parts|
    ensures JoinOffset(sep, parts, k) <= |Join(sep, parts)|
    ensures Join(sep, parts)[JoinOffset(sep, parts, k)..] == Join(sep, parts[k..])
    decreases k
  {
    if k == 0 {
      assert parts[0..] == parts;
    } else {
      var tail := parts[1..];
      JoinSuffix(sep, tail, k - 1);
      assert Join(sep, parts) == parts[0] + sep + Join(sep, tail);
      assert tail[k - 1..] == parts[k..];
    }
  }

  /** Every part sits in `sep.join(parts)` at its offset, and consecutive
      offsets are one part and one separator apart. */
  lemma JoinEmbedsParts(sep: string, parts: seq<string>)
    ensures forall k :: 0 <= k < |parts| ==>
      && JoinOffset(sep, parts, k) + |parts[k]| <= |Join(sep, parts)|
      && Join(sep, parts)[JoinOffset(sep, parts, k)..JoinOffset(sep, parts, k) + |parts[k]|] == parts[k]
    ensures forall k :: 0 <= k < |parts| - 1 ==>
      JoinOffset(sep, parts, k + 1) == JoinOffset(sep, parts, k) + |parts[k]| + |sep|
  {
    forall k | 0 <= k < |parts|
      ensures JoinOffset(sep, parts, k) + |parts[k]| <= |Join(sep, parts)|
      ensures Join(sep, parts)[JoinOffset(sep, parts, k)..JoinOffset(sep, parts, k) + |parts[k]|] == parts[k]
    {
      JoinPart(sep, parts, k);
    }
    forall k | 0 <= k < |parts| - 1
      ensures JoinOffset(sep, parts, k + 1) == JoinOffset(sep, parts, k) + |parts[k]| + |sep|
    {
      JoinOffsetStep(sep, parts, k);
    }
  }

  /** `sep.join(parts)` holds part `k` at its offset, followed by a separator
      unless it is the last part, and by nothing if it is. */
  lemma JoinPart(sep: string, parts: seq<string>, k: nat)
    requires k < |parts|
    ensures JoinOffset(sep, parts, k) + |parts[k]| <= |Join(sep, parts)|
    ensures Join(sep, parts)[JoinOffset(sep, parts, k)..JoinOffset(sep, parts, k) + |parts[k]|] == parts[k]
    ensures k + 1 < |parts| ==>
      && JoinOffset(sep, parts, k) + |parts[k]| + |sep| <= |Join(sep, parts)|
      && Join(sep, parts)[JoinOffset(sep, parts, k) + |parts[k]|..JoinOffset(sep, parts, k) + |parts[k]| + |sep|] == sep
    ensures k + 1 == |parts| ==> JoinOffset(sep, parts, k) + |parts[k]| == |Join(sep, parts)|
  {
    JoinSuffix(sep, parts, k);
    var o := JoinOffset(sep, parts, k);
    var whole := Join(sep, parts);
    var rest := parts[k..];
    var t := Join(sep, rest);
    assert whole[o..] == t;
    assert rest[0] == parts[k];
    var n := |parts[k]|;
    if |rest| > 1 {
      assert t == parts[k] + sep + Join(sep, rest[1..]);
      assert t[..n] == parts[k] && t[n..n + |sep|] == sep;
      SliceOfSuffix(whole, o, n + |sep|);
      SliceOfSuffix(whole, o, n);
      assert whole[o + n..o + n + |sep|] == t[n..n + |sep|];
    } else {
      assert t == parts[k];
      SliceOfSuffix(whole, o, n);
    }
  }

  lemma SliceOfSuffix(s: string, o: nat, n: nat)
    requires o + n <= |s|
    ensures s[o..o + n] == s[o..][..n]
    ensures forall m :: 0 <= m <= n ==> s[o + m..o + n] == s[o..][m..n]
  {
  }

  /** `s.rfind(c)`: the last index holding `c`, or -1. */
  function LastIndexOf(s: string, c: char): (r: int)
    ensures -1 <= r < |s|
    ensures r >= 0 ==> s[r] == c
    ensures forall k :: r < k < |s| ==> s[k] != c
    decreases |s|
  {
    if s == [] then -1
    else if s[|s| - 1] == c then |s| - 1
    else LastIndexOf(s[..|s| - 1], c)
  }

  /** `s.split(c)[0]`: everything before the first `c`. */
  function BeforeFirst(s: string, c: char): (r: string)
    ensures |r| <= |s| && r == s[..|r|]
    ensures forall k :: 0 <= k < |r| ==> r[k] != c
    ensures |r| < |s| ==> s[|r|] == c
    decreases |s|
  {
    if s == [] || s[0] == c then [] else [s[0]] + BeforeFirst(s[1..], c)
  }

  /** `s.replace(target, replacement)`: occurrences of `target` are found left
      to right without overlapping, and each is replaced by `replacement`. */
  function ReplaceAll(s: string, target: string, replacement: string): string
    requires target != []
    decreases |s|
  {
    if |s| < |target| then s
    else if s[..|target|] == target then replacement + ReplaceAll(s[|target|..], target, replacement)
    else [s[0]] + ReplaceAll(s[1..], target, replacement)
  }
}
