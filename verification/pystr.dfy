/**
 Models of the Python `str` operations the phrase-file reader is built on:
 the substring test `sub in s`, `s.find(sub, start)`, `s.split(sep)` and
 `s.strip()`. A string is a sequence of Unicode scalar values.
 */
module PyStr {

  /** Python's whitespace test, `c.isspace()`: the characters `str.strip()`
      removes when called without arguments. */
  predicate IsSpace(c: char) {
    || '\t' <= c <= '\r'
    || '\U{1C}' <= c <= ' '
    || c == '\U{85}'
    || c == '\U{A0}'
    || c == '\U{1680}'
    || '\U{2000}' <= c <= '\U{200A}'
    || c == '\U{2028}'
    || c == '\U{2029}'
    || c == '\U{202F}'
    || c == '\U{205F}'
    || c == '\U{3000}'
  }

  /** Every character of `s` belongs to the class `drop`. */
  predicate AllIn(s: string, drop: char -> bool) {
    forall k :: 0 <= k < |s| ==> drop(s[k])
  }

  /** `s` neither starts nor ends with a character of `drop` (the empty string qualifies). */
  predicate TrimmedOf(s: string, drop: char -> bool) {
    |s| == 0 || (!drop(s[0]) && !drop(s[|s| - 1]))
  }

  /** `s` neither starts nor ends with whitespace. */
  predicate IsStripped(s: string) {
    TrimmedOf(s, IsSpace)
  }

  /** `sub` occurs in `s` starting at index `i`. */
  predicate OccursAt(s: string, sub: string, i: int) {
    0 <= i && i + |sub| <= |s| && s[i..i + |sub|] == sub
  }

  /** Python's `sub in s`. */
  predicate Contains(s: string, sub: string) {
    exists i :: 0 <= i <= |s| && OccursAt(s, sub, i)
  }

  /** Python's `s.find(sub, start)`: the least index at or after `start`
      where `sub` occurs, or -1 when there is none. */
  function Find(s: string, sub: string, start: nat): (r: int)
    requires start <= |s|
    ensures r == -1 || (start <= r && OccursAt(s, sub, r))
    ensures forall k :: start <= k < r ==> !OccursAt(s, sub, k)
    ensures r == -1 ==> forall k :: start <= k ==> !OccursAt(s, sub, k)
    decreases |s| - start
  {
    if start + |sub| > |s| then -1
    else if s[start..start + |sub|] == sub then start
    else Find(s, sub, start + 1)
  }

  /** Python's `sep.join(parts)`. */
  function Join(parts: seq<string>, sep: string): string
    requires |parts| >= 1
  {
    if |parts| == 1 then parts[0] else parts[0] + sep + Join(parts[1..], sep)
  }

  /** An occurrence inside a slice is an occurrence in the whole string. */
  lemma OccursInSlice(s: string, sub: string, i: int, j: int, k: int)
    requires 0 <= i <= j <= |s|
    requires OccursAt(s[i..j], sub, k)
    ensures OccursAt(s, sub, i + k)
  {
    var inner, outer := s[i..j][k..k + |sub|], s[i + k..i + k + |sub|];
    forall t | 0 <= t < |sub| ensures inner[t] == outer[t] {
      assert s[i..j][k + t] == s[i + k + t];
    }
    assert inner == outer;
  }

  /** A slice of a string that does not contain `sub` does not contain it either. */
  lemma SliceAvoids(s: string, sub: string, i: int, j: int)
    requires 0 <= i <= j <= |s|
    requires !Contains(s, sub)
    ensures !Contains(s[i..j], sub)
  {
    if Contains(s[i..j], sub) {
      var k :| 0 <= k <= |s[i..j]| && OccursAt(s[i..j], sub, k);
      OccursInSlice(s, sub, i, j, k);
    }
  }

  /** Python's `s.split(sep)` for a non-empty separator: scan left to right,
      cut at each non-overlapping occurrence of `sep`. (Python raises
      ValueError for an empty separator.) Each cut is at the leftmost
      occurrence: no occurrence of `sep` starts inside a part that is
      followed by a cut. */
  function Split(s: string, sep: string): (parts: seq<string>)
    requires |sep| > 0
    ensures |parts| >= 1
    ensures Join(parts, sep) == s
    ensures forall i :: 0 <= i < |parts| ==> !Contains(parts[i], sep)
    ensures |parts| >= 2 <==> Contains(s, sep)
    ensures forall i :: 0 <= i < |parts| - 1 ==> !Contains(parts[i] + sep[..|sep| - 1], sep)
    decreases |s|
  {
    var i := Find(s, sep, 0);
    if i < 0 then
      [s]
    else
      var rest := Split(s[i + |sep|..], sep);
      assert !Contains(s[..i], sep) by {
        if Contains(s[..i], sep) {
          var k :| 0 <= k <= i && OccursAt(s[..i], sep, k);
          OccursInSlice(s, sep, 0, i, k);
        }
      }
      var cut := s[..i] + sep[..|sep| - 1];
      assert !Contains(cut, sep) by {
        assert cut == s[..i + |sep| - 1];
        if Contains(cut, sep) {
          var k :| 0 <= k <= |cut| && OccursAt(cut, sep, k);
          OccursInSlice(s, sep, 0, i + |sep| - 1, k);
        }
      }
      assert s == s[..i] + sep + s[i + |sep|..];
      [s[..i]] + rest
  }

  /** Python's `sub in s` holds exactly when `s.find(sub)` finds an occurrence. */
  lemma FindIffContains(s: string, sub: string)
    ensures Find(s, sub, 0) >= 0 <==> Contains(s, sub)
  {
  }

  /** The end of the run of `drop` characters starting at index `i`: the
      forward scan `str.strip` makes over leading characters. */
  function SkipForward(s: string, drop: char -> bool, i: nat): (e: nat)
    requires i <= |s|
    ensures i <= e <= |s|
    ensures forall k :: i <= k < e ==> drop(s[k])
    ensures e == |s| || !drop(s[e])
    decreases |s| - i
  {
    if i < |s| && drop(s[i]) then SkipForward(s, drop, i + 1) else i
  }

  /** The start of the run of `drop` characters ending just before index
      `j`, scanning backwards but not below `lo`: the scan `str.strip` makes
      over trailing characters. */
  function SkipBackward(s: string, drop: char -> bool, lo: nat, j: nat): (b: nat)
    requires lo <= j <= |s|
    ensures lo <= b <= j
    ensures forall k :: b <= k < j ==> drop(s[k])
    ensures b == lo || !drop(s[b - 1])
    decreases j
  {
    if j > lo && drop(s[j - 1]) then SkipBackward(s, drop, lo, j - 1) else j
  }

  /** Python's `s.strip(chars)`, the class of stripped characters given as
      a predicate: `s` with a prefix and a suffix of `drop` characters
      removed, leaving a result that neither starts nor ends with one. */
  function StripBy(s: string, drop: char -> bool): (r: string)
    ensures TrimmedOf(r, drop)
    ensures var i := SkipForward(s, drop, 0);
            && i + |r| <= |s|
            && r == s[i..i + |r|]
            && AllIn(s[..i], drop)
            && AllIn(s[i + |r|..], drop)
  {
    var i := SkipForward(s, drop, 0);
    var j := SkipBackward(s, drop, i, |s|);
    assert AllIn(s[..i], drop) by {
      forall k | 0 <= k < i ensures drop(s[..i][k]) {
        assert s[..i][k] == s[k];
      }
    }
    assert AllIn(s[j..], drop) by {
      forall k | 0 <= k < |s| - j ensures drop(s[j..][k]) {
        assert s[j..][k] == s[j + k];
      }
    }
    s[i..j]
  }

  /** Python's `s.strip()`: `s` with a whitespace-only prefix and a
      whitespace-only suffix removed; the result neither starts nor ends
      with whitespace. */
  function Strip(s: string): (r: string)
    ensures IsStripped(r)
    ensures var i := SkipForward(s, IsSpace, 0);
            && i + |r| <= |s|
            && r == s[i..i + |r|]
            && AllIn(s[..i], IsSpace)
            && AllIn(s[i + |r|..], IsSpace)
  {
    StripBy(s, IsSpace)
  }

  /** `list(map(str.strip, parts))`. */
  function StripAll(parts: seq<string>): (r: seq<string>)
    ensures |r| == |parts|
    ensures forall i :: 0 <= i < |r| ==> r[i] == Strip(parts[i]) && IsStripped(r[i])
  {
    seq(|parts|, i requires 0 <= i < |parts| => Strip(parts[i]))
  }

  lemma StripByUnique(a: string, m: string, b: string, drop: char -> bool)
    requires AllIn(a, drop) && AllIn(b, drop) && TrimmedOf(m, drop)
    ensures StripBy(a + m + b, drop) == m
  {
    var s := a + m + b;
    var i := SkipForward(s, drop, 0);
    var j := SkipBackward(s, drop, i, |s|);
    forall k | 0 <= k < |a| ensures drop(s[k]) {
      assert s[k] == a[k];
    }
    forall k | |a| + |m| <= k < |s| ensures drop(s[k]) {
      assert s[k] == b[k - |a| - |m|];
    }
    if |m| == 0 {
      assert i == |s|;
      assert s[i..j] == m;
    } else {
      assert s[|a|] == m[0] && s[|a| + |m| - 1] == m[|m| - 1];
      assert i == |a|;
      assert j == |a| + |m|;
      assert s[i..j] == m;
    }
  }

  /** `strip` is characterised by its result: whenever `s` is a stripped core
      between a whitespace-only prefix and suffix, `s.strip()` is that core. */
  lemma StripUnique(a: string, m: string, b: string)
    requires AllIn(a, IsSpace) && AllIn(b, IsSpace) && IsStripped(m)
    ensures Strip(a + m + b) == m
  {
    StripByUnique(a, m, b, IsSpace);
  }

  /** Stripping is idempotent. */
  lemma StripIdempotent(s: string)
    ensures Strip(Strip(s)) == Strip(s)
  {
    var m := Strip(s);
    assert m == [] + m + [];
    StripUnique([], m, []);
  }

  /** Stripping cannot introduce a substring the input does not contain. */
  lemma StripAvoids(s: string, sub: string)
    requires !Contains(s, sub)
    ensures !Contains(Strip(s), sub)
  {
    var r := Strip(s);
    var i := SkipForward(s, IsSpace, 0);
    SliceAvoids(s, sub, i, i + |r|);
  }
}
