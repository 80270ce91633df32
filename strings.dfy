/** The fragments of Go's `strings` package that the helper uses, on `seq<char>`. */
module Strings {

  /** `pat` occurs in `s` starting at offset `i`. */
  predicate OccursAt(s: string, pat: string, i: int)
  {
    0 <= i && i + |pat| <= |s| && s[i..i + |pat|] == pat
  }

  /** `pat` occurs in `s` somewhere. */
  predicate Contains(s: string, pat: string)
  {
    exists i :: 0 <= i <= |s| && OccursAt(s, pat, i)
  }

  /** The leftmost occurrence of `pat` in `s` at or after `from`, or -1. */
  function IndexFrom(s: string, pat: string, from: nat): (r: int)
    requires from <= |s|
    ensures r == -1 || (from <= r && OccursAt(s, pat, r))
    ensures r == -1 ==> forall j :: from <= j ==> !OccursAt(s, pat, j)
    ensures r != -1 ==> forall j :: from <= j < r ==> !OccursAt(s, pat, j)
    decreases |s| - from
  {
    if from + |pat| > |s| then -1
    else if s[from..from + |pat|] == pat then from
    else IndexFrom(s, pat, from + 1)
  }

  /** `strings.Index(s, pat)`: the offset of the leftmost occurrence of `pat`, or -1. */
  function Index(s: string, pat: string): (r: int)
    ensures r == -1 <==> !Contains(s, pat)
    ensures r != -1 ==> OccursAt(s, pat, r) && forall j :: 0 <= j < r ==> !OccursAt(s, pat, j)
  {
    IndexFrom(s, pat, 0)
  }

  /** `strings.SplitN(s, "/", 2)[0]`: `s` up to, not including, its first `/`. */
  function FirstPathSegment(s: string): (r: string)
    ensures r <= s
    ensures '/' !in r
    ensures |r| == |s| || s[|r|] == '/'
  {
    var i := Index(s, "/");
    if i == -1 then
      assert forall k :: 0 <= k < |s| ==> s[k] != '/' by {
        forall k | 0 <= k < |s| ensures s[k] != '/' {
          assert !OccursAt(s, "/", k);
          assert s[k..k + 1] == [s[k]];
        }
      }
      s
    else
      assert forall k :: 0 <= k < i ==> s[k] != '/' by {
        forall k | 0 <= k < i ensures s[k] != '/' {
          assert !OccursAt(s, "/", k);
          assert s[k..k + 1] == [s[k]];
        }
      }
      s[..i]
  }

  /** The leftmost occurrence of a pattern is unaffected by text appended after it. */
  lemma IndexOfExtension(s: string, t: string, pat: string)
    requires Index(s, pat) != -1
    ensures Index(s + t, pat) == Index(s, pat)
  {
    var i := Index(s, pat);
    assert (s + t)[i..i + |pat|] == s[i..i + |pat|];
    assert OccursAt(s + t, pat, i);
    forall j | 0 <= j < i
      ensures !OccursAt(s + t, pat, j)
    {
      assert !OccursAt(s, pat, j);
      assert (s + t)[j..j + |pat|] == s[j..j + |pat|];
    }
  }

  /** A single-character pattern is found at the first place the character appears. */
  lemma IndexOfChar(a: string, c: char, b: string)
    requires c !in a
    ensures Index(a + [c] + b, [c]) == |a|
  {
    var s := a + [c] + b;
    assert s[|a|..|a| + 1] == [c];
    assert OccursAt(s, [c], |a|);
    forall j | 0 <= j < |a|
      ensures !OccursAt(s, [c], j)
    {
      assert s[j..j + 1] == [a[j]];
    }
  }

  /** `s` ends with `t`. */
  predicate EndsWith(s: string, t: string)
  {
    |t| <= |s| && s[|s| - |t|..] == t
  }

  /** The first path segment of a slash-free `a` followed by nothing or by `/...` is `a`. */
  lemma FirstPathSegmentOf(a: string, b: string)
    requires '/' !in a
    requires b == [] || b[0] == '/'
    ensures FirstPathSegment(a + b) == a
  {
    var r := FirstPathSegment(a + b);
    assert forall k :: 0 <= k < |a| ==> (a + b)[k] == a[k] && a[k] != '/';
    assert |b| > 0 ==> (a + b)[|a|] == '/';
    assert |r| == |a|;
    assert r == (a + b)[..|r|] == a;
  }

  /** `x` is never directly followed by `y` in `s`. */
  predicate NoAdjacentPair(s: string, x: char, y: char)
  {
    forall j :: 0 <= j < |s| - 1 ==> !(s[j] == x && s[j + 1] == y)
  }

  /** Two strings free of the pair are still free of it when joined, unless the pair straddles the seam. */
  lemma NoAdjacentPairAppend(a: string, b: string, x: char, y: char)
    requires NoAdjacentPair(a, x, y) && NoAdjacentPair(b, x, y)
    requires |a| > 0 && |b| > 0 ==> !(a[|a| - 1] == x && b[0] == y)
    ensures NoAdjacentPair(a + b, x, y)
  {
    var s := a + b;
    forall j | 0 <= j < |s| - 1
      ensures !(s[j] == x && s[j + 1] == y)
    {
      if j + 1 < |a| {
        assert s[j] == a[j] && s[j + 1] == a[j + 1];
      } else if j >= |a| {
        assert s[j] == b[j - |a|] && s[j + 1] == b[j - |a| + 1];
      }
    }
  }

  /** A pattern whose first two characters never appear side by side in `s` does not occur in it. */
  lemma AbsentByFirstPair(s: string, pat: string)
    requires |pat| >= 2
    requires NoAdjacentPair(s, pat[0], pat[1])
    ensures !Contains(s, pat) && Index(s, pat) == -1
  {
    forall j | 0 <= j <= |s|
      ensures !OccursAt(s, pat, j)
    {
      if j + |pat| <= |s| {
        assert s[j..j + |pat|][0] == s[j] && s[j..j + |pat|][1] == s[j + 1];
      }
    }
  }

  /**
   * When `m` first occurs right after `p`, the text after it in `p + m + c + suffix`
   * starts with the slash-free `c`, and `suffix` is empty or starts a new segment.
   */
  lemma SegmentAfterMarker(p: string, m: string, c: string, suffix: string)
    requires Index(p + m + c, m) == |p|
    requires '/' !in c
    requires suffix == [] || suffix[0] == '/'
    ensures var path := p + m + c + suffix;
      Index(path, m) == |p| && path[..|p|] == p && FirstPathSegment(path[|p| + |m|..]) == c
  {
    var path := p + m + c + suffix;
    IndexOfExtension(p + m + c, suffix, m);
    assert path[|p| + |m|..] == c + suffix;
    FirstPathSegmentOf(c, suffix);
    assert path[..|p|] == p;
  }

  /**
   * Around an occurrence of `m` at `i`, the path is the text before it, `m`, and the
   * first path segment after it, followed by the end of the path or a `/`.
   */
  lemma SplitAroundMarker(p: string, m: string, i: int)
    requires OccursAt(p, m, i)
    ensures var head := p[..i] + m + FirstPathSegment(p[i + |m|..]);
      head <= p && (|head| == |p| || p[|head|] == '/')
  {
    var rest := p[i + |m|..];
    var seg := FirstPathSegment(rest);
    assert p == p[..i] + m + rest;
    assert p[..i] + m + seg <= p[..i] + m + rest;
    if |seg| < |rest| {
      assert p[i + |m| + |seg|] == rest[|seg|];
    }
  }
}
