/**
 * The logical-cluster name type the helper is written against. The library that
 * defines it is not part of this model; its grammar is the one the helper's own
 * test table fixes: a name is a `:`-separated path of segments, every segment
 * starts with a lower-case letter, continues with lower-case letters, digits and
 * `-`, does not end in `-`, and has no length limit.
 */
module LogicalCluster {

  /** The separator between the segments of a name. */
  const Separator: char := ':'

  /** A logical-cluster name; the zero value is the empty name. */
  datatype Name = Name(value: string) {

    /** `Name.Empty()`: this is the zero value. */
    predicate Empty()
    {
      value == ""
    }

    /** `Name.IsValid()`: every segment of the name follows the segment grammar. */
    predicate IsValid()
    {
      var segs := Segments(value);
      forall k :: 0 <= k < |segs| ==> ValidSegment(segs[k])
    }

    /** `Name.HasPrefix(other)`, read segment-wise: this name is `other` or lies below it. */
    predicate HasPrefix(other: Name)
    {
      value == other.value
      || (|other.value| < |value| && value[..|other.value|] == other.value && value[|other.value|] == Separator)
    }
  }

  predicate IsLowerAlpha(c: char)
  {
    'a' <= c <= 'z'
  }

  predicate IsSegmentChar(c: char)
  {
    'a' <= c <= 'z' || '0' <= c <= '9' || c == '-'
  }

  /** One segment of a valid name: `[a-z]`, then `[a-z0-9-]*`, not ending in `-`. */
  predicate ValidSegment(seg: string)
  {
    |seg| > 0
    && IsLowerAlpha(seg[0])
    && seg[|seg| - 1] != '-'
    && forall i :: 0 <= i < |seg| ==> IsSegmentChar(seg[i])
  }

  /** `strings.Split(s, ":")`: the pieces between separators, always at least one. */
  function Segments(s: string): (r: seq<string>)
    ensures |r| >= 1
    ensures forall k :: 0 <= k < |r| ==> Separator !in r[k]
    decreases |s|
  {
    if |s| == 0 then [""]
    else
      var rest := Segments(s[1..]);
      if s[0] == Separator then [""] + rest
      else [[s[0]] + rest[0]] + rest[1..]
  }

  /** `strings.Join(segs, ":")`. */
  function Join(segs: seq<string>): string
    requires |segs| >= 1
  {
    if |segs| == 1 then segs[0] else segs[0] + [Separator] + Join(segs[1..])
  }

  /** Splitting and joining again gives back the name. */
  lemma {:induction false} JoinSegments(s: string)
    ensures Join(Segments(s)) == s
    decreases |s|
  {
    if |s| > 0 {
      var rest := Segments(s[1..]);
      JoinSegments(s[1..]);
      if s[0] == Separator {
        assert ([""] + rest)[1..] == rest;
      } else if |rest| > 1 {
        var segs := [[s[0]] + rest[0]] + rest[1..];
        assert segs[1..] == rest[1..];
        assert s == [s[0]] + s[1..];
      } else {
        assert s == [s[0]] + s[1..];
      }
    }
  }

  /** Splitting after a separator splits both sides. */
  lemma {:induction false} SegmentsAppend(a: string, b: string)
    ensures Segments(a + [Separator] + b) == Segments(a) + Segments(b)
    decreases |a|
  {
    var s := a + [Separator] + b;
    if |a| == 0 {
      assert s == [Separator] + b;
      assert s[1..] == b;
    } else {
      assert s[1..] == a[1..] + [Separator] + b;
      SegmentsAppend(a[1..], b);
    }
  }

  /** A string without separators is a single segment. */
  lemma {:induction false} SegmentsOfSegment(a: string)
    requires Separator !in a
    ensures Segments(a) == [a]
    decreases |a|
  {
    if |a| > 0 {
      SegmentsOfSegment(a[1..]);
      assert a == [a[0]] + a[1..];
    }
  }

  /** Joining separator-free segments and splitting again gives back the segments. */
  lemma {:induction false} SegmentsJoin(segs: seq<string>)
    requires |segs| >= 1
    requires forall k :: 0 <= k < |segs| ==> Separator !in segs[k]
    ensures Segments(Join(segs)) == segs
    decreases |segs|
  {
    SegmentsOfSegment(segs[0]);
    if |segs| > 1 {
      SegmentsJoin(segs[1..]);
      SegmentsAppend(segs[0], Join(segs[1..]));
      assert segs == [segs[0]] + segs[1..];
    }
  }

  /** A name starts with its first segment, followed by a separator unless that segment is all of it. */
  lemma {:induction false} HeadSegment(s: string)
    ensures Name(s).HasPrefix(Name(Segments(s)[0]))
    decreases |s|
  {
    if |s| > 0 && s[0] != Separator {
      HeadSegment(s[1..]);
      var h := Segments(s[1..])[0];
      assert Segments(s)[0] == [s[0]] + h;
      if s[1..] != h {
        assert s[..|h| + 1] == [s[0]] + s[1..][..|h|];
      }
    }
  }

  /** For a one-segment `r`, lying below `r` means exactly having `r` as first segment. */
  lemma HasPrefixIsHeadSegment(n: Name, r: string)
    requires Separator !in r
    ensures n.HasPrefix(Name(r)) <==> Segments(n.value)[0] == r
  {
    var s := n.value;
    if n.HasPrefix(Name(r)) {
      SegmentsOfSegment(r);
      if s != r {
        assert s == r + [Separator] + s[|r| + 1..];
        SegmentsAppend(r, s[|r| + 1..]);
      }
    }
    if Segments(s)[0] == r {
      HeadSegment(s);
    }
  }

  /** Every character of a joined name is a separator or a character of one of the segments. */
  lemma {:induction false} JoinChars(segs: seq<string>, i: nat)
    requires |segs| >= 1
    requires i < |Join(segs)|
    ensures Join(segs)[i] == Separator
         || exists k, j :: 0 <= k < |segs| && 0 <= j < |segs[k]| && Join(segs)[i] == segs[k][j]
    decreases |segs|
  {
    if |segs| > 1 && i >= |segs[0]| {
      var s := Join(segs);
      if i > |segs[0]| {
        JoinChars(segs[1..], i - |segs[0]| - 1);
        assert s[i] == Join(segs[1..])[i - |segs[0]| - 1];
        if s[i] != Separator {
          var k, j :| 0 <= k < |segs[1..]| && 0 <= j < |segs[1..][k]| && s[i] == segs[1..][k][j];
          assert s[i] == segs[k + 1][j];
        }
      }
    } else {
      assert Join(segs)[i] == segs[0][i];
    }
  }

  /** A valid name is made of segment characters and separators only. */
  lemma ValidNameChars(n: Name, i: nat)
    requires n.IsValid()
    requires i < |n.value|
    ensures IsSegmentChar(n.value[i]) || n.value[i] == Separator
  {
    var segs := Segments(n.value);
    JoinSegments(n.value);
    JoinChars(segs, i);
  }
}
