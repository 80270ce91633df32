/** What the helper promises, stated over the whole input space. */
module HelperProperties {
  import opened Wrappers
  import opened Strings
  import opened LogicalCluster
  import opened Helper

  // ---------------------------------------------------------------------------
  // Cluster name validation

  /** A valid cluster is a grammatical name whose first segment is `root` or `system`. */
  lemma IsValidClusterIff(n: Name)
    ensures IsValidCluster(n) <==>
      n.IsValid() && (Segments(n.value)[0] == "root" || Segments(n.value)[0] == "system")
  {
    HasPrefixIsHeadSegment(n, "root");
    HasPrefixIsHeadSegment(n, "system");
  }

  /** The zero name is never valid, so the parser's separate emptiness test adds nothing. */
  lemma EmptyNameInvalid()
    ensures !IsValidCluster(Name(""))
  {
  }

  /** A valid cluster holds segment characters and separators only; in particular no `/` and no `|`. */
  lemma ValidClusterChars(n: Name)
    requires IsValidCluster(n)
    ensures forall i :: 0 <= i < |n.value| ==> IsSegmentChar(n.value[i]) || n.value[i] == Separator
    ensures '/' !in n.value && '|' !in n.value
  {
    forall i | 0 <= i < |n.value|
      ensures IsSegmentChar(n.value[i]) || n.value[i] == Separator
    {
      ValidNameChars(n, i);
    }
  }

  /** Any character outside `[a-z0-9-:]` (upper case, `_`, `/`, anything non-ASCII) makes a name invalid. */
  lemma ForeignCharRejected(n: Name, i: nat)
    requires i < |n.value|
    requires !IsSegmentChar(n.value[i]) && n.value[i] != Separator
    ensures !IsValidCluster(n)
  {
    if IsValidCluster(n) {
      ValidClusterChars(n);
    }
  }

  /** A single ungrammatical segment (empty, leading digit or `-`, trailing `-`) makes the whole name invalid. */
  lemma BadSegmentRejected(segs: seq<string>, k: nat)
    requires |segs| >= 1
    requires forall j :: 0 <= j < |segs| ==> Separator !in segs[j]
    requires k < |segs| && !ValidSegment(segs[k])
    ensures !IsValidCluster(Name(Join(segs)))
  {
    SegmentsJoin(segs);
  }

  /** An empty segment anywhere (a leading or trailing `:`, or `::`) makes a name invalid. */
  lemma EmptySegmentRejected(a: string, b: string)
    ensures !IsValidCluster(Name(a + [Separator]))
    ensures !IsValidCluster(Name([Separator] + a))
    ensures !IsValidCluster(Name(a + [Separator, Separator] + b))
  {
    SegmentsAppend(a, "");
    assert a + [Separator] == a + [Separator] + "";
    var trailing := Segments(a + [Separator]);
    assert trailing[|trailing| - 1] == "";
    assert Segments([Separator] + a)[0] == "";
    SegmentsAppend(a, [Separator] + b);
    SegmentsAppend("", b);
    assert a + [Separator, Separator] + b == a + [Separator] + ([Separator] + b);
    assert [Separator] + b == "" + [Separator] + b;
    var whole := Segments(a + [Separator, Separator] + b);
    assert whole[|Segments(a)|] == "";
  }

  /** Grammatical segments below `root` or `system` form a valid cluster, however long each segment is. */
  lemma RootedSegmentsAccepted(segs: seq<string>)
    requires |segs| >= 1
    requires forall j :: 0 <= j < |segs| ==> ValidSegment(segs[j])
    requires segs[0] == "root" || segs[0] == "system"
    ensures IsValidCluster(Name(Join(segs)))
  {
    forall j | 0 <= j < |segs|
      ensures Separator !in segs[j]
    {
      assert forall i :: 0 <= i < |segs[j]| ==> IsSegmentChar(segs[j][i]);
    }
    SegmentsJoin(segs);
    IsValidClusterIff(Name(Join(segs)));
  }

  /** A name whose first segment is neither `root` nor `system` is not a valid cluster. */
  lemma UnrootedRejected(n: Name)
    requires Segments(n.value)[0] != "root" && Segments(n.value)[0] != "system"
    ensures !IsValidCluster(n)
  {
    IsValidClusterIff(n);
  }

  // ---------------------------------------------------------------------------
  // Qualified object names and label selectors

  /** The reference reading of a qualified object key: cluster up to the first `|`, then namespace up to the first `/`. */
  function ParseQualifiedObjectName(key: string): Option<ObjectMeta>
  {
    var i := Index(key, "|");
    if i == -1 then None
    else
      var rest := key[i + 1..];
      var j := Index(rest, "/");
      if j == -1 then Some(ObjectMeta(Name(key[..i]), "", rest))
      else Some(ObjectMeta(Name(key[..i]), rest[..j], rest[j + 1..]))
  }

  /** For a cluster without `|` and a namespace and name without `/`, the key reads back as the object. */
  lemma QualifiedObjectNameRoundTrip(obj: ObjectMeta)
    requires '|' !in obj.cluster.value
    requires '/' !in obj.namespace && '/' !in obj.name
    ensures ParseQualifiedObjectName(QualifiedObjectName(obj)) == Some(obj)
  {
    var c := obj.cluster.value;
    var tail := if |obj.namespace| > 0 then obj.namespace + "/" + obj.name else obj.name;
    var key := QualifiedObjectName(obj);
    assert key == c + ['|'] + tail;
    assert key[..|c|] == c;
    IndexOfChar(c, '|', tail);
    assert key[|c| + 1..] == tail;
    if |obj.namespace| > 0 {
      IndexOfChar(obj.namespace, '/', obj.name);
      assert tail[..|obj.namespace|] == obj.namespace;
      assert tail[|obj.namespace| + 1..] == obj.name;
    } else {
      forall k | 0 <= k <= |tail|
        ensures !OccursAt(tail, "/", k)
      {
        if k < |tail| {
          assert tail[k..k + 1] == [tail[k]];
        }
      }
    }
  }

  /** Hence the key identifies the object among objects that meet those conditions. */
  lemma QualifiedObjectNameInjective(a: ObjectMeta, b: ObjectMeta)
    requires '|' !in a.cluster.value && '/' !in a.namespace && '/' !in a.name
    requires '|' !in b.cluster.value && '/' !in b.namespace && '/' !in b.name
    requires QualifiedObjectName(a) == QualifiedObjectName(b)
    ensures a == b
  {
    QualifiedObjectNameRoundTrip(a);
    QualifiedObjectNameRoundTrip(b);
  }

  /** Without those conditions two objects can share a key: the formatter validates nothing. */
  lemma QualifiedObjectNameCollision()
    ensures QualifiedObjectName(ObjectMeta(Name("c"), "", "a/b"))
         == QualifiedObjectName(ObjectMeta(Name("c"), "a", "b"))
  {
  }

  /** The selector is the label key, `=`, and the workspace name verbatim, split back at its first `=`. */
  lemma WorkspaceLabelSelectorSplits(name: string)
    ensures Index(WorkspaceLabelSelector(name), "=") == |WorkspaceNameLabel|
    ensures WorkspaceLabelSelector(name)[..|WorkspaceNameLabel|] == WorkspaceNameLabel
    ensures WorkspaceLabelSelector(name)[|WorkspaceNameLabel| + 1..] == name
  {
    assert '=' !in WorkspaceNameLabel;
    IndexOfChar(WorkspaceNameLabel, '=', name);
  }

  // ---------------------------------------------------------------------------
  // Cluster URL paths

  /** The parser's emptiness test is subsumed by validity: acceptance is validity alone. */
  lemma AcceptIsValidity(residual: string, cluster: Name)
    ensures Accept(residual, cluster) == if IsValidCluster(cluster) then Some((residual, cluster)) else None
  {
    if cluster.Empty() {
      assert cluster == Name("");
      EmptyNameInvalid();
    }
  }

  /** `/clusters/` is tried first: when it occurs anywhere, its leftmost occurrence decides the result. */
  lemma ClustersMarkerFirst(p: string)
    requires Index(p, ClustersMarker) >= 0
    ensures var i := Index(p, ClustersMarker);
      var cluster := Name(FirstPathSegment(p[i + |ClustersMarker|..]));
      SplitClusterPath(p) == if IsValidCluster(cluster) then Some((p[..i], cluster)) else None
  {
    var i := Index(p, ClustersMarker);
    SplitClusterPathFound(p, 0);
    AcceptIsValidity(p[..i], Name(FirstPathSegment(p[i + |ClustersMarker|..])));
  }

  /** Only when `/clusters/` is absent is `/services/workspaces/` looked for. */
  lemma WorkspacesMarkerSecond(p: string)
    requires Index(p, ClustersMarker) == -1
    requires Index(p, WorkspacesMarker) >= 0
    ensures var i := Index(p, WorkspacesMarker);
      var cluster := Name(FirstPathSegment(p[i + |WorkspacesMarker|..]));
      SplitClusterPath(p) == if IsValidCluster(cluster) then Some((p[..i], cluster)) else None
  {
    var i := Index(p, WorkspacesMarker);
    SplitClusterPathFound(p, 1);
    AcceptIsValidity(p[..i], Name(FirstPathSegment(p[i + |WorkspacesMarker|..])));
  }

  /** A path with neither marker is refused. */
  lemma NoMarkerRefused(p: string)
    requires Index(p, ClustersMarker) == -1 && Index(p, WorkspacesMarker) == -1
    ensures SplitClusterPath(p).None?
  {
    FirstMarkerNone(Markers, p);
  }

  /**
   * A successful parse names a valid cluster, and the path is the residual, the
   * leftmost occurrence of one of the markers, the cluster, and then nothing or `/...`.
   */
  lemma SplitClusterPathSound(p: string, residual: string, cluster: Name)
    requires SplitClusterPath(p) == Some((residual, cluster))
    ensures IsValidCluster(cluster) && '/' !in cluster.value
    ensures exists k :: (0 <= k < |Markers| && Index(p, Markers[k]) == |residual|
      && residual + Markers[k] + cluster.value <= p
      && (|residual + Markers[k] + cluster.value| == |p| || p[|residual + Markers[k] + cluster.value|] == '/'))
  {
    var m := FirstMarker(Markers, p);
    var k, i := m.value.0, m.value.1;
    var rest := p[i + |Markers[k]|..];
    assert SplitClusterPath(p) == Accept(p[..i], Name(FirstPathSegment(rest)));
    AcceptIsValidity(p[..i], Name(FirstPathSegment(rest)));
    SplitAroundMarker(p, Markers[k], i);
  }

  /** Parsing `p + "/clusters/" + c`, followed by nothing or `/...`, gives back `p` and `c`. */
  lemma ClustersRoundTrip(p: string, c: Name, suffix: string)
    requires Index(p + ClustersMarker + c.value, ClustersMarker) == |p|
    requires IsValidCluster(c)
    requires suffix == "" || suffix[0] == '/'
    ensures SplitClusterPath(p + ClustersMarker + c.value + suffix) == Some((p, c))
  {
    var path := p + ClustersMarker + c.value + suffix;
    assert '/' !in c.value by { ValidClusterChars(c); }
    assert Index(path, ClustersMarker) == |p| && path[..|p|] == p
        && FirstPathSegment(path[|p| + |ClustersMarker|..]) == c.value by {
      SegmentAfterMarker(p, ClustersMarker, c.value, suffix);
    }
    ClustersMarkerFirst(path);
  }

  /** The same for `/services/workspaces/`, provided `/clusters/` does not occur in the path. */
  lemma WorkspacesRoundTrip(p: string, c: Name, suffix: string)
    requires Index(p + WorkspacesMarker + c.value, WorkspacesMarker) == |p|
    requires Index(p + WorkspacesMarker + c.value + suffix, ClustersMarker) == -1
    requires IsValidCluster(c)
    requires suffix == "" || suffix[0] == '/'
    ensures SplitClusterPath(p + WorkspacesMarker + c.value + suffix) == Some((p, c))
  {
    var path := p + WorkspacesMarker + c.value + suffix;
    assert '/' !in c.value by { ValidClusterChars(c); }
    assert Index(path, WorkspacesMarker) == |p| && path[..|p|] == p
        && FirstPathSegment(path[|p| + |WorkspacesMarker|..]) == c.value by {
      SegmentAfterMarker(p, WorkspacesMarker, c.value, suffix);
    }
    WorkspacesMarkerSecond(path);
  }

  /** A valid cluster starts with the `r` of `root` or the `s` of `system`. */
  lemma ValidClusterStart(c: Name)
    requires IsValidCluster(c)
    ensures |c.value| >= 4 && (c.value[0] == 'r' || c.value[0] == 's')
  {
    if c.HasPrefix(RootCluster) && c.value != "root" {
      assert c.value[..4] == "root";
    } else if c.HasPrefix(SystemCluster) && c.value != "system" {
      assert c.value[..6] == "system";
    }
  }

  /** The second marker, built with `path.Join`, is the literal `/services/workspaces/`. */
  lemma WorkspacesMarkerValue()
    ensures WorkspacesMarker == "/services/workspaces/"
    ensures Markers == ["/clusters/", "/services/workspaces/"]
  {
  }

  /** `/services/workspaces/` never holds a `/` directly followed by `c`. */
  lemma WorkspacesMarkerLacksClustersStart()
    ensures NoAdjacentPair(WorkspacesMarker, ClustersMarker[0], ClustersMarker[1])
  {
    assert WorkspacesMarker == "/services/workspaces/";
  }

  /**
   * Parsing `/services/workspaces/` + `c`, followed by nothing or by `/...` without
   * a `/clusters/` in it, gives back the empty residual and `c`.
   */
  lemma WorkspacesRoundTripFromRoot(c: Name, suffix: string)
    requires IsValidCluster(c)
    requires suffix == "" || suffix[0] == '/'
    requires NoAdjacentPair(suffix, '/', 'c')
    ensures SplitClusterPath(WorkspacesMarker + c.value + suffix) == Some(("", c))
  {
    var w := WorkspacesMarker;
    var path := w + c.value + suffix;
    ValidClusterChars(c);
    ValidClusterStart(c);
    assert ClustersMarker[0] == '/' && ClustersMarker[1] == 'c';
    assert NoAdjacentPair(c.value, '/', 'c');
    NoAdjacentPairAppend(c.value, suffix, '/', 'c');
    WorkspacesMarkerLacksClustersStart();
    NoAdjacentPairAppend(w, c.value + suffix, '/', 'c');
    assert path == w + (c.value + suffix);
    AbsentByFirstPair(path, ClustersMarker);
    assert "" + w + c.value == w + c.value;
    assert OccursAt(w + c.value, w, 0);
    assert "" + w + c.value + suffix == path;
    WorkspacesRoundTrip("", c, suffix);
  }

  /**
   * The appended marker is the leftmost one whenever the base neither contains
   * `/clusters/` nor ends in `/clusters`: the marker's only self-overlap is its `/`.
   */
  lemma FreshBase(p: string, c: string)
    requires !Contains(p, ClustersMarker)
    requires !EndsWith(p, "/clusters")
    ensures Index(p + ClustersMarker + c, ClustersMarker) == |p|
  {
    var s := p + ClustersMarker + c;
    var m := ClustersMarker;
    assert OccursAt(s, m, |p|) by {
      assert s[|p|..|p| + |m|] == m;
    }
    forall j | 0 <= j < |p|
      ensures !OccursAt(s, m, j)
    {
      if j + |m| <= |p| {
        assert !OccursAt(p, m, j);
        assert s[j..j + |m|] == p[j..j + |m|];
      } else {
        StraddlingMarker(p, c, j);
      }
    }
  }

  /** An occurrence of `/clusters/` that starts in `p` and ends past it needs `p` to end in `/clusters`. */
  lemma StraddlingMarker(p: string, c: string, j: int)
    requires !EndsWith(p, "/clusters")
    requires 0 <= j < |p| < j + |ClustersMarker|
    ensures !OccursAt(p + ClustersMarker + c, ClustersMarker, j)
  {
    var s := p + ClustersMarker + c;
    var m := ClustersMarker;
    var d := |p| - j;
    assert s[|p|] == '/';
    if d < 9 {
      assert s[j..j + |m|][d] == '/' && m[d] != '/';
    } else {
      assert m[..9] == "/clusters";
      assert p[j..] == p[|p| - 9..];
      assert s[j..j + |m|][..9] == p[j..];
    }
  }

  /** The natural round trip for a base URL path that is free of the marker. */
  lemma ClustersRoundTripFreshBase(p: string, c: Name, suffix: string)
    requires !Contains(p, ClustersMarker) && !EndsWith(p, "/clusters")
    requires IsValidCluster(c)
    requires suffix == "" || suffix[0] == '/'
    ensures SplitClusterPath(p + ClustersMarker + c.value + suffix) == Some((p, c))
  {
    FreshBase(p, c.value);
    ClustersRoundTrip(p, c, suffix);
  }

  /** A path that starts with `/clusters/` names the segment right after it, valid or not. */
  lemma ClustersAtStart(seg: string, tail: string)
    requires '/' !in seg
    requires tail == "" || tail[0] == '/'
    ensures SplitClusterPath(ClustersMarker + seg + tail)
         == if IsValidCluster(Name(seg)) then Some(("", Name(seg))) else None
  {
    var m := ClustersMarker;
    assert Index("" + m + seg, m) == 0 by {
      assert OccursAt("" + m + seg, m, 0);
    }
    SegmentAfterMarker("", m, seg, tail);
    assert "" + m + seg + tail == m + seg + tail;
    ClustersMarkerFirst(m + seg + tail);
  }

  /** The side condition is needed: a base path ending in `/clusters` captures the marker itself. */
  lemma BaseEndingInClustersBreaksRoundTrip(c: Name)
    requires IsValidCluster(c)
    ensures "/clusters" + ClustersMarker + c.value == ClustersMarker + "clusters" + "/" + c.value
    ensures SplitClusterPath("/clusters" + ClustersMarker + c.value) == None
  {
    var m := ClustersMarker;
    var tail := "/" + c.value;
    assert "/clusters" + m + c.value == m + "clusters" + tail by {
      assert "/clusters" + m == m + "clusters" + "/";
    }
    assert SplitClusterPath(m + "clusters" + tail) == None by {
      assert !IsValidCluster(Name("clusters")) by {
        SegmentsOfSegment("clusters");
        UnrootedRejected(Name("clusters"));
      }
      ClustersAtStart("clusters", tail);
    }
  }

  /** A base path without `/` directly followed by `c` meets both conditions of the round trip. */
  lemma FreshBaseBySlashC(p: string)
    requires NoAdjacentPair(p, '/', 'c')
    ensures !Contains(p, ClustersMarker) && !EndsWith(p, "/clusters")
  {
    assert ClustersMarker[0] == '/' && ClustersMarker[1] == 'c';
    AbsentByFirstPair(p, ClustersMarker);
    if |p| >= 9 {
      var j := |p| - 9;
      assert !(p[j] == '/' && p[j + 1] == 'c');
      assert p[j..][0] == p[j] && p[j..][1] == p[j + 1];
    }
  }

  /**
   * `/clusters/` wins even when `/services/workspaces/` comes earlier: the path
   * `/services/workspaces/a/clusters/b` names `b`, below the base `/services/workspaces/a`.
   */
  lemma ClustersMarkerWinsOverWorkspaces(a: Name, b: Name)
    requires IsValidCluster(a) && IsValidCluster(b)
    ensures SplitClusterPath(WorkspacesMarker + a.value + ClustersMarker + b.value)
         == Some((WorkspacesMarker + a.value, b))
  {
    var w := WorkspacesMarker;
    var p := w + a.value;
    ValidClusterChars(a);
    ValidClusterStart(a);
    assert NoAdjacentPair(a.value, '/', 'c');
    assert ClustersMarker[0] == '/' && ClustersMarker[1] == 'c';
    WorkspacesMarkerLacksClustersStart();
    assert w[|w| - 1] == '/' by { WorkspacesMarkerValue(); }
    NoAdjacentPairAppend(w, a.value, '/', 'c');
    FreshBaseBySlashC(p);
    ClustersRoundTripFreshBase(p, b, "");
    assert p + ClustersMarker + b.value + "" == w + a.value + ClustersMarker + b.value;
  }
}
