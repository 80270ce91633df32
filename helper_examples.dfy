/**
 * The helper's test table, case by case, derived from the general lemmas. URL
 * cases are stated for the path component the URL parser yields for each test
 * input (`https://host/clusters/root` has path `/clusters/root`; `""` and
 * `garbgae` parse to themselves as a path).
 */
module HelperExamples {
  import opened Wrappers
  import opened Strings
  import opened LogicalCluster
  import opened Helper
  import opened HelperProperties

  /** Joining three segments puts a separator between each. */
  lemma Join3(segs: seq<string>)
    requires |segs| == 3
    ensures Join(segs) == segs[0] + ":" + segs[1] + ":" + segs[2]
  {
    assert segs[1..][1..] == [segs[2]];
    assert Join(segs[1..]) == segs[1] + [Separator] + segs[2];
    assert Join(segs) == segs[0] + [Separator] + (segs[1] + [Separator] + segs[2]);
  }

  /** A valid segment stays valid when extended by segment characters not ending in `-`. */
  lemma SegmentExtended(a: string, b: string)
    requires ValidSegment(a)
    requires |b| > 0 && b[|b| - 1] != '-'
    requires forall i :: 0 <= i < |b| ==> IsSegmentChar(b[i])
    ensures ValidSegment(a + b)
  {
  }

  /** `root` is a valid cluster. */
  lemma AcceptsRoot()
    ensures IsValidCluster(Name("root"))
  {
    assert Join(["root"]) == "root";
    RootedSegmentsAccepted(["root"]);
  }

  /** `root:a` is a valid cluster. */
  lemma AcceptsRootA()
    ensures IsValidCluster(Name("root:a"))
  {
    assert Join(["root", "a"]) == "root:a";
    RootedSegmentsAccepted(["root", "a"]);
  }

  /** `root:a:b` is a valid cluster. */
  lemma AcceptsRootAB()
    ensures IsValidCluster(Name("root:a:b"))
  {
    assert Join(["root", "a", "b"]) == "root:a:b";
    RootedSegmentsAccepted(["root", "a", "b"]);
  }

  /** `root:foo` is a valid cluster. */
  lemma AcceptsRootFoo()
    ensures IsValidCluster(Name("root:foo"))
  {
    assert Join(["root", "foo"]) == "root:foo";
    RootedSegmentsAccepted(["root", "foo"]);
  }

  /** `root:foo:bar` is a valid cluster. */
  lemma AcceptsRootFooBar()
    ensures IsValidCluster(Name("root:foo:bar"))
  {
    assert Join(["root", "foo", "bar"]) == "root:foo:bar";
    RootedSegmentsAccepted(["root", "foo", "bar"]);
  }

  /** `system` is a valid cluster. */
  lemma AcceptsSystem()
    ensures IsValidCluster(Name("system"))
  {
    assert Join(["system"]) == "system";
    RootedSegmentsAccepted(["system"]);
  }

  /** `system:foo` is a valid cluster. */
  lemma AcceptsSystemFoo()
    ensures IsValidCluster(Name("system:foo"))
  {
    assert Join(["system", "foo"]) == "system:foo";
    RootedSegmentsAccepted(["system", "foo"]);
  }

  /** `system:foo:bar` is a valid cluster. */
  lemma AcceptsSystemFooBar()
    ensures IsValidCluster(Name("system:foo:bar"))
  {
    assert Join(["system", "foo", "bar"]) == "system:foo:bar";
    RootedSegmentsAccepted(["system", "foo", "bar"]);
  }

  /** The 32-character segment of the table is grammatical. */
  lemma LongSegmentValid()
    ensures ValidSegment("b1234567890123456789012345678912")
  {
    assert forall i :: 0 <= i < |"b1234567890123456789012345678912"| ==> IsSegmentChar("b1234567890123456789012345678912"[i]);
  }

  /** `root:b1234567890123456789012345678912` is a valid cluster. */
  lemma AcceptsLongSegment()
    ensures IsValidCluster(Name("root" + ":" + "b1234567890123456789012345678912"))
  {
    var segs := ["root", "b1234567890123456789012345678912"];
    assert ValidSegment(segs[1]) by { LongSegmentValid(); }
    assert Join(segs) == segs[0] + [Separator] + segs[1];
    RootedSegmentsAccepted(segs);
  }

  /** The UUID-like segment of the table is grammatical. */
  lemma UuidSegmentValid()
    ensures ValidSegment("test-8827a131-f796-4473" + "-8904-a0fa527696eb")
  {
    assert ValidSegment("test-8827a131-f796-4473");
    assert forall i :: 0 <= i < |"-8904-a0fa527696eb"| ==> IsSegmentChar("-8904-a0fa527696eb"[i]);
    SegmentExtended("test-8827a131-f796-4473", "-8904-a0fa527696eb");
  }

  /** The long segments of `root:test-8827a131-f796-4473-8904-a0fa527696eb:b1234567890123456789012345678912` make a valid cluster. */
  lemma AcceptsUuidSegment()
    ensures IsValidCluster(Name("root" + ":" + ("test-8827a131-f796-4473" + "-8904-a0fa527696eb") + ":" + "b1234567890123456789012345678912"))
  {
    var segs := ["root", "test-8827a131-f796-4473" + "-8904-a0fa527696eb", "b1234567890123456789012345678912"];
    assert ValidSegment(segs[1]) by { UuidSegmentValid(); }
    assert ValidSegment(segs[2]) by { LongSegmentValid(); }
    Join3(segs);
    RootedSegmentsAccepted(segs);
  }

  /** The over-long segment of the table is grammatical. */
  lemma OverlongSegmentValid()
    ensures ValidSegment("test-too-long-org-0020-4473-0030" + "-a0fa-0040-5276-0050-sdg2-0060")
  {
    assert ValidSegment("test-too-long-org-0020-4473-0030");
    assert forall i :: 0 <= i < |"-a0fa-0040-5276-0050-sdg2-0060"| ==> IsSegmentChar("-a0fa-0040-5276-0050-sdg2-0060"[i]);
    SegmentExtended("test-too-long-org-0020-4473-0030", "-a0fa-0040-5276-0050-sdg2-0060");
  }

  /** `root:test-too-long-org-0020-4473-0030-a0fa-0040-5276-0050-sdg2-0060:b1234567890123456789012345678912` is a valid cluster: no length limit applies. */
  lemma AcceptsOverlongSegment()
    ensures IsValidCluster(Name("root" + ":" + ("test-too-long-org-0020-4473-0030" + "-a0fa-0040-5276-0050-sdg2-0060") + ":" + "b1234567890123456789012345678912"))
  {
    var segs := ["root", "test-too-long-org-0020-4473-0030" + "-a0fa-0040-5276-0050-sdg2-0060", "b1234567890123456789012345678912"];
    assert ValidSegment(segs[1]) by { OverlongSegmentValid(); }
    assert ValidSegment(segs[2]) by { LongSegmentValid(); }
    Join3(segs);
    RootedSegmentsAccepted(segs);
  }

  /** The empty name is refused. */
  lemma RejectsEmpty()
    ensures !IsValidCluster(Name(""))
  {
    EmptyNameInvalid();
  }

  /** `foo` is refused: not rooted. */
  lemma RejectsFoo()
    ensures !IsValidCluster(Name("foo"))
  {
    SegmentsOfSegment("foo");
    UnrootedRejected(Name("foo"));
  }

  /** `foo:bar` is refused: not rooted. */
  lemma RejectsFooBar()
    ensures !IsValidCluster(Name("foo:bar"))
  {
    assert "foo:bar" == "foo" + [Separator] + "bar";
    SegmentsAppend("foo", "bar");
    SegmentsOfSegment("foo");
    UnrootedRejected(Name("foo:bar"));
  }

  /** `root:` is refused: empty last segment. */
  lemma RejectsTrailingColon()
    ensures !IsValidCluster(Name("root:"))
  {
    assert "root:" == "root" + [Separator];
    EmptySegmentRejected("root", "");
  }

  /** `:root` is refused: empty first segment. */
  lemma RejectsLeadingColon()
    ensures !IsValidCluster(Name(":root"))
  {
    assert ":root" == [Separator] + "root";
    EmptySegmentRejected("root", "");
  }

  /** `root::foo` is refused: empty inner segment. */
  lemma RejectsDoubleColon()
    ensures !IsValidCluster(Name("root::foo"))
  {
    assert "root::foo" == "root" + [Separator, Separator] + "foo";
    EmptySegmentRejected("root", "foo");
  }

  /** `root:föö:bär` is refused: non-ASCII letters. */
  lemma RejectsNonAscii()
    ensures !IsValidCluster(Name("root:föö:bär"))
  {
    ForeignCharRejected(Name("root:föö:bär"), 6);
  }

  /** `root:bar_bar` is refused: `_`. */
  lemma RejectsUnderscore()
    ensures !IsValidCluster(Name("root:bar_bar"))
  {
    ForeignCharRejected(Name("root:bar_bar"), 8);
  }

  /** `root/bar` is refused: `/`. */
  lemma RejectsSlash()
    ensures !IsValidCluster(Name("root/bar"))
  {
    ForeignCharRejected(Name("root/bar"), 4);
  }

  /** `root:0a` is refused: leading digit. */
  lemma RejectsDigitA()
    ensures !IsValidCluster(Name("root:0a"))
  {
    assert Join(["root", "0a"]) == "root:0a";
    BadSegmentRejected(["root", "0a"], 1);
  }

  /** `root:0bar` is refused: leading digit. */
  lemma RejectsDigitBar()
    ensures !IsValidCluster(Name("root:0bar"))
  {
    assert Join(["root", "0bar"]) == "root:0bar";
    BadSegmentRejected(["root", "0bar"], 1);
  }

  /** `root:bar-` is refused: trailing `-`. */
  lemma RejectsTrailingHyphen()
    ensures !IsValidCluster(Name("root:bar-"))
  {
    assert Join(["root", "bar-"]) == "root:bar-";
    BadSegmentRejected(["root", "bar-"], 1);
  }

  /** `root:-bar` is refused: leading `-`. */
  lemma RejectsLeadingHyphen()
    ensures !IsValidCluster(Name("root:-bar"))
  {
    assert Join(["root", "-bar"]) == "root:-bar";
    BadSegmentRejected(["root", "-bar"], 1);
  }

  /** `/clusters/root` yields the empty residual and cluster `root`. */
  lemma PathClustersRoot()
    ensures SplitClusterPath("/clusters/root") == Some(("", Name("root")))
  {
    assert "/clusters/root" == "" + ClustersMarker + "root" + "";
    assert IsValidCluster(Name("root")) by { AcceptsRoot(); }
    ClustersRoundTripFreshBase("", Name("root"), "");
  }

  /** `/clusters/root:foo` yields the empty residual and cluster `root:foo`. */
  lemma PathClustersRootFoo()
    ensures SplitClusterPath("/clusters/root:foo") == Some(("", Name("root:foo")))
  {
    assert "/clusters/root:foo" == "" + ClustersMarker + "root:foo" + "";
    assert IsValidCluster(Name("root:foo")) by { AcceptsRootFoo(); }
    ClustersRoundTripFreshBase("", Name("root:foo"), "");
  }

  /** `/clusters/system:foo` yields the empty residual and cluster `system:foo`. */
  lemma PathClustersSystemFoo()
    ensures SplitClusterPath("/clusters/system:foo") == Some(("", Name("system:foo")))
  {
    assert "/clusters/system:foo" == "" + ClustersMarker + "system:foo" + "";
    assert IsValidCluster(Name("system:foo")) by { AcceptsSystemFoo(); }
    ClustersRoundTripFreshBase("", Name("system:foo"), "");
  }

  /** `/clusters/root:foo:bar` yields the empty residual and cluster `root:foo:bar`. */
  lemma PathClustersRootFooBar()
    ensures SplitClusterPath("/clusters/root:foo:bar") == Some(("", Name("root:foo:bar")))
  {
    assert "/clusters/root:foo:bar" == "" + ClustersMarker + "root:foo:bar" + "";
    assert IsValidCluster(Name("root:foo:bar")) by { AcceptsRootFooBar(); }
    ClustersRoundTripFreshBase("", Name("root:foo:bar"), "");
  }

  /** `/clusters/root:foo/abc` yields the empty residual and cluster `root:foo`. */
  lemma PathClustersTrailing()
    ensures SplitClusterPath("/clusters/root:foo/abc") == Some(("", Name("root:foo")))
  {
    assert "/clusters/root:foo/abc" == "" + ClustersMarker + "root:foo" + "/abc";
    assert IsValidCluster(Name("root:foo")) by { AcceptsRootFoo(); }
    ClustersRoundTripFreshBase("", Name("root:foo"), "/abc");
  }

  /** `/abc/clusters/root:foo` yields residual `/abc` and cluster `root:foo`. */
  lemma PathClustersBelowBase()
    ensures SplitClusterPath("/abc/clusters/root:foo") == Some(("/abc", Name("root:foo")))
  {
    assert "/abc/clusters/root:foo" == "/abc" + ClustersMarker + "root:foo" + "";
    AbsentByFirstPair("/abc", ClustersMarker);
    assert IsValidCluster(Name("root:foo")) by { AcceptsRootFoo(); }
    ClustersRoundTripFreshBase("/abc", Name("root:foo"), "");
  }

  /** `/services/workspaces/root:foo:bar` yields the empty residual and cluster `root:foo:bar`. */
  lemma PathWorkspaces()
    ensures SplitClusterPath(WorkspacesMarker + "root:foo:bar" + "") == Some(("", Name("root:foo:bar")))
  {
    AcceptsRootFooBar();
    WorkspacesRoundTripFromRoot(Name("root:foo:bar"), "");
  }

  /** `/services/workspaces/root:foo:bar/abc` yields the empty residual and cluster `root:foo:bar`. */
  lemma PathWorkspacesTrailing()
    ensures SplitClusterPath(WorkspacesMarker + "root:foo:bar" + "/abc") == Some(("", Name("root:foo:bar")))
  {
    AcceptsRootFooBar();
    WorkspacesRoundTripFromRoot(Name("root:foo:bar"), "/abc");
  }

  /** The empty path is refused: no marker. */
  lemma PathEmpty()
    ensures SplitClusterPath("") == None
  {
    NoMarkerRefused("");
  }

  /** `garbgae` is refused: no marker. */
  lemma PathGarbage()
    ensures SplitClusterPath("garbgae") == None
  {
    NoMarkerRefused("garbgae");
  }

  /** `/foo` is refused: no marker. */
  lemma PathFoo()
    ensures SplitClusterPath("/foo") == None
  {
    NoMarkerRefused("/foo");
  }

  /** `/clusters` is refused: no marker. */
  lemma PathClustersNoSlash()
    ensures SplitClusterPath("/clusters") == None
  {
    NoMarkerRefused("/clusters");
  }

  /** `/services/workspaces` is refused: no marker. */
  lemma PathWorkspacesNoSlash()
    ensures SplitClusterPath("/services/workspaces") == None
  {
    AbsentByFirstPair("/services/workspaces", ClustersMarker);
    NoMarkerRefused("/services/workspaces");
  }

  /** `/clusters/abc:def` is refused: the cluster is not rooted. */
  lemma PathUnrooted()
    ensures SplitClusterPath(ClustersMarker + "abc:def") == None
  {
    assert !IsValidCluster(Name("abc:def")) by {
      assert "abc:def" == "abc" + [Separator] + "def";
      SegmentsAppend("abc", "def");
      SegmentsOfSegment("abc");
      UnrootedRejected(Name("abc:def"));
    }
    ClustersAtStart("abc:def", "");
    assert ClustersMarker + "abc:def" + "" == ClustersMarker + "abc:def";
  }

  /** `/clusters/` is refused: empty cluster segment. */
  lemma PathClustersEmpty()
    ensures SplitClusterPath("/clusters/") == None
  {
    assert OccursAt("/clusters/", ClustersMarker, 0);
    EmptyNameInvalid();
    ClustersMarkerFirst("/clusters/");
  }

  /** `/services/workspaces/` is refused: empty cluster segment. */
  lemma PathWorkspacesEmpty()
    ensures SplitClusterPath("/services/workspaces/") == None
  {
    var path := "/services/workspaces/";
    assert OccursAt(path, WorkspacesMarker, 0);
    AbsentByFirstPair(path, ClustersMarker);
    EmptyNameInvalid();
    WorkspacesMarkerSecond(path);
  }

  /** The selector of the table. */
  lemma SelectorExample()
    ensures WorkspaceLabelSelector("cool-ws") == "workspaces.kcp.dev/name=cool-ws"
  {
  }

  /** The qualified name of the table's object without a namespace. */
  lemma QualifiedObjectNameWithoutNamespace()
    ensures QualifiedObjectName(ObjectMeta(Name("cool-cluster"), "", "cool-name")) == "cool-cluster|cool-name"
  {
  }

  /** The qualified name of the table's namespaced object. */
  lemma QualifiedObjectNameWithNamespace()
    ensures QualifiedObjectName(ObjectMeta(Name("cool-cluster"), "cool-namespace", "cool-name"))
         == "cool-cluster|cool-namespace/cool-name"
  {
  }
}
