# kcp tenancy helper, modelled in Dafny

This project models the naming and addressing helper of kcp's tenancy API (`pkg/apis/tenancy/v1alpha1/helper/helper.go`):

- `IsValidCluster` decides whether a logical-cluster name follows the naming grammar and lies below `root` or `system`.
- `QualifiedObjectName` formats an object's key as `cluster|namespace/name`, or as `cluster|name` when there is no namespace.
- `WorkspaceLabelSelector` builds the `workspaces.kcp.dev/name=<name>` selector.
- `DefaultRootPathPrefix` is the `/services` path prefix.
- `ParseClusterURL` takes a cluster workspace URL apart:
  - it looks for `/clusters/`, then for `path.Join("/services", "workspaces") + "/"`;
  - the first marker that occurs decides, at its leftmost occurrence;
  - the path segment after the marker is the cluster;
  - the path is cut before the marker;
  - the URL is refused unless that cluster is valid.

Files:

- `wrappers.dfy`: `Option`.
- `strings.dfy`: the parts of Go's `strings` package the helper uses. `Index` returns -1 when there is no occurrence, as Go does. `FirstPathSegment` is `SplitN(s, "/", 2)[0]`. Generic facts about occurrences live here too.
- `logicalcluster.dfy`: the `logicalcluster.Name` type, with the segment grammar that the helper's test table fixes.
- `helper.dfy`: the helper itself. The marker loop of `ParseClusterURL` (copy the URL, try each marker, cut the path, leave at the first hit) is the method `CutAtMarker`, which keeps the source's loop and early exit. `ParseClusterURL` calls it, then makes the final validity check. `CutAtMarker` is proved against the function `MarkerCut`, and `ParseClusterURL` against `SplitClusterPath`, which is the final check applied to `MarkerCut`.
- `helper_properties.dfy`: properties that hold for all inputs. It also holds `ParseQualifiedObjectName`, a reference parser used as the partner of the formatter.
- `helper_examples.dfy`: every row of the helper's test tables, each stated as a lemma.

## Model

| member | source | states |
|---|---|---|
| Strings.Index | pkg/apis/tenancy/v1alpha1/helper/helper.go:75 | `strings.Index`: -1 exactly when the pattern does not occur; otherwise an occurrence with none before it |
| Strings.FirstPathSegment | pkg/apis/tenancy/v1alpha1/helper/helper.go:76 | `SplitN(s, "/", 2)[0]`: a prefix of `s` without `/`, ending at the end of `s` or just before its first `/` |
| LogicalCluster.Segments | pkg/apis/tenancy/v1alpha1/helper/helper_test.go:52-54 | splitting a name at `:` gives at least one piece, and no piece holds `:` |
| LogicalCluster.SegmentsJoin | pkg/apis/tenancy/v1alpha1/helper/helper_test.go:35-48 | segments without `:`, joined with `:`, split back into the same segments |
| LogicalCluster.SegmentsAppend | pkg/apis/tenancy/v1alpha1/helper/helper_test.go:52-54 | the segments of `a:b` are the segments of `a` followed by those of `b` |
| LogicalCluster.HasPrefixIsHeadSegment | pkg/apis/tenancy/v1alpha1/helper/helper.go:41 | for `r` without `:`, a name has prefix `r` (read segment-wise) exactly when its first segment is `r` |
| Helper.FirstMarker | pkg/apis/tenancy/v1alpha1/helper/helper.go:74-75 | the first order-wise marker that occurs, at its leftmost offset; every earlier marker (every marker, when none is found) is absent |
| Helper.SplitClusterPathFound | pkg/apis/tenancy/v1alpha1/helper/helper.go:74-81 | once marker `i` is the first found, the result is the segment after its leftmost occurrence, with the prefix before it, if that segment is a non-empty valid cluster |
| Helper.SplitClusterPathNotFound | pkg/apis/tenancy/v1alpha1/helper/helper.go:74-83 | when no marker occurs, the path is refused |
| Helper.MarkerCutFound | pkg/apis/tenancy/v1alpha1/helper/helper.go:74-78 | once marker `i` is the first found, the loop leaves the path before its leftmost occurrence and the segment after it, valid or not |
| Helper.MarkerCutNotFound | pkg/apis/tenancy/v1alpha1/helper/helper.go:72-80 | when no marker occurs, the loop leaves the path untouched and the zero name |
| Helper.CutAtMarker | pkg/apis/tenancy/v1alpha1/helper/helper.go:72-80 | the returned URL is the input with only its path replaced, and the path and cluster are exactly what `MarkerCut` gives. So with no marker the URL comes back unchanged with the zero name. Otherwise the path is cut before the first marker found and the cluster is the segment after it, even one the final check will refuse |
| Helper.ParseClusterURL | pkg/apis/tenancy/v1alpha1/helper/helper.go:67-86 | a URL that does not parse, or whose path `SplitClusterPath` refuses, gives no URL, the zero name and an error. Otherwise it gives the input URL with only its path replaced by the residual, plus the cluster, and no error |
| HelperProperties.IsValidClusterIff | pkg/apis/tenancy/v1alpha1/helper/helper.go:36-42 | valid cluster iff grammatical name whose first segment is `root` or `system` |
| HelperProperties.ValidClusterChars | pkg/apis/tenancy/v1alpha1/helper/helper_test.go:55-59 | a valid cluster holds only `[a-z0-9-]` and `:`; in particular no `/` and no vertical bar |
| HelperProperties.ForeignCharRejected | pkg/apis/tenancy/v1alpha1/helper/helper_test.go:55-56 | any character outside `[a-z0-9-:]` (non-ASCII, `_`, `/`, upper case) makes the name invalid |
| HelperProperties.BadSegmentRejected | pkg/apis/tenancy/v1alpha1/helper/helper_test.go:57-61 | a single ungrammatical segment (empty, leading digit or `-`, trailing `-`) makes the whole name invalid |
| HelperProperties.EmptySegmentRejected | pkg/apis/tenancy/v1alpha1/helper/helper_test.go:52-54 | a trailing `:`, a leading `:` or a `::` anywhere makes any name invalid |
| HelperProperties.RootedSegmentsAccepted | pkg/apis/tenancy/v1alpha1/helper/helper_test.go:35-48 | grammatical segments of any length, headed by `root` or `system`, form a valid cluster |
| HelperProperties.UnrootedRejected | pkg/apis/tenancy/v1alpha1/helper/helper_test.go:50-51 | a name whose first segment is neither `root` nor `system` is invalid |
| HelperProperties.QualifiedObjectNameRoundTrip | pkg/apis/tenancy/v1alpha1/helper/helper.go:47-52 | when the cluster has no vertical bar and the namespace and name have no `/`, the reference parser reads the key back as the object, in both namespace cases |
| HelperProperties.QualifiedObjectNameInjective | pkg/apis/tenancy/v1alpha1/helper/helper.go:47-52 | under those conditions, equal keys mean equal objects |
| HelperProperties.QualifiedObjectNameCollision | pkg/apis/tenancy/v1alpha1/helper/helper.go:47-52 | without those conditions two different objects share a key, since the formatter validates nothing |
| HelperProperties.WorkspaceLabelSelectorSplits | pkg/apis/tenancy/v1alpha1/helper/helper.go:56-58 | the selector's first `=` follows the label key, and the name after it is kept verbatim |
| HelperProperties.EmptyNameInvalid | pkg/apis/tenancy/v1alpha1/helper/helper.go:81 | the zero name is never a valid cluster |
| HelperProperties.AcceptIsValidity | pkg/apis/tenancy/v1alpha1/helper/helper.go:81 | the emptiness test is subsumed by validity: a cluster is accepted iff it is valid |
| HelperProperties.ClustersMarkerFirst | pkg/apis/tenancy/v1alpha1/helper/helper.go:74-81 | whenever `/clusters/` occurs, its leftmost occurrence alone decides the result, whatever else the path holds |
| HelperProperties.WorkspacesMarkerSecond | pkg/apis/tenancy/v1alpha1/helper/helper.go:74-81 | when `/clusters/` is absent and `/services/workspaces/` occurs, the leftmost occurrence of the latter decides |
| HelperProperties.NoMarkerRefused | pkg/apis/tenancy/v1alpha1/helper/helper.go:74-83 | a path with neither marker is refused |
| HelperProperties.SplitClusterPathSound | pkg/apis/tenancy/v1alpha1/helper/helper.go:74-85 | every accepted cluster is valid and has no `/`. The path is the residual, then the leftmost occurrence of a marker, then the cluster, then the end or a `/` |
| HelperProperties.ClustersRoundTrip | pkg/apis/tenancy/v1alpha1/helper/helper.go:74-85 | if `/clusters/` first occurs in `p + "/clusters/" + c` right after `p`, and `c` is valid, the parse gives back `p` and `c`, with or without a trailing `/...` |
| HelperProperties.WorkspacesRoundTrip | pkg/apis/tenancy/v1alpha1/helper/helper.go:74-85 | the same for `/services/workspaces/`, when `/clusters/` is absent from the whole path |
| HelperProperties.WorkspacesRoundTripFromRoot | pkg/apis/tenancy/v1alpha1/helper/helper.go:74-85 | `/services/workspaces/` + a valid cluster + a tail with no `/c` parses to the empty residual and that cluster |
| HelperProperties.WorkspacesMarkerValue | pkg/apis/tenancy/v1alpha1/helper/helper.go:74 | the markers are `/clusters/` and `/services/workspaces/`, in that order |
| HelperProperties.FreshBase | pkg/apis/tenancy/v1alpha1/helper/helper.go:75 | the appended `/clusters/` is the leftmost occurrence whenever the base path neither contains `/clusters/` nor ends in `/clusters` |
| HelperProperties.ClustersRoundTripFreshBase | pkg/apis/tenancy/v1alpha1/helper/helper.go:74-85 | the round trip for every base path that meets those two conditions |
| HelperProperties.ClustersAtStart | pkg/apis/tenancy/v1alpha1/helper/helper.go:74-83 | a path that starts with `/clusters/` is decided by the segment right after it: accepted with the empty residual if that segment is valid, refused otherwise |
| HelperProperties.BaseEndingInClustersBreaksRoundTrip | pkg/apis/tenancy/v1alpha1/helper/helper.go:75-76 | the second condition is needed: for every valid `c`, base `/clusters` followed by `/clusters/` + `c` is refused, because the marker is found one segment early and names `clusters` |
| HelperProperties.FreshBaseBySlashC | pkg/apis/tenancy/v1alpha1/helper/helper.go:75 | a base path in which `/` is never directly followed by `c` meets both conditions |
| HelperProperties.ClustersMarkerWinsOverWorkspaces | pkg/apis/tenancy/v1alpha1/helper/helper.go:74-79 | for valid `a` and `b`, `/services/workspaces/` + `a` + `/clusters/` + `b` names `b`, below the base `/services/workspaces/` + `a`. `/clusters/` wins even though the other marker comes first in the path |
| HelperExamples.RejectsEmpty | pkg/apis/tenancy/v1alpha1/helper/helper_test.go:33 | The empty name is refused. |
| HelperExamples.AcceptsRoot | pkg/apis/tenancy/v1alpha1/helper/helper_test.go:35 | `root` is a valid cluster. |
| HelperExamples.AcceptsRootA | pkg/apis/tenancy/v1alpha1/helper/helper_test.go:36 | `root:a` is a valid cluster. |
| HelperExamples.AcceptsRootAB | pkg/apis/tenancy/v1alpha1/helper/helper_test.go:37 | `root:a:b` is a valid cluster. |
| HelperExamples.AcceptsRootFoo | pkg/apis/tenancy/v1alpha1/helper/helper_test.go:38 | `root:foo` is a valid cluster. |
| HelperExamples.AcceptsRootFooBar | pkg/apis/tenancy/v1alpha1/helper/helper_test.go:39 | `root:foo:bar` is a valid cluster. |
| HelperExamples.AcceptsSystem | pkg/apis/tenancy/v1alpha1/helper/helper_test.go:41 | `system` is a valid cluster. |
| HelperExamples.AcceptsSystemFoo | pkg/apis/tenancy/v1alpha1/helper/helper_test.go:42 | `system:foo` is a valid cluster. |
| HelperExamples.AcceptsSystemFooBar | pkg/apis/tenancy/v1alpha1/helper/helper_test.go:43 | `system:foo:bar` is a valid cluster. |
| HelperExamples.LongSegmentValid | pkg/apis/tenancy/v1alpha1/helper/helper_test.go:46 | The 32-character segment of the table is grammatical. |
| HelperExamples.AcceptsLongSegment | pkg/apis/tenancy/v1alpha1/helper/helper_test.go:46 | `root:b1234567890123456789012345678912` is a valid cluster. |
| HelperExamples.UuidSegmentValid | pkg/apis/tenancy/v1alpha1/helper/helper_test.go:47 | The UUID-like segment of the table is grammatical. |
| HelperExamples.AcceptsUuidSegment | pkg/apis/tenancy/v1alpha1/helper/helper_test.go:47 | The long segments of `root:test-8827a131-f796-4473-8904-a0fa527696eb:b1234567890123456789012345678912` make a valid cluster. |
| HelperExamples.OverlongSegmentValid | pkg/apis/tenancy/v1alpha1/helper/helper_test.go:48 | The over-long segment of the table is grammatical. |
| HelperExamples.AcceptsOverlongSegment | pkg/apis/tenancy/v1alpha1/helper/helper_test.go:48 | `root:test-too-long-org-0020-4473-0030-a0fa-0040-5276-0050-sdg2-0060:b1234567890123456789012345678912` is a valid cluster: no length limit applies. |
| HelperExamples.RejectsFoo | pkg/apis/tenancy/v1alpha1/helper/helper_test.go:50 | `foo` is refused: not rooted. |
| HelperExamples.RejectsFooBar | pkg/apis/tenancy/v1alpha1/helper/helper_test.go:51 | `foo:bar` is refused: not rooted. |
| HelperExamples.RejectsTrailingColon | pkg/apis/tenancy/v1alpha1/helper/helper_test.go:52 | `root:` is refused: empty last segment. |
| HelperExamples.RejectsLeadingColon | pkg/apis/tenancy/v1alpha1/helper/helper_test.go:53 | `:root` is refused: empty first segment. |
| HelperExamples.RejectsDoubleColon | pkg/apis/tenancy/v1alpha1/helper/helper_test.go:54 | `root::foo` is refused: empty inner segment. |
| HelperExamples.RejectsNonAscii | pkg/apis/tenancy/v1alpha1/helper/helper_test.go:55 | `root:föö:bär` is refused: non-ASCII letters. |
| HelperExamples.RejectsUnderscore | pkg/apis/tenancy/v1alpha1/helper/helper_test.go:56 | `root:bar_bar` is refused: `_`. |
| HelperExamples.RejectsDigitA | pkg/apis/tenancy/v1alpha1/helper/helper_test.go:57 | `root:0a` is refused: leading digit. |
| HelperExamples.RejectsDigitBar | pkg/apis/tenancy/v1alpha1/helper/helper_test.go:58 | `root:0bar` is refused: leading digit. |
| HelperExamples.RejectsSlash | pkg/apis/tenancy/v1alpha1/helper/helper_test.go:59 | `root/bar` is refused: `/`. |
| HelperExamples.RejectsTrailingHyphen | pkg/apis/tenancy/v1alpha1/helper/helper_test.go:60 | `root:bar-` is refused: trailing `-`. |
| HelperExamples.RejectsLeadingHyphen | pkg/apis/tenancy/v1alpha1/helper/helper_test.go:61 | `root:-bar` is refused: leading `-`. |
| HelperExamples.QualifiedObjectNameWithoutNamespace | pkg/apis/tenancy/v1alpha1/helper/helper_test.go:77-82 | the key of the table's object without a namespace is its cluster, a vertical bar and its name |
| HelperExamples.QualifiedObjectNameWithNamespace | pkg/apis/tenancy/v1alpha1/helper/helper_test.go:83-89 | the key of the table's namespaced object is its cluster, a vertical bar, its namespace, `/` and its name |
| HelperExamples.SelectorExample | pkg/apis/tenancy/v1alpha1/helper/helper_test.go:105 | the selector for `cool-ws` is `workspaces.kcp.dev/name=cool-ws` |
| HelperExamples.PathEmpty | pkg/apis/tenancy/v1alpha1/helper/helper_test.go:123 | The empty path is refused: no marker. |
| HelperExamples.PathGarbage | pkg/apis/tenancy/v1alpha1/helper/helper_test.go:124 | `garbgae` is refused: no marker. |
| HelperExamples.PathFoo | pkg/apis/tenancy/v1alpha1/helper/helper_test.go:125 | `/foo` is refused: no marker. |
| HelperExamples.PathClustersRoot | pkg/apis/tenancy/v1alpha1/helper/helper_test.go:126 | `/clusters/root` yields the empty residual and cluster `root`. |
| HelperExamples.PathClustersRootFoo | pkg/apis/tenancy/v1alpha1/helper/helper_test.go:127 | `/clusters/root:foo` yields the empty residual and cluster `root:foo`. |
| HelperExamples.PathClustersSystemFoo | pkg/apis/tenancy/v1alpha1/helper/helper_test.go:128 | `/clusters/system:foo` yields the empty residual and cluster `system:foo`. |
| HelperExamples.PathUnrooted | pkg/apis/tenancy/v1alpha1/helper/helper_test.go:129 | `/clusters/abc:def` is refused: the cluster is not rooted. |
| HelperExamples.PathClustersEmpty | pkg/apis/tenancy/v1alpha1/helper/helper_test.go:130 | `/clusters/` is refused: empty cluster segment. |
| HelperExamples.PathClustersNoSlash | pkg/apis/tenancy/v1alpha1/helper/helper_test.go:131 | `/clusters` is refused: no marker. |
| HelperExamples.PathClustersRootFooBar | pkg/apis/tenancy/v1alpha1/helper/helper_test.go:132 | `/clusters/root:foo:bar` yields the empty residual and cluster `root:foo:bar`. |
| HelperExamples.PathClustersTrailing | pkg/apis/tenancy/v1alpha1/helper/helper_test.go:133 | `/clusters/root:foo/abc` yields the empty residual and cluster `root:foo`. |
| HelperExamples.PathWorkspaces | pkg/apis/tenancy/v1alpha1/helper/helper_test.go:134 | `/services/workspaces/root:foo:bar` yields the empty residual and cluster `root:foo:bar`. |
| HelperExamples.PathWorkspacesTrailing | pkg/apis/tenancy/v1alpha1/helper/helper_test.go:135 | `/services/workspaces/root:foo:bar/abc` yields the empty residual and cluster `root:foo:bar`. |
| HelperExamples.PathWorkspacesEmpty | pkg/apis/tenancy/v1alpha1/helper/helper_test.go:136 | `/services/workspaces/` is refused: empty cluster segment. |
| HelperExamples.PathWorkspacesNoSlash | pkg/apis/tenancy/v1alpha1/helper/helper_test.go:137 | `/services/workspaces` is refused: no marker. |
| HelperExamples.PathClustersBelowBase | pkg/apis/tenancy/v1alpha1/helper/helper_test.go:138 | `/abc/clusters/root:foo` yields residual `/abc` and cluster `root:foo`. |

The rows for `""`, `garbgae` and `https://host/foo` are stated on the path, as `PathEmpty`, `PathGarbage` and `PathFoo`. For those inputs the parser finds no marker.

## Left out

- `url.Parse` is a parameter, `string -> Option<Url>`. The net/url package is not part of this model, and neither is `URL.String()`. The examples therefore state the table's URLs through their paths.
- `Url` is a record of the fields of Go's `url.URL`. `User` is a plain string and `OmitHost` is not modelled. Only `path` is changed. `rawPath` is kept as it is, just as the source's copy `ret := *u` keeps it.
- `logicalcluster.Name` is modelled in this repository's own terms. That library is not part of this model. Its grammar is inferred from the helper's test table, which rejects a leading digit (`root:0a`). A grammar that allows `[a-z0-9]` as the first character would accept it, so the table decides.
- `LogicalCluster.Name.HasPrefix` is read segment-wise: the name equals `r`, or starts with `r` followed by `:`. No test row separates this from a plain string prefix such as `rootx`.
- `metav1.Object` and its annotation lookup are reduced to a `(cluster, namespace, name)` record.
- `v1alpha1.RootCluster` and `v1beta1.WorkspaceNameLabel` are defined elsewhere. They appear here as the literal values the tests fix: `root` and `workspaces.kcp.dev/name`.
- `Helper.PathJoin` models `path.Join` only for two clean, non-empty elements, which is the one call the helper makes.
- The text of the error built with `fmt.Errorf` is not modelled, nor is the URL parser's own error. `ParseError` records only which step refused the input.
- Strings are sequences of characters, while Go indexes bytes. The two agree on ASCII, and any non-ASCII character makes a cluster invalid.
- `HelperExamples.PathWorkspaces`, `HelperExamples.PathWorkspacesTrailing`, `HelperExamples.PathUnrooted`: these state the path as a marker constant followed by the rest, for example `ClustersMarker + "abc:def"`, and not as one literal. `HelperProperties.WorkspacesMarkerValue` proves what the two constants are.
