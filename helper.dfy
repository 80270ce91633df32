/**
 * The tenancy helper: validation of logical-cluster names, the qualified key of
 * an object, the workspace label selector, and the parser that takes a cluster
 * workspace URL apart into its base URL and the cluster it points to.
 */
module Helper {
  import opened Wrappers
  import opened Strings
  import opened LogicalCluster

  /** The root of the logical-cluster tree. */
  const RootCluster: Name := Name("root")

  /** The root under which system logical clusters live. */
  const SystemCluster: Name := Name("system")

  /** The label that carries a workspace's name. */
  const WorkspaceNameLabel: string := "workspaces.kcp.dev/name"

  /** The path under which the server serves its virtual workspaces; external tools depend on it. */
  const DefaultRootPathPrefix: string := "/services"

  /** `path.Join(a, b)` for two clean, non-empty elements: `a` has no trailing and `b` no leading `/`. */
  function PathJoin(a: string, b: string): string
  {
    a + "/" + b
  }

  /** The URL path markers a cluster workspace URL may carry, in the order they are tried. */
  const ClustersMarker: string := "/clusters/"
  const WorkspacesMarker: string := PathJoin(DefaultRootPathPrefix, "workspaces") + "/"
  const Markers: seq<string> := [ClustersMarker, WorkspacesMarker]

  /** A name is a valid cluster when it follows the grammar and lies below `root` or `system`. */
  predicate IsValidCluster(cluster: Name)
  {
    if !cluster.IsValid() then false
    else cluster.HasPrefix(RootCluster) || cluster.HasPrefix(SystemCluster)
  }

  /** The part of an object the helper reads: its logical cluster, namespace and name. */
  datatype ObjectMeta = ObjectMeta(cluster: Name, namespace: string, name: string)

  /** The fully qualified identifier of an object: `cluster|namespace/name`, or `cluster|name` without a namespace. */
  function QualifiedObjectName(obj: ObjectMeta): string
  {
    if |obj.namespace| > 0 then obj.cluster.value + "|" + obj.namespace + "/" + obj.name
    else obj.cluster.value + "|" + obj.name
  }

  /** The label selector for the objects of workspace `name`. */
  function WorkspaceLabelSelector(name: string): string
  {
    WorkspaceNameLabel + "=" + name
  }

  /** A parsed URL; the parser below touches `path` only. */
  datatype Url = Url(
    scheme: string,
    opaqueData: string,
    user: string,
    host: string,
    path: string,
    rawPath: string,
    forceQuery: bool,
    rawQuery: string,
    fragment: string,
    rawFragment: string)

  /** Why a cluster URL was refused: not a URL at all, or a URL that points to no valid cluster. */
  datatype ParseError = MalformedURL | InvalidClusterURL

  /**
   * The first of `markers` that occurs in `path`, as (its position in `markers`,
   * the offset of its leftmost occurrence), or None when none occurs.
   */
  function FirstMarker(markers: seq<string>, path: string): (r: Option<(nat, nat)>)
    ensures r.Some? ==> r.value.0 < |markers| && Index(path, markers[r.value.0]) == r.value.1
    ensures forall k :: 0 <= k < |markers| && (r.None? || k < r.value.0) ==> Index(path, markers[k]) == -1
  {
    if |markers| == 0 then None
    else
      var i := Index(path, markers[0]);
      if i >= 0 then Some((0, i))
      else match FirstMarker(markers[1..], path)
        case None => None
        case Some((k, j)) => Some((k + 1, j))
  }

  /** The first marker found is the one at position `i` when the earlier ones do not occur and it does. */
  lemma FirstMarkerAt(markers: seq<string>, path: string, i: nat)
    requires i < |markers|
    requires forall k :: 0 <= k < i ==> Index(path, markers[k]) == -1
    requires Index(path, markers[i]) >= 0
    ensures FirstMarker(markers, path) == Some((i, Index(path, markers[i]) as nat))
  {
  }

  /** No marker is found when none occurs. */
  lemma FirstMarkerNone(markers: seq<string>, path: string)
    requires forall k :: 0 <= k < |markers| ==> Index(path, markers[k]) == -1
    ensures FirstMarker(markers, path).None?
  {
  }

  /**
   * What the marker loop leaves behind: the path before the first marker found
   * and the path segment after it, valid or not; the untouched path and the zero
   * name when no marker occurs.
   */
  function MarkerCut(path: string): (string, Name)
  {
    match FirstMarker(Markers, path)
    case None => (path, Name(""))
    case Some((k, i)) => (path[..i], Name(FirstPathSegment(path[i + |Markers[k]|..])))
  }

  /**
   * The path part of the parse: the residual path before the first marker found
   * and the cluster named by the path segment after it, or None when no marker
   * occurs or that segment is not a valid cluster.
   */
  function SplitClusterPath(path: string): Option<(string, Name)>
  {
    Accept(MarkerCut(path).0, MarkerCut(path).1)
  }

  /** The final check of the parse: the extracted cluster must be non-empty and valid. */
  function Accept(residual: string, cluster: Name): Option<(string, Name)>
  {
    if cluster.Empty() || !IsValidCluster(cluster) then None else Some((residual, cluster))
  }

  /** The loop's outputs once the marker at position `i` of `Markers` is the first one found. */
  lemma MarkerCutFound(path: string, i: nat)
    requires i < |Markers|
    requires forall k :: 0 <= k < i ==> Index(path, Markers[k]) == -1
    requires Index(path, Markers[i]) >= 0
    ensures var at := Index(path, Markers[i]);
      MarkerCut(path) == (path[..at], Name(FirstPathSegment(path[at + |Markers[i]|..])))
  {
    FirstMarkerAt(Markers, path, i);
  }

  /** The loop's outputs when no marker occurs: the path untouched and the zero name. */
  lemma MarkerCutNotFound(path: string)
    requires forall k :: 0 <= k < |Markers| ==> Index(path, Markers[k]) == -1
    ensures MarkerCut(path) == (path, Name(""))
  {
    FirstMarkerNone(Markers, path);
  }

  /** The path parse once the marker at position `i` of `Markers` is the first one found. */
  lemma SplitClusterPathFound(path: string, i: nat)
    requires i < |Markers|
    requires forall k :: 0 <= k < i ==> Index(path, Markers[k]) == -1
    requires Index(path, Markers[i]) >= 0
    ensures var at := Index(path, Markers[i]);
      SplitClusterPath(path) == Accept(path[..at], Name(FirstPathSegment(path[at + |Markers[i]|..])))
  {
    FirstMarkerAt(Markers, path, i);
  }

  /** The path parse when no marker occurs. */
  lemma SplitClusterPathNotFound(path: string)
    requires forall k :: 0 <= k < |Markers| ==> Index(path, Markers[k]) == -1
    ensures SplitClusterPath(path) == None
  {
    FirstMarkerNone(Markers, path);
  }

  /**
   * The marker loop of the parser: cuts the path of `u` before the first marker
   * found and takes the path segment after it as the cluster, whether or not
   * that segment is valid. When no marker occurs, `u` comes back unchanged with
   * the zero name.
   */
  method CutAtMarker(u: Url) returns (r: Url, clusterName: Name)
    ensures r == u.(path := MarkerCut(u.path).0)
    ensures clusterName == MarkerCut(u.path).1
  {
    r := u;
    clusterName := Name("");
    var i := 0;
    while i < |Markers|
      invariant 0 <= i <= |Markers|
      invariant forall k :: 0 <= k < i ==> Index(u.path, Markers[k]) == -1
      invariant r == u && clusterName == Name("")
    {
      var prefix := Markers[i];
      var clusterIndex := Index(u.path, prefix);
      if clusterIndex >= 0 {
        clusterName := Name(FirstPathSegment(r.path[clusterIndex + |prefix|..]));
        r := r.(path := r.path[..clusterIndex]);
        FirstMarkerAt(Markers, u.path, i);
        return;
      }
      i := i + 1;
    }
    FirstMarkerNone(Markers, u.path);
  }

  /**
   * Parses a cluster workspace URL into the base URL and the cluster it points
   * to. `urlParse` is the URL parser, None when `host` is not a URL. On failure
   * there is no URL and the cluster is the zero name.
   */
  method ParseClusterURL(host: string, urlParse: string -> Option<Url>)
    returns (ret: Option<Url>, clusterName: Name, err: Option<ParseError>)
    ensures urlParse(host).None? ==> ret.None? && clusterName.Empty() && err == Some(MalformedURL)
    ensures urlParse(host).Some? ==>
      var u := urlParse(host).value;
      match SplitClusterPath(u.path)
      case None => ret.None? && clusterName.Empty() && err == Some(InvalidClusterURL)
      case Some((residual, cluster)) => ret == Some(u.(path := residual)) && clusterName == cluster && err.None?
  {
    var parsed := urlParse(host);
    if parsed.None? {
      return None, Name(""), Some(MalformedURL);
    }
    var u := parsed.value;
    var r;
    r, clusterName := CutAtMarker(u);
    if clusterName.Empty() || !IsValidCluster(clusterName) {
      return None, Name(""), Some(InvalidClusterURL);
    }
    return Some(r), clusterName, None;
  }
}
