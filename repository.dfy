/**
 * The content repository as the cleanup engine sees it: a namespace registry
 * (prefix to URI), the node-type registry in the order getAllNodeTypes
 * enumerates it, and oracles for the answers the repository gives to a
 * JCR-SQL2 query and to the two unregister calls. Work-list rows are the
 * string arrays opencsv reads and writes.
 */
module Repository {
  import opened Strings

  /** One CSV record as opencsv returns it: any number of cells. */
  type Row = seq<string>

  /** The canonical header `namespace,namespaceUri,nodeType,resource`. */
  const Header: Row := ["namespace", "namespaceUri", "nodeType", "resource"]

  /** `SELECT * FROM [t]` either raises InvalidQueryException or yields the paths of its rows, in order. */
  datatype QueryResult = Invalid | Paths(paths: seq<string>)

  type QueryOracle = string -> QueryResult

  /**
   * What NamespaceRegistry.unregisterNamespace does with a registered prefix:
   * it succeeds, throws a NamespaceException (prefix in use, built in, ...),
   * or throws some other RepositoryException.
   */
  datatype NamespaceUnregistration = Unregistered | NamespaceError | RepositoryError

  type NamespaceOracle = string -> NamespaceUnregistration

  /** Whether NodeTypeManager.unregisterNodeType succeeds for a registered node type. */
  type NodeTypeOracle = string -> bool

  /** A spurious node type: its name starts with `ns` and ends with `:None`. */
  predicate IsSpurious(nodeType: string) {
    StartsWith(nodeType, "ns") && EndsWith(nodeType, ":None")
  }

  /** hasSpuriousNodeTypeExists, as a property of the node-type registry. */
  predicate HasSpuriousNodeType(nodeTypes: seq<string>) {
    exists t :: t in nodeTypes && IsSpurious(t)
  }

  /** The registered URIs containing `tx:` (line 493). */
  function InScope(namespaces: map<string, string>): (uris: set<string>)
    ensures forall u :: u in uris <==> u in namespaces.Values && Contains(u, "tx:")
  {
    set u | u in namespaces.Values && Contains(u, "tx:")
  }

  /** doesNamespaceExists: getURI succeeds and returns a non-empty URI; its exception means false. */
  predicate NamespaceExists(namespaces: map<string, string>, prefix: string) {
    prefix in namespaces && namespaces[prefix] != ""
  }

  /**
   * The lookup after unregisterNamespace(p): p is gone, and every other prefix
   * answers as before.
   */
  lemma NamespaceExistsAfterUnregister(namespaces: map<string, string>, p: string, q: string)
    ensures NamespaceExists(namespaces - {p}, q) <==> q != p && NamespaceExists(namespaces, q)
  {
  }

  /** The node-type registry after a successful unregisterNodeType(name). */
  function WithoutNodeType(nodeTypes: seq<string>, name: string): (r: seq<string>)
    ensures forall t :: t in r <==> t in nodeTypes && t != name
    ensures |r| <= |nodeTypes|
  {
    if nodeTypes == [] then []
    else (if nodeTypes[0] == name then [] else [nodeTypes[0]]) + WithoutNodeType(nodeTypes[1..], name)
  }
}
