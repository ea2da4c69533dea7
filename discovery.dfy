/**
 * Discovery: getNSXXXPrefixesMap, getSpuriousNodeTypes and list
 * (NamespaceUtil.java lines 162-253). The node-type scan and the row
 * emission are folds; the imperative loops that compute them are the
 * methods GetSpuriousNodeTypes and List of the NamespaceUtil class.
 */
module Discovery {
  import opened Wrappers
  import opened Strings
  import opened Repository

  /** HashMap.get on the prefix map, with the absent key read as an empty list. */
  function Get(m: map<string, seq<string>>, p: string): seq<string> {
    if p in m then m[p] else []
  }

  /** getNSXXXPrefixesMap: every registered prefix starting with `ns`, each mapped to an empty list. */
  function NsPrefixes(namespaces: map<string, string>): map<string, seq<string>> {
    map p | p in namespaces && StartsWith(p, "ns") :: []
  }

  /** One iteration of the scan (lines 174-185): a spurious type is appended under `split(":")[0]`. */
  function AddNodeType(m: map<string, seq<string>>, t: string): map<string, seq<string>> {
    if IsSpurious(t) then
      var p := BeforeFirstColon(t);
      m[p := Get(m, p) + [t]]
    else m
  }

  /** The scan of lines 173-186 over the remaining node types `ts`; None when `split(":")[0]` throws. */
  function ScanNodeTypes(m: map<string, seq<string>>, ts: seq<string>): Option<map<string, seq<string>>>
    decreases |ts|
  {
    if ts == [] then Some(m)
    else if SplitHeadFails(ts[0]) then None
    else ScanNodeTypes(AddNodeType(m, ts[0]), ts[1..])
  }

  /** getSpuriousNodeTypes over the registry's enumeration of node types. */
  function SpuriousNodeTypes(namespaces: map<string, string>, nodeTypes: seq<string>): Option<map<string, seq<string>>> {
    ScanNodeTypes(NsPrefixes(namespaces), nodeTypes)
  }

  /** Reference definition: the spurious types of `ts` whose `split(":")[0]` is `p`, in enumeration order. */
  function Matching(ts: seq<string>, p: string): seq<string> {
    if ts == [] then []
    else (if IsSpurious(ts[0]) && BeforeFirstColon(ts[0]) == p then [ts[0]] else []) + Matching(ts[1..], p)
  }

  /** The prefixes contributed by spurious node types. */
  function SpuriousPrefixes(ts: seq<string>): set<string> {
    set t | t in ts && IsSpurious(t) :: BeforeFirstColon(t)
  }

  /** Reference definition of the scan's result: every key of `m` or of a spurious type, with its matches appended. */
  function Grouped(m: map<string, seq<string>>, ts: seq<string>): map<string, seq<string>> {
    map p | p in m.Keys + SpuriousPrefixes(ts) :: Get(m, p) + Matching(ts, p)
  }

  lemma {:induction false} MatchingMembers(ts: seq<string>, p: string)
    ensures forall t :: t in Matching(ts, p) <==> t in ts && IsSpurious(t) && BeforeFirstColon(t) == p
  {
    if ts != [] {
      MatchingMembers(ts[1..], p);
      assert forall t :: t in ts <==> t == ts[0] || t in ts[1..];
    }
  }

  /** A spurious node type is grouped under a non-empty prefix that starts with `ns` and is not the whole name. */
  lemma SpuriousPrefixShape(t: string)
    requires IsSpurious(t)
    ensures StartsWith(BeforeFirstColon(t), "ns") && |BeforeFirstColon(t)| < |t| && t != ""
  {
    assert t[0] == 'n' && t[1] == 's';
    assert BeforeFirstColon(t) == [t[0]] + BeforeFirstColon(t[1..]);
    assert BeforeFirstColon(t[1..]) == [t[1]] + BeforeFirstColon(t[2..]);
    assert t[|t| - 5] == ':';
    assert ':' in t;
  }

  lemma SpuriousPrefixesCons(ts: seq<string>)
    requires ts != []
    ensures SpuriousPrefixes(ts) == SpuriousPrefixes(ts[1..]) + (if IsSpurious(ts[0]) then {BeforeFirstColon(ts[0])} else {})
  {
    assert forall x :: x in ts <==> x == ts[0] || x in ts[1..];
  }

  lemma PrefixMapsEqual(a: map<string, seq<string>>, b: map<string, seq<string>>)
    requires a.Keys == b.Keys && forall k :: k in a ==> a[k] == b[k]
    ensures a == b
  {
  }

  lemma GroupedAt(m: map<string, seq<string>>, ts: seq<string>, p: string)
    requires ts != []
    ensures Get(AddNodeType(m, ts[0]), p) + Matching(ts[1..], p) == Get(m, p) + Matching(ts, p)
  {
  }

  lemma GroupedStep(m: map<string, seq<string>>, ts: seq<string>)
    requires ts != []
    ensures Grouped(AddNodeType(m, ts[0]), ts[1..]) == Grouped(m, ts)
  {
    var m' := AddNodeType(m, ts[0]);
    SpuriousPrefixesCons(ts);
    var a, b := Grouped(m', ts[1..]), Grouped(m, ts);
    assert a.Keys == b.Keys;
    forall p | p in a
      ensures a[p] == b[p]
    {
      GroupedAt(m, ts, p);
    }
    PrefixMapsEqual(a, b);
  }

  /** The scan either throws on an all-colon name or produces exactly the reference grouping. */
  lemma {:induction false} ScanIsGrouping(m: map<string, seq<string>>, ts: seq<string>)
    ensures ScanNodeTypes(m, ts) == if exists t :: t in ts && SplitHeadFails(t) then None else Some(Grouped(m, ts))
    decreases |ts|
  {
    if ts == [] {
      assert SpuriousPrefixes(ts) == {};
      var gm := Grouped(m, ts);
      assert gm.Keys == m.Keys;
      forall p | p in m ensures gm[p] == m[p] {
        assert Matching(ts, p) == [];
      }
      PrefixMapsEqual(gm, m);
    } else if !SplitHeadFails(ts[0]) {
      ScanIsGrouping(AddNodeType(m, ts[0]), ts[1..]);
      GroupedStep(m, ts);
      assert (exists t :: t in ts && SplitHeadFails(t)) <==> (exists t :: t in ts[1..] && SplitHeadFails(t)) by {
        assert forall x :: x in ts <==> x == ts[0] || x in ts[1..];
      }
    }
  }

  /**
   * The discovery map: it exists unless some node type's name is made only of
   * colons; its keys are the registered `ns` prefixes plus the prefixes of the
   * spurious node types, and each key lists exactly that prefix's spurious node
   * types in enumeration order.
   */
  lemma DiscoveryMap(namespaces: map<string, string>, nodeTypes: seq<string>)
    ensures SpuriousNodeTypes(namespaces, nodeTypes).None? <==> exists t :: t in nodeTypes && SplitHeadFails(t)
    ensures SpuriousNodeTypes(namespaces, nodeTypes).Some? ==>
      var g := SpuriousNodeTypes(namespaces, nodeTypes).value;
      && (forall p :: p in g <==> (p in namespaces && StartsWith(p, "ns")) || p in SpuriousPrefixes(nodeTypes))
      && (forall p :: p in g ==> g[p] == Matching(nodeTypes, p))
      && (forall p, t :: p in g && t in g[p] <==> p in g && t in nodeTypes && IsSpurious(t) && BeforeFirstColon(t) == p)
      && (forall p :: p in g ==> StartsWith(p, "ns"))
  {
    ScanIsGrouping(NsPrefixes(namespaces), nodeTypes);
    forall p {
      MatchingMembers(nodeTypes, p);
    }
    forall t | t in nodeTypes && IsSpurious(t) {
      SpuriousPrefixShape(t);
    }
  }

  // ---------------------------------------------------------------- list

  /** The progress of `list`: rows written after the header, the reused cell data[3], and whether getURI threw. */
  datatype Listing = Listing(rows: seq<Row>, resource: string, failed: bool)

  /** What the output file receives: the whole list, or what was written before an exception escaped. */
  datatype ListResult = Listed(rows: seq<Row>) | Aborted(rows: seq<Row>)

  /** One row per query path, in query order (lines 236-242). */
  function PathRows(p: string, u: string, t: string, ps: seq<string>): seq<Row> {
    seq(|ps|, k requires 0 <= k < |ps| => [p, u, t, ps[k]])
  }

  /** Lines 217-245 for one node type `t` of prefix `p` with URI `u`. */
  function ListNodeType(l: Listing, p: string, u: string, t: string, skip: bool, query: QueryOracle): Listing {
    if skip then l.(rows := l.rows + [[p, u, t, l.resource]])
    else match query(t)
      case Invalid => l
      case Paths(ps) =>
        if ps == [] then l.(rows := l.rows + [[p, u, t, ""]], resource := "")
        else l.(rows := l.rows + PathRows(p, u, t, ps), resource := ps[|ps| - 1])
  }

  /** The loop of line 214 over the node types `ts` of one prefix. */
  function ListNodeTypes(l: Listing, p: string, u: string, ts: seq<string>, skip: bool, query: QueryOracle): Listing
    decreases |ts|
  {
    if ts == [] then l
    else ListNodeType(ListNodeTypes(l, p, u, ts[..|ts| - 1], skip, query), p, u, ts[|ts| - 1], skip, query)
  }

  /** Lines 201-247 for one key `p` of the discovery map `g`; once getURI has thrown nothing more happens. */
  function ListPrefix(l: Listing, namespaces: map<string, string>, g: map<string, seq<string>>, p: string,
                      skip: bool, query: QueryOracle): Listing
  {
    if l.failed then l
    else if p !in namespaces then l.(failed := true)
    else if !Contains(namespaces[p], "tx:") then l
    else if Get(g, p) == [] then l.(rows := l.rows + [[p, namespaces[p], "", l.resource]])
    else ListNodeTypes(l, p, namespaces[p], Get(g, p), skip, query)
  }

  /** The loop of line 200 over the keys of `g` in the iteration order `order`. */
  function ListPrefixes(l: Listing, namespaces: map<string, string>, g: map<string, seq<string>>, order: seq<string>,
                        skip: bool, query: QueryOracle): Listing
    decreases |order|
  {
    if order == [] then l
    else ListPrefix(ListPrefixes(l, namespaces, g, order[..|order| - 1], skip, query), namespaces, g, order[|order| - 1], skip, query)
  }

  /** Lines 194-199: the header, then data[3] = "" and the loop. */
  function ListOutcome(namespaces: map<string, string>, g: map<string, seq<string>>, order: seq<string>,
                       skip: bool, query: QueryOracle): ListResult
  {
    var l := ListPrefixes(Listing([], "", false), namespaces, g, order, skip, query);
    if l.failed then Aborted([Header] + l.rows) else Listed([Header] + l.rows)
  }

  /** `list` for one iteration order of the discovery map's keys. */
  function ListSpec(namespaces: map<string, string>, nodeTypes: seq<string>, order: seq<string>,
                    skip: bool, query: QueryOracle): ListResult
  {
    match SpuriousNodeTypes(namespaces, nodeTypes)
    case None => Aborted([Header])
    case Some(g) => ListOutcome(namespaces, g, order, skip, query)
  }

  /** `order` lists every key exactly once, as an iteration over a key set does. */
  ghost predicate Enumerates(order: seq<string>, keys: set<string>) {
    && (forall i, j :: 0 <= i < j < |order| ==> order[i] != order[j])
    && (forall p :: p in order <==> p in keys)
  }

  /** Once getURI has thrown, the remaining keys change nothing. */
  lemma {:induction false} ListPrefixesFailed(l: Listing, namespaces: map<string, string>, g: map<string, seq<string>>,
                                              order: seq<string>, skip: bool, query: QueryOracle)
    requires l.failed
    ensures ListPrefixes(l, namespaces, g, order, skip, query) == l
    decreases |order|
  {
    if order != [] {
      ListPrefixesFailed(l, namespaces, g, order[..|order| - 1], skip, query);
    }
  }

  /** The loop over `a + b` is the loop over `a` followed by the loop over `b`. */
  lemma {:induction false} ListPrefixesAppend(l: Listing, namespaces: map<string, string>, g: map<string, seq<string>>,
                                              a: seq<string>, b: seq<string>, skip: bool, query: QueryOracle)
    ensures ListPrefixes(l, namespaces, g, a + b, skip, query) ==
      ListPrefixes(ListPrefixes(l, namespaces, g, a, skip, query), namespaces, g, b, skip, query)
    decreases |b|
  {
    if b == [] {
      assert a + b == a;
    } else {
      var b' := b[..|b| - 1];
      assert (a + b)[..|a + b| - 1] == a + b';
      assert (a + b)[|a + b| - 1] == b[|b| - 1];
      ListPrefixesAppend(l, namespaces, g, a, b', skip, query);
    }
  }

  /**
   * getURI throws for the key `p` after the keys `done`: whatever keys follow,
   * list ends with what it had written before reaching `p`.
   */
  lemma ListAbortsAt(namespaces: map<string, string>, g: map<string, seq<string>>, done: seq<string>, p: string,
                     rest: seq<string>, skip: bool, query: QueryOracle)
    requires p !in namespaces
    requires !ListPrefixes(Listing([], "", false), namespaces, g, done, skip, query).failed
    ensures ListOutcome(namespaces, g, done + [p] + rest, skip, query) ==
      Aborted([Header] + ListPrefixes(Listing([], "", false), namespaces, g, done, skip, query).rows)
  {
    var start := Listing([], "", false);
    var l := ListPrefixes(start, namespaces, g, done, skip, query);
    assert (done + [p])[..|done + [p]| - 1] == done;
    assert ListPrefixes(start, namespaces, g, done + [p], skip, query) == l.(failed := true);
    ListPrefixesFailed(l.(failed := true), namespaces, g, rest, skip, query);
    ListPrefixesAppend(start, namespaces, g, done + [p], rest, skip, query);
  }

  /**
   * The cell data[3] is not reset for a prefix without node types (lines
   * 210-212): after a prefix whose query found paths, the row of such a
   * prefix carries the last of those paths.
   */
  lemma StaleResource(l: Listing, namespaces: map<string, string>, g: map<string, seq<string>>, p: string, q: string,
                      t: string, query: QueryOracle)
    requires !l.failed
    requires p in namespaces && Contains(namespaces[p], "tx:") && Get(g, p) == [t]
    requires q in namespaces && Contains(namespaces[q], "tx:") && Get(g, q) == []
    requires query(t).Paths? && query(t).paths != []
    ensures var ps := query(t).paths;
      ListPrefixes(l, namespaces, g, [p, q], false, query).rows ==
        l.rows + PathRows(p, namespaces[p], t, ps) + [[q, namespaces[q], "", ps[|ps| - 1]]]
  {
    var ps := query(t).paths;
    assert [p, q][..1] == [p] && [p][..0] == [];
    var l1 := ListPrefix(l, namespaces, g, p, false, query);
    assert ListPrefixes(l, namespaces, g, [p], false, query) == l1;
    assert [t][..0] == [];
    assert ListNodeTypes(l, p, namespaces[p], [t], false, query) == ListNodeType(l, p, namespaces[p], t, false, query);
    assert l1 == l.(rows := l.rows + PathRows(p, namespaces[p], t, ps), resource := ps[|ps| - 1]);
    assert ListPrefixes(l, namespaces, g, [p, q], false, query) == ListPrefix(l1, namespaces, g, q, false, query);
  }

  /**
   * What a row written by `list` satisfies: four cells, an in-scope prefix and
   * its URI, and a node type and resource as the rules of lines 210-245 give them.
   */
  ghost predicate Emitted(namespaces: map<string, string>, g: map<string, seq<string>>, skip: bool,
                          query: QueryOracle, r: Row)
  {
    && |r| == 4
    && r[0] in namespaces && r[1] == namespaces[r[0]] && Contains(r[1], "tx:")
    && (r[2] == "" ==> Get(g, r[0]) == [] && (skip ==> r[3] == ""))
    && (r[2] != "" ==>
          && r[2] in Get(g, r[0])
          && (skip ==> r[3] == "")
          && (!skip ==> (query(r[2]).Paths? &&
                (if query(r[2]).paths == [] then r[3] == "" else r[3] in query(r[2]).paths))))
  }

  /** No list of the map holds an empty node-type name (true of every discovery map). */
  ghost predicate NamedTypes(g: map<string, seq<string>>) {
    forall p :: p in g ==> "" !in g[p]
  }

  lemma {:induction false} ListNodeTypesEmitted(l: Listing, namespaces: map<string, string>, g: map<string, seq<string>>,
                                                p: string, ts: seq<string>, skip: bool, query: QueryOracle)
    requires p in namespaces && Contains(namespaces[p], "tx:")
    requires forall t :: t in ts ==> t in Get(g, p) && t != ""
    requires forall r :: r in l.rows ==> Emitted(namespaces, g, skip, query, r)
    requires skip ==> l.resource == ""
    ensures var l' := ListNodeTypes(l, p, namespaces[p], ts, skip, query);
      && (forall r :: r in l'.rows ==> Emitted(namespaces, g, skip, query, r))
      && (skip ==> l'.resource == "") && l'.failed == l.failed
    decreases |ts|
  {
    if ts != [] {
      var init := ts[..|ts| - 1];
      assert forall t :: t in init ==> t in ts;
      ListNodeTypesEmitted(l, namespaces, g, p, init, skip, query);
      var m := ListNodeTypes(l, p, namespaces[p], init, skip, query);
      var t := ts[|ts| - 1];
      assert t in ts;
      if !skip && query(t).Paths? && query(t).paths != [] {
        var ps := query(t).paths;
        forall r | r in PathRows(p, namespaces[p], t, ps)
          ensures Emitted(namespaces, g, skip, query, r)
        {
          var k :| 0 <= k < |ps| && PathRows(p, namespaces[p], t, ps)[k] == r;
          assert r == [p, namespaces[p], t, ps[k]];
        }
      }
    }
  }

  lemma {:induction false} ListPrefixesEmitted(l: Listing, namespaces: map<string, string>, g: map<string, seq<string>>,
                                               order: seq<string>, skip: bool, query: QueryOracle)
    requires NamedTypes(g)
    requires forall r :: r in l.rows ==> Emitted(namespaces, g, skip, query, r)
    requires skip ==> l.resource == ""
    ensures var l' := ListPrefixes(l, namespaces, g, order, skip, query);
      (forall r :: r in l'.rows ==> Emitted(namespaces, g, skip, query, r)) && (skip ==> l'.resource == "")
    decreases |order|
  {
    if order != [] {
      ListPrefixesEmitted(l, namespaces, g, order[..|order| - 1], skip, query);
      var m := ListPrefixes(l, namespaces, g, order[..|order| - 1], skip, query);
      var p := order[|order| - 1];
      if !m.failed && p in namespaces && Contains(namespaces[p], "tx:") && Get(g, p) != [] {
        ListNodeTypesEmitted(m, namespaces, g, p, Get(g, p), skip, query);
      }
    }
  }

  /** Every list of the discovery map holds only spurious, hence non-empty, names. */
  lemma DiscoveryNamed(namespaces: map<string, string>, nodeTypes: seq<string>)
    ensures SpuriousNodeTypes(namespaces, nodeTypes).Some? ==> NamedTypes(SpuriousNodeTypes(namespaces, nodeTypes).value)
  {
    ScanIsGrouping(NsPrefixes(namespaces), nodeTypes);
    if SpuriousNodeTypes(namespaces, nodeTypes).Some? {
      var g := SpuriousNodeTypes(namespaces, nodeTypes).value;
      forall p | p in g ensures "" !in g[p] {
        MatchingMembers(nodeTypes, p);
        assert g[p] == Get(NsPrefixes(namespaces), p) + Matching(nodeTypes, p);
      }
    }
  }

  lemma ListOutcomeEmitted(namespaces: map<string, string>, g: map<string, seq<string>>, order: seq<string>,
                           skip: bool, query: QueryOracle)
    requires NamedTypes(g)
    ensures var out := ListOutcome(namespaces, g, order, skip, query);
      |out.rows| > 0 && out.rows[0] == Header &&
      forall i :: 1 <= i < |out.rows| ==> Emitted(namespaces, g, skip, query, out.rows[i])
  {
    ListPrefixesEmitted(Listing([], "", false), namespaces, g, order, skip, query);
    var l := ListPrefixes(Listing([], "", false), namespaces, g, order, skip, query);
    forall i | 1 <= i < |l.rows| + 1 ensures Emitted(namespaces, g, skip, query, ([Header] + l.rows)[i]) {
      assert ([Header] + l.rows)[i] == l.rows[i - 1];
    }
  }

  /**
   * Every data row `list` writes, complete or cut short, is an in-scope row:
   * its URI is the prefix's registered URI and contains `tx:`; with
   * skip.resources its resource cell is empty; otherwise a row naming a node
   * type carries one of that type's query paths (or "" for an empty result).
   */
  lemma ListRowsEmitted(namespaces: map<string, string>, nodeTypes: seq<string>, order: seq<string>,
                        skip: bool, query: QueryOracle)
    ensures var out := ListSpec(namespaces, nodeTypes, order, skip, query);
      |out.rows| > 0 && out.rows[0] == Header &&
      (SpuriousNodeTypes(namespaces, nodeTypes).None? ==> out == Aborted([Header])) &&
      (SpuriousNodeTypes(namespaces, nodeTypes).Some? ==>
        forall i :: 1 <= i < |out.rows| ==>
          Emitted(namespaces, SpuriousNodeTypes(namespaces, nodeTypes).value, skip, query, out.rows[i]))
  {
    DiscoveryNamed(namespaces, nodeTypes);
    if SpuriousNodeTypes(namespaces, nodeTypes).Some? {
      ListOutcomeEmitted(namespaces, SpuriousNodeTypes(namespaces, nodeTypes).value, order, skip, query);
    }
  }

  /** Without skip.resources, a node type whose query is invalid appears in no row. */
  lemma InvalidQueryWritesNoRow(namespaces: map<string, string>, nodeTypes: seq<string>, order: seq<string>,
                                query: QueryOracle, t: string)
    requires t != "" && query(t).Invalid?
    ensures var out := ListSpec(namespaces, nodeTypes, order, false, query);
      forall i :: 1 <= i < |out.rows| ==> |out.rows[i]| == 4 && out.rows[i][2] != t
  {
    ListRowsEmitted(namespaces, nodeTypes, order, false, query);
  }

  // ------------------------------------------------- completeness and order

  /** `a` occurs as a contiguous run of rows in `b`. */
  ghost predicate Infix(a: seq<Row>, b: seq<Row>) {
    exists k :: 0 <= k <= |b| - |a| && RowsAt(b, k, |a|) == a
  }

  /** The `n` rows of `b` starting at index `k`. */
  function RowsAt(b: seq<Row>, k: int, n: int): seq<Row>
    requires 0 <= k && 0 <= n && k + n <= |b|
  {
    b[k..k + n]
  }

  lemma InfixGrows(a: seq<Row>, b: seq<Row>, c: seq<Row>)
    requires Infix(a, b) && b <= c
    ensures Infix(a, c)
  {
    var k :| 0 <= k <= |b| - |a| && RowsAt(b, k, |a|) == a;
    assert RowsAt(c, k, |a|) == RowsAt(b, k, |a|);
  }

  /** The rows the loop body of line 214 writes for node type `t` when data[3] is "". */
  function ExpectedRows(p: string, u: string, t: string, skip: bool, query: QueryOracle): seq<Row> {
    if skip then [[p, u, t, ""]]
    else match query(t)
      case Invalid => []
      case Paths(ps) => if ps == [] then [[p, u, t, ""]] else PathRows(p, u, t, ps)
  }

  lemma {:induction false} ListNodeTypesGrows(l: Listing, p: string, u: string, ts: seq<string>, skip: bool, query: QueryOracle)
    ensures var l' := ListNodeTypes(l, p, u, ts, skip, query);
      l.rows <= l'.rows && l'.failed == l.failed && (skip && l.resource == "" ==> l'.resource == "")
    decreases |ts|
  {
    if ts != [] {
      ListNodeTypesGrows(l, p, u, ts[..|ts| - 1], skip, query);
    }
  }

  lemma ListPrefixGrows(l: Listing, namespaces: map<string, string>, g: map<string, seq<string>>, p: string,
                        skip: bool, query: QueryOracle)
    ensures var l' := ListPrefix(l, namespaces, g, p, skip, query);
      l.rows <= l'.rows && (l.failed ==> l'.failed) && (skip && l.resource == "" ==> l'.resource == "")
  {
    if !l.failed && p in namespaces && Contains(namespaces[p], "tx:") && Get(g, p) != [] {
      ListNodeTypesGrows(l, p, namespaces[p], Get(g, p), skip, query);
    }
  }

  lemma {:induction false} ListPrefixesSkipResource(l: Listing, namespaces: map<string, string>, g: map<string, seq<string>>,
                                                    order: seq<string>, skip: bool, query: QueryOracle)
    requires skip && l.resource == ""
    ensures ListPrefixes(l, namespaces, g, order, skip, query).resource == ""
    decreases |order|
  {
    if order != [] {
      ListPrefixesSkipResource(l, namespaces, g, order[..|order| - 1], skip, query);
      ListPrefixGrows(ListPrefixes(l, namespaces, g, order[..|order| - 1], skip, query), namespaces, g, order[|order| - 1], skip, query);
    }
  }

  lemma {:induction false} ListNodeTypesInfix(l: Listing, p: string, u: string, ts: seq<string>, k: nat,
                                              skip: bool, query: QueryOracle)
    requires k < |ts| && (skip ==> l.resource == "")
    ensures Infix(ExpectedRows(p, u, ts[k], skip, query), ListNodeTypes(l, p, u, ts, skip, query).rows)
    decreases |ts|
  {
    var init := ts[..|ts| - 1];
    var m := ListNodeTypes(l, p, u, init, skip, query);
    var e := ExpectedRows(p, u, ts[k], skip, query);
    ListNodeTypesGrows(l, p, u, init, skip, query);
    if k == |ts| - 1 {
      var rows := ListNodeTypes(l, p, u, ts, skip, query).rows;
      assert rows == m.rows + e;
      assert RowsAt(rows, |m.rows|, |e|) == e;
    } else {
      ListNodeTypesInfix(l, p, u, init, k, skip, query);
      InfixGrows(e, m.rows, ListNodeTypes(l, p, u, ts, skip, query).rows);
    }
  }

  lemma {:induction false} ListPrefixesInfix(l: Listing, namespaces: map<string, string>, g: map<string, seq<string>>,
                                             order: seq<string>, j: nat, t: string, skip: bool, query: QueryOracle)
    requires j < |order| && order[j] in namespaces && Contains(namespaces[order[j]], "tx:") && t in Get(g, order[j])
    requires skip ==> l.resource == ""
    requires !ListPrefixes(l, namespaces, g, order, skip, query).failed
    ensures Infix(ExpectedRows(order[j], namespaces[order[j]], t, skip, query), ListPrefixes(l, namespaces, g, order, skip, query).rows)
    decreases |order|
  {
    var init := order[..|order| - 1];
    var m := ListPrefixes(l, namespaces, g, init, skip, query);
    var p := order[j];
    var e := ExpectedRows(p, namespaces[p], t, skip, query);
    var final := ListPrefixes(l, namespaces, g, order, skip, query);
    assert !m.failed;
    if skip {
      ListPrefixesSkipResource(l, namespaces, g, init, skip, query);
    }
    if j == |order| - 1 {
      var k :| 0 <= k < |Get(g, p)| && Get(g, p)[k] == t;
      ListNodeTypesInfix(m, p, namespaces[p], Get(g, p), k, skip, query);
    } else {
      assert init[j] == p;
      ListPrefixesInfix(l, namespaces, g, init, j, t, skip, query);
      ListPrefixGrows(m, namespaces, g, order[|order| - 1], skip, query);
      InfixGrows(e, m.rows, final.rows);
    }
  }

  /**
   * A `list` that runs to completion writes, for every in-scope prefix `p` of
   * the iteration and every spurious node type `t` grouped under it, the rows
   * its query calls for: one row per path in query order (a single row with an
   * empty resource for an empty result, none for an invalid query), or with
   * skip.resources a single row with an empty resource.
   */
  lemma ListComplete(namespaces: map<string, string>, nodeTypes: seq<string>, order: seq<string>,
                     skip: bool, query: QueryOracle, p: string, t: string)
    requires ListSpec(namespaces, nodeTypes, order, skip, query).Listed?
    requires p in order && p in namespaces && Contains(namespaces[p], "tx:")
    requires t in nodeTypes && IsSpurious(t) && BeforeFirstColon(t) == p
    ensures Infix(ExpectedRows(p, namespaces[p], t, skip, query), ListSpec(namespaces, nodeTypes, order, skip, query).rows)
  {
    GroupMember(namespaces, nodeTypes, p, t);
    var g := SpuriousNodeTypes(namespaces, nodeTypes).value;
    var j :| 0 <= j < |order| && order[j] == p;
    var l := ListPrefixes(Listing([], "", false), namespaces, g, order, skip, query);
    ListPrefixesInfix(Listing([], "", false), namespaces, g, order, j, t, skip, query);
    var e := ExpectedRows(p, namespaces[p], t, skip, query);
    var k :| 0 <= k <= |l.rows| - |e| && RowsAt(l.rows, k, |e|) == e;
    assert RowsAt([Header] + l.rows, k + 1, |e|) == e;
  }

  /** A spurious node type is listed under its prefix in a discovery map that exists. */
  lemma GroupMember(namespaces: map<string, string>, nodeTypes: seq<string>, p: string, t: string)
    requires SpuriousNodeTypes(namespaces, nodeTypes).Some?
    requires t in nodeTypes && IsSpurious(t) && BeforeFirstColon(t) == p
    ensures t in Get(SpuriousNodeTypes(namespaces, nodeTypes).value, p)
  {
    ScanIsGrouping(NsPrefixes(namespaces), nodeTypes);
    var g := SpuriousNodeTypes(namespaces, nodeTypes).value;
    MatchingMembers(nodeTypes, p);
    assert p in SpuriousPrefixes(nodeTypes);
    assert g[p] == Get(NsPrefixes(namespaces), p) + Matching(nodeTypes, p);
  }
}
