/**
 * The NamespaceUtil object (NamespaceUtil.java lines 72-556): the repository
 * state it reaches through its session (namespace and node-type registries),
 * the number of session saves, and the two HashMaps of the URI graph, which
 * its methods update in place. Each method is proved against the reference
 * definition of the module that specifies it.
 */
module Util {
  import opened Wrappers
  import opened Strings
  import opened Repository
  import Discovery
  import Augment
  import Relationships
  import opened Driver

  /** Some enumeration of a finite set: an iteration order of a key set. */
  ghost function SetToSeq(s: set<string>): (r: seq<string>)
    ensures forall i, j :: 0 <= i < j < |r| ==> r[i] != r[j]
    ensures forall x :: x in r <==> x in s
  {
    if s == {} then [] else var x :| x in s; [x] + SetToSeq(s - {x})
  }

  /** The keys visited, the one that threw and the unvisited ones form an enumeration of all keys. */
  lemma EnumerationOfAll(order: seq<string>, p: string, rest: seq<string>, remaining: set<string>, keys: set<string>)
    requires forall i, j :: 0 <= i < j < |order| ==> order[i] != order[j]
    requires forall x :: x in order <==> x in keys && x !in remaining && x != p
    requires forall i, j :: 0 <= i < j < |rest| ==> rest[i] != rest[j]
    requires forall x :: x in rest <==> x in remaining
    requires p in keys && p !in remaining && remaining <= keys
    ensures Discovery.Enumerates(order + [p] + rest, keys)
  {
    var all := order + [p] + rest;
    forall i, j | 0 <= i < j < |all| ensures all[i] != all[j] {
      if j < |order| {
      } else if j == |order| {
        assert all[i] == order[i];
      } else {
        assert all[j] == rest[j - |order| - 1] && all[j] in remaining;
        if i < |order| {
          assert all[i] == order[i];
        } else if i > |order| {
          assert all[i] == rest[i - |order| - 1];
        }
      }
    }
    forall x ensures x in all <==> x in keys {
      assert x in all <==> x in order || x == p || x in rest;
    }
  }

  class NamespaceUtil {
    var namespaces: map<string, string>
    var nodeTypes: seq<string>
    var saves: nat
    var parents: Relationships.Links
    var children: Relationships.Links
    const startTime: string
    const query: QueryOracle
    const unregisterNamespace: NamespaceOracle
    const unregisterNodeType: NodeTypeOracle

    /** The URI graph is consistent (true of the empty maps and kept by every method). */
    ghost predicate Valid()
      reads this
    {
      Relationships.Valid(parents, children)
    }

    /** The run state of clean with the object's fields filled in. */
    function State(completed: seq<Row>, rejected: seq<Row>, skipped: seq<Row>,
                   status: Option<string>, skipComplete: bool, halted: bool): Run
      reads this
    {
      Run(namespaces, nodeTypes, saves, parents, children, completed, rejected, skipped, status, skipComplete, halted)
    }

    /** A session over a repository; the graph maps start empty (lines 89-91) and startTime is given. */
    constructor (namespaces: map<string, string>, nodeTypes: seq<string>, startTime: string, query: QueryOracle,
                 unregisterNamespace: NamespaceOracle, unregisterNodeType: NodeTypeOracle)
      ensures this.namespaces == namespaces && this.nodeTypes == nodeTypes && this.saves == 0
      ensures parents == map[] && children == map[]
      ensures this.startTime == startTime && this.query == query
      ensures this.unregisterNamespace == unregisterNamespace && this.unregisterNodeType == unregisterNodeType
      ensures Valid()
    {
      this.namespaces := namespaces;
      this.nodeTypes := nodeTypes;
      this.saves := 0;
      this.parents := map[];
      this.children := map[];
      this.startTime := startTime;
      this.query := query;
      this.unregisterNamespace := unregisterNamespace;
      this.unregisterNodeType := unregisterNodeType;
    }

    // --------------------------------------------------------- discovery

    /** getSpuriousNodeTypes (lines 168-188); None when `split(":")[0]` throws. */
    method GetSpuriousNodeTypes() returns (r: Option<map<string, seq<string>>>)
      ensures r == Discovery.SpuriousNodeTypes(namespaces, nodeTypes)
    {
      var m := Discovery.NsPrefixes(namespaces);
      var i := 0;
      while i < |nodeTypes|
        invariant 0 <= i <= |nodeTypes|
        invariant Discovery.ScanNodeTypes(m, nodeTypes[i..]) == Discovery.SpuriousNodeTypes(namespaces, nodeTypes)
      {
        var nodeTypeName := nodeTypes[i];
        if SplitHeadFails(nodeTypeName) {
          return None;
        }
        var nodeTypePrefix := BeforeFirstColon(nodeTypeName);
        if IsSpurious(nodeTypeName) {
          m := m[nodeTypePrefix := Discovery.Get(m, nodeTypePrefix) + [nodeTypeName]];
        }
        assert nodeTypes[i..][1..] == nodeTypes[i + 1..];
        i := i + 1;
      }
      return Some(m);
    }

    /** Lines 217-245 for one node type: the rows of its query, carrying the reused resource cell. */
    method ListNodeType(l: Discovery.Listing, p: string, u: string, t: string, skip: bool) returns (l': Discovery.Listing)
      ensures l' == Discovery.ListNodeType(l, p, u, t, skip, query)
      ensures l'.failed == l.failed
    {
      if skip {
        return l.(rows := l.rows + [[p, u, t, l.resource]]);
      }
      match query(t) {
        case Invalid =>
          return l;
        case Paths(ps) =>
          if ps == [] {
            return l.(rows := l.rows + [[p, u, t, ""]], resource := "");
          }
          var rows := l.rows;
          var resource := l.resource;
          var k := 0;
          while k < |ps|
            invariant 0 <= k <= |ps|
            invariant rows == l.rows + Discovery.PathRows(p, u, t, ps[..k])
            invariant k > 0 ==> resource == ps[k - 1]
          {
            resource := ps[k];
            assert Discovery.PathRows(p, u, t, ps[..k + 1]) == Discovery.PathRows(p, u, t, ps[..k]) + [[p, u, t, ps[k]]];
            rows := rows + [[p, u, t, resource]];
            k := k + 1;
          }
          assert ps[..|ps|] == ps;
          return Discovery.Listing(rows, resource, l.failed);
      }
    }

    /**
     * list (lines 190-253). The keys of the discovery map are visited in the
     * HashMap's iteration order, which is not known: the result is the
     * reference listing for some enumeration of the keys.
     */
    method List(skip: bool) returns (r: Discovery.ListResult)
      ensures exists order ::
        && r == Discovery.ListSpec(namespaces, nodeTypes, order, skip, query)
        && (Discovery.SpuriousNodeTypes(namespaces, nodeTypes).Some? ==>
              Discovery.Enumerates(order, Discovery.SpuriousNodeTypes(namespaces, nodeTypes).value.Keys))
    {
      var found := GetSpuriousNodeTypes();
      if found.None? {
        assert Discovery.ListSpec(namespaces, nodeTypes, [], skip, query) == Discovery.Aborted([Header]);
        return Discovery.Aborted([Header]);
      }
      var g := found.value;
      ghost var order;
      r, order := ListPrefixesOf(g, skip);
    }

    /** The loop of line 200 over the keys of the discovery map `g`, in the order it reports. */
    method ListPrefixesOf(g: map<string, seq<string>>, skip: bool) returns (r: Discovery.ListResult, ghost order: seq<string>)
      ensures r == Discovery.ListOutcome(namespaces, g, order, skip, query)
      ensures Discovery.Enumerates(order, g.Keys)
    {
      var l := Discovery.Listing([], "", false);
      ghost var start := l;
      var remaining := g.Keys;
      order := [];
      while remaining != {}
        decreases |remaining|
        invariant remaining <= g.Keys
        invariant forall i, j :: 0 <= i < j < |order| ==> order[i] != order[j]
        invariant forall p :: p in order <==> p in g.Keys && p !in remaining
        invariant !l.failed
        invariant l == Discovery.ListPrefixes(start, namespaces, g, order, skip, query)
      {
        var p :| p in remaining;
        remaining := remaining - {p};
        if p !in namespaces {
          // getURI throws a NamespaceException, which leaves list
          ghost var rest := SetToSeq(remaining);
          Discovery.ListAbortsAt(namespaces, g, order, p, rest, skip, query);
          EnumerationOfAll(order, p, rest, remaining, g.Keys);
          order := order + [p] + rest;
          return Discovery.Aborted([Header] + l.rows), order;
        }
        ghost var before := order;
        order := order + [p];
        assert order[..|order| - 1] == before;
        l := ListPrefixRows(l, g, p, skip);
      }
      return Discovery.Listed([Header] + l.rows), order;
    }

    /** Lines 203-248 for one key `p` of the discovery map whose URI can be looked up. */
    method ListPrefixRows(l: Discovery.Listing, g: map<string, seq<string>>, p: string, skip: bool)
      returns (l': Discovery.Listing)
      requires !l.failed && p in namespaces
      ensures l' == Discovery.ListPrefix(l, namespaces, g, p, skip, query)
      ensures !l'.failed
    {
      var namespaceUri := namespaces[p];
      if !Contains(namespaceUri, "tx:") {
        return l;
      }
      var nodeTypesList := Discovery.Get(g, p);
      if nodeTypesList == [] {
        return l.(rows := l.rows + [[p, namespaceUri, "", l.resource]]);
      }
      l' := l;
      var j := 0;
      while j < |nodeTypesList|
        invariant 0 <= j <= |nodeTypesList|
        invariant l' == Discovery.ListNodeTypes(l, p, namespaceUri, nodeTypesList[..j], skip, query)
        invariant !l'.failed
      {
        assert nodeTypesList[..j + 1][..j] == nodeTypesList[..j];
        l' := ListNodeType(l', p, namespaceUri, nodeTypesList[j], skip);
        j := j + 1;
      }
      assert nodeTypesList[..|nodeTypesList|] == nodeTypesList;
    }

    // ------------------------------------------------------ augmentation

    /** add_resources (lines 255-310): the content the input file holds afterwards. */
    method AddResources(filepath: string, file: seq<Row>) returns (written: seq<Row>)
      ensures written == Augment.AddResourcesSpec(filepath, startTime, file, query)
    {
      var tempFilePath := Augment.TempPath(filepath, startTime);
      if tempFilePath == filepath {
        // the writer has emptied the input before the reader opens it
        return [Header];
      }
      written := [Header];
      var rows := Augment.Body(file);
      var i := 0;
      while i < |rows|
        invariant 0 <= i <= |rows|
        invariant written + Augment.Augmented(rows[i..], query) == [Header] + Augment.Augmented(rows, query)
      {
        var data := rows[i];
        assert rows[i..][0] == data && rows[i..][1..] == rows[i + 1..];
        if |data| < 4 {
          // data[3] throws; the exception is caught at line 301
          assert written + [] == written;
          break;
        }
        if data[3] != "" {
          written := written + [data];
        } else {
          match query(data[2]) {
            case Invalid =>
            case Paths(ps) =>
              if ps != [] {
                written := written + [data[3 := ps[0]]];
              }
          }
        }
        i := i + 1;
      }
    }

    // ------------------------------------------------------------- clean

    /** hasSpuriousNodeTypeExists (lines 474-489). */
    method HasSpuriousNodeTypeExists() returns (found: bool)
      ensures found == HasSpuriousNodeType(nodeTypes)
    {
      found := false;
      var i := 0;
      while i < |nodeTypes|
        invariant 0 <= i <= |nodeTypes|
        invariant found <==> exists j :: 0 <= j < i && IsSpurious(nodeTypes[j])
      {
        if IsSpurious(nodeTypes[i]) {
          found := true;
        }
        i := i + 1;
      }
    }

    /** The body of the loop of line 496 for one URI `u`: its parents and their children entries. */
    method AddRelationshipsOf(u: string, uris: set<string>)
      modifies this`parents, this`children
      ensures parents == Relationships.WithParents(old(parents), u, Relationships.ParentsOf(uris, u))
      ensures children == Relationships.WithChild(old(children), u, Relationships.ParentsOf(uris, u))
    {
      Relationships.MapsEqual(Relationships.WithChild(children, u, {}), children);
      var trimmedUri := u;
      ghost var found: set<string> := {};
      var i := 0;
      while i < Relationships.MaxDepth
        invariant 0 <= i <= Relationships.MaxDepth
        invariant trimmedUri == Relationships.Last(u, Relationships.Truncations(u, i))
        invariant found == Relationships.ParentsUpTo(uris, u, i)
        invariant parents == Relationships.WithParents(old(parents), u, found)
        invariant children == Relationships.WithChild(old(children), u, found)
      {
        Relationships.ParentsUpToSnoc(uris, u, i);
        trimmedUri := Relationships.Truncate(trimmedUri);
        if trimmedUri in uris {
          var ps := if u in parents then parents[u] else {};
          var cs := if trimmedUri in children then children[trimmedUri] else {};
          Relationships.WithParentsStep(old(parents), u, found, trimmedUri);
          Relationships.WithChildStep(old(children), u, found, trimmedUri);
          parents := parents[u := ps + {trimmedUri}];
          children := children[trimmedUri := cs + {u}];
          found := found + {trimmedUri};
        }
        i := i + 1;
      }
    }

    /** One pass of the loop of line 496: the relationships of `u` join those of the URIs already `done`. */
    method AddRelationshipsAmong(u: string, uris: set<string>, ghost done: set<string>, ghost p0: Relationships.Links,
                                 ghost c0: Relationships.Links)
      requires u !in done
      requires parents == Relationships.Merge(p0, Relationships.ParentsAmong(uris, done))
      requires children == Relationships.Merge(c0, Relationships.ChildMapAmong(uris, done))
      modifies this`parents, this`children
      ensures parents == Relationships.Merge(p0, Relationships.ParentsAmong(uris, done + {u}))
      ensures children == Relationships.Merge(c0, Relationships.ChildMapAmong(uris, done + {u}))
    {
      Relationships.ParentsAmongStep(p0, uris, done, u);
      Relationships.ChildMapAmongStep(c0, uris, done, u);
      AddRelationshipsOf(u, uris);
    }

    /** buildNamespaceUriRelationships (lines 491-520): the relationships of every in-scope URI are added. */
    method BuildNamespaceUriRelationships()
      modifies this`parents, this`children
      ensures parents == Relationships.Merge(old(parents), Relationships.BuiltParents(InScope(namespaces)))
      ensures children == Relationships.Merge(old(children), Relationships.BuiltChildren(InScope(namespaces)))
    {
      var uris := InScope(namespaces);
      var remaining := uris;
      ghost var done: set<string> := {};
      Relationships.MergeNothing(parents, uris);
      Relationships.MergeNothing(children, uris);
      while remaining != {}
        decreases |remaining|
        invariant remaining + done == uris && remaining !! done
        invariant parents == Relationships.Merge(old(parents), Relationships.ParentsAmong(uris, done))
        invariant children == Relationships.Merge(old(children), Relationships.ChildMapAmong(uris, done))
      {
        var u :| u in remaining;
        AddRelationshipsAmong(u, uris, done, old(parents), old(children));
        remaining := remaining - {u};
        done := done + {u};
      }
      assert done == uris by {
        assert remaining == {};
      }
    }

    /** removeRelationships (lines 526-535): `uri` leaves the children set of each of its parents. */
    method RemoveRelationships(uri: string)
      requires Valid()
      modifies this`children
      ensures children == Relationships.Removed(parents, old(children), uri)
      ensures Valid()
    {
      if uri !in parents {
        return;
      }
      var todo := parents[uri];
      ghost var c0 := children;
      Relationships.RemovedFromNothing(c0, uri);
      while todo != {}
        decreases |todo|
        invariant uri in parents && todo <= parents[uri]
        invariant c0 == old(children) && Relationships.Valid(parents, c0)
        invariant children == Relationships.RemovedFrom(c0, uri, parents[uri] - todo)
      {
        var parent :| parent in todo;
        assert parent in c0;
        Relationships.RemovedFromStep(c0, uri, parents[uri] - todo, parent);
        assert parents[uri] - todo + {parent} == parents[uri] - (todo - {parent});
        children := children[parent := children[parent] - {uri}];
        todo := todo - {parent};
      }
      assert parents[uri] - todo == parents[uri];
      Relationships.RemovedValid(parents, c0, uri);
    }

    /** Lines 383-406 for one processed row; `halted` is an exception that ends the loop. */
    method NamespaceRow(ghost env: Env, dryRun: bool, row: Row, completed: seq<Row>, rejected: seq<Row>, skipped: seq<Row>,
                        status: Option<string>, skipComplete: bool)
      returns (completed': seq<Row>, rejected': seq<Row>, skipped': seq<Row>, halted: bool)
      requires |row| > 0 && Valid()
      requires env.unregisterNamespace == unregisterNamespace && env.dryRun == dryRun
      modifies this
      ensures State(completed', rejected', skipped', status, skipComplete, halted) ==
        NamespaceRule(env, old(State(completed, rejected, skipped, status, skipComplete, false)), row)
      ensures Valid()
    {
      completed', rejected', skipped', halted := completed, rejected, skipped, false;
      if !NamespaceExists(namespaces, row[0]) {
        skipped' := skipped + [row];
        if |row| < 2 {
          halted := true;
          return;
        }
        RemoveRelationships(row[1]);
        return;
      }
      if |row| < 2 {
        halted := true;
        return;
      }
      if Relationships.HasChildren(children, row[1]) {
        rejected' := rejected + [row];
        return;
      }
      if |row| < 3 {
        halted := true;
        return;
      }
      if row[2] in nodeTypes {
        rejected' := rejected + [row];
        return;
      }
      if !dryRun {
        match unregisterNamespace(row[0]) {
          case Unregistered =>
            namespaces := namespaces - {row[0]};
          case NamespaceError =>
            // printed and swallowed at line 399
          case RepositoryError =>
            halted := true;
            return;
        }
      }
      RemoveRelationships(row[1]);
      completed' := completed + [row];
    }

    /** Lines 410-438 for one processed row; `halted` is an exception that ends the loop. */
    method NodeTypeRow(ghost env: Env, dryRun: bool, row: Row, completed: seq<Row>, rejected: seq<Row>, skipped: seq<Row>,
                       status: Option<string>, skipComplete: bool)
      returns (completed': seq<Row>, rejected': seq<Row>, skipped': seq<Row>, halted: bool)
      requires env.query == query && env.unregisterNodeType == unregisterNodeType && env.dryRun == dryRun
      modifies this
      ensures State(completed', rejected', skipped', status, skipComplete, halted) ==
        NodeTypeRule(env, old(State(completed, rejected, skipped, status, skipComplete, false)), row)
      ensures parents == old(parents) && children == old(children)
    {
      completed', rejected', skipped', halted := completed, rejected, skipped, false;
      if |row| < 3 {
        halted := true;
        return;
      }
      match query(row[2]) {
        case Invalid =>
          // InvalidQueryException, printed at line 437
          return;
        case Paths(ps) =>
          if ps != [] {
            if |row| < 4 {
              halted := true;
              return;
            }
            var data := row;
            if data[3] == "" {
              data := data[3 := ps[0]];
            }
            rejected' := rejected + [data];
            return;
          }
          if !dryRun {
            if row[2] !in nodeTypes || !unregisterNodeType(row[2]) {
              halted := true;
              return;
            }
            nodeTypes := WithoutNodeType(nodeTypes, row[2]);
          }
          saves := saves + 1;
          completed' := completed + [row];
      }
    }

    /** Line 332: in namespace mode the graph of the in-scope URIs joins the maps, which stay consistent. */
    method PrepareGraph(mode: Mode, ghost w: World)
      requires Valid()
      requires w.namespaces == namespaces && w.nodeTypes == nodeTypes && w.saves == saves
      requires w.parents == parents && w.children == children
      modifies this`parents, this`children
      ensures parents == StartRun(mode, w).parents && children == StartRun(mode, w).children
      ensures State([Header], [Header], [Header], w.statusFile, false, false) == StartRun(mode, w)
      ensures Valid()
    {
      if mode == NamespaceMode {
        BuildNamespaceUriRelationships();
        Relationships.BuiltSymmetric(InScope(namespaces));
        Relationships.MergeValid(w.parents, w.children, Relationships.BuiltParents(InScope(namespaces)),
                                 Relationships.BuiltChildren(InScope(namespaces)));
      }
    }

    /** One pass of the loop of line 363 for the row `row`; `halted` is an exception that ends the loop. */
    method CleanRow(ghost env: Env, mode: Mode, dryRun: bool, target: Option<string>, row: Row,
                    completed: seq<Row>, rejected: seq<Row>, skipped: seq<Row>, status: Option<string>, skipComplete: bool)
      returns (completed': seq<Row>, rejected': seq<Row>, skipped': seq<Row>, status': Option<string>,
               skipComplete': bool, halted: bool)
      requires Valid()
      requires env == Env(mode, dryRun, target, query, unregisterNamespace, unregisterNodeType)
      modifies this
      ensures State(completed', rejected', skipped', status', skipComplete', halted) ==
        Step(env, old(State(completed, rejected, skipped, status, skipComplete, false)), row)
      ensures Valid()
    {
      completed', rejected', skipped', status', skipComplete', halted := completed, rejected, skipped, status, skipComplete, false;
      if |row| == 0 {
        // data[0] throws at line 365
        halted := true;
        return;
      }
      if target.Some? && !skipComplete && target.value != row[0] {
        skipped' := skipped + [row];
        return;
      }
      if target.Some? {
        skipComplete' := true;
      }
      status' := Some(row[0]);
      if mode == NamespaceMode {
        completed', rejected', skipped', halted := NamespaceRow(env, dryRun, row, completed, rejected, skipped, status', skipComplete');
      } else {
        completed', rejected', skipped', halted := NodeTypeRow(env, dryRun, row, completed, rejected, skipped, status', skipComplete');
      }
    }

    /** clean (lines 312-445); the status file and the input rows are given, the outputs returned. */
    method Clean(filepath: string, typeName: string, skipUntilPrefix: Option<string>, dryRun: bool,
                 statusFile: Option<string>, file: seq<Row>) returns (c: CleanResult)
      requires Valid()
      modifies this
      ensures c == CleanSpec(filepath, typeName, skipUntilPrefix, dryRun, startTime,
        old(World(namespaces, nodeTypes, saves, parents, children, statusFile, file)),
        query, unregisterNamespace, unregisterNodeType)
      ensures c.Refused? ==>
        namespaces == old(namespaces) && nodeTypes == old(nodeTypes) && saves == old(saves)
        && parents == old(parents) && children == old(children)
      ensures c.Cleaned? ==> c.run == State(c.run.completed, c.run.rejected, c.run.skipped, c.run.status,
        c.run.skipComplete, c.run.halted)
      ensures Valid()
    {
      ghost var w := World(namespaces, nodeTypes, saves, parents, children, statusFile, file);
      var mode := ParseMode(typeName);
      if mode == NamespaceMode {
        var spurious := HasSpuriousNodeTypeExists();
        if spurious {
          return Refused;
        }
      }
      assert !(mode == NamespaceMode && HasSpuriousNodeType(w.nodeTypes));
      CleanSpecAccepted(filepath, typeName, skipUntilPrefix, dryRun, startTime, w, query,
                        unregisterNamespace, unregisterNodeType);
      PrepareGraph(mode, w);
      var statusFilePath := StatusPath(filepath, mode, dryRun);
      var completedFilePath := OutputPath(filepath, startTime, mode, Completed, dryRun);
      var rejectedFilePath := OutputPath(filepath, startTime, mode, Rejected, dryRun);
      var skippedFilePath := OutputPath(filepath, startTime, mode, Skipped, dryRun);
      var target := skipUntilPrefix;
      if target.None? {
        target := ReadLastProcessingPrefix(statusFile);
      }
      ghost var env := Env(mode, dryRun, target, query, unregisterNamespace, unregisterNodeType);
      var completed, rejected, skipped := [Header], [Header], [Header];
      var status := statusFile;
      var skipComplete := false;
      var halted := false;
      var rows := InputRows(filepath, file);
      ghost var init := State(completed, rejected, skipped, status, skipComplete, halted);
      ghost var spec := CleanSpec(filepath, typeName, skipUntilPrefix, dryRun, startTime, w, query,
                                  unregisterNamespace, unregisterNodeType);
      assert init == StartRun(mode, w);
      assert env == Env(mode, dryRun, Target(skipUntilPrefix, w.statusFile), query, unregisterNamespace, unregisterNodeType);
      assert spec == Cleaned(statusFilePath, completedFilePath, rejectedFilePath, skippedFilePath, RunRows(env, init, rows));
      var i := 0;
      while i < |rows| && !halted
        invariant 0 <= i <= |rows|
        invariant Valid()
        invariant RunRows(env, init, rows) ==
          RunRows(env, State(completed, rejected, skipped, status, skipComplete, halted), rows[i..])
      {
        var row := rows[i];
        assert rows[i..][0] == row && rows[i..][1..] == rows[i + 1..];
        completed, rejected, skipped, status, skipComplete, halted :=
          CleanRow(env, mode, dryRun, target, row, completed, rejected, skipped, status, skipComplete);
        i := i + 1;
      }
      if halted {
        HaltedStays(env, State(completed, rejected, skipped, status, skipComplete, halted), rows[i..]);
      } else {
        assert rows[i..] == [];
      }
      c := Cleaned(statusFilePath, completedFilePath, rejectedFilePath, skippedFilePath,
                   State(completed, rejected, skipped, status, skipComplete, halted));
      assert c == spec;
    }
  }
}
