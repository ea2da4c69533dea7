/**
 * clean (NamespaceUtil.java lines 312-472): the work list is read row by row;
 * each row is skipped, rejected or completed and appended to the matching
 * output file, and in namespace mode the prefix, in node-type mode the node
 * type, is unregistered from the repository. Runs can be resumed: the prefix
 * being processed is kept in a status file whose first line is the row to
 * restart from.
 *
 * The state of one run is the datatype Run; Step is one pass of the loop of
 * line 363 and RunRows the whole loop. The Clean method of the NamespaceUtil
 * class is proved against CleanSpec.
 */
module Driver {
  import opened Wrappers
  import opened Strings
  import opened Repository
  import opened Relationships
  import Augment

  datatype Mode = NodeTypeMode | NamespaceMode

  /** Lines 327 and 382: `"namespace".equalsIgnoreCase(type)`; any other value means node-type cleanup. */
  function ParseMode(s: string): Mode {
    if EqualsIgnoreCase("namespace", s) then NamespaceMode else NodeTypeMode
  }

  function ModeName(m: Mode): string {
    match m
    case NamespaceMode => "namespace"
    case NodeTypeMode => "nodetype"
  }

  /**
   * The mode named in a run's status and output paths (lines 333-341) is the
   * mode that name selects at line 327, and two type arguments that differ
   * only in ASCII case select the same mode.
   */
  lemma ParseModeNames(m: Mode, s: string, t: string)
    ensures ParseMode(ModeName(m)) == m
    ensures EqualsIgnoreCase(s, t) ==> ParseMode(s) == ParseMode(t)
  {
    if EqualsIgnoreCase(s, t) && EqualsIgnoreCase("namespace", s) {
      assert EqualsIgnoreCase("namespace", t);
    }
  }

  /** Line 316. */
  function DryRunSuffix(dryRun: bool): string {
    if dryRun then ".dryrun" else ""
  }

  /** The three output files of a run. */
  datatype Outcome = Completed | Rejected | Skipped

  function OutcomeName(o: Outcome): string {
    match o
    case Completed => "completed"
    case Rejected => "rejected"
    case Skipped => "skipped"
  }

  /** Lines 322, 333 and 338. */
  function StatusPath(filepath: string, m: Mode, dryRun: bool): string {
    filepath + ".status" + "." + ModeName(m) + DryRunSuffix(dryRun)
  }

  /** Lines 334-341: every `.csv` of the input path is replaced, the dry-run suffix included. */
  function OutputPath(filepath: string, startTime: string, m: Mode, o: Outcome, dryRun: bool): string {
    Replace(filepath, ".csv", "-" + startTime + "-" + ModeName(m) + "-" + OutcomeName(o) + ".csv" + DryRunSuffix(dryRun))
  }

  lemma MulDistinct(n: int, a: int, b: int)
    requires n > 0 && a != b
    ensures n * a != n * b
  {
    if a < b {
      assert n * b - n * a == n * (b - a);
    } else {
      assert n * a - n * b == n * (a - b);
    }
  }

  /** The length of an output path: each `.csv` of the input grows by the rest of the replacement. */
  lemma OutputPathLength(filepath: string, startTime: string, m: Mode, o: Outcome, dryRun: bool)
    ensures |OutputPath(filepath, startTime, m, o, dryRun)| ==
      |filepath| + Occurrences(filepath, ".csv") * (|startTime| + |ModeName(m)| + |OutcomeName(o)| + 3 + |DryRunSuffix(dryRun)|)
    ensures !Contains(filepath, ".csv") ==> OutputPath(filepath, startTime, m, o, dryRun) == filepath
  {
    var rep := "-" + startTime + "-" + ModeName(m) + "-" + OutcomeName(o) + ".csv" + DryRunSuffix(dryRun);
    assert |rep| - 4 == |startTime| + |ModeName(m)| + |OutcomeName(o)| + 3 + |DryRunSuffix(dryRun)|;
    ReplaceLength(filepath, ".csv", rep);
    if !Contains(filepath, ".csv") {
      ReplaceAbsent(filepath, ".csv", rep);
    }
  }

  /**
   * With a `.csv` in the input path the three output files are distinct from
   * each other and from the input; without one all three are the input file.
   */
  lemma OutputPaths(filepath: string, startTime: string, m: Mode, dryRun: bool)
    ensures Contains(filepath, ".csv") ==>
      forall o, o' :: OutputPath(filepath, startTime, m, o, dryRun) != filepath
        && (o != o' ==> OutputPath(filepath, startTime, m, o, dryRun) != OutputPath(filepath, startTime, m, o', dryRun))
    ensures !Contains(filepath, ".csv") ==> forall o :: OutputPath(filepath, startTime, m, o, dryRun) == filepath
  {
    OccurrencesContains(filepath, ".csv");
    OutputPathLength(filepath, startTime, m, Completed, dryRun);
    OutputPathLength(filepath, startTime, m, Rejected, dryRun);
    OutputPathLength(filepath, startTime, m, Skipped, dryRun);
    var n := Occurrences(filepath, ".csv");
    if n > 0 {
      // completed, rejected and skipped have different lengths, all longer than the input
      var c := |startTime| + |ModeName(m)| + |OutcomeName(Completed)| + 3 + |DryRunSuffix(dryRun)|;
      var r := |startTime| + |ModeName(m)| + |OutcomeName(Rejected)| + 3 + |DryRunSuffix(dryRun)|;
      var k := |startTime| + |ModeName(m)| + |OutcomeName(Skipped)| + 3 + |DryRunSuffix(dryRun)|;
      MulDistinct(n, c, r);
      MulDistinct(n, c, k);
      MulDistinct(n, r, k);
      MulDistinct(n, c, 0);
      MulDistinct(n, r, 0);
      MulDistinct(n, k, 0);
      var pc := OutputPath(filepath, startTime, m, Completed, dryRun);
      var pr := OutputPath(filepath, startTime, m, Rejected, dryRun);
      var pk := OutputPath(filepath, startTime, m, Skipped, dryRun);
      assert |pc| != |pr| && |pc| != |pk| && |pr| != |pk|;
      assert |pc| != |filepath| && |pr| != |filepath| && |pk| != |filepath|;
      forall o, o'
        ensures OutputPath(filepath, startTime, m, o, dryRun) != filepath
        ensures o != o' ==> OutputPath(filepath, startTime, m, o, dryRun) != OutputPath(filepath, startTime, m, o', dryRun)
      {
        assert OutputPath(filepath, startTime, m, o, dryRun) == (match o case Completed => pc case Rejected => pr case Skipped => pk);
        assert OutputPath(filepath, startTime, m, o', dryRun) == (match o' case Completed => pc case Rejected => pr case Skipped => pk);
      }
    }
  }

  /**
   * No status file is an output file of any run on the same input: with a
   * `.csv` every output path has '-' where the status path keeps the input's
   * '.', and without one every output path is the input, which no status path is.
   */
  lemma StatusNotOutput(filepath: string, startTime: string, m: Mode, o: Outcome, dryRun: bool, m': Mode, dryRun': bool)
    ensures StatusPath(filepath, m', dryRun') != OutputPath(filepath, startTime, m, o, dryRun)
  {
    var rep := "-" + startTime + "-" + ModeName(m) + "-" + OutcomeName(o) + ".csv" + DryRunSuffix(dryRun);
    if Contains(filepath, ".csv") {
      var x := ".status" + "." + ModeName(m') + DryRunSuffix(dryRun');
      assert StatusPath(filepath, m', dryRun') == filepath + x;
      ReplaceNotExtension(filepath, ".csv", rep, x);
    } else {
      OutputPathLength(filepath, startTime, m, o, dryRun);
      StatusPaths(filepath, m', dryRun', m', dryRun');
    }
  }

  /** The four status files (two modes, dry run or not) are distinct, and none of them is the input file. */
  lemma StatusPaths(filepath: string, m: Mode, dryRun: bool, m': Mode, dryRun': bool)
    ensures StatusPath(filepath, m, dryRun) != filepath
    ensures StatusPath(filepath, m, dryRun) == StatusPath(filepath, m', dryRun') <==> m == m' && dryRun == dryRun'
  {
    assert |StatusPath(filepath, m, dryRun)| == |filepath| + 8 + |ModeName(m)| + |DryRunSuffix(dryRun)|;
    assert |StatusPath(filepath, m', dryRun')| == |filepath| + 8 + |ModeName(m')| + |DryRunSuffix(dryRun')|;
  }

  // ------------------------------------------------------------------ run

  /**
   * The state a run reads and changes: the registries, the number of
   * session.save() calls, the URI graph, what each output file holds, the
   * content of the status file (None while it does not exist), the flag of
   * line 355, and whether an exception has ended the loop.
   */
  datatype Run = Run(namespaces: map<string, string>, nodeTypes: seq<string>, saves: nat,
                     parents: Links, children: Links,
                     completed: seq<Row>, rejected: seq<Row>, skipped: seq<Row>,
                     status: Option<string>, skipComplete: bool, halted: bool)

  /** What stays fixed during a run: the mode, the dry-run flag, the resume target and the repository's answers. */
  datatype Env = Env(mode: Mode, dryRun: bool, target: Option<string>, query: QueryOracle,
                     unregisterNamespace: NamespaceOracle, unregisterNodeType: NodeTypeOracle)

  /** `removeRelationships(data[1])`; a row without that cell throws. */
  function RemoveFor(r: Run, row: Row): (r': Run)
    ensures r'.namespaces == r.namespaces && r'.nodeTypes == r.nodeTypes && r'.parents == r.parents
  {
    if |row| < 2 then r.(halted := true)
    else r.(children := Removed(r.parents, r.children, row[1]))
  }

  /** Lines 383-406 for a row with at least one cell. */
  function NamespaceRule(env: Env, r: Run, row: Row): (r': Run)
    requires |row| > 0
    ensures r'.nodeTypes == r.nodeTypes && r'.saves == r.saves && r'.parents == r.parents
  {
    if !NamespaceExists(r.namespaces, row[0]) then
      RemoveFor(r.(skipped := r.skipped + [row]), row)
    else if |row| < 2 then r.(halted := true)
    else if HasChildren(r.children, row[1]) then r.(rejected := r.rejected + [row])
    else if |row| < 3 then r.(halted := true)
    else if row[2] in r.nodeTypes then r.(rejected := r.rejected + [row])
    else
      var done := r.(children := Removed(r.parents, r.children, row[1]), completed := r.completed + [row]);
      if env.dryRun then done
      else match env.unregisterNamespace(row[0])
        case Unregistered => done.(namespaces := r.namespaces - {row[0]})
        case NamespaceError => done
        case RepositoryError => r.(halted := true)
  }

  /**
   * Lines 410-438. A query with rows rejects the row, filling an empty
   * resource cell with the first path; a query without rows unregisters the
   * node type (unless in a dry run), saves the session and completes the row.
   */
  function NodeTypeRule(env: Env, r: Run, row: Row): (r': Run)
    ensures r'.namespaces == r.namespaces && r'.parents == r.parents && r'.children == r.children
  {
    if |row| < 3 then r.(halted := true)
    else match env.query(row[2])
      case Invalid => r
      case Paths(ps) =>
        if ps != [] then
          if |row| < 4 then r.(halted := true)
          else r.(rejected := r.rejected + [if row[3] == "" then row[3 := ps[0]] else row])
        else if !env.dryRun && (row[2] !in r.nodeTypes || !env.unregisterNodeType(row[2])) then
          r.(halted := true)
        else
          r.(nodeTypes := if env.dryRun then r.nodeTypes else WithoutNodeType(r.nodeTypes, row[2]),
             saves := r.saves + 1, completed := r.completed + [row])
  }

  /** Lines 379-439: record the prefix in the status file, then apply the mode's rule. */
  function Process(env: Env, r: Run, row: Row): Run
    requires |row| > 0
  {
    var r' := r.(status := Some(row[0]));
    match env.mode
    case NamespaceMode => NamespaceRule(env, r', row)
    case NodeTypeMode => NodeTypeRule(env, r', row)
  }

  /** Line 367: a resume target is set, not yet reached, and this row is not it. */
  predicate Skipping(env: Env, r: Run, row: Row)
    requires |row| > 0
  {
    env.target.Some? && !r.skipComplete && env.target.value != row[0]
  }

  /** One pass of the loop of line 363 (line 365 already reads `data[0]`). */
  function Step(env: Env, r: Run, row: Row): Run {
    if r.halted then r
    else if |row| == 0 then r.(halted := true)
    else if Skipping(env, r, row) then r.(skipped := r.skipped + [row])
    else Process(env, r.(skipComplete := r.skipComplete || env.target.Some?), row)
  }

  /** The loop of line 363 over the rows after the header. */
  function RunRows(env: Env, r: Run, rows: seq<Row>): Run
    decreases |rows|
  {
    if rows == [] then r else RunRows(env, Step(env, r, rows[0]), rows[1..])
  }

  /** The same loop once no row can be skipped for resumption any more. */
  function ProcessRows(env: Env, r: Run, rows: seq<Row>): Run
    decreases |rows|
  {
    if rows == [] || r.halted then r
    else if |rows[0]| == 0 then r.(halted := true)
    else ProcessRows(env, Process(env, r, rows[0]), rows[1..])
  }

  /** The result of clean: refused before anything is written, or the paths it wrote and the final state. */
  datatype CleanResult =
    | Refused
    | Cleaned(statusPath: string, completedPath: string, rejectedPath: string, skippedPath: string, run: Run)

  /** The facts clean starts from: the repository, the graph held so far, and the files it reads. */
  datatype World = World(namespaces: map<string, string>, nodeTypes: seq<string>, saves: nat,
                         parents: Links, children: Links, statusFile: Option<string>, file: seq<Row>)

  /** The rows the loop reads: when every output path is the input path, writing the headers has emptied it. */
  function InputRows(filepath: string, file: seq<Row>): seq<Row> {
    if Contains(filepath, ".csv") then Augment.Body(file) else []
  }

  /** readLastProcessingPrefix (lines 447-455): the first line of the status file; null when it is missing or empty. */
  function ReadLastProcessingPrefix(statusFile: Option<string>): (r: Option<string>)
    ensures r.Some? ==> statusFile.Some? && StartsWith(statusFile.value, r.value)
    ensures r.None? <==> statusFile.None? || statusFile.value == ""
  {
    if statusFile.Some? then FirstLine(statusFile.value) else None
  }

  /** Lines 345-347: an explicit skip.until.prefix wins over the status file. */
  function Target(skipUntilPrefix: Option<string>, statusFile: Option<string>): Option<string> {
    if skipUntilPrefix.Some? then skipUntilPrefix else ReadLastProcessingPrefix(statusFile)
  }

  /** Lines 327-355: the state the loop starts from; in namespace mode with the graph of the in-scope URIs added. */
  function StartRun(m: Mode, w: World): Run {
    var uris := InScope(w.namespaces);
    Run(w.namespaces, w.nodeTypes, w.saves,
        if m == NamespaceMode then Merge(w.parents, BuiltParents(uris)) else w.parents,
        if m == NamespaceMode then Merge(w.children, BuiltChildren(uris)) else w.children,
        [Header], [Header], [Header], w.statusFile, false, false)
  }

  /** clean(filepath, type, skipUntilPrefix), lines 312-445. */
  function CleanSpec(filepath: string, typeName: string, skipUntilPrefix: Option<string>, dryRun: bool,
                     startTime: string, w: World, query: QueryOracle,
                     unregisterNamespace: NamespaceOracle, unregisterNodeType: NodeTypeOracle): CleanResult
  {
    var m := ParseMode(typeName);
    if m == NamespaceMode && HasSpuriousNodeType(w.nodeTypes) then Refused
    else
      var env := Env(m, dryRun, Target(skipUntilPrefix, w.statusFile), query, unregisterNamespace, unregisterNodeType);
      Cleaned(StatusPath(filepath, m, dryRun),
              OutputPath(filepath, startTime, m, Completed, dryRun),
              OutputPath(filepath, startTime, m, Rejected, dryRun),
              OutputPath(filepath, startTime, m, Skipped, dryRun),
              RunRows(env, StartRun(m, w), InputRows(filepath, w.file)))
  }

  /** The run clean performs once it has not refused. */
  lemma CleanSpecAccepted(filepath: string, typeName: string, skipUntilPrefix: Option<string>, dryRun: bool,
                          startTime: string, w: World, query: QueryOracle,
                          unregisterNamespace: NamespaceOracle, unregisterNodeType: NodeTypeOracle)
    requires !(ParseMode(typeName) == NamespaceMode && HasSpuriousNodeType(w.nodeTypes))
    ensures var m := ParseMode(typeName);
      CleanSpec(filepath, typeName, skipUntilPrefix, dryRun, startTime, w, query, unregisterNamespace, unregisterNodeType)
      == Cleaned(StatusPath(filepath, m, dryRun),
                 OutputPath(filepath, startTime, m, Completed, dryRun),
                 OutputPath(filepath, startTime, m, Rejected, dryRun),
                 OutputPath(filepath, startTime, m, Skipped, dryRun),
                 RunRows(Env(m, dryRun, Target(skipUntilPrefix, w.statusFile), query, unregisterNamespace, unregisterNodeType),
                         StartRun(m, w), InputRows(filepath, w.file)))
  {
  }

  // ------------------------------------------------------------ one step

  /** What a rule may do to a run: grow each output by at most one row in all, and change the graph only by a removal. */
  ghost predicate Advances(r: Run, r': Run) {
    && r.completed <= r'.completed && r.rejected <= r'.rejected && r.skipped <= r'.skipped
    && |r'.completed| + |r'.rejected| + |r'.skipped| <= |r.completed| + |r.rejected| + |r.skipped| + 1
    && r'.parents == r.parents
    && (r'.children == r.children || exists u :: r'.children == Removed(r.parents, r.children, u))
  }

  lemma RemoveForAdvances(r: Run, row: Row)
    ensures RemoveFor(r, row).parents == r.parents
    ensures RemoveFor(r, row).children == r.children || RemoveFor(r, row).children == Removed(r.parents, r.children, row[1])
    ensures RemoveFor(r, row).completed == r.completed && RemoveFor(r, row).rejected == r.rejected
    ensures RemoveFor(r, row).skipped == r.skipped
  {
  }

  /** A rule that appends the rows `c`, `j` and `s` (one row at most in all) advances the run. */
  lemma AdvancesBy(r: Run, r': Run, c: seq<Row>, j: seq<Row>, s: seq<Row>)
    requires r'.completed == r.completed + c && r'.rejected == r.rejected + j && r'.skipped == r.skipped + s
    requires |c| + |j| + |s| <= 1
    requires r'.parents == r.parents
    requires r'.children == r.children || exists u :: r'.children == Removed(r.parents, r.children, u)
    ensures Advances(r, r')
  {
  }

  lemma NamespaceRuleAdvances(env: Env, r: Run, row: Row)
    requires |row| > 0
    ensures Advances(r, NamespaceRule(env, r, row))
  {
    var r' := NamespaceRule(env, r, row);
    if !NamespaceExists(r.namespaces, row[0]) {
      if |row| < 2 {
        assert r' == r.(skipped := r.skipped + [row], halted := true);
      } else {
        assert r' == r.(skipped := r.skipped + [row], children := Removed(r.parents, r.children, row[1]));
      }
      AdvancesBy(r, r', [], [], [row]);
    } else if |row| < 2 || HasChildren(r.children, row[1]) || |row| < 3 || row[2] in r.nodeTypes {
      assert r'.parents == r.parents && r'.children == r.children && r'.completed == r.completed && r'.skipped == r.skipped;
      assert r'.rejected == r.rejected || r'.rejected == r.rejected + [row];
      if r'.rejected == r.rejected {
        AdvancesBy(r, r', [], [], []);
      } else {
        AdvancesBy(r, r', [], [row], []);
      }
    } else {
      var done := r.(children := Removed(r.parents, r.children, row[1]), completed := r.completed + [row]);
      if !env.dryRun && env.unregisterNamespace(row[0]) == RepositoryError {
        assert r' == r.(halted := true);
        AdvancesBy(r, r', [], [], []);
      } else {
        assert r'.parents == r.parents && r'.children == done.children;
        assert r'.completed == r.completed + [row] && r'.rejected == r.rejected && r'.skipped == r.skipped;
        AdvancesBy(r, r', [row], [], []);
      }
    }
  }

  lemma NodeTypeRuleAdvances(env: Env, r: Run, row: Row)
    ensures Advances(r, NodeTypeRule(env, r, row))
  {
  }

  /** Every output file only grows, by at most one row in all, and the URI parents never change. */
  lemma StepGrows(env: Env, r: Run, row: Row)
    ensures var r' := Step(env, r, row);
      && r.completed <= r'.completed && r.rejected <= r'.rejected && r.skipped <= r'.skipped
      && |r'.completed| + |r'.rejected| + |r'.skipped| <= |r.completed| + |r.rejected| + |r.skipped| + 1
      && r'.parents == r.parents
      && (r'.children == r.children || exists u :: r'.children == Removed(r.parents, r.children, u))
      && (r.halted ==> r' == r)
  {
    if !r.halted && |row| > 0 && !Skipping(env, r, row) {
      var s := r.(skipComplete := r.skipComplete || env.target.Some?).(status := Some(row[0]));
      match env.mode
      case NamespaceMode => NamespaceRuleAdvances(env, s, row);
      case NodeTypeMode => NodeTypeRuleAdvances(env, s, row);
    }
  }

  /**
   * A namespace leaves the registry only in namespace mode outside a dry run,
   * for a registered prefix whose URI has no children left and whose node type
   * is gone; that row is the one appended to the completed file.
   */
  lemma NamespaceUnregisteredSafely(env: Env, r: Run, row: Row)
    requires Step(env, r, row).namespaces != r.namespaces
    ensures env.mode == NamespaceMode && !env.dryRun && !r.halted && |row| >= 3
    ensures NamespaceExists(r.namespaces, row[0]) && !HasChildren(r.children, row[1]) && row[2] !in r.nodeTypes
    ensures env.unregisterNamespace(row[0]) == Unregistered
    ensures Step(env, r, row).namespaces == r.namespaces - {row[0]}
    ensures Step(env, r, row).completed == r.completed + [row]
  {
  }

  /**
   * A node type leaves the registry only in node-type mode outside a dry run,
   * when its query finds no resource; the session is saved and the row completed.
   */
  lemma NodeTypeUnregisteredSafely(env: Env, r: Run, row: Row)
    requires Step(env, r, row).nodeTypes != r.nodeTypes
    ensures env.mode == NodeTypeMode && !env.dryRun && !r.halted && |row| >= 3
    ensures env.query(row[2]) == Paths([]) && row[2] in r.nodeTypes && env.unregisterNodeType(row[2])
    ensures Step(env, r, row).nodeTypes == WithoutNodeType(r.nodeTypes, row[2])
    ensures Step(env, r, row).saves == r.saves + 1 && Step(env, r, row).completed == r.completed + [row]
  {
  }

  /** A processed row is recorded in the status file before its rule runs, whatever the rule then does. */
  lemma StepRecordsStatus(env: Env, r: Run, row: Row)
    requires !r.halted && |row| > 0 && !Skipping(env, r, row)
    ensures Step(env, r, row).status == Some(row[0])
    ensures env.target.Some? ==> Step(env, r, row).skipComplete
  {
  }

  /**
   * A dry run in node-type mode still calls session.save() and completes the
   * row when the query finds nothing, but leaves the registry as it was.
   */
  lemma DryRunNodeTypeSaves(env: Env, r: Run, row: Row)
    requires env.mode == NodeTypeMode && env.dryRun && !r.halted && |row| >= 3 && !Skipping(env, r, row)
    requires env.query(row[2]) == Paths([])
    ensures Step(env, r, row).saves == r.saves + 1
    ensures Step(env, r, row).completed == r.completed + [row]
    ensures Step(env, r, row).nodeTypes == r.nodeTypes && !Step(env, r, row).halted
  {
  }

  /**
   * A NamespaceException from unregisterNamespace is swallowed: the row is
   * still completed and its URI removed from the graph, while the prefix stays registered.
   */
  lemma NamespaceErrorCompletes(env: Env, r: Run, row: Row)
    requires env.mode == NamespaceMode && !env.dryRun && !r.halted && |row| >= 3 && !Skipping(env, r, row)
    requires NamespaceExists(r.namespaces, row[0]) && !HasChildren(r.children, row[1]) && row[2] !in r.nodeTypes
    requires env.unregisterNamespace(row[0]) == NamespaceError
    ensures Step(env, r, row).completed == r.completed + [row]
    ensures Step(env, r, row).namespaces == r.namespaces
    ensures Step(env, r, row).children == Removed(r.parents, r.children, row[1])
    ensures !Step(env, r, row).halted
  {
  }

  /** A row whose prefix is no longer registered is written to the skipped file and its URI leaves the graph. */
  lemma UnregisteredPrefixSkipped(env: Env, r: Run, row: Row)
    requires env.mode == NamespaceMode && !r.halted && |row| >= 2 && !Skipping(env, r, row)
    requires !NamespaceExists(r.namespaces, row[0])
    ensures Step(env, r, row).skipped == r.skipped + [row]
    ensures Step(env, r, row).children == Removed(r.parents, r.children, row[1])
    ensures Step(env, r, row).completed == r.completed && Step(env, r, row).rejected == r.rejected
  {
  }

  /** A failing unregisterNodeType ends the loop: no row of the rest of the file is looked at. */
  lemma NodeTypeErrorEndsRun(env: Env, r: Run, row: Row, rest: seq<Row>)
    requires env.mode == NodeTypeMode && !env.dryRun && !r.halted && |row| >= 3 && !Skipping(env, r, row)
    requires env.query(row[2]) == Paths([]) && !env.unregisterNodeType(row[2])
    ensures RunRows(env, r, [row] + rest).halted
    ensures RunRows(env, r, [row] + rest).completed == r.completed
    ensures RunRows(env, r, [row] + rest).skipped == r.skipped
    ensures RunRows(env, r, [row] + rest).rejected == r.rejected
    ensures RunRows(env, r, [row] + rest).nodeTypes == r.nodeTypes
  {
    var h := Step(env, r, row);
    assert h.halted;
    HaltedStays(env, h, rest);
    assert ([row] + rest)[1..] == rest;
  }

  /**
   * The namespace rule's two rejections, tested in this order: a URI that
   * still has child URIs, then a node type still registered. A rejected row
   * changes neither the registry nor the graph.
   */
  lemma NamespaceRowRejected(env: Env, r: Run, row: Row)
    requires env.mode == NamespaceMode && !r.halted && |row| >= 3 && !Skipping(env, r, row)
    requires NamespaceExists(r.namespaces, row[0])
    requires HasChildren(r.children, row[1]) || row[2] in r.nodeTypes
    ensures Step(env, r, row).rejected == r.rejected + [row]
    ensures Step(env, r, row).completed == r.completed && Step(env, r, row).skipped == r.skipped
    ensures Step(env, r, row).namespaces == r.namespaces && Step(env, r, row).children == r.children
    ensures !Step(env, r, row).halted
  {
  }

  /**
   * A node type whose query still finds resources is rejected, with an empty
   * resource cell filled in from the first path; nothing is unregistered or saved.
   */
  lemma NodeTypeInUseRejected(env: Env, r: Run, row: Row)
    requires env.mode == NodeTypeMode && !r.halted && |row| >= 4 && !Skipping(env, r, row)
    requires env.query(row[2]).Paths? && env.query(row[2]).paths != []
    ensures var r' := Step(env, r, row);
      && r'.rejected == r.rejected + [if row[3] == "" then row[3 := env.query(row[2]).paths[0]] else row]
      && r'.rejected[|r.rejected|][..3] == row[..3]
      && r'.completed == r.completed && r'.skipped == r.skipped
      && r'.nodeTypes == r.nodeTypes && r'.saves == r.saves && !r'.halted
  {
  }

  /** An invalid query (InvalidQueryException, line 436) writes the row to no output and the loop goes on. */
  lemma InvalidQueryWritesNothing(env: Env, r: Run, row: Row)
    requires env.mode == NodeTypeMode && !r.halted && |row| >= 3 && !Skipping(env, r, row)
    requires env.query(row[2]).Invalid?
    ensures var r' := Step(env, r, row);
      && r'.completed == r.completed && r'.rejected == r.rejected && r'.skipped == r.skipped
      && r'.nodeTypes == r.nodeTypes && r'.saves == r.saves && !r'.halted && r'.status == Some(row[0])
  {
  }

  /**
   * The graph decides the order in which a child URI and its parent can go:
   * listed child first, both are unregistered; listed parent first, the parent
   * is rejected because it still has a child, and only the child is unregistered.
   */
  lemma ChildBeforeParent(env: Env, r: Run, child: Row, parent: Row)
    requires env.mode == NamespaceMode && !env.dryRun && env.target.None? && !r.halted
    requires forall p :: env.unregisterNamespace(p) == Unregistered
    requires |child| >= 3 && |parent| >= 3 && child[0] != parent[0] && child[1] != parent[1]
    requires NamespaceExists(r.namespaces, child[0]) && NamespaceExists(r.namespaces, parent[0])
    requires child[2] !in r.nodeTypes && parent[2] !in r.nodeTypes
    requires r.parents == map[child[1] := {parent[1]}] && r.children == map[parent[1] := {child[1]}]
    ensures RunRows(env, r, [child, parent]).completed == r.completed + [child, parent]
    ensures RunRows(env, r, [child, parent]).namespaces == r.namespaces - {child[0], parent[0]}
    ensures RunRows(env, r, [parent, child]).rejected == r.rejected + [parent]
    ensures RunRows(env, r, [parent, child]).completed == r.completed + [child]
    ensures RunRows(env, r, [parent, child]).namespaces == r.namespaces - {child[0]}
  {
    var empty := map[parent[1] := {}];
    assert Removed(r.parents, r.children, child[1]) == empty by {
      MapsEqual(Removed(r.parents, r.children, child[1]), empty);
    }
    var s := Step(env, r, child);
    assert s.children == empty && !HasChildren(empty, parent[1]);
    assert s.namespaces == r.namespaces - {child[0]} && NamespaceExists(s.namespaces, parent[0]);
    var s2 := Step(env, s, parent);
    assert s2.namespaces == r.namespaces - {child[0], parent[0]};
    assert RunRows(env, r, [child, parent]) == RunRows(env, s2, []) by {
      assert [child, parent][1..] == [parent] && [parent][1..] == [];
    }
    var t := Step(env, r, parent);
    assert HasChildren(r.children, parent[1]);
    assert t == r.(status := Some(parent[0]), rejected := r.rejected + [parent]);
    assert !HasChildren(t.children, child[1]);
    var t2 := Step(env, t, child);
    assert RunRows(env, r, [parent, child]) == RunRows(env, t2, []) by {
      assert [parent, child][1..] == [child] && [child][1..] == [];
    }
  }

  // ------------------------------------------------------------ whole run

  /** Once an exception has ended the loop the remaining rows change nothing. */
  lemma {:induction false} HaltedStays(env: Env, r: Run, rows: seq<Row>)
    requires r.halted
    ensures RunRows(env, r, rows) == r
    decreases |rows|
  {
    if rows != [] {
      HaltedStays(env, Step(env, r, rows[0]), rows[1..]);
    }
  }

  /** Over a run the outputs only grow, by at most one row per input row, and the URI parents stay fixed. */
  lemma {:induction false} RunGrows(env: Env, r: Run, rows: seq<Row>)
    ensures var r' := RunRows(env, r, rows);
      && r.completed <= r'.completed && r.rejected <= r'.rejected && r.skipped <= r'.skipped
      && |r'.completed| + |r'.rejected| + |r'.skipped| <= |r.completed| + |r.rejected| + |r.skipped| + |rows|
      && r'.parents == r.parents
    decreases |rows|
  {
    if rows != [] {
      StepGrows(env, r, rows[0]);
      RunGrows(env, Step(env, r, rows[0]), rows[1..]);
    }
  }

  /** A dry run leaves both registries as they were. */
  lemma {:induction false} DryRunKeepsRegistries(env: Env, r: Run, rows: seq<Row>)
    requires env.dryRun
    ensures RunRows(env, r, rows).namespaces == r.namespaces
    ensures RunRows(env, r, rows).nodeTypes == r.nodeTypes
    decreases |rows|
  {
    if rows != [] {
      var s := Step(env, r, rows[0]);
      if s.namespaces != r.namespaces {
        NamespaceUnregisteredSafely(env, r, rows[0]);
      }
      if s.nodeTypes != r.nodeTypes {
        NodeTypeUnregisteredSafely(env, r, rows[0]);
      }
      DryRunKeepsRegistries(env, s, rows[1..]);
    }
  }

  /** The URI graph stays consistent through the run: removals keep the invariant. */
  lemma {:induction false} RunKeepsGraphValid(env: Env, r: Run, rows: seq<Row>)
    requires Valid(r.parents, r.children)
    ensures Valid(RunRows(env, r, rows).parents, RunRows(env, r, rows).children)
    decreases |rows|
  {
    if rows != [] {
      var s := Step(env, r, rows[0]);
      StepGrows(env, r, rows[0]);
      if s.children != r.children {
        var u :| s.children == Removed(r.parents, r.children, u);
        RemovedValid(r.parents, r.children, u);
      }
      RunKeepsGraphValid(env, s, rows[1..]);
    }
  }

  /** Only the prefixes named in the rows can leave the namespace registry, and nothing is ever added. */
  lemma {:induction false} RunUnregistersOnlyListed(env: Env, r: Run, rows: seq<Row>)
    ensures RunRows(env, r, rows).namespaces.Keys <= r.namespaces.Keys
    ensures forall p :: p in r.namespaces && p !in RunRows(env, r, rows).namespaces ==>
      exists i :: 0 <= i < |rows| && |rows[i]| > 0 && rows[i][0] == p
    ensures forall p :: p in RunRows(env, r, rows).namespaces ==> RunRows(env, r, rows).namespaces[p] == r.namespaces[p]
    decreases |rows|
  {
    if rows != [] {
      var s := Step(env, r, rows[0]);
      if s.namespaces != r.namespaces {
        NamespaceUnregisteredSafely(env, r, rows[0]);
      }
      RunUnregistersOnlyListed(env, s, rows[1..]);
      var f := RunRows(env, s, rows[1..]).namespaces;
      forall p | p in r.namespaces && p !in f
        ensures exists i :: 0 <= i < |rows| && |rows[i]| > 0 && rows[i][0] == p
      {
        if p in s.namespaces {
          var i :| 0 <= i < |rows[1..]| && |rows[1..][i]| > 0 && rows[1..][i][0] == p;
          assert rows[i + 1] == rows[1..][i];
        } else {
          assert |rows[0]| > 0 && rows[0][0] == p;
        }
      }
    }
  }

  // ------------------------------------------------------------- resuming

  /** Without a resume target, or once it is reached, the loop processes every row. */
  lemma {:induction false} NothingSkipped(env: Env, r: Run, rows: seq<Row>)
    requires env.target.None? || r.skipComplete
    ensures RunRows(env, r, rows) == ProcessRows(env, r, rows)
    decreases |rows|
  {
    if rows != [] {
      if r.halted {
        HaltedStays(env, r, rows);
      } else if |rows[0]| == 0 {
        HaltedStays(env, r.(halted := true), rows[1..]);
      } else {
        assert r.(skipComplete := r.skipComplete || env.target.Some?) == r;
        NothingSkipped(env, Step(env, r, rows[0]), rows[1..]);
      }
    }
  }

  /** Rows before the resume target go, unprocessed and in order, to the skipped file. */
  lemma {:induction false} SkipsUntilTarget(env: Env, r: Run, pre: seq<Row>, rest: seq<Row>)
    requires env.target.Some? && !r.skipComplete && !r.halted
    requires forall i :: 0 <= i < |pre| ==> |pre[i]| > 0 && pre[i][0] != env.target.value
    ensures RunRows(env, r, pre + rest) == RunRows(env, r.(skipped := r.skipped + pre), rest)
    decreases |pre|
  {
    if pre != [] {
      var s := Step(env, r, pre[0]);
      assert s == r.(skipped := r.skipped + [pre[0]]);
      assert (pre + rest)[0] == pre[0] && (pre + rest)[1..] == pre[1..] + rest;
      SkipsUntilTarget(env, s, pre[1..], rest);
      assert s.(skipped := s.skipped + pre[1..]) == r.(skipped := r.skipped + pre);
    } else {
      assert pre + rest == rest;
      assert r.(skipped := r.skipped + pre) == r;
    }
  }

  /**
   * Resuming at `target`: everything before its first row is skipped, and from
   * that row on every row is processed as in a run without a target.
   */
  lemma ResumeAtTarget(env: Env, r: Run, pre: seq<Row>, row: Row, post: seq<Row>)
    requires env.target.Some? && !r.skipComplete && !r.halted
    requires forall i :: 0 <= i < |pre| ==> |pre[i]| > 0 && pre[i][0] != env.target.value
    requires |row| > 0 && row[0] == env.target.value
    ensures RunRows(env, r, pre + [row] + post) ==
      ProcessRows(env, r.(skipped := r.skipped + pre, skipComplete := true), [row] + post)
  {
    assert pre + [row] + post == pre + ([row] + post);
    SkipsUntilTarget(env, r, pre, [row] + post);
    var s := r.(skipped := r.skipped + pre);
    var s' := s.(skipComplete := true);
    assert Step(env, s, row) == Process(env, s', row);
    assert ([row] + post)[0] == row && ([row] + post)[1..] == post;
    NothingSkipped(env, Step(env, s, row), post);
    NothingSkipped(env, s', [row] + post);
  }

  /** A target that no row names makes the whole run a copy of the input to the skipped file. */
  lemma TargetNeverReached(env: Env, r: Run, rows: seq<Row>)
    requires env.target.Some? && !r.skipComplete && !r.halted
    requires forall i :: 0 <= i < |rows| ==> |rows[i]| > 0 && rows[i][0] != env.target.value
    ensures RunRows(env, r, rows) == r.(skipped := r.skipped + rows)
  {
    SkipsUntilTarget(env, r, rows, []);
    assert rows + [] == rows;
  }

  /** The status file written for a prefix without line breaks reads back as that prefix. */
  lemma StatusRoundTrip(prefix: string)
    requires prefix != "" && forall c :: c in prefix ==> !IsLineBreak(c)
    ensures Target(None, Some(prefix)) == Some(prefix)
  {
    FirstLineOfLine(prefix);
  }

  /**
   * An empty prefix written to the status file leaves no line to read, so the
   * next run has only its explicit target, and without one starts from the first row.
   */
  lemma EmptyStatusTarget(skipUntilPrefix: Option<string>)
    ensures Target(skipUntilPrefix, Some("")) == skipUntilPrefix
  {
  }

  /** A prefix holding a line break reads back from the status file cut at the first one (lines 447-455). */
  lemma StatusReadBack(prefix: string, cut: nat)
    requires cut < |prefix| && IsLineBreak(prefix[cut])
    requires forall i :: 0 <= i < cut ==> !IsLineBreak(prefix[i])
    ensures Target(None, Some(prefix)) == Some(prefix[..cut])
  {
    FirstLineUpTo(prefix, cut);
  }

  // ---------------------------------------------------------------- clean

  /**
   * clean refuses namespace cleanup exactly while a spurious node type is
   * registered; otherwise it writes the three headers and, in namespace mode,
   * starts from the graph built over the in-scope URIs.
   */
  lemma CleanStart(filepath: string, typeName: string, skipUntilPrefix: Option<string>, dryRun: bool,
                   startTime: string, w: World, query: QueryOracle,
                   unregisterNamespace: NamespaceOracle, unregisterNodeType: NodeTypeOracle)
    ensures var c := CleanSpec(filepath, typeName, skipUntilPrefix, dryRun, startTime, w, query, unregisterNamespace, unregisterNodeType);
      && (c.Refused? <==> EqualsIgnoreCase("namespace", typeName) && HasSpuriousNodeType(w.nodeTypes))
      && (c.Cleaned? ==>
            && [Header] <= c.run.completed && [Header] <= c.run.rejected && [Header] <= c.run.skipped
            && c.run.parents == (if EqualsIgnoreCase("namespace", typeName) then Merge(w.parents, BuiltParents(InScope(w.namespaces))) else w.parents)
            && |c.run.completed| + |c.run.rejected| + |c.run.skipped| <= 3 + |InputRows(filepath, w.file)|)
  {
    var m := ParseMode(typeName);
    if !(m == NamespaceMode && HasSpuriousNodeType(w.nodeTypes)) {
      var uris := InScope(w.namespaces);
      var parents := if m == NamespaceMode then Merge(w.parents, BuiltParents(uris)) else w.parents;
      var children := if m == NamespaceMode then Merge(w.children, BuiltChildren(uris)) else w.children;
      var env := Env(m, dryRun, Target(skipUntilPrefix, w.statusFile), query, unregisterNamespace, unregisterNodeType);
      var init := Run(w.namespaces, w.nodeTypes, w.saves, parents, children, [Header], [Header], [Header],
                      w.statusFile, false, false);
      RunGrows(env, init, InputRows(filepath, w.file));
    }
  }

  /**
   * In namespace mode, starting from a consistent graph, the graph stays consistent;
   * a dry run leaves the repository's registries untouched.
   */
  lemma CleanKeepsInvariants(filepath: string, typeName: string, skipUntilPrefix: Option<string>, dryRun: bool,
                             startTime: string, w: World, query: QueryOracle,
                             unregisterNamespace: NamespaceOracle, unregisterNodeType: NodeTypeOracle)
    requires Valid(w.parents, w.children)
    ensures var c := CleanSpec(filepath, typeName, skipUntilPrefix, dryRun, startTime, w, query, unregisterNamespace, unregisterNodeType);
      c.Cleaned? ==>
        && Valid(c.run.parents, c.run.children)
        && (dryRun ==> c.run.namespaces == w.namespaces && c.run.nodeTypes == w.nodeTypes)
  {
    var m := ParseMode(typeName);
    if !(m == NamespaceMode && HasSpuriousNodeType(w.nodeTypes)) {
      var uris := InScope(w.namespaces);
      BuiltSymmetric(uris);
      MergeValid(w.parents, w.children, BuiltParents(uris), BuiltChildren(uris));
      var parents := if m == NamespaceMode then Merge(w.parents, BuiltParents(uris)) else w.parents;
      var children := if m == NamespaceMode then Merge(w.children, BuiltChildren(uris)) else w.children;
      var env := Env(m, dryRun, Target(skipUntilPrefix, w.statusFile), query, unregisterNamespace, unregisterNodeType);
      var init := Run(w.namespaces, w.nodeTypes, w.saves, parents, children, [Header], [Header], [Header],
                      w.statusFile, false, false);
      RunKeepsGraphValid(env, init, InputRows(filepath, w.file));
      if dryRun {
        DryRunKeepsRegistries(env, init, InputRows(filepath, w.file));
      }
    }
  }

  /**
   * When the input path has no `.csv`, all three outputs are the input file:
   * its rows are lost to the header writes and the run changes nothing.
   */
  lemma CleanWithoutCsvExtension(filepath: string, typeName: string, skipUntilPrefix: Option<string>, dryRun: bool,
                                 startTime: string, w: World, query: QueryOracle,
                                 unregisterNamespace: NamespaceOracle, unregisterNodeType: NodeTypeOracle)
    requires !Contains(filepath, ".csv")
    ensures var c := CleanSpec(filepath, typeName, skipUntilPrefix, dryRun, startTime, w, query, unregisterNamespace, unregisterNodeType);
      c.Cleaned? ==>
        && c.completedPath == filepath && c.rejectedPath == filepath && c.skippedPath == filepath
        && c.run.completed == [Header] && c.run.rejected == [Header] && c.run.skipped == [Header]
        && c.run.namespaces == w.namespaces && c.run.nodeTypes == w.nodeTypes && c.run.status == w.statusFile
  {
    OutputPaths(filepath, startTime, ParseMode(typeName), dryRun);
  }
}
