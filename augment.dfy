/**
 * add_resources (NamespaceUtil.java lines 255-310): every work-list row whose
 * resource cell is empty is given the first path its node type's query
 * returns; rows without a result are dropped. The loop itself is the
 * AddResources method of the NamespaceUtil class.
 */
module Augment {
  import opened Strings
  import opened Repository

  /** What happens to one input row: written (possibly rewritten), not written, or the loop ends. */
  datatype Fate = Keep(row: Row) | Drop | Stop

  /**
   * Lines 271-297 for one row. A row with fewer than four cells makes `data[3]`
   * throw, which ends the loop (the exception is caught at line 301).
   */
  function Rewrite(row: Row, query: QueryOracle): Fate {
    if |row| < 4 then Stop
    else if row[3] != "" then Keep(row)
    else match query(row[2])
      case Invalid => Drop
      case Paths(ps) => if ps == [] then Drop else Keep(row[3 := ps[0]])
  }

  /** The rows written after the header, for the rows read after the skipped header line. */
  function Augmented(rows: seq<Row>, query: QueryOracle): seq<Row>
    decreases |rows|
  {
    if rows == [] then []
    else match Rewrite(rows[0], query)
      case Stop => []
      case Drop => Augmented(rows[1..], query)
      case Keep(r) => [r] + Augmented(rows[1..], query)
  }

  /** The records after the one line `reader.skip(1)` passes over. */
  function Body(file: seq<Row>): seq<Row> {
    if file == [] then [] else file[1..]
  }

  /** Line 256: the temporary output path. */
  function TempPath(filepath: string, startTime: string): string {
    Replace(filepath, ".csv", "-" + startTime + "-resources.csv")
  }

  /**
   * The content of `filepath` after add_resources. When the temporary path is
   * the input path itself, opening the writer truncates the input before it is
   * read, so only the header remains (Files.move onto the same file does nothing).
   */
  function AddResourcesSpec(filepath: string, startTime: string, file: seq<Row>, query: QueryOracle): seq<Row> {
    if TempPath(filepath, startTime) == filepath then [Header]
    else [Header] + Augmented(Body(file), query)
  }

  /** The temporary file is the input file exactly when the input path has no `.csv` in it. */
  lemma TempPathIsInput(filepath: string, startTime: string)
    ensures TempPath(filepath, startTime) == filepath <==> !Contains(filepath, ".csv")
  {
    var rep := "-" + startTime + "-resources.csv";
    ReplaceLength(filepath, ".csv", rep);
    OccurrencesContains(filepath, ".csv");
    if !Contains(filepath, ".csv") {
      ReplaceAbsent(filepath, ".csv", rep);
    }
  }

  /** `r` is what add_resources writes for the input row `x`. */
  predicate RewrittenFrom(query: QueryOracle, x: Row, r: Row) {
    |x| >= 4 &&
    ((x[3] != "" && r == x) ||
     (x[3] == "" && query(x[2]).Paths? && query(x[2]).paths != [] && r == x[3 := query(x[2]).paths[0]]))
  }

  /** A row add_resources leaves alone: four cells or more and a resource already filled. */
  predicate Filled(r: Row) {
    |r| >= 4 && r[3] != ""
  }

  /** Every row written is an input row passed through or given its first query path. */
  lemma {:induction false} AugmentedFromInput(rows: seq<Row>, query: QueryOracle)
    ensures forall r :: r in Augmented(rows, query) ==> exists x :: x in rows && RewrittenFrom(query, x, r)
    decreases |rows|
  {
    if rows != [] {
      AugmentedFromInput(rows[1..], query);
      assert forall x :: x in rows[1..] ==> x in rows;
      assert rows[0] in rows;
    }
  }

  /** Rows whose resource is filled are written unchanged: a list of them is its own result. */
  lemma {:induction false} AugmentedKeepsFilled(rows: seq<Row>, query: QueryOracle)
    requires forall r :: r in rows ==> Filled(r)
    ensures Augmented(rows, query) == rows
    decreases |rows|
  {
    if rows != [] {
      assert rows[0] in rows;
      assert forall r :: r in rows[1..] ==> r in rows;
      AugmentedKeepsFilled(rows[1..], query);
    }
  }

  /** No query returns an empty string as its first path. */
  ghost predicate FirstPathsNonEmpty(query: QueryOracle) {
    forall t :: query(t).Paths? && query(t).paths != [] ==> query(t).paths[0] != ""
  }

  lemma {:induction false} AugmentedAllFilled(rows: seq<Row>, query: QueryOracle)
    requires FirstPathsNonEmpty(query)
    ensures forall r :: r in Augmented(rows, query) ==> Filled(r)
    decreases |rows|
  {
    if rows != [] {
      AugmentedAllFilled(rows[1..], query);
    }
  }

  /** Running add_resources on its own output writes the same rows again, when query paths are non-empty. */
  lemma AugmentedIdempotent(rows: seq<Row>, query: QueryOracle)
    requires FirstPathsNonEmpty(query)
    ensures Augmented(Augmented(rows, query), query) == Augmented(rows, query)
  {
    AugmentedAllFilled(rows, query);
    AugmentedKeepsFilled(Augmented(rows, query), query);
  }

  /** A row that is too short ends the rewrite: nothing at or after it is written. */
  lemma {:induction false} AugmentedStopsAtShortRow(rows: seq<Row>, query: QueryOracle, k: nat)
    requires k < |rows| && |rows[k]| < 4
    ensures Augmented(rows, query) == Augmented(rows[..k], query)
    decreases k
  {
    if k > 0 {
      assert rows[1..][k - 1] == rows[k];
      AugmentedStopsAtShortRow(rows[1..], query, k - 1);
      assert rows[1..][..k - 1] == rows[..k][1..];
    }
  }

  /** Inputs without a short row: rows before `i` are each written once, in order, with row `i` next. */
  lemma {:induction false} AugmentedPrefix(rows: seq<Row>, query: QueryOracle, i: nat)
    requires i < |rows| && forall j :: 0 <= j <= i ==> |rows[j]| >= 4
    ensures Augmented(rows[..i + 1], query) == Augmented(rows[..i], query) +
      (match Rewrite(rows[i], query) case Keep(r) => [r] case _ => [])
    decreases i
  {
    if i > 0 {
      AugmentedPrefix(rows[1..], query, i - 1);
      assert rows[..i + 1][1..] == rows[1..][..i];
      assert rows[..i][1..] == rows[1..][..i - 1];
    }
  }

  /**
   * Per row, for an input with no short row up to `i`: a filled row `i` is
   * written as it is, an empty one with its node type's first query path, and
   * an empty one whose query is invalid or empty is not written at all.
   */
  lemma AugmentedRowRule(rows: seq<Row>, query: QueryOracle, i: nat)
    requires i < |rows| && forall j :: 0 <= j <= i ==> |rows[j]| >= 4
    ensures rows[i][3] != "" ==> Augmented(rows[..i + 1], query) == Augmented(rows[..i], query) + [rows[i]]
    ensures rows[i][3] == "" && query(rows[i][2]).Paths? && query(rows[i][2]).paths != [] ==>
      Augmented(rows[..i + 1], query) == Augmented(rows[..i], query) + [rows[i][3 := query(rows[i][2]).paths[0]]]
    ensures rows[i][3] == "" && (query(rows[i][2]).Invalid? || query(rows[i][2]).paths == []) ==>
      Augmented(rows[..i + 1], query) == Augmented(rows[..i], query)
  {
    AugmentedPrefix(rows, query, i);
  }
}
