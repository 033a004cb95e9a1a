/** Deduplication of per-variant score tables: detect the score column,
    project to the identifier, gene, score and requested extra columns, rename
    the score to raw_score, drop null scores and keep, per variant_id, one row
    of largest absolute score with its sign. */
module Dedup {
  import opened Tables

  const VARIANT_ID := "variant_id"
  const RAW_SCORE := "raw_score"
  const SCORE := "score"
  /** The helper column holding |raw_score| while sorting; it is dropped at the end. */
  const ABS_SCORE := "_abs_score"

  /** The ways the deduplicator fails; each one yields no table. */
  datatype DedupError =
    | MissingScoreColumn          // neither raw_score nor score is a column
    | ColumnNotFound(name: string) // variant_id or gene_id is not a column
    | DuplicateColumn             // the selection names one column twice
    | ScoreNotNumeric             // the score column holds text

  // ---- Columns ----

  /** The score column: raw_score when present, else score, else none. */
  function ScoreColumn(schema: seq<string>): Option<string> {
    if RAW_SCORE in schema then Some(RAW_SCORE)
    else if SCORE in schema then Some(SCORE)
    else None
  }

  /** The requested extra columns that exist in the schema, in request order. */
  function KeepPresent(requested: seq<string>, schema: seq<string>): (r: seq<string>)
    ensures forall c :: c in r <==> c in requested && c in schema
    ensures |r| <= |requested|
  {
    if requested == [] then []
    else
      var rest := KeepPresent(requested[..|requested| - 1], schema);
      var c := requested[|requested| - 1];
      if c in schema then rest + [c] else rest
  }

  /** `cols` without the column `name`, the others in order. */
  function DropColumn(cols: seq<string>, name: string): (r: seq<string>)
    ensures forall c :: c in r <==> c in cols && c != name
    ensures name !in cols ==> r == cols
    ensures Distinct(cols) ==> Distinct(r)
  {
    if cols == [] then []
    else
      var init, c := cols[..|cols| - 1], cols[|cols| - 1];
      assert cols == init + [c];
      var rest := DropColumn(init, name);
      assert Distinct(cols) ==> Distinct(init) && c !in init;
      if c == name then rest else rest + [c]
  }

  /** The columns handed to the selection, before the score is renamed. */
  function Required(schema: seq<string>, scoreCol: string, requested: seq<string>): seq<string> {
    [VARIANT_ID, GENE_ID, scoreCol] + KeepPresent(requested, schema)
  }

  /** The columns of the result: the selection with the score renamed to
      raw_score, less the helper column _abs_score, which overwrites a selected
      column of that name and is dropped after the sort. */
  function OutputColumns(schema: seq<string>, requested: seq<string>): seq<string> {
    [VARIANT_ID, GENE_ID, RAW_SCORE] + DropColumn(KeepPresent(requested, schema), ABS_SCORE)
  }

  // ---- Rows ----

  /** A row restricted to `cols`, whose raw_score holds the row's value in `scoreCol`. */
  function ProjectRow(row: Row, cols: seq<string>, scoreCol: string): Row {
    map c | c in cols :: Get(row, if c == RAW_SCORE then scoreCol else c)
  }

  /** `o` is input row `row` cut to `cols`, with the score read from `scoreCol`. */
  predicate FromRow(o: Row, row: Row, cols: seq<string>, scoreCol: string) {
    && o.Keys == (set c | c in cols)
    && (RAW_SCORE in cols ==> Get(o, RAW_SCORE) == Get(row, scoreCol))
    && forall c :: c in cols && c != RAW_SCORE ==> Get(o, c) == Get(row, c)
  }

  /** The selection with the score renamed: row i of the result is input row i
      with exactly the selected columns, its raw_score holding the input's
      score and every other selected column holding the input's value. */
  function ProjectRows(rows: seq<Row>, cols: seq<string>, scoreCol: string): (r: seq<Row>)
    ensures |r| == |rows|
    ensures forall i :: 0 <= i < |rows| ==> FromRow(r[i], rows[i], cols, scoreCol)
  {
    seq(|rows|, i requires 0 <= i < |rows| => ProjectRow(rows[i], cols, scoreCol))
  }

  function Key(r: Row): Cell {
    Get(r, VARIANT_ID)
  }

  /** The absolute value of a numeric cell (zero for any other cell). */
  function AbsOf(c: Cell): real {
    match c
    case Num(x) => if x < 0.0 then -x else x
    case _ => 0.0
  }

  /** The absolute value of a row's raw_score. */
  function Magnitude(r: Row): real {
    AbsOf(Get(r, RAW_SCORE))
  }

  predicate HasScore(r: Row) {
    Get(r, RAW_SCORE) != Null
  }

  /** The rows whose raw_score is not null, in order. */
  function NonNullScores(rows: seq<Row>): (r: seq<Row>)
    ensures forall x :: x in r <==> x in rows && HasScore(x)
  {
    if rows == [] then []
    else
      var rest := NonNullScores(rows[..|rows| - 1]);
      var x := rows[|rows| - 1];
      if HasScore(x) then rest + [x] else rest
  }

  function Keys(rows: seq<Row>): set<Cell> {
    set x | x in rows :: Key(x)
  }

  predicate DistinctKeys(rows: seq<Row>) {
    forall i, j :: 0 <= i < j < |rows| ==> Key(rows[i]) != Key(rows[j])
  }

  /** Adds row `r` to `kept`, which holds at most one row per key: a row with a
      new key is appended; a row whose key is kept replaces the kept row only
      when its magnitude is strictly larger, so that among rows of equal
      magnitude the first one stays. */
  function Insert(kept: seq<Row>, r: Row): seq<Row> {
    if kept == [] then [r]
    else if Key(kept[0]) == Key(r) then
      if Magnitude(r) > Magnitude(kept[0]) then [r] + kept[1..] else kept
    else [kept[0]] + Insert(kept[1..], r)
  }

  /** Inserting adds the row's key and no row from elsewhere. */
  lemma {:induction false} InsertKeys(kept: seq<Row>, r: Row)
    ensures Key(r) !in Keys(kept) ==> Insert(kept, r) == kept + [r]
    ensures forall x :: x in Insert(kept, r) ==> x in kept || x == r
    ensures Keys(Insert(kept, r)) == Keys(kept) + {Key(r)}
  {
    if kept != [] {
      var head, tail := kept[0], kept[1..];
      assert kept == [head] + tail;
      assert Keys(kept) == {Key(head)} + Keys(tail);
      if Key(head) == Key(r) {
        assert Keys([r] + tail) == {Key(r)} + Keys(tail);
      } else {
        InsertKeys(tail, r);
        assert Keys([head] + Insert(tail, r)) == {Key(head)} + Keys(Insert(tail, r));
      }
    }
  }

  /** Inserting into rows of distinct keys leaves the keys distinct. */
  lemma {:induction false} InsertDistinct(kept: seq<Row>, r: Row)
    requires DistinctKeys(kept)
    ensures DistinctKeys(Insert(kept, r))
  {
    if kept != [] && Key(kept[0]) != Key(r) {
      var head, tail := kept[0], kept[1..];
      InsertDistinct(tail, r);
      InsertKeys(tail, r);
      var res := [head] + Insert(tail, r);
      forall i, j | 0 <= i < j < |res|
        ensures Key(res[i]) != Key(res[j])
      {
        if i == 0 {
          assert res[j] in Insert(tail, r);
          assert Key(res[j]) in Keys(Insert(tail, r));
        }
      }
    }
  }

  /** Inserting never lets a smaller magnitude win over a kept or a new row. */
  lemma {:induction false} InsertDominates(kept: seq<Row>, r: Row)
    requires DistinctKeys(kept)
    ensures forall o :: o in Insert(kept, r) && Key(o) == Key(r) ==> Magnitude(r) <= Magnitude(o)
    ensures forall o, k :: o in Insert(kept, r) && k in kept && Key(o) == Key(k) ==>
      Magnitude(k) <= Magnitude(o)
  {
    if kept != [] {
      var head, tail := kept[0], kept[1..];
      assert kept == [head] + tail;
      assert Key(head) !in Keys(tail);
      if Key(head) != Key(r) {
        InsertDominates(tail, r);
        InsertKeys(tail, r);
      }
    }
  }

  /** One row per variant_id, of largest magnitude (the first such row in input
      order), with the variant_ids in order of first appearance. */
  function KeepMaxAbs(rows: seq<Row>): seq<Row> {
    if rows == [] then []
    else Insert(KeepMaxAbs(rows[..|rows| - 1]), rows[|rows| - 1])
  }

  /** What keeping the row of largest magnitude per variant_id promises. */
  lemma KeepMaxAbsCorrect(rows: seq<Row>)
    ensures forall o :: o in KeepMaxAbs(rows) ==> o in rows
    ensures DistinctKeys(KeepMaxAbs(rows))
    ensures Keys(KeepMaxAbs(rows)) == Keys(rows)
    ensures forall o, x :: o in KeepMaxAbs(rows) && x in rows && Key(x) == Key(o) ==>
      Magnitude(x) <= Magnitude(o)
    ensures DistinctKeys(rows) ==> KeepMaxAbs(rows) == rows
  {
    KeepMaxAbsFrom(rows);
    KeepMaxAbsDistinct(rows);
    KeepMaxAbsKeys(rows);
    KeepMaxAbsDominates(rows);
    if DistinctKeys(rows) {
      KeepMaxAbsUnique(rows);
    }
  }

  lemma {:induction false} KeepMaxAbsFrom(rows: seq<Row>)
    ensures forall o :: o in KeepMaxAbs(rows) ==> o in rows
  {
    if rows != [] {
      var init, last := rows[..|rows| - 1], rows[|rows| - 1];
      assert rows == init + [last];
      KeepMaxAbsFrom(init);
      InsertKeys(KeepMaxAbs(init), last);
    }
  }

  lemma {:induction false} KeepMaxAbsDistinct(rows: seq<Row>)
    ensures DistinctKeys(KeepMaxAbs(rows))
  {
    if rows != [] {
      var init, last := rows[..|rows| - 1], rows[|rows| - 1];
      KeepMaxAbsDistinct(init);
      InsertDistinct(KeepMaxAbs(init), last);
    }
  }

  lemma {:induction false} KeepMaxAbsKeys(rows: seq<Row>)
    ensures Keys(KeepMaxAbs(rows)) == Keys(rows)
  {
    if rows != [] {
      var init, last := rows[..|rows| - 1], rows[|rows| - 1];
      assert rows == init + [last];
      KeepMaxAbsKeys(init);
      InsertKeys(KeepMaxAbs(init), last);
      assert Keys(rows) == Keys(init) + {Key(last)};
    }
  }

  lemma {:induction false} KeepMaxAbsDominates(rows: seq<Row>)
    ensures forall o, x :: o in KeepMaxAbs(rows) && x in rows && Key(x) == Key(o) ==>
      Magnitude(x) <= Magnitude(o)
  {
    if rows != [] {
      var init, last := rows[..|rows| - 1], rows[|rows| - 1];
      assert rows == init + [last];
      KeepMaxAbsDominates(init);
      KeepMaxAbsDistinct(init);
      KeepMaxAbsKeys(init);
      var kept := KeepMaxAbs(init);
      InsertDominates(kept, last);
      forall o, x | o in KeepMaxAbs(rows) && x in rows && Key(x) == Key(o)
        ensures Magnitude(x) <= Magnitude(o)
      {
        if x != last {
          assert x in init;
          assert Key(x) in Keys(kept);
          var k :| k in kept && Key(k) == Key(x);
          assert Magnitude(x) <= Magnitude(k);
        }
      }
    }
  }

  lemma {:induction false} KeepMaxAbsUnique(rows: seq<Row>)
    requires DistinctKeys(rows)
    ensures KeepMaxAbs(rows) == rows
  {
    if rows != [] {
      var init, last := rows[..|rows| - 1], rows[|rows| - 1];
      assert rows == init + [last];
      assert DistinctKeys(init);
      KeepMaxAbsUnique(init);
      assert Key(last) !in Keys(init) by {
        forall x | x in init ensures Key(x) != Key(last) {
          var k :| 0 <= k < |init| && init[k] == x;
          assert rows[k] == x;
        }
      }
      InsertKeys(init, last);
    }
  }

  /** The row pipeline: project, drop null scores, keep the largest magnitude. */
  function DedupRows(rows: seq<Row>, cols: seq<string>, scoreCol: string): seq<Row> {
    KeepMaxAbs(NonNullScores(ProjectRows(rows, cols, scoreCol)))
  }

  // ---- The whole step ----

  /** The deduplicated table, or the error that stops the step. */
  function Deduplicated(input: Frame, requested: seq<string>): Result<Frame, DedupError> {
    match ScoreColumn(input.columns)
    case None => Failure(MissingScoreColumn)
    case Some(scoreCol) =>
      if VARIANT_ID !in input.columns then Failure(ColumnNotFound(VARIANT_ID))
      else if GENE_ID !in input.columns then Failure(ColumnNotFound(GENE_ID))
      else if !Distinct(Required(input.columns, scoreCol, requested)) then Failure(DuplicateColumn)
      else if exists i :: 0 <= i < |input.rows| && Get(input.rows[i], scoreCol).Text? then
        Failure(ScoreNotNumeric)
      else
        var cols := OutputColumns(input.columns, requested);
        Success(Frame(cols, DedupRows(input.rows, cols, scoreCol)))
  }

  /** When no check stops the step, its result is the row pipeline's table. */
  lemma DeduplicatedSucceeds(input: Frame, requested: seq<string>, scoreCol: string)
    requires ScoreColumn(input.columns) == Some(scoreCol)
    requires VARIANT_ID in input.columns && GENE_ID in input.columns
    requires Distinct(Required(input.columns, scoreCol, requested))
    requires forall i :: 0 <= i < |input.rows| ==> !Get(input.rows[i], scoreCol).Text?
    ensures var cols := OutputColumns(input.columns, requested);
      Deduplicated(input, requested) == Success(Frame(cols, DedupRows(input.rows, cols, scoreCol)))
  {
  }

  /** The deduplication step as the program runs it: the required-column list
      is built by a loop appending each requested column the file has. */
  method DedupScoresByVariant(input: Frame, requested: seq<string>)
    returns (r: Result<Frame, DedupError>)
    ensures r == Deduplicated(input, requested)
  {
    var schemaCols := input.columns;
    var scoreCol: string;
    if RAW_SCORE in schemaCols {
      scoreCol := RAW_SCORE;
    } else if SCORE in schemaCols {
      scoreCol := SCORE;
    } else {
      return Failure(MissingScoreColumn);
    }

    var required := [VARIANT_ID, GENE_ID, scoreCol];
    for i := 0 to |requested|
      invariant required == [VARIANT_ID, GENE_ID, scoreCol] + KeepPresent(requested[..i], schemaCols)
    {
      assert requested[..i + 1][..i] == requested[..i];
      if requested[i] in schemaCols {
        required := required + [requested[i]];
      }
    }
    assert requested[..|requested|] == requested;
    assert required == Required(schemaCols, scoreCol, requested);

    // the selection fails on a missing or a repeated column
    if VARIANT_ID !in schemaCols {
      return Failure(ColumnNotFound(VARIANT_ID));
    }
    if GENE_ID !in schemaCols {
      return Failure(ColumnNotFound(GENE_ID));
    }
    if !Distinct(required) {
      return Failure(DuplicateColumn);
    }
    // the absolute value fails on a text column
    if exists i :: 0 <= i < |input.rows| && Get(input.rows[i], scoreCol).Text? {
      return Failure(ScoreNotNumeric);
    }

    // the helper column _abs_score replaces a selected column of that name
    // and is dropped after the sort
    assert required[3..] == KeepPresent(requested, schemaCols);
    var cols := [VARIANT_ID, GENE_ID, RAW_SCORE] + DropColumn(required[3..], ABS_SCORE);
    assert cols == OutputColumns(schemaCols, requested);
    var df := Frame(cols, ProjectRows(input.rows, cols, scoreCol));
    df := Frame(df.columns, NonNullScores(df.rows));
    var dedup := Frame(df.columns, KeepMaxAbs(df.rows));
    assert dedup.rows == DedupRows(input.rows, cols, scoreCol);
    DeduplicatedSucceeds(input, requested, scoreCol);
    r := Success(dedup);
  }

  // ---- Properties of the row pipeline ----

  /** Every row of the pipeline comes from an input row with a numeric score:
      it has exactly the selected columns, its raw_score is that row's signed
      score and every other column holds that row's unchanged value. */
  lemma DedupRowsProvenance(rows: seq<Row>, cols: seq<string>, scoreCol: string)
    requires RAW_SCORE in cols
    requires forall i :: 0 <= i < |rows| ==> !Get(rows[i], scoreCol).Text?
    ensures forall o :: o in DedupRows(rows, cols, scoreCol) ==>
      (exists i :: 0 <= i < |rows| && Get(rows[i], scoreCol).Num? && FromRow(o, rows[i], cols, scoreCol))
  {
    var projected := ProjectRows(rows, cols, scoreCol);
    KeepMaxAbsCorrect(NonNullScores(projected));
    forall o | o in DedupRows(rows, cols, scoreCol)
      ensures exists i :: 0 <= i < |rows| && Get(rows[i], scoreCol).Num? && FromRow(o, rows[i], cols, scoreCol)
    {
      assert o in projected && HasScore(o);
      var i :| 0 <= i < |projected| && projected[i] == o;
      assert FromRow(o, rows[i], cols, scoreCol);
    }
  }

  /** A variant_id appears among the pipeline's rows exactly when some input
      row with that variant_id has a non-null score, and then exactly once. */
  lemma DedupRowsOnePerVariant(rows: seq<Row>, cols: seq<string>, scoreCol: string)
    requires VARIANT_ID in cols && RAW_SCORE in cols
    ensures DistinctKeys(DedupRows(rows, cols, scoreCol))
    ensures forall id :: id in Keys(DedupRows(rows, cols, scoreCol)) <==>
      exists i :: 0 <= i < |rows| && Get(rows[i], VARIANT_ID) == id && Get(rows[i], scoreCol) != Null
  {
    var kept := NonNullScores(ProjectRows(rows, cols, scoreCol));
    KeepMaxAbsCorrect(kept);
    forall id ensures id in Keys(kept) <==>
        exists i :: 0 <= i < |rows| && Get(rows[i], VARIANT_ID) == id && Get(rows[i], scoreCol) != Null
    {
      if id in Keys(kept) {
        KeptKeyFromInput(rows, cols, scoreCol, id);
      }
      forall i | 0 <= i < |rows| && Get(rows[i], VARIANT_ID) == id && Get(rows[i], scoreCol) != Null
        ensures id in Keys(kept)
      {
        InputKeyKept(rows, cols, scoreCol, i);
      }
    }
  }

  lemma KeptKeyFromInput(rows: seq<Row>, cols: seq<string>, scoreCol: string, id: Cell)
    requires VARIANT_ID in cols && RAW_SCORE in cols
    requires id in Keys(NonNullScores(ProjectRows(rows, cols, scoreCol)))
    ensures exists i :: 0 <= i < |rows| && Get(rows[i], VARIANT_ID) == id && Get(rows[i], scoreCol) != Null
  {
    var projected := ProjectRows(rows, cols, scoreCol);
    var x :| x in NonNullScores(projected) && Key(x) == id;
    var i :| 0 <= i < |projected| && projected[i] == x;
    assert Get(rows[i], VARIANT_ID) == id && Get(rows[i], scoreCol) != Null;
  }

  lemma InputKeyKept(rows: seq<Row>, cols: seq<string>, scoreCol: string, i: nat)
    requires VARIANT_ID in cols && RAW_SCORE in cols
    requires i < |rows| && Get(rows[i], scoreCol) != Null
    ensures Get(rows[i], VARIANT_ID) in Keys(NonNullScores(ProjectRows(rows, cols, scoreCol)))
  {
    var projected := ProjectRows(rows, cols, scoreCol);
    assert projected[i] in NonNullScores(projected);
    assert Key(projected[i]) == Get(rows[i], VARIANT_ID);
  }

  /** No input row with a non-null score has a strictly larger absolute score
      than the pipeline's row of its variant_id. */
  lemma DedupRowsMaxAbs(rows: seq<Row>, cols: seq<string>, scoreCol: string)
    requires VARIANT_ID in cols && RAW_SCORE in cols
    ensures forall o, i | o in DedupRows(rows, cols, scoreCol) && 0 <= i < |rows|
      && Get(rows[i], VARIANT_ID) == Key(o) && Get(rows[i], scoreCol) != Null ::
        AbsOf(Get(rows[i], scoreCol)) <= AbsOf(Get(o, RAW_SCORE))
  {
    forall o, i | o in DedupRows(rows, cols, scoreCol) && 0 <= i < |rows|
        && Get(rows[i], VARIANT_ID) == Key(o) && Get(rows[i], scoreCol) != Null
      ensures AbsOf(Get(rows[i], scoreCol)) <= AbsOf(Get(o, RAW_SCORE))
    {
      MaxAbsAt(rows, cols, scoreCol, o, i);
    }
  }

  lemma MaxAbsAt(rows: seq<Row>, cols: seq<string>, scoreCol: string, o: Row, i: nat)
    requires VARIANT_ID in cols && RAW_SCORE in cols
    requires o in DedupRows(rows, cols, scoreCol)
    requires i < |rows| && Get(rows[i], VARIANT_ID) == Key(o) && Get(rows[i], scoreCol) != Null
    ensures AbsOf(Get(rows[i], scoreCol)) <= AbsOf(Get(o, RAW_SCORE))
  {
    var projected := ProjectRows(rows, cols, scoreCol);
    var kept := NonNullScores(projected);
    ProjectedRowKept(rows, cols, scoreCol, i);
    KeepMaxAbsCorrect(kept);
    var x := projected[i];
    assert o in KeepMaxAbs(kept) && x in kept && Key(x) == Key(o);
    assert Magnitude(x) <= Magnitude(o);
  }

  /** Input row i with a non-null score reaches the null filter's output with
      its variant_id and the magnitude of its score. */
  lemma ProjectedRowKept(rows: seq<Row>, cols: seq<string>, scoreCol: string, i: nat)
    requires VARIANT_ID in cols && RAW_SCORE in cols
    requires i < |rows| && Get(rows[i], scoreCol) != Null
    ensures var x := ProjectRows(rows, cols, scoreCol)[i];
      && x in NonNullScores(ProjectRows(rows, cols, scoreCol))
      && Key(x) == Get(rows[i], VARIANT_ID)
      && Magnitude(x) == AbsOf(Get(rows[i], scoreCol))
  {
    var projected := ProjectRows(rows, cols, scoreCol);
    assert FromRow(projected[i], rows[i], cols, scoreCol);
  }

  // ---- Properties of the whole step ----

  /** The step fails for want of a score column exactly when neither raw_score
      nor score is a column, and succeeds exactly when no selection or type
      error stops it; on success its rows come from the row pipeline, reading
      the score from raw_score whenever that column exists. */
  lemma DedupOutcome(input: Frame, requested: seq<string>)
    ensures Deduplicated(input, requested) == Failure(MissingScoreColumn)
      <==> RAW_SCORE !in input.columns && SCORE !in input.columns
    ensures Deduplicated(input, requested).Success? <==>
      && (RAW_SCORE in input.columns || SCORE in input.columns)
      && VARIANT_ID in input.columns && GENE_ID in input.columns
      && Distinct(Required(input.columns, ScoreColumn(input.columns).value, requested))
      && forall i :: 0 <= i < |input.rows| ==> !Get(input.rows[i], ScoreColumn(input.columns).value).Text?
    ensures Deduplicated(input, requested).Success? ==>
      var scoreCol := if RAW_SCORE in input.columns then RAW_SCORE else SCORE;
      var cols := OutputColumns(input.columns, requested);
      Deduplicated(input, requested).value == Frame(cols, DedupRows(input.rows, cols, scoreCol))
  {
  }

  /** Renaming the score column of a repeat-free selection and dropping the
      helper column gives repeat-free columns. */
  lemma OutputColumnsDistinct(schema: seq<string>, scoreCol: string, requested: seq<string>)
    requires scoreCol == RAW_SCORE || RAW_SCORE !in schema
    requires Distinct(Required(schema, scoreCol, requested))
    ensures Distinct(OutputColumns(schema, requested))
  {
    var kept := KeepPresent(requested, schema);
    KeptColumnsDistinct(schema, scoreCol, requested);
    var dropped := DropColumn(kept, ABS_SCORE);
    var out := OutputColumns(schema, requested);
    forall i, j | 0 <= i < j < |out| ensures out[i] != out[j] {
      if 3 <= j {
        assert out[j] == dropped[j - 3] && dropped[j - 3] in kept;
        if 3 <= i {
          assert out[i] == dropped[i - 3];
        }
      }
    }
  }

  /** The kept extra columns of a repeat-free selection repeat neither each
      other nor variant_id, gene_id or raw_score. */
  lemma KeptColumnsDistinct(schema: seq<string>, scoreCol: string, requested: seq<string>)
    requires scoreCol == RAW_SCORE || RAW_SCORE !in schema
    requires Distinct(Required(schema, scoreCol, requested))
    ensures Distinct(KeepPresent(requested, schema))
    ensures forall c :: c in KeepPresent(requested, schema) ==>
      c != VARIANT_ID && c != GENE_ID && c != RAW_SCORE
  {
    var required := Required(schema, scoreCol, requested);
    var kept := KeepPresent(requested, schema);
    assert required[3..] == kept;
    forall i, j | 0 <= i < j < |kept| ensures kept[i] != kept[j] {
      assert required[3 + i] != required[3 + j];
    }
    forall c | c in kept ensures c != VARIANT_ID && c != GENE_ID && c != RAW_SCORE {
      var k :| 0 <= k < |kept| && kept[k] == c;
      assert required[3 + k] == c;
      assert required[0] != required[3 + k] && required[1] != required[3 + k];
      assert required[2] != required[3 + k];
    }
  }

  /** Every row of the pipeline has exactly the selected columns. */
  lemma DedupRowsKeys(rows: seq<Row>, cols: seq<string>, scoreCol: string)
    ensures forall o :: o in DedupRows(rows, cols, scoreCol) ==> o.Keys == set c | c in cols
  {
    var projected := ProjectRows(rows, cols, scoreCol);
    KeepMaxAbsCorrect(NonNullScores(projected));
  }

  /** Running the pipeline again on its own rows, reading raw_score, returns them. */
  lemma DedupRowsFixpoint(rows: seq<Row>, cols: seq<string>, scoreCol: string)
    requires forall i :: 0 <= i < |rows| ==> !Get(rows[i], scoreCol).Text?
    requires VARIANT_ID in cols && RAW_SCORE in cols
    ensures var out := DedupRows(rows, cols, scoreCol);
      && (forall i :: 0 <= i < |out| ==> !Get(out[i], RAW_SCORE).Text?)
      && DedupRows(out, cols, RAW_SCORE) == out
  {
    var out := DedupRows(rows, cols, scoreCol);
    var kept := NonNullScores(ProjectRows(rows, cols, scoreCol));
    KeepMaxAbsCorrect(kept);
    DedupRowsKeys(rows, cols, scoreCol);
    forall i | 0 <= i < |out| ensures HasScore(out[i]) && !Get(out[i], RAW_SCORE).Text? {
      assert out[i] in kept;
    }
    ProjectRowsIdentity(out, cols);
    NonNullScoresKeepsAll(out);
    KeepMaxAbsCorrect(out);
  }

  /** Projecting rows that have exactly `cols` onto `cols`, reading raw_score, changes nothing. */
  lemma ProjectRowsIdentity(rows: seq<Row>, cols: seq<string>)
    requires forall o :: o in rows ==> o.Keys == set c | c in cols
    ensures ProjectRows(rows, cols, RAW_SCORE) == rows
  {
    var again := ProjectRows(rows, cols, RAW_SCORE);
    forall i | 0 <= i < |rows| ensures again[i] == rows[i] {
      assert rows[i] in rows;
    }
  }

  /** On success the result's columns are variant_id, gene_id, raw_score and
      then each requested column the input has, in request order, without
      repeats; every row has exactly those columns. */
  lemma DedupColumns(input: Frame, requested: seq<string>)
    requires Deduplicated(input, requested).Success?
    ensures Deduplicated(input, requested).value.columns ==
      [VARIANT_ID, GENE_ID, RAW_SCORE] + DropColumn(KeepPresent(requested, input.columns), ABS_SCORE)
    ensures ABS_SCORE !in Deduplicated(input, requested).value.columns
    ensures WellFormed(Deduplicated(input, requested).value)
  {
    DedupOutcome(input, requested);
    var scoreCol := ScoreColumn(input.columns).value;
    OutputColumnsDistinct(input.columns, scoreCol, requested);
    DedupRowsKeys(input.rows, OutputColumns(input.columns, requested), scoreCol);
  }

  /** Deduplicating a deduplicated table again, with the same requested
      columns, returns it unchanged. The exception: when the input's score
      column was `score` and raw_score is requested, the second run selects
      raw_score twice and fails (RerunSelectsRawScoreTwice). */
  lemma DedupIdempotent(input: Frame, requested: seq<string>)
    requires Deduplicated(input, requested).Success?
    requires RAW_SCORE in input.columns || RAW_SCORE !in requested
    ensures Deduplicated(Deduplicated(input, requested).value, requested) ==
      Deduplicated(input, requested)
  {
    DedupOutcome(input, requested);
    var scoreCol := ScoreColumn(input.columns).value;
    var cols := OutputColumns(input.columns, requested);
    var out := DedupRows(input.rows, cols, scoreCol);
    OutputColumnsDistinct(input.columns, scoreCol, requested);
    DedupRowsFixpoint(input.rows, cols, scoreCol);
    forall c | c in requested ensures c in cols <==> c in input.columns && c != ABS_SCORE {
    }
    KeepPresentAfterDrop(requested, input.columns, cols);
    assert ScoreColumn(cols) == Some(RAW_SCORE);
    assert Required(cols, RAW_SCORE, requested) == cols;
    assert OutputColumns(cols, requested) == cols;
    DedupOutcome(Frame(cols, out), requested);
  }

  /** A requested column named _abs_score passes the selection but is
      overwritten by the helper column and dropped with it: the result has
      neither the column nor its values. */
  lemma AbsScoreColumnDropped()
    ensures var row := map[VARIANT_ID := Text("v1"), GENE_ID := Text("g1"),
                           RAW_SCORE := Num(-2.0), ABS_SCORE := Num(5.0)];
      Deduplicated(Frame([VARIANT_ID, GENE_ID, RAW_SCORE, ABS_SCORE], [row]), [ABS_SCORE]) ==
        Success(Frame([VARIANT_ID, GENE_ID, RAW_SCORE],
          [map[VARIANT_ID := Text("v1"), GENE_ID := Text("g1"), RAW_SCORE := Num(-2.0)]]))
  {
    AbsScoreSelection();
    AbsScoreRows();
  }

  /** The columns of AbsScoreColumnDropped: the selection keeps _abs_score, the output does not. */
  lemma AbsScoreSelection()
    ensures var schema := [VARIANT_ID, GENE_ID, RAW_SCORE, ABS_SCORE];
      && Required(schema, RAW_SCORE, [ABS_SCORE]) == schema
      && Distinct(schema)
      && OutputColumns(schema, [ABS_SCORE]) == [VARIANT_ID, GENE_ID, RAW_SCORE]
  {
    var schema := [VARIANT_ID, GENE_ID, RAW_SCORE, ABS_SCORE];
    assert [ABS_SCORE][..0] == [];
    assert KeepPresent([ABS_SCORE], schema) == [ABS_SCORE];
    assert DropColumn([ABS_SCORE], ABS_SCORE) == [];
  }

  /** The rows of AbsScoreColumnDropped: the one row, cut to the output columns. */
  lemma AbsScoreRows()
    ensures var row := map[VARIANT_ID := Text("v1"), GENE_ID := Text("g1"),
                           RAW_SCORE := Num(-2.0), ABS_SCORE := Num(5.0)];
      DedupRows([row], [VARIANT_ID, GENE_ID, RAW_SCORE], RAW_SCORE) ==
        [map[VARIANT_ID := Text("v1"), GENE_ID := Text("g1"), RAW_SCORE := Num(-2.0)]]
  {
    var row := map[VARIANT_ID := Text("v1"), GENE_ID := Text("g1"),
                   RAW_SCORE := Num(-2.0), ABS_SCORE := Num(5.0)];
    var cols := [VARIANT_ID, GENE_ID, RAW_SCORE];
    var projected := ProjectRow(row, cols, RAW_SCORE);
    assert projected == map[VARIANT_ID := Text("v1"), GENE_ID := Text("g1"), RAW_SCORE := Num(-2.0)];
    assert ProjectRows([row], cols, RAW_SCORE) == [projected];
    assert NonNullScores([projected]) == [projected];
    assert KeepMaxAbs([projected]) == [projected];
  }

  /** The result of a rerun that requests raw_score when the file's score
      column was `score`: the first run succeeds, the second fails. */
  lemma RerunSelectsRawScoreTwice()
    ensures var input := Frame([VARIANT_ID, GENE_ID, SCORE], []);
      && Deduplicated(input, [RAW_SCORE]) == Success(Frame([VARIANT_ID, GENE_ID, RAW_SCORE], []))
      && Deduplicated(Deduplicated(input, [RAW_SCORE]).value, [RAW_SCORE]) == Failure(DuplicateColumn)
  {
    var input := Frame([VARIANT_ID, GENE_ID, SCORE], []);
    assert [RAW_SCORE][..0] == [];
    assert KeepPresent([RAW_SCORE], input.columns) == [];
    assert Distinct(Required(input.columns, SCORE, [RAW_SCORE]));
    var out := Frame([VARIANT_ID, GENE_ID, RAW_SCORE], []);
    assert ScoreColumn(input.columns) == Some(SCORE);
    assert OutputColumns(input.columns, [RAW_SCORE]) == out.columns;
    assert DedupRows([], out.columns, SCORE) == [];
    assert Deduplicated(input, [RAW_SCORE]) == Success(out);
    assert KeepPresent([RAW_SCORE], out.columns) == [RAW_SCORE];
    var twice := Required(out.columns, RAW_SCORE, [RAW_SCORE]);
    assert twice[2] == twice[3];
  }

  /** Whenever the file's score column was `score` and raw_score is requested,
      a second run on a successful first run's result fails: its selection
      names raw_score once as the score and once as a requested column. */
  lemma RerunFailsOnRequestedRawScore(input: Frame, requested: seq<string>)
    requires RAW_SCORE !in input.columns && SCORE in input.columns
    requires RAW_SCORE in requested
    requires Deduplicated(input, requested).Success?
    ensures Deduplicated(Deduplicated(input, requested).value, requested) == Failure(DuplicateColumn)
  {
    DedupColumns(input, requested);
    var out := Deduplicated(input, requested).value;
    var kept := KeepPresent(requested, out.columns);
    assert RAW_SCORE in out.columns;
    var k :| 0 <= k < |kept| && kept[k] == RAW_SCORE;
    var again := Required(out.columns, RAW_SCORE, requested);
    assert again[2] == again[3 + k];
    RepeatedSelectionFails(out, requested);
  }

  /** A table with raw_score, variant_id and gene_id whose selection repeats a
      column fails with DuplicateColumn. */
  lemma RepeatedSelectionFails(input: Frame, requested: seq<string>)
    requires RAW_SCORE in input.columns && VARIANT_ID in input.columns && GENE_ID in input.columns
    requires !Distinct(Required(input.columns, RAW_SCORE, requested))
    ensures Deduplicated(input, requested) == Failure(DuplicateColumn)
  {
  }

  /** A schema that has a requested column exactly when `schema` has it and it
      is not the helper column keeps `schema`'s list less the helper column. */
  lemma {:induction false} KeepPresentAfterDrop(requested: seq<string>, schema: seq<string>, cols: seq<string>)
    requires forall c :: c in requested ==> (c in cols <==> c in schema && c != ABS_SCORE)
    ensures KeepPresent(requested, cols) == DropColumn(KeepPresent(requested, schema), ABS_SCORE)
  {
    if requested != [] {
      var init, c := requested[..|requested| - 1], requested[|requested| - 1];
      KeepPresentAfterDrop(init, schema, cols);
      var kept := KeepPresent(init, schema);
      if c in schema {
        assert (kept + [c])[..|kept|] == kept;
      }
    }
  }

  /** Two schemas that agree on which requested columns they hold keep the
      same requested columns. */
  lemma {:induction false} KeepPresentSameMembers(requested: seq<string>, s1: seq<string>, s2: seq<string>)
    requires forall c :: c in requested ==> (c in s1 <==> c in s2)
    ensures KeepPresent(requested, s1) == KeepPresent(requested, s2)
  {
    if requested != [] {
      KeepPresentSameMembers(requested[..|requested| - 1], s1, s2);
    }
  }

  lemma {:induction false} NonNullScoresKeepsAll(rows: seq<Row>)
    requires forall i :: 0 <= i < |rows| ==> HasScore(rows[i])
    ensures NonNullScores(rows) == rows
  {
    if rows != [] {
      NonNullScoresKeepsAll(rows[..|rows| - 1]);
      assert rows == rows[..|rows| - 1] + [rows[|rows| - 1]];
    }
  }
}
