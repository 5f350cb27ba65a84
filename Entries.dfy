/** The one-row tables the save button builds: a rating entry per rated
    model and, when the annotator typed one, a correction entry. */
module Entries {
  import opened Cells
  import opened Tables
  import opened Master

  const SUBMISSION_COLUMN: string := "submission_id"
  const TIMESTAMP_COLUMN: string := "timestamp"
  const CORRECTED_COLUMN: string := "user_corrected"

  /** The columns of a rating entry, in the order they are written. */
  const RATING_ENTRY_COLUMNS: seq<string> :=
    [SUBMISSION_COLUMN, USER_COLUMN, INDEX_COLUMN, RATING_COLUMN, TIMESTAMP_COLUMN]

  /** The columns of a correction entry, in the order they are written. */
  const CORRECTION_ENTRY_COLUMNS: seq<string> :=
    [SUBMISSION_COLUMN, USER_COLUMN, INDEX_COLUMN, CORRECTED_COLUMN, TIMESTAMP_COLUMN]

  /** The entry for a rating of one model's correction of sentence uIndex. */
  function RatingEntry(id: RowId, user: string, uIndex: int, rating: int, ts: string): (e: Table)
    ensures e.columns == RATING_ENTRY_COLUMNS && |e.rows| == 1
    ensures IsEntryFor(e, uIndex, user) && WellFormed(e)
    ensures RATING_COLUMN in e.columns && ToInt(At(e.rows[0], RATING_COLUMN)) == Some(rating)
    ensures At(e.rows[0], SUBMISSION_COLUMN) == Int(SubmissionId(id))
    ensures At(e.rows[0], TIMESTAMP_COLUMN) == Text(ts)
    ensures At(e.rows[0], CORRECTED_COLUMN) == Missing
  {
    Entry(SubmissionId(id), user, uIndex, RATING_COLUMN, Int(rating), ts)
  }

  /** The entry for the annotator's own correction of sentence uIndex. */
  function CorrectionEntry(id: RowId, user: string, uIndex: int, fix: string, ts: string): (e: Table)
    ensures e.columns == CORRECTION_ENTRY_COLUMNS && |e.rows| == 1
    ensures IsEntryFor(e, uIndex, user) && WellFormed(e)
    ensures At(e.rows[0], CORRECTED_COLUMN) == Text(fix)
    ensures At(e.rows[0], SUBMISSION_COLUMN) == Int(SubmissionId(id))
    ensures At(e.rows[0], TIMESTAMP_COLUMN) == Text(ts)
    ensures RATING_COLUMN !in e.columns
  {
    ColumnNamesDistinct();
    Entry(SubmissionId(id), user, uIndex, CORRECTED_COLUMN, Text(fix), ts)
  }

  /** The five cells of an entry row; `col` is the rating or the correction column. */
  function EntryRow(sub: int, user: string, uIndex: int, col: string, v: Cell, ts: string): Row
  {
    map[SUBMISSION_COLUMN := Int(sub), USER_COLUMN := Text(user), INDEX_COLUMN := Int(uIndex),
        col := v, TIMESTAMP_COLUMN := Text(ts)]
  }

  /** The column names of the entries differ from one another. */
  lemma ColumnNamesDistinct()
    ensures SUBMISSION_COLUMN != USER_COLUMN && SUBMISSION_COLUMN != INDEX_COLUMN && SUBMISSION_COLUMN != RATING_COLUMN
    ensures SUBMISSION_COLUMN != CORRECTED_COLUMN && SUBMISSION_COLUMN != TIMESTAMP_COLUMN
    ensures USER_COLUMN != INDEX_COLUMN && USER_COLUMN != RATING_COLUMN && USER_COLUMN != CORRECTED_COLUMN && USER_COLUMN != TIMESTAMP_COLUMN
    ensures INDEX_COLUMN != RATING_COLUMN && INDEX_COLUMN != CORRECTED_COLUMN && INDEX_COLUMN != TIMESTAMP_COLUMN
    ensures RATING_COLUMN != CORRECTED_COLUMN && RATING_COLUMN != TIMESTAMP_COLUMN && CORRECTED_COLUMN != TIMESTAMP_COLUMN
  {
    assert |SUBMISSION_COLUMN| == 13 && |USER_COLUMN| == 4 && |INDEX_COLUMN| == 16;
    assert |RATING_COLUMN| == 6 && |CORRECTED_COLUMN| == 14 && |TIMESTAMP_COLUMN| == 9;
  }

  /** Every entry column is one the upsert keeps. */
  lemma EntryColumnsAllowed(col: string)
    requires col == RATING_COLUMN || col == CORRECTED_COLUMN
    ensures forall c :: c in [SUBMISSION_COLUMN, USER_COLUMN, INDEX_COLUMN, col, TIMESTAMP_COLUMN] ==> c in ALLOWED_COLUMNS
  {
    assert ALLOWED_COLUMNS[0] == SUBMISSION_COLUMN && ALLOWED_COLUMNS[1] == USER_COLUMN && ALLOWED_COLUMNS[2] == INDEX_COLUMN;
    assert ALLOWED_COLUMNS[3] == RATING_COLUMN && ALLOWED_COLUMNS[4] == TIMESTAMP_COLUMN && ALLOWED_COLUMNS[5] == CORRECTED_COLUMN;
  }

  /** A one-row entry for (uIndex, user) whose value cell `col` holds v: a
      well-formed table of five distinct columns that the upsert keeps. */
  function Entry(sub: int, user: string, uIndex: int, col: string, v: Cell, ts: string): (e: Table)
    requires col == RATING_COLUMN || col == CORRECTED_COLUMN
    ensures e.columns == [SUBMISSION_COLUMN, USER_COLUMN, INDEX_COLUMN, col, TIMESTAMP_COLUMN] && |e.rows| == 1
    ensures IsEntryFor(e, uIndex, user) && WellFormed(e)
    ensures At(e.rows[0], SUBMISSION_COLUMN) == Int(sub) && At(e.rows[0], col) == v
    ensures At(e.rows[0], TIMESTAMP_COLUMN) == Text(ts)
    ensures col == RATING_COLUMN ==> At(e.rows[0], CORRECTED_COLUMN) == Missing
  {
    var row := EntryRow(sub, user, uIndex, col, v, ts);
    var cols := [SUBMISSION_COLUMN, USER_COLUMN, INDEX_COLUMN, col, TIMESTAMP_COLUMN];
    EntryRowCells(sub, user, uIndex, col, v, ts);
    EntryColumnsAllowed(col);
    EntryColumnsDistinct(col);
    EntryColumnSet(col);
    EntryShapeOf(row, cols, uIndex, user);
    Table(cols, [row])
  }

  lemma EntryShapeOf(row: Row, cols: seq<string>, uIndex: int, user: string)
    requires row.Keys == ColumnSet(cols) && Distinct(cols) && forall c :: c in cols ==> c in ALLOWED_COLUMNS
    requires At(row, USER_COLUMN) == Text(user) && At(row, INDEX_COLUMN) == Int(uIndex)
    ensures IsEntryFor(Table(cols, [row]), uIndex, user) && WellFormed(Table(cols, [row]))
  {
    MatchesIntIndex(row, uIndex, uIndex, user);
  }

  lemma EntryColumnSet(col: string)
    ensures ColumnSet([SUBMISSION_COLUMN, USER_COLUMN, INDEX_COLUMN, col, TIMESTAMP_COLUMN]) ==
      {SUBMISSION_COLUMN, USER_COLUMN, INDEX_COLUMN, col, TIMESTAMP_COLUMN}
  {
  }

  lemma EntryRowCells(sub: int, user: string, uIndex: int, col: string, v: Cell, ts: string)
    requires col == RATING_COLUMN || col == CORRECTED_COLUMN
    ensures var row := EntryRow(sub, user, uIndex, col, v, ts);
      && row.Keys == {SUBMISSION_COLUMN, USER_COLUMN, INDEX_COLUMN, col, TIMESTAMP_COLUMN}
      && At(row, SUBMISSION_COLUMN) == Int(sub) && At(row, USER_COLUMN) == Text(user)
      && At(row, INDEX_COLUMN) == Int(uIndex) && At(row, col) == v && At(row, TIMESTAMP_COLUMN) == Text(ts)
      && (col == RATING_COLUMN ==> At(row, CORRECTED_COLUMN) == Missing)
  {
    ColumnNamesDistinct();
  }

  lemma EntryColumnsDistinct(col: string)
    requires col == RATING_COLUMN || col == CORRECTED_COLUMN
    ensures Distinct([SUBMISSION_COLUMN, USER_COLUMN, INDEX_COLUMN, col, TIMESTAMP_COLUMN])
  {
    ColumnNamesDistinct();
  }
}
