/** The cached ratings tables and the pure table logic of the rating tool:
    projection onto the allowed columns, the (unique_set_index, user) key,
    the filter that drops an annotator's old entry, the upsert that appends
    the new one, and the lookup that pre-fills a saved rating. */
module Tables {
  import opened Cells

  /** A row maps column names to cells; a column the row lacks reads as NaN. */
  type Row = map<string, Cell>

  /** A data frame: its column labels in order and its rows in order. */
  datatype Table = Table(columns: seq<string>, rows: seq<Row>)

  const INDEX_COLUMN: string := "unique_set_index"
  const USER_COLUMN: string := "user"
  const RATING_COLUMN: string := "rating"

  /** The columns an upsert keeps from an existing table. */
  const ALLOWED_COLUMNS: seq<string> :=
    ["submission_id", "user", "unique_set_index", "rating", "timestamp", "user_corrected"]

  function At(r: Row, c: string): Cell
  {
    if c in r then r[c] else Missing
  }

  /** `dict.get`: the cached table under a key, if any. */
  function Lookup(data: map<string, Table>, key: string): (r: Option<Table>)
    ensures r.Some? <==> key in data
    ensures r.Some? ==> r.value == data[key]
  {
    if key in data then Some(data[key]) else None
  }

  function ColumnSet(cols: seq<string>): set<string>
  {
    set c | c in cols
  }

  predicate Distinct(cols: seq<string>)
  {
    forall i, j :: 0 <= i < j < |cols| ==> cols[i] != cols[j]
  }

  /** Column labels are unique and no row holds a cell outside the columns. */
  predicate WellFormed(t: Table)
  {
    Distinct(t.columns) && forall r :: r in t.rows ==> r.Keys <= ColumnSet(t.columns)
  }

  /** `df.empty`: no rows or no columns. */
  predicate IsEmpty(t: Table)
  {
    |t.rows| == 0 || |t.columns| == 0
  }

  predicate HasKeyColumns(t: Table)
  {
    INDEX_COLUMN in t.columns && USER_COLUMN in t.columns
  }

  /** The row belongs to (uIdx, user): `str(unique_set_index) == str(uIdx)`
      and the user cell equals the user name. */
  predicate Matches(r: Row, uIdx: int, user: string)
  {
    Str(At(r, INDEX_COLUMN)) == IntToString(uIdx) && At(r, USER_COLUMN) == Text(user)
  }

  function CountMatching(rows: seq<Row>, uIdx: int, user: string): nat
  {
    if rows == [] then 0
    else (if Matches(rows[0], uIdx, user) then 1 else 0) + CountMatching(rows[1..], uIdx, user)
  }

  /** `df[~mask]`: the rows that do not belong to (uIdx, user), in order. */
  function Keep(rows: seq<Row>, uIdx: int, user: string): (kept: seq<Row>)
    ensures forall x :: x in kept <==> x in rows && !Matches(x, uIdx, user)
    ensures CountMatching(kept, uIdx, user) == 0
    ensures |kept| + CountMatching(rows, uIdx, user) == |rows|
  {
    if rows == [] then []
    else if Matches(rows[0], uIdx, user) then Keep(rows[1..], uIdx, user)
    else
      var rest := Keep(rows[1..], uIdx, user);
      assert ([rows[0]] + rest)[1..] == rest;
      [rows[0]] + rest
  }

  /** `[c for c in columns if c in allowed_cols]`. */
  function AllowedOf(cols: seq<string>): (r: seq<string>)
    ensures forall c :: c in r <==> c in cols && c in ALLOWED_COLUMNS
    ensures Distinct(cols) ==> Distinct(r)
  {
    if cols == [] then []
    else (if cols[0] in ALLOWED_COLUMNS then [cols[0]] else []) + AllowedOf(cols[1..])
  }

  /** The columns of `add` that `have` lacks, in the order of `add`. */
  function NewColumns(have: seq<string>, add: seq<string>): (r: seq<string>)
    ensures forall c :: c in r <==> c in add && c !in have
    ensures Distinct(add) ==> Distinct(r)
  {
    if add == [] then []
    else (if add[0] in have then [] else [add[0]]) + NewColumns(have, add[1..])
  }

  function Restrict(r: Row, keep: set<string>): (p: Row)
    ensures p.Keys == r.Keys * keep
  {
    map c | c in r && c in keep :: r[c]
  }

  function ProjectRows(rows: seq<Row>, keep: set<string>): (p: seq<Row>)
    ensures |p| == |rows|
    ensures forall i :: 0 <= i < |rows| ==> p[i] == Restrict(rows[i], keep)
  {
    if rows == [] then [] else [Restrict(rows[0], keep)] + ProjectRows(rows[1..], keep)
  }

  /** `existing_df[valid_existing_cols]`: the allowed columns of the table, in
      order, and every row, in order, keeping only its cells in those columns. */
  function Project(t: Table): (p: Table)
    ensures forall c :: c in p.columns <==> c in t.columns && c in ALLOWED_COLUMNS
    ensures |p.rows| == |t.rows|
    ensures forall i :: 0 <= i < |t.rows| ==> p.rows[i].Keys <= ColumnSet(p.columns)
    ensures forall i, c :: 0 <= i < |t.rows| && c in p.columns ==> At(p.rows[i], c) == At(t.rows[i], c)
  {
    var cols := AllowedOf(t.columns);
    Table(cols, ProjectRows(t.rows, ColumnSet(cols)))
  }

  /** The table `save_entry_to_sheet` writes for key (uIdx, user): a missing or
      empty cached table is replaced by the entry; otherwise the cached table
      is projected onto the allowed columns, loses its rows for the key (when
      it has both key columns) and gets the entry's rows appended, its columns
      extended by those of the entry (`pd.concat`). The rows removed are the
      cached rows that belong to the key, and the entry's rows come last. */
  function Upsert(existing: Option<Table>, entry: Table, uIdx: int, user: string): Table
  {
    if existing.None? || IsEmpty(existing.value) then entry
    else
      var p := Project(existing.value);
      Table(p.columns + NewColumns(p.columns, entry.columns), Survivors(existing.value, uIdx, user) + entry.rows)
  }

  /** The shape of an upsert: the entry alone when nothing is cached; otherwise
      the entry's rows last, after exactly the `Survivors` of the cached table
      (as many fewer rows as belong to the key), and every column of the entry
      present. */
  lemma UpsertShape(existing: Option<Table>, entry: Table, uIdx: int, user: string)
    ensures var r := Upsert(existing, entry, uIdx, user);
      && (existing.None? || IsEmpty(existing.value) ==> r == entry)
      && |entry.rows| <= |r.rows| && r.rows[|r.rows| - |entry.rows|..] == entry.rows
      && (forall c :: c in entry.columns ==> c in r.columns)
      && (existing.Some? && !IsEmpty(existing.value) ==>
            |r.rows| + CountMatching(Project(existing.value).rows, uIdx, user) == |existing.value.rows| + |entry.rows|)
      && (existing.Some? && !IsEmpty(existing.value) ==>
            r.rows[..|r.rows| - |entry.rows|] == Survivors(existing.value, uIdx, user))
  {
    if existing.Some? && !IsEmpty(existing.value) {
      var s := Survivors(existing.value, uIdx, user);
      assert (s + entry.rows)[|s|..] == entry.rows;
      assert (s + entry.rows)[..|s|] == s;
    }
  }

  /** The projected rows of a cached table that the upsert for (uIdx, user)
      keeps: exactly those that do not belong to the key, so that as many rows
      go as belong to it. */
  function Survivors(t: Table, uIdx: int, user: string): (s: seq<Row>)
    ensures forall x :: x in s <==> x in Project(t).rows && !Matches(x, uIdx, user)
    ensures CountMatching(s, uIdx, user) == 0
    ensures |s| + CountMatching(Project(t).rows, uIdx, user) == |t.rows|
  {
    var p := Project(t);
    if HasKeyColumns(p) then Keep(p.rows, uIdx, user)
    else
      assert !HasKeyColumns(t) by {
        assert INDEX_COLUMN in ALLOWED_COLUMNS && USER_COLUMN in ALLOWED_COLUMNS;
      }
      ProjectedNoKeyNoMatch(t, uIdx, user);
      CountZeroIffNoMatch(p.rows, uIdx, user);
      p.rows
  }

  /** Row i is the first row that belongs to (uIdx, user). */
  predicate IsFirstMatch(rows: seq<Row>, i: int, uIdx: int, user: string)
  {
    0 <= i < |rows| && Matches(rows[i], uIdx, user) && forall j :: 0 <= j < i ==> !Matches(rows[j], uIdx, user)
  }

  /** The first row of `rows` that belongs to (uIdx, user), if any. */
  function FirstMatch(rows: seq<Row>, uIdx: int, user: string): (r: Option<Row>)
    ensures r.None? <==> forall i :: 0 <= i < |rows| ==> !Matches(rows[i], uIdx, user)
    ensures r.Some? ==> exists i :: IsFirstMatch(rows, i, uIdx, user) && rows[i] == r.value
  {
    if rows == [] then None
    else if Matches(rows[0], uIdx, user) then Some(rows[0])
    else
      var r := FirstMatch(rows[1..], uIdx, user);
      FirstMatchSkip(rows, rows[1..], r, uIdx, user);
      r
  }

  /** The step of `FirstMatch` past a first row that does not match. */
  lemma FirstMatchSkip(rows: seq<Row>, tail: seq<Row>, r: Option<Row>, uIdx: int, user: string)
    requires rows != [] && tail == rows[1..] && !Matches(rows[0], uIdx, user)
    requires r.None? <==> forall i :: 0 <= i < |tail| ==> !Matches(tail[i], uIdx, user)
    requires r.Some? ==> exists i :: IsFirstMatch(tail, i, uIdx, user) && tail[i] == r.value
    ensures r.None? <==> forall i :: 0 <= i < |rows| ==> !Matches(rows[i], uIdx, user)
    ensures r.Some? ==> exists i :: IsFirstMatch(rows, i, uIdx, user) && rows[i] == r.value
  {
    assert forall i :: 1 <= i < |rows| ==> rows[i] == tail[i - 1];
    if r.Some? {
      SkipFound(rows, tail, r.value, uIdx, user);
    }
  }

  lemma SkipFound(rows: seq<Row>, tail: seq<Row>, x: Row, uIdx: int, user: string)
    requires rows != [] && tail == rows[1..] && !Matches(rows[0], uIdx, user)
    requires exists i :: IsFirstMatch(tail, i, uIdx, user) && tail[i] == x
    ensures exists i :: IsFirstMatch(rows, i, uIdx, user) && rows[i] == x
  {
    var i :| IsFirstMatch(tail, i, uIdx, user) && tail[i] == x;
    assert rows[i + 1] == tail[i];
    assert forall j :: 1 <= j < i + 1 ==> rows[j] == tail[j - 1];
    assert IsFirstMatch(rows, i + 1, uIdx, user);
  }

  /** The first row for the key is the one `FirstMatch` finds. */
  lemma FirstMatchIsFirst(rows: seq<Row>, uIdx: int, user: string)
    ensures forall i :: IsFirstMatch(rows, i, uIdx, user) ==> FirstMatch(rows, uIdx, user) == Some(rows[i])
  {
    forall i | IsFirstMatch(rows, i, uIdx, user)
      ensures FirstMatch(rows, uIdx, user) == Some(rows[i])
    {
      var r := FirstMatch(rows, uIdx, user);
      var k :| IsFirstMatch(rows, k, uIdx, user) && rows[k] == r.value;
      assert !(k < i) && !(i < k);
    }
  }

  /** `get_saved_rating`: the rating of the first row of the cached table that
      belongs to (uIdx, user), when `int()` accepts it. */
  function SavedRating(data: map<string, Table>, sheetKey: string, uIdx: int, user: string): (r: Option<int>)
    ensures sheetKey !in data ==> r.None?
    ensures sheetKey in data ==> r == RatingIn(data[sheetKey], uIdx, user)
  {
    if sheetKey !in data then None else RatingIn(data[sheetKey], uIdx, user)
  }

  /** The lookup of `get_saved_rating` in one table: None for an empty table, a
      table without both key columns, a table with no row for the key, and a
      first row whose rating `int()` rejects (or a table without a rating
      column); otherwise that first row's rating. */
  function RatingIn(t: Table, uIdx: int, user: string): (r: Option<int>)
    ensures IsEmpty(t) || !HasKeyColumns(t) ==> r.None?
    ensures CountMatching(t.rows, uIdx, user) == 0 ==> r.None?
    ensures r.Some? ==>
      && RATING_COLUMN in t.columns
      && exists i :: IsFirstMatch(t.rows, i, uIdx, user) && ToInt(At(t.rows[i], RATING_COLUMN)) == r
    ensures !IsEmpty(t) && HasKeyColumns(t) && RATING_COLUMN in t.columns ==>
      forall i :: IsFirstMatch(t.rows, i, uIdx, user) ==> r == ToInt(At(t.rows[i], RATING_COLUMN))
  {
    if IsEmpty(t) || !HasKeyColumns(t) then None
    else
      CountZeroIffNoMatch(t.rows, uIdx, user);
      FirstMatchIsFirst(t.rows, uIdx, user);
      match FirstMatch(t.rows, uIdx, user)
      case None => None
      case Some(row) => if RATING_COLUMN in t.columns then ToInt(At(row, RATING_COLUMN)) else None
  }

  // ---------------------------------------------------------------------
  // Lemmas about the key filter

  lemma {:induction false} CountZeroIffNoMatch(rows: seq<Row>, uIdx: int, user: string)
    ensures CountMatching(rows, uIdx, user) == 0 <==>
      forall i :: 0 <= i < |rows| ==> !Matches(rows[i], uIdx, user)
  {
    if rows != [] {
      var tail := rows[1..];
      CountZeroIffNoMatch(tail, uIdx, user);
      assert CountMatching(rows, uIdx, user) == (if Matches(rows[0], uIdx, user) then 1 else 0) + CountMatching(tail, uIdx, user);
      assert (forall i :: 0 <= i < |rows| ==> !Matches(rows[i], uIdx, user)) <==>
             !Matches(rows[0], uIdx, user) && (forall i :: 0 <= i < |tail| ==> !Matches(tail[i], uIdx, user)) by {
        assert forall i :: 1 <= i < |rows| ==> rows[i] == tail[i - 1];
      }
    }
  }

  lemma {:induction false} CountAppend(a: seq<Row>, b: seq<Row>, uIdx: int, user: string)
    ensures CountMatching(a + b, uIdx, user) == CountMatching(a, uIdx, user) + CountMatching(b, uIdx, user)
  {
    if a != [] {
      assert (a + b)[0] == a[0] && (a + b)[1..] == a[1..] + b;
      CountAppend(a[1..], b, uIdx, user);
    } else {
      assert a + b == b;
    }
  }

  /** The filter works row by row, so it keeps the surviving rows in their order. */
  lemma {:induction false} KeepAppend(a: seq<Row>, b: seq<Row>, uIdx: int, user: string)
    ensures Keep(a + b, uIdx, user) == Keep(a, uIdx, user) + Keep(b, uIdx, user)
  {
    if a != [] {
      assert (a + b)[0] == a[0] && (a + b)[1..] == a[1..] + b;
      KeepAppend(a[1..], b, uIdx, user);
      if !Matches(a[0], uIdx, user) {
        assert Keep(a + b, uIdx, user) == [a[0]] + Keep(a[1..] + b, uIdx, user);
      }
    } else {
      assert a + b == b;
    }
  }

  lemma {:induction false} KeepNothingToDrop(rows: seq<Row>, uIdx: int, user: string)
    requires CountMatching(rows, uIdx, user) == 0
    ensures Keep(rows, uIdx, user) == rows
  {
    if rows != [] {
      KeepNothingToDrop(rows[1..], uIdx, user);
    }
  }

  /** Two keys that a single row both matches are the same key. */
  lemma MatchesDetermineKey(r: Row, u1: int, n1: string, u2: int, n2: string)
    requires Matches(r, u1, n1) && Matches(r, u2, n2)
    ensures u1 == u2 && n1 == n2
  {
    IntToStringInjective(u1, u2);
  }

  /** A row whose index cell is an integer belongs to (uIdx, user) exactly
      when that integer is uIdx and the user cell is the user name. */
  lemma MatchesIntIndex(r: Row, n: int, uIdx: int, user: string)
    requires At(r, INDEX_COLUMN) == Int(n)
    ensures Matches(r, uIdx, user) <==> n == uIdx && At(r, USER_COLUMN) == Text(user)
  {
    StrOfIntCell(n, uIdx);
  }

  /** A row without the index cell or the user cell belongs to nobody. */
  lemma MissingKeyNoMatch(r: Row, uIdx: int, user: string)
    requires INDEX_COLUMN !in r || USER_COLUMN !in r
    ensures !Matches(r, uIdx, user)
  {
    if INDEX_COLUMN !in r {
      assert Str(At(r, INDEX_COLUMN)) == "nan";
      assert IsDigit(IntToString(uIdx)[|IntToString(uIdx)| - 1]);
    }
  }

  lemma ProjectedNoKeyNoMatch(t: Table, uIdx: int, user: string)
    requires !HasKeyColumns(t)
    ensures CountMatching(Project(t).rows, uIdx, user) == 0
  {
    var p := Project(t);
    forall i | 0 <= i < |p.rows| ensures !Matches(p.rows[i], uIdx, user) {
      MissingKeyNoMatch(p.rows[i], uIdx, user);
    }
    CountZeroIffNoMatch(p.rows, uIdx, user);
  }

  lemma AtRestrict(r: Row, keep: set<string>, c: string)
    ensures At(Restrict(r, keep), c) == if c in keep then At(r, c) else Missing
  {
  }

  /** Projection keeps the key cells when the key columns survive it. */
  lemma RestrictKeepsKey(r: Row, keep: set<string>, uIdx: int, user: string)
    requires INDEX_COLUMN in keep && USER_COLUMN in keep
    ensures Matches(Restrict(r, keep), uIdx, user) == Matches(r, uIdx, user)
  {
    AtRestrict(r, keep, INDEX_COLUMN);
    AtRestrict(r, keep, USER_COLUMN);
  }


  // ---------------------------------------------------------------------
  // Lemmas about the upsert

  lemma SurvivorsInsideColumns(t: Table, uIdx: int, user: string, x: Row)
    requires x in Survivors(t, uIdx, user)
    ensures x.Keys <= ColumnSet(AllowedOf(t.columns))
  {
    var p := Project(t);
    assert x in p.rows;
    var i :| 0 <= i < |p.rows| && p.rows[i] == x;
  }

  /** With nothing cached, or an empty cached table, the written table is the entry. */
  lemma UpsertIntoNothing(existing: Option<Table>, entry: Table, uIdx: int, user: string)
    requires existing.None? || IsEmpty(existing.value)
    ensures Upsert(existing, entry, uIdx, user) == entry
  {
  }

  /** A cached table without both key columns loses no row: the result is all
      of its rows, projected, followed by the entry's rows. */
  lemma UpsertWithoutKeyColumns(t: Table, entry: Table, uIdx: int, user: string)
    requires !IsEmpty(t) && !HasKeyColumns(t)
    ensures var r := Upsert(Some(t), entry, uIdx, user);
      |r.rows| == |t.rows| + |entry.rows| &&
      (forall i :: 0 <= i < |t.rows| ==> r.rows[i] == Restrict(t.rows[i], ColumnSet(AllowedOf(t.columns)))) &&
      r.rows[|t.rows|..] == entry.rows
  {
    assert !HasKeyColumns(Project(t));
  }

  /** After the upsert of a one-row entry for (uIdx, user), exactly one row of
      the table belongs to (uIdx, user): the entry. */
  lemma UpsertLeavesOneMatch(existing: Option<Table>, entry: Table, uIdx: int, user: string)
    requires |entry.rows| == 1 && Matches(entry.rows[0], uIdx, user)
    ensures CountMatching(Upsert(existing, entry, uIdx, user).rows, uIdx, user) == 1
  {
    assert CountMatching(entry.rows, uIdx, user) == 1 by {
      assert entry.rows[1..] == [];
    }
    if existing.Some? && !IsEmpty(existing.value) {
      CountAppend(Survivors(existing.value, uIdx, user), entry.rows, uIdx, user);
    }
  }

  /** Every row of the cached table that does not belong to (uIdx, user)
      survives the upsert, restricted to the allowed columns. */
  lemma UpsertKeepsOtherRows(t: Table, entry: Table, uIdx: int, user: string, x: Row)
    requires !IsEmpty(t) && x in t.rows && !Matches(x, uIdx, user)
    ensures Restrict(x, ColumnSet(AllowedOf(t.columns))) in Upsert(Some(t), entry, uIdx, user).rows
  {
    var p := Project(t);
    var keep := ColumnSet(p.columns);
    var i :| 0 <= i < |t.rows| && t.rows[i] == x;
    assert p.rows[i] == Restrict(x, keep);
    if HasKeyColumns(p) {
      RestrictKeepsKey(x, keep, uIdx, user);
    }
    assert Restrict(x, keep) in Survivors(t, uIdx, user);
  }

  /** In particular the rows of another sentence index (an Int cell holding a
      different number) or of another user are never removed. */
  lemma UpsertKeepsOtherKeys(t: Table, entry: Table, uIdx: int, user: string, x: Row)
    requires !IsEmpty(t) && x in t.rows
    requires (exists v :: At(x, INDEX_COLUMN) == Int(v) && v != uIdx) || At(x, USER_COLUMN) != Text(user)
    ensures Restrict(x, ColumnSet(AllowedOf(t.columns))) in Upsert(Some(t), entry, uIdx, user).rows
  {
    if exists v :: At(x, INDEX_COLUMN) == Int(v) && v != uIdx {
      var v :| At(x, INDEX_COLUMN) == Int(v) && v != uIdx;
      StrOfIntCell(v, uIdx);
    }
    UpsertKeepsOtherRows(t, entry, uIdx, user, x);
  }

  /** The key compares renderings: a row whose index cell is a float shown as
      "3.0" is not removed by the upsert for index 3, so the table can end up
      with two entries for the same sentence and user. */
  lemma UpsertKeepsFloatRenderedKey(user: string, entry: Table)
    ensures var x: Row := map[INDEX_COLUMN := Other("3.0", Some(3)), USER_COLUMN := Text(user)];
      var t := Table([INDEX_COLUMN, USER_COLUMN], [x]);
      x in Upsert(Some(t), entry, 3, user).rows
  {
    var x: Row := map[INDEX_COLUMN := Other("3.0", Some(3)), USER_COLUMN := Text(user)];
    var t := Table([INDEX_COLUMN, USER_COLUMN], [x]);
    assert !Matches(x, 3, user) by {
      FloatRenderingDiffers();
    }
    assert x.Keys <= ColumnSet(t.columns) by {
      assert x.Keys == {INDEX_COLUMN, USER_COLUMN};
    }
    assert forall c :: c in t.columns ==> c in ALLOWED_COLUMNS by {
      assert INDEX_COLUMN in ALLOWED_COLUMNS && USER_COLUMN in ALLOWED_COLUMNS;
    }
    KeptRowUnchanged(t, entry, 3, user, x);
  }

  /** A row that lies inside allowed columns and does not belong to the key
      survives the upsert as it is. */
  lemma KeptRowUnchanged(t: Table, entry: Table, uIdx: int, user: string, x: Row)
    requires !IsEmpty(t) && x in t.rows && !Matches(x, uIdx, user)
    requires (forall c :: c in t.columns ==> c in ALLOWED_COLUMNS) && x.Keys <= ColumnSet(t.columns)
    ensures x in Upsert(Some(t), entry, uIdx, user).rows
  {
    AllowedOfAllowed(t.columns);
    assert Restrict(x, ColumnSet(t.columns)) == x;
    UpsertKeepsOtherRows(t, entry, uIdx, user, x);
  }

  lemma {:induction false} AllowedOfAllowed(cols: seq<string>)
    requires forall c :: c in cols ==> c in ALLOWED_COLUMNS
    ensures AllowedOf(cols) == cols
  {
    if cols != [] {
      AllowedOfAllowed(cols[1..]);
    }
  }

  lemma {:induction false} NewColumnsNone(have: seq<string>, add: seq<string>)
    requires forall c :: c in add ==> c in have
    ensures NewColumns(have, add) == []
  {
    if add != [] {
      NewColumnsNone(have, add[1..]);
    }
  }

  /** A table whose columns are all allowed and whose rows stay inside its
      columns is left as it is by the projection. */
  lemma ProjectIdentity(t: Table)
    requires forall c :: c in t.columns ==> c in ALLOWED_COLUMNS
    requires forall r :: r in t.rows ==> r.Keys <= ColumnSet(t.columns)
    ensures Project(t) == t
  {
    AllowedOfAllowed(t.columns);
    var p := ProjectRows(t.rows, ColumnSet(t.columns));
    forall i | 0 <= i < |t.rows| ensures p[i] == t.rows[i] {
      assert t.rows[i] in t.rows;
    }
    assert p == t.rows;
  }

  /** An entry as the call sites build it: one row, its columns allowed, the
      row inside its columns and belonging to (uIdx, user). */
  predicate IsEntryFor(entry: Table, uIdx: int, user: string)
  {
    && |entry.rows| == 1
    && Matches(entry.rows[0], uIdx, user)
    && (forall c :: c in entry.columns ==> c in ALLOWED_COLUMNS)
    && entry.rows[0].Keys <= ColumnSet(entry.columns)
  }

  lemma EntryHasKeyColumns(entry: Table, uIdx: int, user: string)
    requires IsEntryFor(entry, uIdx, user)
    ensures HasKeyColumns(entry) && !IsEmpty(entry)
  {
    var row := entry.rows[0];
    if INDEX_COLUMN !in row || USER_COLUMN !in row {
      MissingKeyNoMatch(row, uIdx, user);
    }
  }

  /** What an upsert of an entry for (uIdx, user) leaves behind: rows that do not
      belong to the key, then the entry; every column allowed; every row inside
      the columns; the entry's columns among them. */
  predicate SettledFor(r: Table, entry: Table, uIdx: int, user: string)
  {
    && |r.rows| >= 1
    && r.rows[|r.rows| - 1..] == entry.rows
    && CountMatching(r.rows[..|r.rows| - 1], uIdx, user) == 0
    && (forall c :: c in r.columns ==> c in ALLOWED_COLUMNS)
    && (forall x :: x in r.rows ==> x.Keys <= ColumnSet(r.columns))
    && (forall c :: c in entry.columns ==> c in r.columns)
  }

  lemma UpsertSettles(existing: Option<Table>, entry: Table, uIdx: int, user: string)
    requires IsEntryFor(entry, uIdx, user)
    ensures SettledFor(Upsert(existing, entry, uIdx, user), entry, uIdx, user)
  {
    if existing.Some? && !IsEmpty(existing.value) {
      UpsertIntoTableSettles(existing.value, entry, uIdx, user);
    } else {
      AppendSettled([], entry.columns, [], entry, uIdx, user);
      assert Table([] + entry.columns, [] + entry.rows) == entry;
    }
  }

  lemma UpsertIntoTableSettles(t: Table, entry: Table, uIdx: int, user: string)
    requires IsEntryFor(entry, uIdx, user) && !IsEmpty(t)
    ensures SettledFor(Upsert(Some(t), entry, uIdx, user), entry, uIdx, user)
  {
    var s := Survivors(t, uIdx, user);
    var have := AllowedOf(t.columns);
    var extra := NewColumns(have, entry.columns);
    assert Upsert(Some(t), entry, uIdx, user) == Table(have + extra, s + entry.rows);
    forall x | x in s ensures x.Keys <= ColumnSet(have) {
      SurvivorsInsideColumns(t, uIdx, user, x);
    }
    AppendSettled(have, extra, s, entry, uIdx, user);
  }

  /** Rows without the key inside allowed columns, followed by the entry, with
      the entry's missing columns added: the shape `SettledFor` describes. */
  lemma AppendSettled(have: seq<string>, extra: seq<string>, s: seq<Row>, entry: Table, uIdx: int, user: string)
    requires IsEntryFor(entry, uIdx, user)
    requires CountMatching(s, uIdx, user) == 0
    requires forall c :: c in have ==> c in ALLOWED_COLUMNS
    requires forall c :: c in extra <==> c in entry.columns && c !in have
    requires forall x :: x in s ==> x.Keys <= ColumnSet(have)
    ensures SettledFor(Table(have + extra, s + entry.rows), entry, uIdx, user)
  {
    var rows := s + entry.rows;
    assert rows[|rows| - 1..] == entry.rows && rows[..|rows| - 1] == s;
    AppendedColumnsAllowed(have, extra, entry);
    AppendedColumnsCoverEntry(have, extra, entry);
    AppendedRowsInside(have, extra, s, entry, uIdx, user);
  }

  lemma AppendedColumnsAllowed(have: seq<string>, extra: seq<string>, entry: Table)
    requires forall c :: c in entry.columns ==> c in ALLOWED_COLUMNS
    requires forall c :: c in have ==> c in ALLOWED_COLUMNS
    requires forall c :: c in extra ==> c in entry.columns
    ensures forall c :: c in have + extra ==> c in ALLOWED_COLUMNS
  {
  }

  lemma AppendedColumnsCoverEntry(have: seq<string>, extra: seq<string>, entry: Table)
    requires forall c :: c in entry.columns && c !in have ==> c in extra
    ensures forall c :: c in entry.columns ==> c in have + extra
  {
  }

  lemma AppendedRowsInside(have: seq<string>, extra: seq<string>, s: seq<Row>, entry: Table, uIdx: int, user: string)
    requires IsEntryFor(entry, uIdx, user)
    requires forall c :: c in entry.columns && c !in have ==> c in extra
    requires forall x :: x in s ==> x.Keys <= ColumnSet(have)
    ensures forall x :: x in s + entry.rows ==> x.Keys <= ColumnSet(have + extra)
  {
    var cols := have + extra;
    assert ColumnSet(have) <= ColumnSet(cols);
    assert ColumnSet(entry.columns) <= ColumnSet(cols);
    forall x | x in s + entry.rows ensures x.Keys <= ColumnSet(cols) {
      if x !in s {
        assert x == entry.rows[0];
      }
    }
  }

  lemma SettledShape(r: Table, entry: Table, uIdx: int, user: string)
    requires IsEntryFor(entry, uIdx, user) && SettledFor(r, entry, uIdx, user)
    ensures r.rows == r.rows[..|r.rows| - 1] + entry.rows
    ensures HasKeyColumns(r) && !IsEmpty(r)
    ensures RATING_COLUMN in entry.columns ==> RATING_COLUMN in r.columns
  {
    assert r.rows == r.rows[..|r.rows| - 1] + r.rows[|r.rows| - 1..];
    EntryHasKeyColumns(entry, uIdx, user);
  }

  lemma SettledSurvivors(r: Table, entry: Table, uIdx: int, user: string)
    requires IsEntryFor(entry, uIdx, user) && SettledFor(r, entry, uIdx, user)
    ensures Survivors(r, uIdx, user) == r.rows[..|r.rows| - 1]
  {
    var s := r.rows[..|r.rows| - 1];
    SettledShape(r, entry, uIdx, user);
    ProjectIdentity(r);
    assert Keep(entry.rows, uIdx, user) == [] by {
      assert entry.rows[1..] == [];
    }
    KeepAppend(s, entry.rows, uIdx, user);
    KeepNothingToDrop(s, uIdx, user);
  }

  lemma UpsertSettled(r: Table, entry: Table, uIdx: int, user: string)
    requires IsEntryFor(entry, uIdx, user) && SettledFor(r, entry, uIdx, user)
    ensures Upsert(Some(r), entry, uIdx, user) == r
  {
    assert !IsEmpty(r) && r.rows == r.rows[..|r.rows| - 1] + entry.rows by {
      SettledShape(r, entry, uIdx, user);
    }
    assert Survivors(r, uIdx, user) == r.rows[..|r.rows| - 1] by {
      SettledSurvivors(r, entry, uIdx, user);
    }
    assert Project(r) == r by {
      ProjectIdentity(r);
    }
    assert NewColumns(r.columns, entry.columns) == [] by {
      NewColumnsNone(r.columns, entry.columns);
    }
    UpsertOfFixedPoint(r, entry, uIdx, user);
  }

  lemma UpsertOfFixedPoint(r: Table, entry: Table, uIdx: int, user: string)
    requires !IsEmpty(r) && Project(r) == r && NewColumns(r.columns, entry.columns) == []
    requires Survivors(r, uIdx, user) + entry.rows == r.rows
    ensures Upsert(Some(r), entry, uIdx, user) == r
  {
    assert r.columns + [] == r.columns;
  }

  /** Saving the same entry twice gives the same table as saving it once. */
  lemma UpsertIdempotent(existing: Option<Table>, entry: Table, uIdx: int, user: string)
    requires IsEntryFor(entry, uIdx, user)
    ensures var once := Upsert(existing, entry, uIdx, user);
      Upsert(Some(once), entry, uIdx, user) == once
  {
    UpsertSettles(existing, entry, uIdx, user);
    UpsertSettled(Upsert(existing, entry, uIdx, user), entry, uIdx, user);
  }

  /** The upsert keeps tables well formed. */
  lemma UpsertWellFormed(existing: Option<Table>, entry: Table, uIdx: int, user: string)
    requires existing.Some? ==> WellFormed(existing.value)
    requires WellFormed(entry)
    ensures WellFormed(Upsert(existing, entry, uIdx, user))
  {
    if existing.Some? && !IsEmpty(existing.value) {
      var t := existing.value;
      var have := AllowedOf(t.columns);
      var extra := NewColumns(have, entry.columns);
      var cols := have + extra;
      forall i, j | 0 <= i < j < |cols| ensures cols[i] != cols[j] {
        if j >= |have| && i < |have| {
          assert cols[j] in extra && cols[i] in have;
        } else if i >= |have| {
          assert cols[i] == extra[i - |have|] && cols[j] == extra[j - |have|];
        }
      }
      var r := Upsert(existing, entry, uIdx, user);
      var s := Survivors(t, uIdx, user);
      assert r.rows == s + entry.rows;
      forall x | x in r.rows ensures x.Keys <= ColumnSet(cols) {
        if x in s {
          SurvivorsInsideColumns(t, uIdx, user, x);
        } else {
          assert x in entry.rows;
        }
      }
    }
  }

  // ---------------------------------------------------------------------
  // Lemmas about the saved-rating lookup

  lemma {:induction false} FirstMatchAppend(a: seq<Row>, b: seq<Row>, uIdx: int, user: string)
    ensures FirstMatch(a + b, uIdx, user) ==
      if FirstMatch(a, uIdx, user).Some? then FirstMatch(a, uIdx, user) else FirstMatch(b, uIdx, user)
  {
    if a != [] {
      assert (a + b)[0] == a[0] && (a + b)[1..] == a[1..] + b;
      FirstMatchAppend(a[1..], b, uIdx, user);
    } else {
      assert a + b == b;
    }
  }

  /** Dropping the rows of one key does not change which row is first for another key. */
  lemma {:induction false} FirstMatchOfKeep(rows: seq<Row>, u1: int, n1: string, u2: int, n2: string)
    requires u1 != u2 || n1 != n2
    ensures FirstMatch(Keep(rows, u1, n1), u2, n2) == FirstMatch(rows, u2, n2)
  {
    if rows != [] {
      FirstMatchOfKeep(rows[1..], u1, n1, u2, n2);
      if Matches(rows[0], u1, n1) {
        if Matches(rows[0], u2, n2) {
          MatchesDetermineKey(rows[0], u1, n1, u2, n2);
        }
      } else {
        FirstMatchAppend([rows[0]], Keep(rows[1..], u1, n1), u2, n2);
        assert FirstMatch([rows[0]], u2, n2) == if Matches(rows[0], u2, n2) then Some(rows[0]) else None;
      }
    }
  }

  lemma {:induction false} FirstMatchOfProjection(rows: seq<Row>, keep: set<string>, uIdx: int, user: string)
    requires INDEX_COLUMN in keep && USER_COLUMN in keep
    ensures FirstMatch(ProjectRows(rows, keep), uIdx, user) ==
      match FirstMatch(rows, uIdx, user)
      case None => None
      case Some(x) => Some(Restrict(x, keep))
  {
    if rows != [] {
      RestrictKeepsKey(rows[0], keep, uIdx, user);
      assert ProjectRows(rows, keep)[1..] == ProjectRows(rows[1..], keep);
      FirstMatchOfProjection(rows[1..], keep, uIdx, user);
    }
  }

  /** Round trip: after saving an entry with rating v for (uIdx, user), the
      pre-fill lookup for (uIdx, user) gives v back. */
  lemma SettledFirstMatch(r: Table, entry: Table, uIdx: int, user: string)
    requires IsEntryFor(entry, uIdx, user) && SettledFor(r, entry, uIdx, user)
    ensures FirstMatch(r.rows, uIdx, user) == Some(entry.rows[0])
  {
    var s := r.rows[..|r.rows| - 1];
    SettledShape(r, entry, uIdx, user);
    CountZeroIffNoMatch(s, uIdx, user);
    FirstMatchAppend(s, entry.rows, uIdx, user);
  }

  lemma SaveThenLoad(data: map<string, Table>, sheetKey: string, entry: Table, uIdx: int, user: string, v: int)
    requires IsEntryFor(entry, uIdx, user)
    requires RATING_COLUMN in entry.columns && ToInt(At(entry.rows[0], RATING_COLUMN)) == Some(v)
    ensures SavedRating(data[sheetKey := Upsert(Lookup(data, sheetKey), entry, uIdx, user)], sheetKey, uIdx, user) == Some(v)
  {
    var r := Upsert(Lookup(data, sheetKey), entry, uIdx, user);
    UpsertSettles(Lookup(data, sheetKey), entry, uIdx, user);
    SettledRating(r, entry, uIdx, user, v);
  }

  /** In a table of the shape an upsert leaves, the lookup finds the entry's rating. */
  lemma SettledRating(r: Table, entry: Table, uIdx: int, user: string, v: int)
    requires IsEntryFor(entry, uIdx, user) && SettledFor(r, entry, uIdx, user)
    requires RATING_COLUMN in entry.columns && ToInt(At(entry.rows[0], RATING_COLUMN)) == Some(v)
    ensures RatingIn(r, uIdx, user) == Some(v)
  {
    SettledShape(r, entry, uIdx, user);
    SettledFirstMatch(r, entry, uIdx, user);
  }

  /** Saving for (uIdx, user) does not change what the pre-fill lookup gives
      for any other key: in particular another annotator who has not rated the
      sentence still gets nothing. */
  lemma SaveLeavesOtherKeys(data: map<string, Table>, sheetKey: string, entry: Table, uIdx: int, user: string,
                            u2: int, user2: string)
    requires |entry.rows| == 1 && Matches(entry.rows[0], uIdx, user)
    requires u2 != uIdx || user2 != user
    ensures SavedRating(data[sheetKey := Upsert(Lookup(data, sheetKey), entry, uIdx, user)], sheetKey, u2, user2)
         == SavedRating(data, sheetKey, u2, user2)
  {
    var r := Upsert(Lookup(data, sheetKey), entry, uIdx, user);
    EntryNotForOtherKey(entry, uIdx, user, u2, user2);
    if sheetKey in data && !IsEmpty(data[sheetKey]) {
      SavedAfterUpsert(data[sheetKey], entry, uIdx, user, u2, user2);
    } else {
      assert r == entry;
    }
  }

  /** A one-row entry for one key has no row for any other key. */
  lemma EntryNotForOtherKey(entry: Table, uIdx: int, user: string, u2: int, user2: string)
    requires |entry.rows| == 1 && Matches(entry.rows[0], uIdx, user)
    requires u2 != uIdx || user2 != user
    ensures FirstMatch(entry.rows, u2, user2) == None
  {
    var row := entry.rows[0];
    assert !Matches(row, u2, user2) by {
      if Matches(row, u2, user2) { MatchesDetermineKey(row, uIdx, user, u2, user2); }
    }
  }

  lemma SavedAfterUpsert(t: Table, entry: Table, uIdx: int, user: string, u2: int, user2: string)
    requires !IsEmpty(t) && FirstMatch(entry.rows, u2, user2) == None
    requires u2 != uIdx || user2 != user
    ensures RatingIn(Upsert(Some(t), entry, uIdx, user), u2, user2) == RatingIn(t, u2, user2)
  {
    var r := Upsert(Some(t), entry, uIdx, user);
    var s := Survivors(t, uIdx, user);
    assert r.rows == s + entry.rows;
    FirstMatchAppend(s, entry.rows, u2, user2);
    if HasKeyColumns(t) {
      SavedAfterUpsertKeyed(t, entry, uIdx, user, u2, user2);
    } else {
      ProjectedNoKeyNoMatch(t, u2, user2);
      CountZeroIffNoMatch(Project(t).rows, u2, user2);
    }
  }

  lemma SurvivorFirstMatch(t: Table, uIdx: int, user: string, u2: int, user2: string)
    requires HasKeyColumns(t) && (u2 != uIdx || user2 != user)
    ensures HasKeyColumns(Project(t))
    ensures FirstMatch(Survivors(t, uIdx, user), u2, user2) ==
      match FirstMatch(t.rows, u2, user2)
      case None => None
      case Some(x) => Some(Restrict(x, ColumnSet(AllowedOf(t.columns))))
  {
    var p := Project(t);
    assert INDEX_COLUMN in ALLOWED_COLUMNS && USER_COLUMN in ALLOWED_COLUMNS;
    FirstMatchOfKeep(p.rows, uIdx, user, u2, user2);
    FirstMatchOfProjection(t.rows, ColumnSet(p.columns), u2, user2);
  }

  lemma SavedAfterUpsertKeyed(t: Table, entry: Table, uIdx: int, user: string, u2: int, user2: string)
    requires !IsEmpty(t) && HasKeyColumns(t) && FirstMatch(entry.rows, u2, user2) == None
    requires u2 != uIdx || user2 != user
    ensures RatingIn(Upsert(Some(t), entry, uIdx, user), u2, user2) == RatingIn(t, u2, user2)
  {
    var r := Upsert(Some(t), entry, uIdx, user);
    var keep := ColumnSet(AllowedOf(t.columns));
    var fm := FirstMatch(t.rows, u2, user2);
    assert FirstMatch(r.rows, u2, user2) == if fm.None? then None else Some(Restrict(fm.value, keep)) by {
      var s := Survivors(t, uIdx, user);
      assert r.rows == s + entry.rows;
      FirstMatchAppend(s, entry.rows, u2, user2);
      SurvivorFirstMatch(t, uIdx, user, u2, user2);
    }
    assert HasKeyColumns(r) by {
      assert INDEX_COLUMN in ALLOWED_COLUMNS && USER_COLUMN in ALLOWED_COLUMNS;
    }
    assert (RATING_COLUMN in keep) == (RATING_COLUMN in t.columns) by {
      assert RATING_COLUMN in ALLOWED_COLUMNS;
    }
    assert RATING_COLUMN in t.columns ==> RATING_COLUMN in r.columns;
    SameFirstRating(r, t, u2, user2, keep);
  }

  /** Two keyed tables whose first rows for a key correspond by a projection
      that keeps the rating exactly when the second table has one give the
      same pre-fill rating. */
  lemma SameFirstRating(a: Table, b: Table, uIdx: int, user: string, keep: set<string>)
    requires HasKeyColumns(a) && HasKeyColumns(b) && !IsEmpty(b)
    requires FirstMatch(a.rows, uIdx, user) ==
      match FirstMatch(b.rows, uIdx, user)
      case None => None
      case Some(x) => Some(Restrict(x, keep))
    requires (RATING_COLUMN in keep) == (RATING_COLUMN in b.columns)
    requires RATING_COLUMN in b.columns ==> RATING_COLUMN in a.columns
    ensures RatingIn(a, uIdx, user) == RatingIn(b, uIdx, user)
  {
    var fm := FirstMatch(b.rows, uIdx, user);
    if fm.Some? {
      assert |a.rows| > 0;
      AtRestrict(fm.value, keep, RATING_COLUMN);
    }
  }
}
