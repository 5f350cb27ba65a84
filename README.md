# Tamil model-evaluation rater, modelled in Dafny

`rater_app.py` is a Streamlit page that an annotator uses to rate six model
corrections (variants "A" to "F": qwen, nemotron, ministral, kimik2, gpt and
gemma) of each distinct incorrect Tamil sentence from a master Google Sheet.
It can also file the annotator's own correction. One ratings tab per model
and one corrections tab are kept in a per-session cache (`existing_data`).
Saving upserts a one-row entry into the cached table, keyed by
(`unique_set_index`, `user`). The result is written to the tab, and the
cache takes it only when the write succeeds.

The model has six modules:

- `Cells`: spreadsheet cells (NaN, text, integer, or any other value given
  by its `str()` rendering and its `int()`), `str()` and `int()` on them.
- `Tables`: the pure table logic:
  - projection onto the six allowed columns;
  - the key test, which compares `str()` renderings of the index;
  - the filter that drops the annotator's old row;
  - `pd.concat`, i.e. the upsert;
  - the pre-fill lookup `get_saved_rating`.
- `Master`: the master sheet:
  - `dropna(how="all")`, which keeps index labels;
  - `unique()`;
  - the Nemotron row id (`index + 2`, or "Unknown") and the submission id
    derived from it.
- `Entries`: the one-row rating and correction entries the save button builds.
- `Navigation`: the sentence position and the Prev, Next, Restart and
  post-save moves.
- `Session`:
  - the login name, the cache load and the pre-fill;
  - the sheet store (a map from tab names to tables, whose write may fail);
  - the class `RaterSession` holding the cache and the position as fields,
    with the save button as a method whose loop visits the models in order.

Some consequences of the code that the model makes explicit:

- The key compares `str()` renderings. A sheet cell read back as a float
  (`3.0`) therefore does not match index 3, and a second row for the same
  sentence and user is appended (`Tables.UpsertKeepsFloatRenderedKey`).
- A sheet whose read fails at load is cached as an empty table. The first
  save for that key then writes the entry alone in place of the whole tab,
  so every row the sheet held is lost
  (`Session.FailedReadThenSaveOverwrites`, with the tab clause of
  `Session.RaterSession.SaveEntry`).
- Every sentence without a Nemotron ("B") row gets submission id 0
  (`Master.SubmissionIdZeroIffNoReference`).
- The pre-fill skips a saved rating of 0, because the saved value is used as
  a truth value (`Session.PrefillRating`).
- A login made only of spaces is accepted and gives the empty user name
  (`Session.BlankLoginIsEmptyName`).
- With the sentence list fixed, starting at the first sentence, the "All
  done" screen is reachable only when the list is empty
  (`Navigation.DoneOnlyWhenEmpty`). Next and the post-save move both stop at
  the last sentence. In the program the list can shrink when the master data
  is re-read, which the model does not follow (see "Left out").
- Every save attempts its writes with the models in order and the correction
  last (the log clause of `Session.RaterSession.SaveRatings` with
  `Session.WritesOfSheetKeys`), exactly one per entry and no other
  (`Session.SaveWritesEntries`). A failed write of one entry does not stop
  the rest of the save, and the position still advances. The cache stays in
  agreement with the sheets whichever writes failed (`Session.SavedKeepsSync`).
- The save button exists only on a sentence page, so
  `Session.RaterSession.SaveRatings` requires a current sentence.

## Model

| member | source | states |
|---|---|---|
| Cells.ParseIntOfIntToString | rater_app.py:113 | `int()` of the rendering of an integer gives the integer back |
| Cells.IntToStringInjective | rater_app.py:108 | distinct integers render to distinct strings, so comparing renderings of integers compares the integers |
| Cells.StrOfIntCell | rater_app.py:108 | an integer cell matches the rendered index `str(u)` exactly when it holds u |
| Cells.FloatRenderingDiffers | rater_app.py:108 | a float cell rendered "3.0" does not match `str(3)`, although `int()` reads it as 3 like the integer cell |
| Cells.NatToString | rater_app.py:108 | the decimal digits of `str()` of a natural: a non-empty digit string, of one digit exactly below 10 (its value and injectivity are the next two rows) |
| Cells.NatToStringInjective | rater_app.py:108 | the decimal rendering of naturals is injective |
| Cells.DigitsValueOfNatToString | rater_app.py:113 | the digits of a rendered natural have that natural's value |
| Cells.IntToString | rater_app.py:108 | `str()` of an integer is a nonempty run ending in a digit that starts with "-" exactly for a negative number; `ParseIntOfIntToString` is its inverse |
| Cells.ParseInt | rater_app.py:113 | `int()` of a string succeeds exactly when the stripped text is a run of digits, optionally after one sign |
| Cells.Str | rater_app.py:108 | `str()` of an integer cell reads back as that integer; that of a NaN cell reads as no integer |
| Cells.ToInt | rater_app.py:113 | `int()` of a text or integer cell is `int()` of its rendering; a NaN cell has no integer |
| Cells.TrimLeft | rater_app.py:49 | a suffix of the input that drops only whitespace and does not start with whitespace |
| Cells.TrimRight | rater_app.py:49 | a prefix of the input that drops only whitespace and does not end with whitespace |
| Cells.Trim | rater_app.py:49 | `strip()`: the input with only whitespace removed on both sides, neither end of the result whitespace |
| Cells.StrippedUnique | rater_app.py:49 | a string has only one such stripped form |
| Tables.Keep | rater_app.py:134-138 | the kept rows are exactly the rows not belonging to (index, user); none of them belongs to the key; their count is the input's count minus the matching rows |
| Tables.AllowedOf | rater_app.py:127-131 | the projected columns are exactly those of the table that are allowed, still distinct |
| Tables.NewColumns | rater_app.py:141 | the columns `concat` adds are exactly the entry's columns the table lacks |
| Tables.ProjectRows | rater_app.py:132 | the projection keeps every row, in order, restricted to the kept columns |
| Tables.Project | rater_app.py:127-132 | the projected table has exactly the allowed columns of the table, one row per row, each row inside those columns and holding the same cell under each of them |
| Tables.Survivors | rater_app.py:134-138 | the rows kept are exactly the projected rows not belonging to the key (all of them when the key columns are missing), none of them belongs to the key, and as many go as belong to it |
| Tables.Lookup | rater_app.py:105 | `dict.get` (also line 123): Some exactly when the key is cached, and then the cached table |
| Tables.Matches | rater_app.py:136-137 | the mask, also used at lines 108-109: `str()` of the index cell equals `str(uIdx)` and the user cell equals the name; it has no contract of its own, and `Tables.MatchesIntIndex`, `Cells.FloatRenderingDiffers`, `Tables.MatchesDetermineKey` and `Tables.MissingKeyNoMatch` state what it means |
| Tables.Upsert | rater_app.py:129-143 | the table `save_entry_to_sheet` writes; it has no contract of its own, and what it writes is stated by `Tables.UpsertShape` and the `Tables.Upsert*` lemmas below |
| Tables.UpsertShape | rater_app.py:129-143 | the entry alone when nothing is cached; otherwise the entry's rows come last, every entry column is present, and the rows before the entry's are the cached ones, projected, less those belonging to the key (`Survivors`), as many fewer as belong to it |
| Tables.MatchesIntIndex | rater_app.py:136-137 | a row with an integer index belongs to (u, user) exactly when its index is u and its user is user |
| Tables.FirstMatchIsFirst | rater_app.py:108-113 | the lookup gives the row at any position that belongs to the key while no earlier row does |
| Tables.FirstMatch | rater_app.py:108-113 | None exactly when no row belongs to the key; otherwise the first row that does |
| Tables.RatingIn | rater_app.py:104-116 | None for an empty table, a table without both key columns, or one without a row for the key; otherwise the `int()` of the rating of the first row for the key, or None when there is no rating column |
| Tables.SavedRating | rater_app.py:104-106 | a sheet key missing from the cache gives None; otherwise the lookup in its table |
| Tables.UpsertIntoNothing | rater_app.py:129-143 | a missing or empty cached table is replaced by the entry |
| Tables.UpsertWithoutKeyColumns | rater_app.py:135-141 | a cached table without both key columns loses no row: all its rows, projected, then the entry |
| Tables.UpsertLeavesOneMatch | rater_app.py:134-141 | after the upsert of a one-row entry for (index, user) exactly one row belongs to that key |
| Tables.UpsertKeepsOtherRows | rater_app.py:131-141 | every cached row not belonging to the key survives, restricted to the allowed columns |
| Tables.UpsertKeepsOtherKeys | rater_app.py:134-141 | rows of another user, or whose integer index differs, are never removed |
| Tables.UpsertKeepsFloatRenderedKey | rater_app.py:136-138 | a row whose index is the float 3.0 survives the upsert for index 3, so a duplicate results |
| Tables.UpsertSettles | rater_app.py:129-143 | the upsert of an entry yields rows not belonging to the key, then the entry, with every column allowed and the entry's columns present |
| Tables.UpsertSettled | rater_app.py:129-143 | upserting the entry into a table of that shape gives the table back |
| Tables.UpsertIdempotent | rater_app.py:118-154 | saving the same entry twice gives the same table as saving it once |
| Tables.UpsertWellFormed | rater_app.py:131-143 | the upsert keeps column labels distinct and every row inside its columns |
| Tables.ProjectIdentity | rater_app.py:131-132 | a table with only allowed columns and rows inside them is unchanged by the projection |
| Tables.KeepAppend | rater_app.py:138 | the filter of a concatenation is the concatenation of the filters |
| Tables.CountAppend | rater_app.py:138 | the number of rows for a key is additive over concatenation |
| Tables.CountZeroIffNoMatch | rater_app.py:136-138 | a table has no row for the key exactly when no row matches |
| Tables.KeepNothingToDrop | rater_app.py:138 | filtering rows with no match for the key changes nothing |
| Tables.MatchesDetermineKey | rater_app.py:136-137 | a row belongs to at most one (index, user) key |
| Tables.MissingKeyNoMatch | rater_app.py:136-137 | a row lacking the index or user cell (NaN) belongs to no key |
| Tables.RestrictKeepsKey | rater_app.py:132-136 | projection keeps whether a row belongs to the key, when the key columns are kept |
| Tables.FirstMatchOfKeep | rater_app.py:108-138 | dropping one key's rows does not change the first row of another key |
| Tables.SaveThenLoad | rater_app.py:104-154 | after saving an entry with rating v for (index, user), the pre-fill lookup of that key gives v |
| Tables.SaveLeavesOtherKeys | rater_app.py:104-154 | saving for one key does not change the pre-fill lookup of any other (index, user) key |
| Master.DropBlank | rater_app.py:60 | the surviving records are exactly the non-blank rows, in order, each labelled with its sheet position |
| Master.FirstIndex | rater_app.py:61 | the first position holding the value |
| Master.Unique | rater_app.py:61 | each value of the input appears once, and nothing else does, in order of first occurrence |
| Master.LoadMaster | rater_app.py:54-62 | None exactly for a missing or empty sheet; otherwise the non-blank records and their sentences, each once, in order of first occurrence |
| Master.Sentences | rater_app.py:61 | the `incorrect` column: one cell per record, in order, the record's sentence |
| Master.SentencesMembership | rater_app.py:61 | the sentence column holds exactly the sentences of the records |
| Master.NemotronRowId | rater_app.py:92-102 | "Unknown" exactly when no record of the sentence has id "B"; otherwise the first such record's index label plus 2 |
| Master.SubmissionId | rater_app.py:226 | 0 for "Unknown"; otherwise the row number |
| Master.SubmissionIdZeroIffNoReference | rater_app.py:226 | the submission id is 0 exactly when the sentence has no "B" record |
| Master.RowIdIsSheetRow | rater_app.py:92-102 | over the loaded data the row id is the spreadsheet row of the first "B" row of the sentence, or "Unknown" when the sheet has none |
| Master.UnknownMeansNoSheetRow | rater_app.py:92-102 | "Unknown" means no sheet row at all is the sentence's "B" row |
| Master.RowNumberIsFirstSheetRow | rater_app.py:92-102 | a row number names the first sheet row that is the sentence's "B" row |
| Entries.RatingEntry | rater_app.py:225-231 | a one-row table with the five rating columns for (index, user), whose rating reads back as the given value and whose submission id is derived from the row id |
| Entries.CorrectionEntry | rater_app.py:236-242 | a one-row table with the five correction columns for (index, user), carrying the correction text and no rating column |
| Entries.Entry | rater_app.py:225-242 | a one-row, well-formed table for (index, user) with five distinct allowed columns, holding the submission id, the value and the timestamp |
| Navigation.Step | rater_app.py:160-249 | a button press keeps the position in range; Prev moves back one unless on the first sentence; Next and the post-save move go forward one unless on the last; Restart goes to the first sentence from the "All done" screen; nothing else moves |
| Navigation.Run | rater_app.py:160-249 | any sequence of presses from a valid position keeps it valid |
| Navigation.DoneOnlyWhenEmpty | rater_app.py:160-168 | from the first sentence the "All done" screen is reached exactly when there are no sentences |
| Navigation.Presses | rater_app.py:182-184 | k presses of one button |
| Navigation.NextReachesEverySentence | rater_app.py:182-184 | k presses of Next from sentence i reach sentence i+k when it exists |
| Navigation.PrevUndoesNext | rater_app.py:178-184 | away from the last sentence, Next then Prev returns to the same sentence |
| Navigation.NextUndoesPrev | rater_app.py:178-184 | away from the first sentence, Prev then Next returns to the same sentence |
| Navigation.SaveOnLastStays | rater_app.py:247-249 | saving on the last sentence stays there |
| Session.TabName | rater_app.py:28-38 | each cache key's tab maps back to that key |
| Session.TabNamesDistinct | rater_app.py:28-38 | distinct cache keys are written to distinct tabs |
| Session.LoginName | rater_app.py:44-51 | an empty field is refused; otherwise the name is the typed text stripped of surrounding whitespace |
| Session.BlankLoginIsEmptyName | rater_app.py:48-49 | a login of spaces only is accepted and gives the empty name |
| Session.LoadedCache | rater_app.py:64-82 | the cache has exactly the seven keys; a successful read is cached as is, a failed one as an empty table |
| Session.FailedReadThenSaveOverwrites | rater_app.py:129-146 | a sheet whose read failed at load is cached empty (lines 74-75, 81-82), so the first save for its key writes the entry alone over the whole tab |
| Session.FailedReadPrefillsNothing | rater_app.py:74-75 | a sheet whose read failed pre-fills nothing |
| Session.PrefillRating | rater_app.py:203-206 | the pre-selected rating is the saved one when that is not 0; nothing otherwise |
| Session.SaveKeys | rater_app.py:220-235 | the keys saved are the models with a selected rating and, when the correction is not empty, the corrections sheet |
| Session.SaveEntries | rater_app.py:219-243 | a rating entry per rated model and a correction entry when the correction is not empty, nothing else |
| Session.SaveEntriesAreEntries | rater_app.py:225-242 | every entry the save builds is a one-row entry for the current (index, user) |
| Session.SheetStore.Update | rater_app.py:146 | the write is logged; it replaces the tab or raises, leaving the tabs as they were |
| Session.WritesCover | rater_app.py:220-243 | the writes for a list of keys are no more than the keys: the write of every key with an entry, and nothing else |
| Session.WritesDistinctTabs | rater_app.py:220-243 | for distinct cache keys no tab is written twice |
| Session.WritesOfSheetKeys | rater_app.py:220-243 | over all the sheets, the models' writes come first, in model order, and the correction's last |
| Session.SaveWritesEntries | rater_app.py:219-243 | a save writes each rated model's and the correction's upsert to its tab, each tab once, and nothing else |
| Session.RaterSession.constructor | rater_app.py:64-86 | a session starts at the first sentence with the cache as loaded |
| Session.RaterSession.Prefill | rater_app.py:203-206 | a rating is pre-filled exactly when the cache holds a nonzero one for the current sentence, and it is that rating |
| Session.RaterSession.Prev | rater_app.py:178-180 | the position after Prev is the Prev step, still in range |
| Session.RaterSession.Next | rater_app.py:182-184 | the position after Next is the Next step, still in range |
| Session.RaterSession.Restart | rater_app.py:163-167 | the position after Restart is the Restart step, still in range |
| Session.RaterSession.SaveEntry | rater_app.py:118-154 | the upsert is written to the tab; if the write succeeds the tab and the cache hold it, otherwise neither changes |
| Session.RaterSession.WriteAll | rater_app.py:220-243 | the writes of the models in order, then the correction's; the cache takes each successful upsert, and the tabs match |
| Session.RaterSession.SaveModels | rater_app.py:220-232 | the loop writes each rated model's upsert in model order; the cache and tabs take those whose write succeeded, and only those |
| Session.RaterSession.SaveKey | rater_app.py:232-243 | a key with an entry has its upsert written; on success the key joins the saved ones |
| Session.RaterSession.SaveRatings | rater_app.py:213-249 | one write attempt per entry, in order; the cache takes the upsert of each entry whose write succeeded and nothing else changes; each such key holds exactly one row for the sentence and user, and each rated model pre-fills the rating given; cache and sheets stay in agreement; then the post-save move |
| Session.RaterSession.Advance | rater_app.py:247-249 | the position moves on unless it is the last sentence, still in range |
| Session.SavedKeysSettled | rater_app.py:219-243 | after a save, each written key holds one row for the key and each rated model pre-fills its rating |
| Session.SavedKeepsSync | rater_app.py:146-154 | a save that starts in agreement with the sheets ends in agreement, whichever writes failed |
| Session.WrittenOneMore | rater_app.py:146-149 | one more successful write keeps the tabs of the saved keys equal to the cache and the other tabs untouched |
| Session.SavedOneMore | rater_app.py:149 | one more successful write adds its key's upsert to the cache and nothing else |

## Left out

- The Streamlit page itself (titles, columns, markdown, the progress bar, spinners, `st.rerun`), because it is rendering, not logic.
- The Google Sheets connection (reads by worksheet GID, writes by tab name), because it is I/O. Reads are an oracle function passed to the constructor. A write is a store whose outcome the model does not choose.
- `datetime.now()` and `time.sleep`, because they are clock access. The timestamp is a parameter.
- The widget state keys (`pills_<model>_<index>`, `fix_<index>`) and their lifetime. The selected ratings come in as a map and the correction as a string. So a pre-fill that happens only when the key is not yet set is modelled as a function of the cache.
- The model's corrected texts shown on screen (lines 198-201), because they only display things. Line 199 also decides whether a model's rating widget, and so its pre-fill, exists at all for the sentence: it does only when the master sheet has a row of that model for the sentence. The model takes the selected ratings as given and assumes the map holds only such models; it does not check them against the master rows.
- pandas dtype promotion: a column read back may be a float or an object. The model keeps such cells as opaque values given by their `str()` and their `int()`, and it does not model how `concat` changes column types. So `Tables.UpsertLeavesOneMatch`, `Tables.SaveThenLoad` and `Tables.UpsertIdempotent` hold while the cached `unique_set_index` column holds integer or text cells. The rating tabs are cached exactly as read, blank rows included, so that column can be float. Whether the float comes from a read-back or from `concat` promoting the new entry's integer to the column's type, no row then renders as `str(u_index)`, and `Tables.UpsertKeepsFloatRenderedKey` applies instead.
- `int()` and `strip()` from Python also accept non-ASCII Unicode whitespace and digits and digit separators (`1_000`). The model handles the ASCII whitespace characters (space, tab to carriage return, and 0x1C to 0x1F) and plain decimal digits only.
- A partially applied write to a sheet, because the model's writes either replace the tab or change nothing.
- The exception paths of `save_entry_to_sheet` before the write, e.g. a malformed cached frame, because the model's tables are always well typed.
- The error message and `st.stop()` for a missing or empty master sheet, because they are page output. The model's load gives `None` instead.
- The TTL of 600 seconds on `load_master_data`: the program may re-read the master sheet during a session, and the sentence list can then change under the current position. The model loads the master data and the sentence list once, and they stay fixed for the session.
- Master sheets with other columns: the model's master record has exactly the three columns the core reads (`incorrect`, `id`, `corrected`), so `dropna(how="all")` is the test that all three are NaN.
- Concurrent annotators writing the same tab, because there is no concurrency in the model. A write replaces the whole tab with this session's view.
