/** One annotator's session of the rating tool: the loaded master data and
    sentence list, the cache of the ratings sheets, the position in the list,
    and the save button that rates the current sentence for every model and
    files the annotator's own correction. */
module Session {
  import opened Cells
  import opened Tables
  import opened Master
  import opened Entries
  import opened Navigation

  /** The model variants, in the (sorted) order the save loop visits them. */
  const MODEL_IDS: seq<string> := ["A", "B", "C", "D", "E", "F"]

  /** The cache key of the corrections sheet. */
  const CORRECTIONS_KEY: string := "corrections"

  /** Every key of the ratings cache. */
  const SHEET_KEYS: seq<string> := MODEL_IDS + [CORRECTIONS_KEY]

  /** The worksheet tab a cache key is written to; each key of the cache has
      its own tab, which `KeyOfTab` maps back to the key. */
  function TabName(key: string): (tab: string)
    ensures key in SHEET_KEYS ==> KeyOfTab(tab) == Some(key)
  {
    if key == "A" then "qwen"
    else if key == "B" then "nemotron"
    else if key == "C" then "ministral"
    else if key == "D" then "kimik2"
    else if key == "E" then "gpt"
    else if key == "F" then "gemma"
    else if key == CORRECTIONS_KEY then "user_corrections"
    else key
  }

  /** The cache key whose sheet a tab holds, if any. */
  function KeyOfTab(tab: string): Option<string>
  {
    if tab == "qwen" then Some("A")
    else if tab == "nemotron" then Some("B")
    else if tab == "ministral" then Some("C")
    else if tab == "kimik2" then Some("D")
    else if tab == "gpt" then Some("E")
    else if tab == "gemma" then Some("F")
    else if tab == "user_corrections" then Some(CORRECTIONS_KEY)
    else None
  }

  /** Distinct cache keys are written to distinct tabs. */
  lemma TabNamesDistinct(k1: string, k2: string)
    requires k1 in SHEET_KEYS && k2 in SHEET_KEYS && k1 != k2
    ensures TabName(k1) != TabName(k2)
  {
    assert KeyOfTab(TabName(k1)) != KeyOfTab(TabName(k2));
  }

  /** The tabs written for a set of cache keys. */
  function TabsOf(keys: set<string>): set<string>
  {
    set k | k in keys :: TabName(k)
  }

  /** The login form: an empty field is refused; otherwise the name is the
      typed text stripped of surrounding whitespace (by `StrippedUnique` there
      is only one such text). */
  function LoginName(typed: string): (name: Option<string>)
    ensures name.None? <==> typed == []
    ensures name.Some? ==> exists a :: StrippedAt(name.value, typed, a)
    ensures name.Some? && name.value != [] ==> !IsSpace(name.value[0]) && !IsSpace(name.value[|name.value| - 1])
  {
    if typed == [] then None else Some(Trim(typed))
  }

  /** The emptiness test comes before the whitespace is removed, so a name of
      spaces logs in as the empty user name. */
  lemma BlankLoginIsEmptyName()
    ensures LoginName("  ") == Some("")
  {
    assert IsSpace(' ') && "  "[1..] == " " && " "[1..] == "";
    assert TrimLeft("  ") == TrimLeft(" ");
    assert TrimLeft(" ") == TrimLeft("") == "";
    assert TrimRight("") == "";
  }

  /** The empty data frame a failed read leaves in the cache. */
  const EMPTY_TABLE: Table := Table([], [])

  /** `load_existing_ratings`: every sheet read once; a read that fails leaves
      an empty table under its key. */
  function LoadedCache(fetch: string -> Option<Table>): (c: map<string, Table>)
    ensures forall k :: k in c <==> k in SHEET_KEYS
    ensures forall k :: k in c && fetch(k).Some? ==> c[k] == fetch(k).value
    ensures forall k :: k in c && fetch(k).None? ==> IsEmpty(c[k])
  {
    map k | k in SHEET_KEYS :: if fetch(k).Some? then fetch(k).value else EMPTY_TABLE
  }

  /** A sheet whose read failed pre-fills nothing for anybody. */
  lemma FailedReadPrefillsNothing(fetch: string -> Option<Table>, k: string, uIdx: int, user: string)
    requires k in SHEET_KEYS && fetch(k).None?
    ensures SavedRating(LoadedCache(fetch), k, uIdx, user) == None
  {
  }

  /** A sheet whose read failed is cached empty, so the first save for its key
      writes the entry alone: every row the remote tab held is overwritten. */
  lemma FailedReadThenSaveOverwrites(fetch: string -> Option<Table>, k: string, entry: Table, uIdx: int, user: string)
    requires k in SHEET_KEYS && fetch(k).None?
    ensures Upsert(Lookup(LoadedCache(fetch), k), entry, uIdx, user) == entry
  {
    UpsertIntoNothing(Lookup(LoadedCache(fetch), k), entry, uIdx, user);
  }

  /** The rating pre-selected for a model on sentence uIdx: the saved one,
      unless that is 0 (the saved rating is used as a truth value). */
  function PrefillRating(data: map<string, Table>, mId: string, uIdx: int, user: string): (r: Option<int>)
    ensures r.Some? ==> r.value != 0 && SavedRating(data, mId, uIdx, user) == r
    ensures r.None? ==> SavedRating(data, mId, uIdx, user) == None || SavedRating(data, mId, uIdx, user) == Some(0)
  {
    var saved := SavedRating(data, mId, uIdx, user);
    if saved.Some? && saved.value != 0 then saved else None
  }

  /** The cache keys the save button writes: each model with a selected
      rating, and the corrections sheet when the correction field is not empty. */
  function SaveKeys(pills: map<string, int>, manualFix: string): (keys: set<string>)
    ensures forall k :: k in keys <==> (k in MODEL_IDS && k in pills) || (k == CORRECTIONS_KEY && manualFix != [])
  {
    (set k | k in pills && k in MODEL_IDS) + (if manualFix != [] then {CORRECTIONS_KEY} else {})
  }

  /** The entry the save button builds for one cache key. */
  function EntryFor(k: string, pills: map<string, int>, manualFix: string, id: RowId, user: string, uIdx: int, ts: string): Table
  {
    if k in pills && k in MODEL_IDS then RatingEntry(id, user, uIdx, pills[k], ts)
    else CorrectionEntry(id, user, uIdx, manualFix, ts)
  }

  /** The entries the save button builds for sentence uIdx, by cache key: a
      rating entry for each model with a selected rating, and a correction
      entry when the correction field is not empty. */
  function SaveEntries(pills: map<string, int>, manualFix: string, id: RowId, user: string, uIdx: int, ts: string)
    : (m: map<string, Table>)
    ensures m.Keys == SaveKeys(pills, manualFix)
    ensures forall k :: k in m && k in MODEL_IDS ==> m[k] == RatingEntry(id, user, uIdx, pills[k], ts)
    ensures CORRECTIONS_KEY in m ==> m[CORRECTIONS_KEY] == CorrectionEntry(id, user, uIdx, manualFix, ts)
  {
    assert CORRECTIONS_KEY !in MODEL_IDS;
    map k | k in SaveKeys(pills, manualFix) :: EntryFor(k, pills, manualFix, id, user, uIdx, ts)
  }

  /** Every entry the save button builds is an entry for (uIdx, user). */
  lemma SaveEntriesAreEntries(pills: map<string, int>, manualFix: string, id: RowId, user: string, uIdx: int, ts: string)
    ensures var m := SaveEntries(pills, manualFix, id, user, uIdx, ts);
      forall k :: k in m ==> IsEntryFor(m[k], uIdx, user)
  {
  }

  /** The Google Sheets connection, as far as the tool writes to it: a map from
      tab names to tables. A write replaces the tab or raises; which one is
      not under the tool's control. */
  class SheetStore {
    var tabs: map<string, Table>
    /** Every write attempted, successful or not, in order. */
    ghost var log: seq<(string, Table)>

    constructor(initial: map<string, Table>)
      ensures tabs == initial && log == []
    {
      tabs := initial;
      log := [];
    }

    method Update(tab: string, data: Table) returns (ok: bool)
      modifies this
      ensures log == old(log) + [(tab, data)]
      ensures ok ==> tabs == old(tabs)[tab := data]
      ensures !ok ==> tabs == old(tabs)
    {
      ok := *;
      log := log + [(tab, data)];
      if ok {
        tabs := tabs[tab := data];
      }
    }
  }

  class RaterSession {
    const username: string
    const master: seq<Record>
    const sentences: seq<Cell>
    var existingData: map<string, Table>
    var uIndex: int

    ghost predicate Valid()
      reads this
    {
      InRange(uIndex, |sentences|)
    }

    /** The cache agrees with the sheets on every key. */
    ghost predicate InSync(store: SheetStore)
      reads this, store
    {
      Synced(store.tabs, existingData)
    }

    /** A fresh session after login: the master data as loaded, the ratings
      cache as read, the first sentence. */
    constructor(user: string, data: MasterData, fetch: string -> Option<Table>)
      ensures username == user && master == data.records && sentences == data.sentences
      ensures existingData == LoadedCache(fetch) && uIndex == 0
      ensures Valid()
    {
      username := user;
      master := data.records;
      sentences := data.sentences;
      existingData := LoadedCache(fetch);
      uIndex := 0;
    }

    /** The rating pre-selected for model mId on the current sentence. */
    function Prefill(mId: string): (r: Option<int>)
      reads this
      ensures var saved := SavedRating(existingData, mId, uIndex, username);
        (r.Some? <==> saved.Some? && saved.value != 0) && (r.Some? ==> r == saved)
    {
      PrefillRating(existingData, mId, uIndex, username)
    }

    method Prev()
      requires Valid()
      modifies this`uIndex
      ensures uIndex == Step(old(uIndex), |sentences|, PrevButton)
      ensures Valid()
    {
      if uIndex < |sentences| && uIndex > 0 {
        uIndex := uIndex - 1;
      }
    }

    method Next()
      requires Valid()
      modifies this`uIndex
      ensures uIndex == Step(old(uIndex), |sentences|, NextButton)
      ensures Valid()
    {
      if uIndex < |sentences| && uIndex < |sentences| - 1 {
        uIndex := uIndex + 1;
      }
    }

    method Restart()
      requires Valid()
      modifies this`uIndex
      ensures uIndex == Step(old(uIndex), |sentences|, RestartButton)
      ensures Valid()
    {
      if uIndex >= |sentences| {
        uIndex := 0;
      }
    }

    /** `save_entry_to_sheet`: write the upsert of the entry into the cached
      table to the tab; only when the write succeeds does the cache take the
      new table. */
    method SaveEntry(store: SheetStore, sheetKey: string, tabName: string, entry: Table, uIdx: int)
      returns (ok: bool)
      modifies this`existingData, store
      ensures var updated := Upsert(Lookup(old(existingData), sheetKey), entry, uIdx, username);
        store.log == old(store.log) + [(tabName, updated)]
      ensures var updated := Upsert(Lookup(old(existingData), sheetKey), entry, uIdx, username);
        ok ==> existingData == old(existingData)[sheetKey := updated] && store.tabs == old(store.tabs)[tabName := updated]
      ensures !ok ==> existingData == old(existingData) && store.tabs == old(store.tabs)
    {
      var updated := Upsert(Lookup(existingData, sheetKey), entry, uIdx, username);
      ok := store.Update(tabName, updated);
      if ok {
        existingData := existingData[sheetKey := updated];
      }
    }

    /** The save button: one upsert per entry of `SaveEntries`, models first in
      order, the correction last; then the move to the next sentence, whether
      or not the writes succeeded. `saved` is the set of keys whose write
      succeeded. */
    method SaveRatings(store: SheetStore, pills: map<string, int>, manualFix: string, ts: string)
      returns (saved: set<string>)
      requires Valid() && uIndex < |sentences|
      modifies this`existingData, this`uIndex, store
      ensures store.log == old(store.log) + Writes(SHEET_KEYS, Upserts(SaveEntries(pills, manualFix, NemotronRowId(master, sentences[old(uIndex)]), username, old(uIndex), ts),
                                                                     old(existingData), old(uIndex), username))
      ensures Saved(saved, SaveEntries(pills, manualFix, NemotronRowId(master, sentences[old(uIndex)]), username, old(uIndex), ts),
                    old(existingData), existingData, old(uIndex), username)
      ensures Written(saved, old(store.tabs), store.tabs, existingData)
      ensures forall k :: k in saved ==> CountMatching(existingData[k].rows, old(uIndex), username) == 1
      ensures forall k :: k in saved && k in MODEL_IDS ==> SavedRating(existingData, k, old(uIndex), username) == Some(pills[k])
      ensures Synced(old(store.tabs), old(existingData)) ==> Synced(store.tabs, existingData)
      ensures uIndex == Step(old(uIndex), |sentences|, SavedAdvance)
      ensures Valid()
    {
      var u := uIndex;
      var id := NemotronRowId(master, sentences[u]);
      var entries := SaveEntries(pills, manualFix, id, username, u, ts);
      saved := WriteAll(store, entries, u);
      assert uIndex == u;
      SavedKeysSettled(saved, pills, manualFix, id, old(existingData), existingData, u, username, ts);
      SavedKeepsSync(saved, entries, old(store.tabs), store.tabs, old(existingData), existingData, u, username);
      Advance();
    }

    /** The move that follows a save. */
    method Advance()
      requires Valid()
      modifies this`uIndex
      ensures uIndex == Step(old(uIndex), |sentences|, SavedAdvance)
      ensures Valid()
    {
      if uIndex < |sentences| - 1 {
        uIndex := uIndex + 1;
      }
    }

    /** The writes of a save: the models' entries in order, then the
      correction entry when there is one (the entries include it exactly when
      the correction field is not empty). */
    method WriteAll(store: SheetStore, entries: map<string, Table>, u: int) returns (saved: set<string>)
      modifies this`existingData, store
      ensures store.log == old(store.log) + Writes(SHEET_KEYS, Upserts(entries, old(existingData), u, username))
      ensures Saved(saved, entries, old(existingData), existingData, u, username)
      ensures Written(saved, old(store.tabs), store.tabs, existingData)
    {
      saved := SaveModels(store, entries, u);
      ghost var modelWrites := store.log;
      if CORRECTIONS_KEY in entries {
        NotYetVisited(|MODEL_IDS| - 1);
        saved := SaveKey(store, entries, CORRECTIONS_KEY, saved, u, old(existingData), old(store.tabs));
      }
      assert store.log == modelWrites + WriteOf(CORRECTIONS_KEY, Upserts(entries, old(existingData), u, username));
      WritesOfSheetKeys(Upserts(entries, old(existingData), u, username));
    }

    /** The loop over the models: the entry of each model that has one is
      saved under the model's key. */
    method SaveModels(store: SheetStore, entries: map<string, Table>, u: int) returns (saved: set<string>)
      modifies this`existingData, store
      ensures store.log == old(store.log) + Writes(MODEL_IDS, Upserts(entries, old(existingData), u, username))
      ensures saved <= Visited(|MODEL_IDS|)
      ensures Saved(saved, entries, old(existingData), existingData, u, username)
      ensures Written(saved, old(store.tabs), store.tabs, existingData)
    {
      saved := {};
      var i := 0;
      while i < |MODEL_IDS|
        invariant 0 <= i <= |MODEL_IDS|
        invariant store.log == old(store.log) + Writes(MODEL_IDS[..i], Upserts(entries, old(existingData), u, username))
        invariant saved <= Visited(i)
        invariant Saved(saved, entries, old(existingData), existingData, u, username)
        invariant Written(saved, old(store.tabs), store.tabs, existingData)
      {
        NotYetVisited(i);
        ghost var log := store.log;
        saved := SaveKey(store, entries, MODEL_IDS[i], saved, u, old(existingData), old(store.tabs));
        LogStep(old(store.log), log, store.log, MODEL_IDS, i, Upserts(entries, old(existingData), u, username));
        i := i + 1;
      }
      assert MODEL_IDS[..i] == MODEL_IDS;
    }

    /** One step of the save: when key k has an entry, its upsert is written
      and, if the write succeeds, k joins the saved keys. */
    method SaveKey(store: SheetStore, entries: map<string, Table>, k: string, saved0: set<string>, u: int,
                   ghost data0: map<string, Table>, ghost tabs0: map<string, Table>)
      returns (saved: set<string>)
      requires k in SHEET_KEYS && k !in saved0
      requires Saved(saved0, entries, data0, existingData, u, username)
      requires Written(saved0, tabs0, store.tabs, existingData)
      modifies this`existingData, store
      ensures store.log == old(store.log) + WriteOf(k, Upserts(entries, data0, u, username))
      ensures saved <= saved0 + {k}
      ensures Saved(saved, entries, data0, existingData, u, username)
      ensures Written(saved, tabs0, store.tabs, existingData)
    {
      saved := saved0;
      if k in entries {
        assert Lookup(existingData, k) == Lookup(data0, k);
        assert Upserts(entries, data0, u, username)[k] == Upsert(Lookup(data0, k), entries[k], u, username);
        ghost var data, tabs := existingData, store.tabs;
        var ok := SaveEntry(store, k, TabName(k), entries[k], u);
        if ok {
          SavedOneMore(saved, k, entries, data0, data, u, username);
          WrittenOneMore(saved, k, tabs0, tabs, data, Upsert(Lookup(data, k), entries[k], u, username));
          saved := saved + {k};
        }
      }
    }
  }

  /** The table each entry's upsert produces from the cache `before`, by key. */
  function Upserts(entries: map<string, Table>, before: map<string, Table>, u: int, user: string): map<string, Table>
  {
    map k | k in entries :: Upsert(Lookup(before, k), entries[k], u, user)
  }

  /** The writes attempted for key k: its upserted table to its tab when it
      has one, nothing otherwise. */
  function WriteOf(k: string, upserts: map<string, Table>): seq<(string, Table)>
  {
    if k in upserts then [(TabName(k), upserts[k])] else []
  }

  /** The writes the save button attempts for `keys`, in their order. */
  function Writes(keys: seq<string>, upserts: map<string, Table>): seq<(string, Table)>
    decreases |keys|
  {
    if keys == [] then []
    else Writes(keys[..|keys| - 1], upserts) + WriteOf(keys[|keys| - 1], upserts)
  }

  /** The writes for `keys` are no more than the keys: the write of every
      key that has an upserted table, and nothing else. */
  lemma {:induction false} WritesCover(keys: seq<string>, upserts: map<string, Table>)
    ensures var w := Writes(keys, upserts);
      && |w| <= |keys|
      && (forall k :: k in keys && k in upserts ==> (TabName(k), upserts[k]) in w)
      && (forall x :: x in w ==> exists k :: k in keys && k in upserts && x == (TabName(k), upserts[k]))
    decreases |keys|
  {
    if keys != [] {
      var init, last := keys[..|keys| - 1], keys[|keys| - 1];
      assert keys == init + [last];
      WritesCover(init, upserts);
    }
  }

  /** The log after one more step of the save loop. */
  lemma LogStep(log0: seq<(string, Table)>, log1: seq<(string, Table)>, log2: seq<(string, Table)>,
                keys: seq<string>, i: nat, upserts: map<string, Table>)
    requires i < |keys|
    requires log1 == log0 + Writes(keys[..i], upserts) && log2 == log1 + WriteOf(keys[i], upserts)
    ensures log2 == log0 + Writes(keys[..i + 1], upserts)
  {
    assert keys[..i + 1][..i] == keys[..i];
  }

  /** Over all the sheets, the models' writes come first and the correction's last. */
  lemma WritesOfSheetKeys(upserts: map<string, Table>)
    ensures Writes(SHEET_KEYS, upserts) == Writes(MODEL_IDS, upserts) + WriteOf(CORRECTIONS_KEY, upserts)
  {
    assert SHEET_KEYS[..|SHEET_KEYS| - 1] == MODEL_IDS;
  }

  /** The save button attempts one write to the tab of each model with a
      selected rating, and one to the corrections tab when the correction field
      is not empty, each holding the upsert of that key's entry; it attempts no
      other write. */
  lemma SaveWritesEntries(pills: map<string, int>, manualFix: string, id: RowId, user: string, u: int, ts: string,
                          before: map<string, Table>)
    ensures var ups := Upserts(SaveEntries(pills, manualFix, id, user, u, ts), before, u, user);
      var w := Writes(SHEET_KEYS, ups);
      && (forall k :: k in SaveKeys(pills, manualFix) ==> k in ups && (TabName(k), ups[k]) in w)
      && (forall x :: x in w ==> exists k :: k in SaveKeys(pills, manualFix) && k in ups && x == (TabName(k), ups[k]))
      && DistinctTabs(w)
  {
    var ups := Upserts(SaveEntries(pills, manualFix, id, user, u, ts), before, u, user);
    WritesCover(SHEET_KEYS, ups);
    SheetKeysDistinct();
    WritesDistinctTabs(SHEET_KEYS, ups);
  }

  lemma SheetKeysDistinct()
    ensures Distinct(SHEET_KEYS)
  {
    forall i, j | 0 <= i < j < |SHEET_KEYS| ensures SHEET_KEYS[i] != SHEET_KEYS[j] {
      assert KeyOfTab(TabName(SHEET_KEYS[i])) == Some(SHEET_KEYS[i]);
    }
  }

  /** No two writes of `w` go to the same tab. */
  predicate DistinctTabs(w: seq<(string, Table)>)
  {
    forall i, j :: 0 <= i < j < |w| ==> w[i].0 != w[j].0
  }

  /** For distinct cache keys no tab is written twice, so with `WritesCover`
      every key that has an upserted table is written exactly once. */
  lemma {:induction false} WritesDistinctTabs(keys: seq<string>, upserts: map<string, Table>)
    requires Distinct(keys) && forall k :: k in keys ==> k in SHEET_KEYS
    ensures DistinctTabs(Writes(keys, upserts))
    decreases |keys|
  {
    if keys != [] {
      var init, last := keys[..|keys| - 1], keys[|keys| - 1];
      assert keys == init + [last];
      assert Distinct(init) by {
        forall i, j | 0 <= i < j < |init| ensures init[i] != init[j] {
          assert init[i] == keys[i] && init[j] == keys[j];
        }
      }
      assert last !in init by {
        forall i | 0 <= i < |init| ensures init[i] != last {
          assert init[i] == keys[i];
        }
      }
      WritesDistinctTabs(init, upserts);
      var w := Writes(init, upserts);
      if last in upserts {
        WritesCover(init, upserts);
        forall i | 0 <= i < |w| ensures w[i].0 != TabName(last) {
          assert w[i] in w;
          var k :| k in init && k in upserts && w[i] == (TabName(k), upserts[k]);
          TabNamesDistinct(k, last);
        }
        DistinctTabsAppend(w, (TabName(last), upserts[last]));
      }
    }
  }

  lemma DistinctTabsAppend(w: seq<(string, Table)>, x: (string, Table))
    requires DistinctTabs(w) && forall i :: 0 <= i < |w| ==> w[i].0 != x.0
    ensures DistinctTabs(w + [x])
  {
    var w' := w + [x];
    forall i, j | 0 <= i < j < |w'| ensures w'[i].0 != w'[j].0 {
      assert w'[i] == w[i];
    }
  }

  /** The models the save loop has visited after i steps. */
  function Visited(i: nat): set<string>
    requires i <= |MODEL_IDS|
  {
    set j | 0 <= j < i :: MODEL_IDS[j]
  }

  lemma NotYetVisited(i: nat)
    requires i < |MODEL_IDS|
    ensures MODEL_IDS[i] !in Visited(i) && MODEL_IDS[i] in SHEET_KEYS
    ensures Visited(i + 1) == Visited(i) + {MODEL_IDS[i]}
    ensures CORRECTIONS_KEY !in Visited(i + 1)
  {
    assert Visited(i + 1) == Visited(i) + {MODEL_IDS[i]};
    assert SHEET_KEYS[i] == MODEL_IDS[i];
  }

  /** The cache agrees with the sheets on every key. */
  ghost predicate Synced(tabs: map<string, Table>, data: map<string, Table>)
  {
    forall k :: k in SHEET_KEYS ==> Lookup(tabs, TabName(k)) == Lookup(data, k)
  }

  /** The cache `after` is `before` with the upserts of `entries` for (u, user)
      under the keys in `saved`, and unchanged under every other key. */
  ghost predicate Saved(saved: set<string>, entries: map<string, Table>, before: map<string, Table>,
                  after: map<string, Table>, u: int, user: string)
  {
    && (forall k :: k in saved ==> k in entries && k in after && after[k] == Upsert(Lookup(before, k), entries[k], u, user))
    && (forall k :: k !in saved ==> Lookup(after, k) == Lookup(before, k))
  }

  /** The tabs of the keys in `saved` hold what the cache holds under those
      keys; every other tab is as it was in `tabs0`. */
  ghost predicate Written(saved: set<string>, tabs0: map<string, Table>, tabs: map<string, Table>, data: map<string, Table>)
  {
    && saved <= (set k | k in SHEET_KEYS)
    && (forall k :: k in saved ==> Lookup(tabs, TabName(k)) == Lookup(data, k))
    && (forall t :: t !in TabsOf(saved) ==> Lookup(tabs, t) == Lookup(tabs0, t))
  }

  lemma SavedOneMore(saved: set<string>, k: string, entries: map<string, Table>, before: map<string, Table>,
                     mid: map<string, Table>, u: int, user: string)
    requires Saved(saved, entries, before, mid, u, user) && k !in saved && k in entries
    ensures Saved(saved + {k}, entries, before, mid[k := Upsert(Lookup(mid, k), entries[k], u, user)], u, user)
  {
    assert Lookup(mid, k) == Lookup(before, k);
  }

  lemma WrittenOneMore(saved: set<string>, k: string, tabs0: map<string, Table>, tabs: map<string, Table>,
                       data: map<string, Table>, table: Table)
    requires Written(saved, tabs0, tabs, data) && k !in saved && k in SHEET_KEYS
    ensures Written(saved + {k}, tabs0, tabs[TabName(k) := table], data[k := table])
  {
    var tabs', data' := tabs[TabName(k) := table], data[k := table];
    forall k' | k' in saved ensures Lookup(tabs', TabName(k')) == Lookup(data', k') {
      TabNamesDistinct(k, k');
    }
    TabsOfOneMore(saved, k);
  }

  lemma TabsOfOneMore(saved: set<string>, k: string)
    ensures TabsOf(saved + {k}) == TabsOf(saved) + {TabName(k)}
  {
  }

  /** After the save loop, every key whose write succeeded holds exactly one
      row for (u, user), and every rated model's sheet pre-fills the rating
      just given. */
  lemma SavedKeysSettled(saved: set<string>, pills: map<string, int>, manualFix: string, id: RowId,
                         before: map<string, Table>, after: map<string, Table>, u: int, user: string, ts: string)
    requires Saved(saved, SaveEntries(pills, manualFix, id, user, u, ts), before, after, u, user)
    ensures forall k :: k in saved ==> CountMatching(after[k].rows, u, user) == 1
    ensures forall k :: k in saved && k in MODEL_IDS ==> SavedRating(after, k, u, user) == Some(pills[k])
  {
    var entries := SaveEntries(pills, manualFix, id, user, u, ts);
    forall k | k in saved ensures CountMatching(after[k].rows, u, user) == 1 {
      UpsertLeavesOneMatch(Lookup(before, k), entries[k], u, user);
    }
    forall k | k in saved && k in MODEL_IDS ensures SavedRating(after, k, u, user) == Some(pills[k]) {
      SaveThenLoad(before, k, entries[k], u, user, pills[k]);
    }
  }

  /** A save that starts from a cache in agreement with the sheets ends in
      agreement with them, whichever of its writes failed. */
  lemma SavedKeepsSync(saved: set<string>, entries: map<string, Table>, tabs0: map<string, Table>, tabs: map<string, Table>,
                       data0: map<string, Table>, data: map<string, Table>, u: int, user: string)
    requires Saved(saved, entries, data0, data, u, user) && Written(saved, tabs0, tabs, data)
    ensures Synced(tabs0, data0) ==> Synced(tabs, data)
  {
    if Synced(tabs0, data0) {
      forall k | k in SHEET_KEYS && k !in saved ensures Lookup(tabs, TabName(k)) == Lookup(data, k) {
        forall k' | k' in saved ensures TabName(k') != TabName(k) {
          TabNamesDistinct(k, k');
        }
        assert TabName(k) !in TabsOf(saved);
      }
    }
  }
}
