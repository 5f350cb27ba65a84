/** The master sheet: one record per (sentence, model variant), read once per
    session; the list of distinct sentences the annotator walks through; and
    the submission id derived from the row of the Nemotron variant (id "B"). */
module Master {
  import opened Cells

  /** A row of the master sheet as read. */
  datatype RawRecord = RawRecord(incorrect: Cell, id: Cell, corrected: Cell)

  /** A row that survived `dropna(how="all")`, with its index label: its
      position in the sheet as read (row 0 is the first row under the header). */
  datatype Record = Record(index: nat, incorrect: Cell, id: Cell, corrected: Cell)

  /** The master data once loaded: the records and the distinct sentences. */
  datatype MasterData = MasterData(records: seq<Record>, sentences: seq<Cell>)

  /** The submission id of a sentence: a spreadsheet row number, or the
      sentinel "Unknown". */
  datatype RowId = Unknown | RowNumber(n: int)

  /** The id of the reference variant, whose row names the submission. */
  const REFERENCE_ID: Cell := Text("B")

  /** Offset from an index label to the 1-based sheet row (the header is row 1). */
  const HEADER_OFFSET: int := 2

  predicate IsBlank(r: RawRecord)
  {
    r.incorrect == Missing && r.id == Missing && r.corrected == Missing
  }

  /** The record for row i of the sheet. */
  function RecordAt(raw: seq<RawRecord>, i: nat): Record
    requires i < |raw|
  {
    Record(i, raw[i].incorrect, raw[i].id, raw[i].corrected)
  }

  /** `dropna(how="all")` over raw[from..]: the non-blank rows, in order, each
      labelled with its position in the sheet. */
  function DropBlank(raw: seq<RawRecord>, from: nat): (m: seq<Record>)
    requires from <= |raw|
    ensures forall k :: 0 <= k < |m| ==> from <= m[k].index < |raw| && m[k] == RecordAt(raw, m[k].index) && !IsBlank(raw[m[k].index])
    ensures forall k, l :: 0 <= k < l < |m| ==> m[k].index < m[l].index
    ensures forall i :: from <= i < |raw| && !IsBlank(raw[i]) ==> RecordAt(raw, i) in m
    decreases |raw| - from
  {
    if from == |raw| then []
    else
      var rest := DropBlank(raw, from + 1);
      if IsBlank(raw[from]) then rest
      else
        KeptRecordFirst(raw, from, rest);
        [RecordAt(raw, from)] + rest
  }

  /** The step of `DropBlank` that keeps row `from` in front of the rows kept after it. */
  lemma KeptRecordFirst(raw: seq<RawRecord>, from: nat, rest: seq<Record>)
    requires from < |raw| && !IsBlank(raw[from])
    requires forall k :: 0 <= k < |rest| ==> from + 1 <= rest[k].index < |raw| && rest[k] == RecordAt(raw, rest[k].index) && !IsBlank(raw[rest[k].index])
    requires forall k, l :: 0 <= k < l < |rest| ==> rest[k].index < rest[l].index
    requires forall i :: from + 1 <= i < |raw| && !IsBlank(raw[i]) ==> RecordAt(raw, i) in rest
    ensures var m := [RecordAt(raw, from)] + rest;
      && (forall k :: 0 <= k < |m| ==> from <= m[k].index < |raw| && m[k] == RecordAt(raw, m[k].index) && !IsBlank(raw[m[k].index]))
      && (forall k, l :: 0 <= k < l < |m| ==> m[k].index < m[l].index)
      && (forall i :: from <= i < |raw| && !IsBlank(raw[i]) ==> RecordAt(raw, i) in m)
  {
    var m := [RecordAt(raw, from)] + rest;
    assert forall k :: 1 <= k < |m| ==> m[k] == rest[k - 1];
  }

  /** The position of the first occurrence of x in s. */
  function FirstIndex<T(==)>(s: seq<T>, x: T): (i: nat)
    requires x in s
    ensures i < |s| && s[i] == x && forall j :: 0 <= j < i ==> s[j] != x
  {
    if s[0] == x then 0 else 1 + FirstIndex(s[1..], x)
  }

  lemma FirstIndexOfPrefix<T>(s: seq<T>, n: nat, x: T)
    requires n <= |s| && x in s[..n]
    ensures FirstIndex(s, x) == FirstIndex(s[..n], x)
  {
    var i := FirstIndex(s[..n], x);
    var j := FirstIndex(s, x);
    assert s[i] == x;
    assert s[..n][j] == s[j];
  }

  /** `Series.unique()`: each value once, in the order of first occurrence. */
  function Unique(s: seq<Cell>): (u: seq<Cell>)
    ensures UniqueOf(s, u)
  {
    if s == [] then []
    else
      var n := |s| - 1;
      var p := Unique(s[..n]);
      assert s == s[..n] + [s[n]];
      if s[n] in p then
        UniqueSeen(s[..n], s[n], p);
        p
      else
        UniqueNew(s[..n], s[n], p);
        p + [s[n]]
  }

  /** p holds the values of `pre`, each once, in order of first occurrence. */
  ghost predicate UniqueOf(pre: seq<Cell>, p: seq<Cell>)
  {
    && (forall x :: x in p <==> x in pre)
    && (forall i, j :: 0 <= i < j < |p| ==> p[i] != p[j])
    && (forall i, j :: 0 <= i < j < |p| ==> FirstIndex(pre, p[i]) < FirstIndex(pre, p[j]))
  }

  /** A value already seen adds nothing. */
  lemma UniqueSeen(pre: seq<Cell>, last: Cell, p: seq<Cell>)
    requires UniqueOf(pre, p) && last in p
    ensures UniqueOf(pre + [last], p)
  {
    var s := pre + [last];
    PrefixFirstIndices(s, pre, p);
  }

  /** A new value goes at the end. */
  lemma UniqueNew(pre: seq<Cell>, last: Cell, p: seq<Cell>)
    requires UniqueOf(pre, p) && last !in p
    ensures UniqueOf(pre + [last], p + [last])
  {
    var s := pre + [last];
    var u := p + [last];
    PrefixFirstIndices(s, pre, p);
    LastFirstIndex(pre, last);
    assert forall x :: x in u <==> x in s by {
      assert forall x :: x in u <==> x in p || x == last;
      assert forall x :: x in s <==> x in pre || x == last;
    }
    forall i, j | 0 <= i < j < |u|
      ensures u[i] != u[j] && FirstIndex(s, u[i]) < FirstIndex(s, u[j])
    {
      assert u[i] == p[i];
      if j < |p| {
        assert u[j] == p[j];
      } else {
        assert u[j] == last;
      }
    }
  }

  lemma LastFirstIndex(pre: seq<Cell>, last: Cell)
    requires last !in pre
    ensures FirstIndex(pre + [last], last) == |pre|
  {
    var s := pre + [last];
    assert s[|pre|] == last;
    assert forall j :: 0 <= j < |pre| ==> s[j] == pre[j];
  }

  lemma PrefixFirstIndices(s: seq<Cell>, pre: seq<Cell>, p: seq<Cell>)
    requires |pre| < |s| && pre == s[..|pre|]
    requires forall x :: x in p ==> x in pre
    ensures forall i :: 0 <= i < |p| ==> p[i] in pre && p[i] in s && FirstIndex(s, p[i]) == FirstIndex(pre, p[i]) < |pre|
  {
    forall i | 0 <= i < |p| ensures p[i] in pre && p[i] in s && FirstIndex(s, p[i]) == FirstIndex(pre, p[i]) < |pre| {
      assert p[i] in pre;
      FirstIndexOfPrefix(s, |pre|, p[i]);
    }
  }

  function Sentences(records: seq<Record>): (s: seq<Cell>)
    ensures |s| == |records| && forall k :: 0 <= k < |records| ==> s[k] == records[k].incorrect
  {
    if records == [] then [] else [records[0].incorrect] + Sentences(records[1..])
  }

  lemma SentencesMembership(records: seq<Record>)
    ensures forall x :: x in Sentences(records) <==> exists k :: 0 <= k < |records| && records[k].incorrect == x
  {
    var s := Sentences(records);
    forall x | x in s ensures exists k :: 0 <= k < |records| && records[k].incorrect == x {
      var k :| 0 <= k < |s| && s[k] == x;
    }
  }

  /** `load_master_data`: None for a missing or empty sheet (the tool shows
      "Master sheet is empty." and stops); otherwise the records without blank
      rows and the distinct sentences in order of first occurrence. */
  function LoadMaster(raw: Option<seq<RawRecord>>): (d: Option<MasterData>)
    ensures d.None? <==> raw.None? || |raw.value| == 0
    ensures d.Some? ==> d.value.records == DropBlank(raw.value, 0)
    ensures d.Some? ==> forall x :: x in d.value.sentences <==> exists k :: 0 <= k < |d.value.records| && d.value.records[k].incorrect == x
    ensures d.Some? ==> UniqueOf(Sentences(d.value.records), d.value.sentences)
  {
    if raw.None? || |raw.value| == 0 then None
    else
      var records := DropBlank(raw.value, 0);
      var s := Sentences(records);
      var u := Unique(s);
      SentencesMembership(records);
      assert UniqueOf(s, u);
      Some(MasterData(records, u))
  }

  /** pandas `==` on cells: NaN equals nothing. */
  predicate SameValue(a: Cell, b: Cell)
  {
    a != Missing && a == b
  }

  predicate IsReference(incorrect: Cell, id: Cell, sentence: Cell)
  {
    SameValue(incorrect, sentence) && id == REFERENCE_ID
  }

  /** `get_nemotron_row_id`: the index label of the first record of the sentence
      with id "B", plus the header offset; "Unknown" when there is none. */
  function NemotronRowId(master: seq<Record>, sentence: Cell): (id: RowId)
    ensures id.Unknown? <==> forall k :: 0 <= k < |master| ==> !IsReference(master[k].incorrect, master[k].id, sentence)
    ensures id.RowNumber? ==>
      exists k :: 0 <= k < |master| && IsReference(master[k].incorrect, master[k].id, sentence) &&
        (forall j :: 0 <= j < k ==> !IsReference(master[j].incorrect, master[j].id, sentence)) &&
        id.n == master[k].index + HEADER_OFFSET
  {
    if master == [] then Unknown
    else if IsReference(master[0].incorrect, master[0].id, sentence) then RowNumber(master[0].index + HEADER_OFFSET)
    else
      var id := NemotronRowId(master[1..], sentence);
      assert forall k :: 1 <= k < |master| ==> master[k] == master[1..][k - 1];
      id
  }

  /** The `submission_id` cell of an entry: the row number, 0 for "Unknown". */
  function SubmissionId(id: RowId): (r: int)
    ensures id.Unknown? ==> r == 0
    ensures id.RowNumber? ==> r == id.n
  {
    if id.Unknown? then 0 else id.n
  }

  /** The submission id is 0 exactly when the sentence has no reference row,
      since every real row number is at least the header offset. So all such
      sentences share the id 0. */
  lemma SubmissionIdZeroIffNoReference(master: seq<Record>, sentence: Cell)
    ensures SubmissionId(NemotronRowId(master, sentence)) == 0 <==>
      forall k :: 0 <= k < |master| ==> !IsReference(master[k].incorrect, master[k].id, sentence)
  {
    var id := NemotronRowId(master, sentence);
    if id.RowNumber? {
      var k :| 0 <= k < |master| && id.n == master[k].index + HEADER_OFFSET;
    }
  }

  /** Over the loaded master data, the row id is the spreadsheet row of the
      first reference row of the sentence in the sheet as read (blank rows
      dropped, their numbers kept); "Unknown" exactly when the sheet has none. */
  lemma RowIdIsSheetRow(raw: seq<RawRecord>, sentence: Cell)
    ensures var id := NemotronRowId(DropBlank(raw, 0), sentence);
      && (id.Unknown? <==> forall i :: 0 <= i < |raw| ==> !IsReference(raw[i].incorrect, raw[i].id, sentence))
      && (id.RowNumber? ==>
            && HEADER_OFFSET <= id.n < |raw| + HEADER_OFFSET
            && IsReference(raw[id.n - HEADER_OFFSET].incorrect, raw[id.n - HEADER_OFFSET].id, sentence)
            && forall i :: 0 <= i < id.n - HEADER_OFFSET ==> !IsReference(raw[i].incorrect, raw[i].id, sentence))
  {
    var id := NemotronRowId(DropBlank(raw, 0), sentence);
    if id.Unknown? {
      UnknownMeansNoSheetRow(raw, sentence);
    } else {
      RowNumberIsFirstSheetRow(raw, sentence);
    }
  }

  lemma UnknownMeansNoSheetRow(raw: seq<RawRecord>, sentence: Cell)
    requires NemotronRowId(DropBlank(raw, 0), sentence).Unknown?
    ensures forall i :: 0 <= i < |raw| ==> !IsReference(raw[i].incorrect, raw[i].id, sentence)
  {
    var m := DropBlank(raw, 0);
    forall i | 0 <= i < |raw| ensures !IsReference(raw[i].incorrect, raw[i].id, sentence) {
      if !IsBlank(raw[i]) {
        assert RecordAt(raw, i) in m;
      }
    }
  }

  lemma RowNumberIsFirstSheetRow(raw: seq<RawRecord>, sentence: Cell)
    requires NemotronRowId(DropBlank(raw, 0), sentence).RowNumber?
    ensures var n := NemotronRowId(DropBlank(raw, 0), sentence).n;
      && HEADER_OFFSET <= n < |raw| + HEADER_OFFSET
      && IsReference(raw[n - HEADER_OFFSET].incorrect, raw[n - HEADER_OFFSET].id, sentence)
      && forall i :: 0 <= i < n - HEADER_OFFSET ==> !IsReference(raw[i].incorrect, raw[i].id, sentence)
  {
    var m := DropBlank(raw, 0);
    FirstReferenceIsSheetRow(raw, m, NemotronRowId(m, sentence), sentence);
  }

  /** The same statement over any list of records with the properties of
      `DropBlank(raw, 0)` and any id with the properties of `NemotronRowId`. */
  lemma FirstReferenceIsSheetRow(raw: seq<RawRecord>, m: seq<Record>, id: RowId, sentence: Cell)
    requires forall l :: 0 <= l < |m| ==> m[l].index < |raw| && m[l] == RecordAt(raw, m[l].index)
    requires forall l, l' :: 0 <= l < l' < |m| ==> m[l].index < m[l'].index
    requires forall i :: 0 <= i < |raw| && !IsBlank(raw[i]) ==> RecordAt(raw, i) in m
    requires id.RowNumber?
    requires exists k :: (0 <= k < |m| && IsReference(m[k].incorrect, m[k].id, sentence) &&
      (forall j :: 0 <= j < k ==> !IsReference(m[j].incorrect, m[j].id, sentence)) &&
      id.n == m[k].index + HEADER_OFFSET)
    ensures HEADER_OFFSET <= id.n < |raw| + HEADER_OFFSET
    ensures IsReference(raw[id.n - HEADER_OFFSET].incorrect, raw[id.n - HEADER_OFFSET].id, sentence)
    ensures forall i :: 0 <= i < id.n - HEADER_OFFSET ==> !IsReference(raw[i].incorrect, raw[i].id, sentence)
  {
    var k :| 0 <= k < |m| && IsReference(m[k].incorrect, m[k].id, sentence) &&
      (forall j :: 0 <= j < k ==> !IsReference(m[j].incorrect, m[j].id, sentence)) &&
      id.n == m[k].index + HEADER_OFFSET;
    assert m[k] == RecordAt(raw, m[k].index);
    NoEarlierReference(raw, m, k, sentence);
  }

  /** No sheet row before the k-th surviving record is a reference row when no
      earlier surviving record is. */
  lemma NoEarlierReference(raw: seq<RawRecord>, m: seq<Record>, k: nat, sentence: Cell)
    requires k < |m|
    requires forall l :: 0 <= l < |m| ==> m[l].index < |raw| && m[l] == RecordAt(raw, m[l].index)
    requires forall l, l' :: 0 <= l < l' < |m| ==> m[l].index < m[l'].index
    requires forall i :: 0 <= i < |raw| && !IsBlank(raw[i]) ==> RecordAt(raw, i) in m
    requires forall j :: 0 <= j < k ==> !IsReference(m[j].incorrect, m[j].id, sentence)
    ensures forall i :: 0 <= i < m[k].index ==> !IsReference(raw[i].incorrect, raw[i].id, sentence)
  {
    forall i | 0 <= i < m[k].index ensures !IsReference(raw[i].incorrect, raw[i].id, sentence) {
      if !IsBlank(raw[i]) {
        assert RecordAt(raw, i) in m;
        var j :| 0 <= j < |m| && m[j] == RecordAt(raw, i);
        var ik, ij := m[k].index, m[j].index;
        assert k <= j ==> ik <= ij;
      }
    }
  }
}
