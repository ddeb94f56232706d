/** The helpers of `algorithm/utils.py`: the first-index search, the argument check of
    `load_csv_data`, and its merge of dated columns into one record per date string. The
    CSV files are given already read, as rows of date string and value in file order. */
module Utils {
  import opened Common

  // ---------------------------------------------------------------------------------------
  // get_index_of_first

  /** `get_index_of_first(iterable, cond)`: the enumerate loop returns the first index whose
      element satisfies the condition, and falls off the end (None) when there is none. */
  method GetIndexOfFirst<T>(s: seq<T>, cond: T -> bool) returns (r: Option<nat>)
    ensures r.Some? ==> r.value < |s| && cond(s[r.value])
    ensures r.Some? ==> forall k :: 0 <= k < r.value ==> !cond(s[k])
    ensures r.None? <==> forall k :: 0 <= k < |s| ==> !cond(s[k])
  {
    for i := 0 to |s|
      invariant forall k :: 0 <= k < i ==> !cond(s[k])
    {
      if cond(s[i]) {
        return Some(i);
      }
    }
    return None;
  }

  // ---------------------------------------------------------------------------------------
  // FileDef and the argument check

  /** `FileDef(filename, colname="value")`: a file to read and the column its values go to. */
  datatype FileDef = FileDef(filename: string, colname: string)

  /** A positional argument of `load_csv_data`: a FileDef or any other object. */
  datatype Arg = FileDefArg(def: FileDef) | OtherArg

  /** The exception the loader raises before reading anything. */
  datatype LoadError = TypeError

  /** `if not all(isinstance(arg, FileDef) ...): raise TypeError`. */
  function CheckFileDefs(args: seq<Arg>): (r: Result<seq<FileDef>, LoadError>)
    ensures r.Ok? <==> forall k :: 0 <= k < |args| ==> args[k].FileDefArg?
    ensures r.Ok? ==> |r.value| == |args| && forall k :: 0 <= k < |args| ==> r.value[k] == args[k].def
  {
    if forall k :: 0 <= k < |args| ==> args[k].FileDefArg? then
      Ok(seq(|args|, k requires 0 <= k < |args| && args[k].FileDefArg? => args[k].def))
    else Err(TypeError)
  }

  // ---------------------------------------------------------------------------------------
  // The merge of load_csv_data

  /** One row of a CSV file: the date string and the parsed value. */
  datatype CsvRow = CsvRow(date: string, value: real)

  /** A cell of a record: the parsed date or a parsed float. */
  datatype Field = DateField(day: int) | ValueField(x: real)

  /** One record of `hash_output`: a dict that starts with the parsed date under `"date"`
      and receives a float for each column seen. A file whose column is named `"date"`
      writes over the parsed date. */
  type Record = map<string, Field>

  /** The key of the parsed date. */
  const DateColumn: string := "date"

  /** One visit of the inner loop: date string, column name, value. */
  datatype Entry = Entry(date: string, column: string, value: real)

  /** The rows of one file as visits to its column. */
  function FileEntries(colname: string, rows: seq<CsvRow>): (es: seq<Entry>)
    ensures |es| == |rows|
  {
    seq(|rows|, j requires 0 <= j < |rows| => Entry(rows[j].date, colname, rows[j].value))
  }

  /** All visits of the nested loops, file by file, row by row. */
  function Entries(defs: seq<FileDef>, contents: seq<seq<CsvRow>>): seq<Entry>
    requires |defs| == |contents|
  {
    if |defs| == 0 then []
    else
      var last := |defs| - 1;
      Entries(defs[..last], contents[..last]) + FileEntries(defs[last].colname, contents[last])
  }

  /** `hash_output` with its insertion order. */
  datatype Table = Table(order: seq<string>, records: map<string, Record>)

  /** One visit: a date string seen for the first time gets a record holding only its
      parsed date; then the column is set on that record. */
  function Absorb(t: Table, e: Entry, parseDate: string -> int): Table
  {
    var isNew := e.date !in t.records;
    var order := if isNew then t.order + [e.date] else t.order;
    var rec := if isNew then map[DateColumn := DateField(parseDate(e.date))] else t.records[e.date];
    Table(order, t.records[e.date := rec[e.column := ValueField(e.value)]])
  }

  /** `hash_output` after the given visits. */
  function Merged(entries: seq<Entry>, parseDate: string -> int): Table
  {
    if |entries| == 0 then Table([], map[])
    else Absorb(Merged(entries[..|entries| - 1], parseDate), entries[|entries| - 1], parseDate)
  }

  /** `pd.DataFrame(hash_output.values())`: the records in insertion order. */
  function Frame(t: Table): seq<Record>
    requires forall i :: 0 <= i < |t.order| ==> t.order[i] in t.records
  {
    seq(|t.order|, i requires 0 <= i < |t.order| => t.records[t.order[i]])
  }

  /** Every date in the order has a record, and every record date is in the order. */
  predicate WellOrdered(t: Table)
  {
    (forall i :: 0 <= i < |t.order| ==> t.order[i] in t.records) &&
    (forall d :: d in t.records ==> d in t.order)
  }

  /** `load_csv_data(*file_defs)` without the pandas path: check the arguments, then for
      each file and each of its rows create the record of a new date string and set the
      file's column on it. */
  method LoadCsvData(args: seq<Arg>, contents: seq<seq<CsvRow>>, parseDate: string -> int)
    returns (r: Result<seq<Record>, LoadError>)
    requires |contents| == |args|
    ensures r.Err? <==> CheckFileDefs(args).Err?
    ensures r.Ok? ==>
      var t := Merged(Entries(CheckFileDefs(args).value, contents), parseDate);
      WellOrdered(t) && r.value == Frame(t)
  {
    var defs := CheckFileDefs(args);
    if defs.Err? {
      return Err(defs.error);
    }
    var fileDefs := defs.value;
    var order: seq<string> := [];
    var hashOutput: map<string, Record> := map[];
    for f := 0 to |fileDefs|
      invariant Table(order, hashOutput) == Merged(Entries(fileDefs[..f], contents[..f]), parseDate)
    {
      var colname := fileDefs[f].colname;
      ghost var before := Entries(fileDefs[..f], contents[..f]);
      assert before + FileEntries(colname, contents[f][..0]) == before;
      for j := 0 to |contents[f]|
        invariant Table(order, hashOutput) == Merged(before + FileEntries(colname, contents[f][..j]), parseDate)
      {
        var row := contents[f][j];
        ghost var t0 := Table(order, hashOutput);
        var strDate := row.date;
        if strDate !in hashOutput {
          hashOutput := hashOutput[strDate := map[DateColumn := DateField(parseDate(strDate))]];
          order := order + [strDate];
        }
        hashOutput := hashOutput[strDate := hashOutput[strDate][colname := ValueField(row.value)]];
        assert Table(order, hashOutput) == Absorb(t0, Entry(strDate, colname, row.value), parseDate);
        EntriesSnoc(before, colname, contents[f], j);
      }
      EntriesOfPrefix(fileDefs, contents, f);
    }
    assert fileDefs[..|fileDefs|] == fileDefs && contents[..|contents|] == contents;
    MergedWellOrdered(Entries(fileDefs, contents), parseDate);
    var t := Table(order, hashOutput);
    return Ok(Frame(t));
  }

  lemma EntriesSnoc(before: seq<Entry>, colname: string, rows: seq<CsvRow>, j: nat)
    requires j < |rows|
    ensures before + FileEntries(colname, rows[..j + 1]) ==
      (before + FileEntries(colname, rows[..j])) + [Entry(rows[j].date, colname, rows[j].value)]
  {
    assert FileEntries(colname, rows[..j + 1]) ==
      FileEntries(colname, rows[..j]) + [Entry(rows[j].date, colname, rows[j].value)];
  }

  lemma EntriesOfPrefix(defs: seq<FileDef>, contents: seq<seq<CsvRow>>, f: nat)
    requires |defs| == |contents| && f < |defs|
    ensures Entries(defs[..f + 1], contents[..f + 1]) ==
      Entries(defs[..f], contents[..f]) + FileEntries(defs[f].colname, contents[f][..|contents[f]|])
  {
    assert defs[..f + 1][..f] == defs[..f] && contents[..f + 1][..f] == contents[..f];
    assert contents[f][..|contents[f]|] == contents[f];
  }

  // ---------------------------------------------------------------------------------------
  // Properties of the merge

  /** The date strings of the visits. */
  function DatesOf(entries: seq<Entry>): set<string>
  {
    set i | 0 <= i < |entries| :: entries[i].date
  }

  /** The columns visited with date string `d`. */
  function ColumnsAt(entries: seq<Entry>, d: string): set<string>
  {
    set i | 0 <= i < |entries| && entries[i].date == d :: entries[i].column
  }

  /** The value of the last visit with date string `d` and column `c`. */
  function LastValue(entries: seq<Entry>, d: string, c: string): Option<real>
  {
    if |entries| == 0 then None
    else
      var e := entries[|entries| - 1];
      if e.date == d && e.column == c then Some(e.value) else LastValue(entries[..|entries| - 1], d, c)
  }

  /** The index of the first visit with date string `d`. */
  function FirstVisit(entries: seq<Entry>, d: string): (k: nat)
    requires d in DatesOf(entries)
    ensures k < |entries| && entries[k].date == d
    ensures forall m :: 0 <= m < k ==> entries[m].date != d
  {
    var init := entries[..|entries| - 1];
    assert forall m :: 0 <= m < |init| ==> init[m] == entries[m];
    if d in DatesOf(init) then FirstVisit(init, d) else |entries| - 1
  }

  function DropLast(entries: seq<Entry>): (init: seq<Entry>)
    requires |entries| > 0
    ensures |init| == |entries| - 1 && forall m :: 0 <= m < |init| ==> init[m] == entries[m]
  {
    entries[..|entries| - 1]
  }

  lemma DatesSnoc(entries: seq<Entry>)
    requires |entries| > 0
    ensures DatesOf(entries) == DatesOf(DropLast(entries)) + {entries[|entries| - 1].date}
  {
    var init := DropLast(entries);
    forall d | d in DatesOf(entries) ensures d in DatesOf(init) + {entries[|entries| - 1].date} {
      var i :| 0 <= i < |entries| && entries[i].date == d;
      if i < |init| {
        assert init[i].date == d;
      }
    }
    forall d | d in DatesOf(init) ensures d in DatesOf(entries) {
      var i :| 0 <= i < |init| && init[i].date == d;
      assert entries[i].date == d;
    }
  }

  lemma ColumnsSnoc(entries: seq<Entry>, d: string)
    requires |entries| > 0
    ensures var e := entries[|entries| - 1];
      ColumnsAt(entries, d) == ColumnsAt(DropLast(entries), d) + (if e.date == d then {e.column} else {})
  {
    var init, e := DropLast(entries), entries[|entries| - 1];
    forall c | c in ColumnsAt(entries, d)
      ensures c in ColumnsAt(init, d) + (if e.date == d then {e.column} else {})
    {
      var i :| 0 <= i < |entries| && entries[i].date == d && entries[i].column == c;
      if i < |init| {
        assert init[i].date == d && init[i].column == c;
      }
    }
    forall c | c in ColumnsAt(init, d) ensures c in ColumnsAt(entries, d) {
      var i :| 0 <= i < |init| && init[i].date == d && init[i].column == c;
      assert entries[i].date == d && entries[i].column == c;
    }
  }

  /** The merged table has a record for exactly the date strings visited, listed once
      each in the insertion order. */
  lemma {:induction false} MergedKeys(entries: seq<Entry>, parseDate: string -> int)
    ensures Merged(entries, parseDate).records.Keys == DatesOf(entries)
    ensures OrderedKeys(Merged(entries, parseDate))
  {
    if |entries| > 0 {
      MergedKeys(DropLast(entries), parseDate);
      DatesSnoc(entries);
      AbsorbKeys(Merged(DropLast(entries), parseDate), entries[|entries| - 1], parseDate);
    }
  }

  /** The keys and the insertion order of a table agree and list each key once. */
  predicate OrderedKeys(t: Table)
  {
    (forall i :: 0 <= i < |t.order| ==> t.order[i] in t.records) &&
    (forall d :: d in t.records ==> d in t.order) &&
    forall i, j :: 0 <= i < j < |t.order| ==> t.order[i] != t.order[j]
  }

  lemma AbsorbKeys(t: Table, e: Entry, parseDate: string -> int)
    requires OrderedKeys(t)
    ensures OrderedKeys(Absorb(t, e, parseDate))
    ensures Absorb(t, e, parseDate).records.Keys == t.records.Keys + {e.date}
  {
    var u := Absorb(t, e, parseDate);
    assert u.records.Keys == t.records.Keys + {e.date};
    if e.date in t.records {
      assert u.order == t.order;
    } else {
      assert u.order == t.order + [e.date];
      assert forall i :: 0 <= i < |t.order| ==> t.order[i] != e.date;
    }
  }

  lemma MergedWellOrdered(entries: seq<Entry>, parseDate: string -> int)
    ensures WellOrdered(Merged(entries, parseDate))
  {
    MergedKeys(entries, parseDate);
  }

  /** Each record holds `"date"` and exactly the columns visited with its date string;
      each visited column holds the value of the last such visit (later rows overwrite,
      other columns are untouched, and a date present in one file only lacks the other
      files' columns); `"date"` keeps the date parsed when the date string was first seen
      unless a column named `"date"` was visited. */
  lemma {:induction false} MergedRecords(entries: seq<Entry>, parseDate: string -> int, d: string)
    requires d in Merged(entries, parseDate).records
    ensures var rec := Merged(entries, parseDate).records[d];
      rec.Keys == ColumnsAt(entries, d) + {DateColumn} &&
      (forall c :: c in ColumnsAt(entries, d) ==>
        LastValue(entries, d, c).Some? && rec[c] == ValueField(LastValue(entries, d, c).value)) &&
      (DateColumn !in ColumnsAt(entries, d) ==> rec[DateColumn] == DateField(parseDate(d)))
  {
    MergedHolds(entries, parseDate, d);
  }

  /** The record of `d` after the visits `entries`, as MergedRecords states it. */
  predicate Holds(rec: Record, entries: seq<Entry>, d: string, parseDate: string -> int)
  {
    rec.Keys == ColumnsAt(entries, d) + {DateColumn} &&
    (forall c :: c in ColumnsAt(entries, d) ==>
      LastValue(entries, d, c).Some? && rec[c] == ValueField(LastValue(entries, d, c).value)) &&
    (DateColumn !in ColumnsAt(entries, d) ==> rec[DateColumn] == DateField(parseDate(d)))
  }

  lemma {:induction false} MergedHolds(entries: seq<Entry>, parseDate: string -> int, d: string)
    requires d in Merged(entries, parseDate).records
    ensures Holds(Merged(entries, parseDate).records[d], entries, d, parseDate)
  {
    var init, e := DropLast(entries), entries[|entries| - 1];
    var t0 := Merged(init, parseDate);
    var rec := Merged(entries, parseDate).records[d];
    ColumnsSnoc(entries, d);
    MergedKeys(init, parseDate);
    if e.date != d {
      MergedHolds(init, parseDate, d);
      OtherVisit(entries, parseDate, d, t0.records[d], rec);
    } else if d in t0.records {
      MergedHolds(init, parseDate, d);
      LaterVisit(entries, parseDate, d, t0.records[d], rec);
    } else {
      ColumnsWithinDates(init, d);
      FirstVisitRecord(entries, parseDate, d, rec);
    }
  }

  /** A visit of another date string leaves the record of `d` as it was. */
  lemma OtherVisit(entries: seq<Entry>, parseDate: string -> int, d: string, rec0: Record, rec: Record)
    requires |entries| > 0 && entries[|entries| - 1].date != d && rec == rec0
    requires ColumnsAt(entries, d) == ColumnsAt(DropLast(entries), d)
    requires Holds(rec0, DropLast(entries), d, parseDate)
    ensures Holds(rec, entries, d, parseDate)
  {
    forall c | c in ColumnsAt(entries, d) ensures LastValue(entries, d, c) == LastValue(DropLast(entries), d, c) {
    }
  }

  /** A later visit of `d` sets its column and nothing else. */
  lemma LaterVisit(entries: seq<Entry>, parseDate: string -> int, d: string, rec0: Record, rec: Record)
    requires |entries| > 0 && entries[|entries| - 1].date == d
    requires rec == rec0[entries[|entries| - 1].column := ValueField(entries[|entries| - 1].value)]
    requires ColumnsAt(entries, d) == ColumnsAt(DropLast(entries), d) + {entries[|entries| - 1].column}
    requires Holds(rec0, DropLast(entries), d, parseDate)
    ensures Holds(rec, entries, d, parseDate)
  {
    var e := entries[|entries| - 1];
    forall c | c in ColumnsAt(entries, d) && c != e.column
      ensures LastValue(entries, d, c) == LastValue(DropLast(entries), d, c)
    {
    }
  }

  /** The first visit of `d` creates its record with the parsed date and sets its column. */
  lemma FirstVisitRecord(entries: seq<Entry>, parseDate: string -> int, d: string, rec: Record)
    requires |entries| > 0 && entries[|entries| - 1].date == d
    requires rec == map[DateColumn := DateField(parseDate(d))][entries[|entries| - 1].column := ValueField(entries[|entries| - 1].value)]
    requires ColumnsAt(entries, d) == {entries[|entries| - 1].column}
    ensures Holds(rec, entries, d, parseDate)
  {
  }

  /** A date string with a visited column is a visited date string. */
  lemma ColumnsWithinDates(entries: seq<Entry>, d: string)
    ensures ColumnsAt(entries, d) != {} ==> d in DatesOf(entries)
  {
    if ColumnsAt(entries, d) != {} {
      var c :| c in ColumnsAt(entries, d);
      var i :| 0 <= i < |entries| && entries[i].date == d && entries[i].column == c;
      assert entries[i].date == d;
    }
  }

  /** Records come out in the order their date strings were first visited. */
  lemma {:induction false} MergedOrder(entries: seq<Entry>, parseDate: string -> int)
    ensures var t := Merged(entries, parseDate);
      (forall i :: 0 <= i < |t.order| ==> t.order[i] in DatesOf(entries)) &&
      forall i, j :: 0 <= i < j < |t.order| ==>
        FirstVisit(entries, t.order[i]) < FirstVisit(entries, t.order[j])
  {
    MergedKeys(entries, parseDate);
    if |entries| > 0 {
      var init := DropLast(entries);
      MergedOrder(init, parseDate);
      MergedKeys(init, parseDate);
      DatesSnoc(entries);
      var t0, t := Merged(init, parseDate), Merged(entries, parseDate);
      OrderStep(entries, t0.order, t.order);
    }
  }

  /** One visit keeps the insertion order sorted by first visit: it either leaves the order
      alone or appends a date string never visited before. */
  lemma OrderStep(entries: seq<Entry>, o0: seq<string>, o: seq<string>)
    requires |entries| > 0
    requires forall i :: 0 <= i < |o0| ==> o0[i] in DatesOf(DropLast(entries))
    requires forall i, j :: 0 <= i < j < |o0| ==>
      FirstVisit(DropLast(entries), o0[i]) < FirstVisit(DropLast(entries), o0[j])
    requires o == o0 ||
      (o == o0 + [entries[|entries| - 1].date] && entries[|entries| - 1].date !in DatesOf(DropLast(entries)))
    ensures forall i :: 0 <= i < |o| ==> o[i] in DatesOf(entries)
    ensures forall i, j :: 0 <= i < j < |o| ==> FirstVisit(entries, o[i]) < FirstVisit(entries, o[j])
  {
    DatesSnoc(entries);
    forall i | 0 <= i < |o0| ensures FirstVisit(entries, o0[i]) == FirstVisit(DropLast(entries), o0[i]) {
      FirstVisitSnoc(entries, o0[i]);
    }
    if o != o0 {
      NewDateVisitedLast(entries, o[|o| - 1]);
    }
  }

  /** A date string not among the earlier visits is first visited last. */
  lemma NewDateVisitedLast(entries: seq<Entry>, d: string)
    requires |entries| > 0 && d == entries[|entries| - 1].date && d !in DatesOf(DropLast(entries))
    ensures d in DatesOf(entries) && FirstVisit(entries, d) == |entries| - 1
  {
    DatesSnoc(entries);
  }

  lemma FirstVisitSnoc(entries: seq<Entry>, d: string)
    requires |entries| > 0 && d in DatesOf(DropLast(entries))
    ensures d in DatesOf(entries) && FirstVisit(entries, d) == FirstVisit(DropLast(entries), d)
  {
    DatesSnoc(entries);
  }
}
