/** The JSON table editor (json-table-editor/app.js): a table whose first
    column holds row headers, read from markdown or from a JSON object of
    objects, edited by index-based insertion and deletion, and written back
    as markdown (without the row-header column) or as a JSON object keyed
    by the row headers. */
module JsonTableEditor {
  import opened Text
  import opened Wrappers
  import opened OrderedMap
  import opened JsValues
  import opened Splice
  import opened RowSort
  import opened MarkdownSyntax
  import opened MdTableEditor
  import opened MdTableAnalyzer
  import opened LooseRows

  const EmptyMarkdownInput := "Please enter markdown table data"
  const EmptyJsonInput := "Please enter json table data"
  const ShortMarkdown := "Invalid Markdown format: Table must have at least a header and separator."
  const NotAnObject := "Invalid JSON format: The JSON data must represent a non-empty object."
  const EntryNotAnObject := "Invalid JSON format: Each entry should be an object."
  const JsonErrorPrefix := "Error parsing JSON: "
  /** What V8 reports for `Object.values(null)`. */
  const NullEntry := "Cannot convert undefined or null to object"
  const InvalidColumnIndex := "Invalid column index."
  const InvalidRowIndex := "Invalid row index."
  const NoColumnsSelected := "No columns selected for deletion."
  const NoRowsSelected := "No rows selected for deletion."
  const NoRowsToSort := "No rows to sort."
  const NewRowHeader := "New Row"
  /** The header of the row-header column. */
  const RowHeaderTitle := " "

  // ---------------------------------------------------------------------
  // Reading markdown

  /** The cells of a line, each trimmed and passed through `sanitizeInput`
      (the same four entities as the markdown editor's, `'` as `&#39;`). */
  function CleanCells(line: string): (r: seq<string>)
    ensures |r| == |Cells(line)|
    ensures forall i :: 0 <= i < |r| ==> r[i] != [] && NoMarkup(r[i])
    ensures forall i :: 0 <= i < |r| ==> r[i] == Sanitize(Cells(line)[i])
  {
    SanitizeAll(Cells(line))
  }

  /** `parseMarkdownTable` on the trimmed input: at least two lines, or an
      error. The header and every row keep only their non-blank cells, so a
      row can be narrower or wider than the header; there is one alignment
      per non-blank cell of the separator line. */
  function ParsedMarkdown(text: string): (r: Result<Table>)
    ensures r.Err? <==> |Split(text, '\n')| < 2
    ensures r.Err? ==> r.message == ShortMarkdown
    ensures r.Ok? ==> |r.value.rows| == |Split(text, '\n')| - 2
    ensures r.Ok? ==> |r.value.alignments| == |Cells(Split(text, '\n')[1])|
    ensures r.Ok? ==> forall i :: 0 <= i < |r.value.headers| ==> r.value.headers[i] != [] && NoMarkup(r.value.headers[i])
    ensures r.Ok? ==> forall i, j :: 0 <= i < |r.value.rows| && 0 <= j < |r.value.rows[i]| ==>
      r.value.rows[i][j] != [] && NoMarkup(r.value.rows[i][j])
    ensures r.Ok? ==> |Split(text, '\n')| >= 2 && r.value.headers == CleanCells(Split(text, '\n')[0])
    ensures r.Ok? ==> |Split(text, '\n')| >= 2 && r.value.alignments == ClassifyAll(Cells(Split(text, '\n')[1]))
    ensures r.Ok? ==> forall i :: 0 <= i < |r.value.rows| ==> r.value.rows[i] == CleanCells(Split(text, '\n')[i + 2])
  {
    var lines := Split(text, '\n');
    if |lines| < 2 then Err(ShortMarkdown)
    else Ok(TableOfLines(lines))
  }

  /** The table read from at least two lines. */
  function TableOfLines(lines: seq<string>): (t: Table)
    requires |lines| >= 2
    ensures t.headers == CleanCells(lines[0]) && t.alignments == ClassifyAll(Cells(lines[1]))
    ensures |t.rows| == |lines| - 2 && forall i :: 0 <= i < |t.rows| ==> t.rows[i] == CleanCells(lines[i + 2])
  {
    var rows := seq(|lines| - 2, i requires 0 <= i < |lines| - 2 => CleanCells(lines[i + 2]));
    Table(CleanCells(lines[0]), ClassifyAll(Cells(lines[1])), rows)
  }

  // ---------------------------------------------------------------------
  // Reading JSON

  /** The header row of a JSON input: a blank title for the row-header
      column, then the keys of the first entry. The input must be a
      non-empty object (an array passes the `typeof` test too) whose first
      entry is an object or array. */
  function JsonHeaders(v: JsValue): (r: Result<seq<string>>)
    ensures r.Ok? <==> (v.JObject? || v.JArray?) && |Entries(v).value| >= 1 && IsObjectEntry(Entries(v).value[0].value)
    ensures r.Ok? ==> |r.value| >= 1 && r.value[0] == RowHeaderTitle
    ensures r.Ok? ==> r.value[1..] == Keys(Entries(Entries(v).value[0].value).value)
    ensures (IsFalsy(v) || !IsTypeofObject(v)) ==> r == Err(NotAnObject)
    ensures (v.JObject? || v.JArray?) && |Entries(v).value| == 0 ==> r == Err(NotAnObject)
    ensures (v.JObject? || v.JArray?) && |Entries(v).value| >= 1 && !IsObjectEntry(Entries(v).value[0].value) ==>
      r == Err(EntryNotAnObject)
  {
    if IsFalsy(v) || !IsTypeofObject(v) then Err(NotAnObject)
    else
      var entries := Entries(v).value;
      if |entries| == 0 then Err(NotAnObject)
      else
        var first := entries[0].value;
        if IsFalsy(first) || !IsTypeofObject(first) then Err(EntryNotAnObject)
        else Ok([RowHeaderTitle] + Keys(Entries(first).value))
  }

  /** The test `firstRow && typeof firstRow === 'object'`: an object or an
      array, since `null` is falsy. */
  predicate IsObjectEntry(v: JsValue)
  {
    !IsFalsy(v) && IsTypeofObject(v)
  }

  /** One table row per entry: the sanitised key, then the sanitised
      `String` of each of the entry's values. `None` when an entry is
      `null`, for which `Object.values` throws. */
  function JsonRows(entries: OMap<JsValue>): (r: Option<seq<seq<string>>>)
    ensures r.None? <==> exists k :: 0 <= k < |entries| && entries[k].value.JNull?
    ensures r.Some? ==> |r.value| == |entries|
    ensures r.Some? ==> forall k :: 0 <= k < |entries| ==>
      |r.value[k]| >= 1 && r.value[k][0] == Sanitize(entries[k].key)
    ensures r.Some? ==> forall k :: 0 <= k < |entries| ==>
      r.value[k][1..] == ValueCells(Entries(entries[k].value).value)
  {
    if exists k :: 0 <= k < |entries| && entries[k].value.JNull? then None
    else Some(seq(|entries|, k requires 0 <= k < |entries| && !entries[k].value.JNull? =>
      [Sanitize(entries[k].key)] + ValueCells(Entries(entries[k].value).value)))
  }

  /** The values of an entry, each converted to a string and sanitised. */
  function ValueCells(m: OMap<JsValue>): (r: seq<string>)
    ensures |r| == |m|
    ensures forall i :: 0 <= i < |m| ==> r[i] == Sanitize(ToJsString(m[i].value))
  {
    var values := Values(m);
    seq(|values|, i requires 0 <= i < |values| => Sanitize(ToJsString(values[i])))
  }

  /** Reading the table back by header: when an entry is an object with the
      first entry's keys in the same order, which is what the page expects
      of its input, the row starts with the entry's sanitised key, and the
      cell under header `j` holds the sanitised `String` of the entry's
      value stored under that header's key (with unique keys, `GetAt` reads
      that same value back by the key). */
  lemma JsonCellUnderHeader(entries: OMap<JsValue>, headers: seq<string>, rows: seq<seq<string>>, k: nat, j: nat, fields: OMap<JsValue>)
    requires JsonRows(entries) == Some(rows)
    requires k < |rows| && entries[k].value == JObject(fields)
    requires 1 <= j < |headers| && Keys(fields) == headers[1..]
    ensures rows[k][0] == Sanitize(entries[k].key)
    ensures j - 1 < |fields| && fields[j - 1].key == headers[j]
    ensures rows[k][j] == Sanitize(ToJsString(fields[j - 1].value))
  {
    KeyUnderHeader(headers, fields, j);
    CellOfRow(entries, rows, k, j, fields);
  }

  /** Header `j` is the entry's `j - 1`-th key. */
  lemma KeyUnderHeader<V>(headers: seq<string>, fields: OMap<V>, j: nat)
    requires 1 <= j < |headers| && Keys(fields) == headers[1..]
    ensures j - 1 < |fields| && headers[j] == fields[j - 1].key
  {
    AfterFirst(headers, j);
  }

  lemma AfterFirst<T>(s: seq<T>, j: nat)
    requires 1 <= j < |s|
    ensures |s[1..]| == |s| - 1 && s[1..][j - 1] == s[j]
  {
  }

  lemma CellOfRow(entries: OMap<JsValue>, rows: seq<seq<string>>, k: nat, j: nat, fields: OMap<JsValue>)
    requires JsonRows(entries) == Some(rows)
    requires k < |rows| && entries[k].value == JObject(fields) && 1 <= j <= |fields|
    ensures rows[k][0] == Sanitize(entries[k].key)
    ensures |rows[k]| == |fields| + 1 && rows[k][j] == Sanitize(ToJsString(fields[j - 1].value))
  {
    assert rows[k][1..] == ValueCells(fields);
    assert rows[k][j] == rows[k][1..][j - 1];
  }

  // ---------------------------------------------------------------------
  // Structural edits, as functions on the table value

  /** `insertColumn` past its checks: the header, `left` and an empty cell
      spliced in at `i` (appended to a row that is shorter). */
  function ColumnInserted(t: Table, i: nat, name: string): (r: Table)
    ensures |r.headers| == |t.headers| + 1 && |r.alignments| == |t.alignments| + 1 && |r.rows| == |t.rows|
    ensures i <= |t.headers| ==> r.headers[i] == Sanitize(name)
    ensures i <= |t.alignments| ==> r.alignments[i] == Left
    ensures forall k :: 0 <= k < |r.rows| ==> |r.rows[k]| == |t.rows[k]| + 1
  {
    Table(InsertAt(t.headers, i, Sanitize(name)), InsertAt(t.alignments, i, Left),
          seq(|t.rows|, k requires 0 <= k < |t.rows| => InsertAt(t.rows[k], i, "")))
  }

  /** The indices `deleteSelectedColumns` acts on: column 0, the row
      headers, is never deleted. */
  function DataColumns(selected: set<nat>): (r: set<nat>)
    ensures forall c :: c in r <==> c in selected && c > 0
  {
    set c | c in selected && c > 0
  }

  /** `deleteSelectedColumns` past its checks: the selected columns other
      than column 0 leave the headers, the alignments and every row; what
      remains keeps its order. */
  function ColumnsDeleted(t: Table, selected: set<nat>): (r: Table)
    ensures |r.rows| == |t.rows|
  {
    var drop := DataColumns(selected);
    Table(Without(t.headers, drop), Without(t.alignments, drop),
          seq(|t.rows|, k requires 0 <= k < |t.rows| => Without(t.rows[k], drop)))
  }

  /** Deleting the column just inserted gives the table back. */
  lemma DeleteInsertedColumn(t: Table, i: nat, name: string)
    requires 1 <= i <= |t.headers| && i <= |t.alignments|
    requires forall k :: 0 <= k < |t.rows| ==> i <= |t.rows[k]|
    ensures ColumnsDeleted(ColumnInserted(t, i, name), {i}) == t
  {
    var ins := ColumnInserted(t, i, name);
    var r := ColumnsDeleted(ins, {i});
    assert DataColumns({i}) == {i};
    WithoutInserted(t.headers, i, Sanitize(name));
    WithoutInserted(t.alignments, i, Left);
    assert r.headers == t.headers && r.alignments == t.alignments;
    forall k | 0 <= k < |t.rows| ensures r.rows[k] == t.rows[k] {
      assert ins.rows[k] == InsertAt(t.rows[k], i, "");
      WithoutInserted(t.rows[k], i, "");
    }
    assert r.rows == t.rows;
  }

  /** Removing the element just inserted gives the sequence back. */
  lemma WithoutInserted<T>(s: seq<T>, i: nat, x: T)
    requires i <= |s|
    ensures Without(InsertAt(s, i, x), {i}) == s
  {
    WithoutSingle(InsertAt(s, i, x), i);
    RemoveInserted(s, i, x);
  }

  /** Deleting columns keeps column 0 in place, in the headers and in every
      row, and removes exactly the selected columns that exist. */
  lemma ColumnsDeletedKeepsRowHeaders(t: Table, selected: set<nat>)
    ensures var r := ColumnsDeleted(t, selected);
      (t.headers != [] ==> r.headers != [] && r.headers[0] == t.headers[0]) &&
      (forall k :: 0 <= k < |t.rows| && t.rows[k] != [] ==> r.rows[k] != [] && r.rows[k][0] == t.rows[k][0])
    ensures |ColumnsDeleted(t, selected).headers| + |DroppedIn(DataColumns(selected), |t.headers|)| == |t.headers|
  {
    var drop := DataColumns(selected);
    if t.headers != [] {
      WithoutKeepsFirst(t.headers, drop);
    }
    forall k | 0 <= k < |t.rows| && t.rows[k] != []
      ensures Without(t.rows[k], drop) != [] && Without(t.rows[k], drop)[0] == t.rows[k][0]
    {
      WithoutKeepsFirst(t.rows[k], drop);
    }
    WithoutCount(t.headers, drop);
  }

  lemma {:induction false} WithoutKeepsFirst<T>(s: seq<T>, drop: set<int>)
    requires s != [] && 0 !in drop
    ensures Without(s, drop) != [] && Without(s, drop)[0] == s[0]
  {
    var n := |s| - 1;
    if n > 0 {
      WithoutKeepsFirst(s[..n], drop);
      assert s[..n][0] == s[0];
    } else {
      assert Without(s[..n], drop) == [];
    }
  }

  /** The row `insertRow` adds: as wide as the header, its first cell
      "New Row" when there is a header. */
  function NewRow(width: nat): (r: seq<string>)
    ensures |r| == width
    ensures width > 0 ==> r[0] == NewRowHeader
    ensures forall j :: 1 <= j < width ==> r[j] == ""
  {
    if width == 0 then [] else [NewRowHeader] + seq(width - 1, _ => "")
  }

  /** `deleteSelectedRows` past its checks. */
  function RowsDeleted(t: Table, selected: set<nat>): (r: Table)
    ensures r.headers == t.headers && r.alignments == t.alignments
  {
    Table(t.headers, t.alignments, Without(t.rows, selected))
  }

  /** Deleting rows removes exactly the selected rows that exist. */
  lemma RowsDeletedCount(t: Table, selected: set<nat>)
    ensures |RowsDeleted(t, selected).rows| + |DroppedIn(selected, |t.rows|)| == |t.rows|
  {
    WithoutCount(t.rows, selected);
  }

  /** Deleting the row `insertRow` put at position `i` gives the rows back. */
  lemma DeleteInsertedRow(t: Table, i: nat)
    requires 1 <= i <= |t.rows| + 1
    ensures RowsDeleted(Table(t.headers, t.alignments, InsertAt(t.rows, i - 1, NewRow(|t.headers|))), {i - 1}) == t
  {
    var rows := InsertAt(t.rows, i - 1, NewRow(|t.headers|));
    WithoutSingle(rows, i - 1);
    RemoveInserted(t.rows, i - 1, NewRow(|t.headers|));
  }

  // ---------------------------------------------------------------------
  // The header checkboxes behind `deleteSelectedColumns`

  /** As written: the checked header checkboxes in document order (the
      select-all box, when checked, then the checked column boxes by column
      index) with the first one dropped by `.slice(1)`, on the assumption
      that it is the select-all box. */
  function CollectedColumnsAsWritten(selectAll: bool, checkedColumns: seq<nat>): (r: seq<nat>)
    ensures selectAll ==> r == checkedColumns
    ensures !selectAll && checkedColumns != [] ==> r == checkedColumns[1..]
    ensures !selectAll && checkedColumns == [] ==> r == []
  {
    var boxes: seq<Option<nat>> := (if selectAll then [None] else []) +
      seq(|checkedColumns|, i requires 0 <= i < |checkedColumns| => Some(checkedColumns[i]));
    var kept := if boxes == [] then [] else boxes[1..];
    assert forall i :: 0 <= i < |kept| ==> kept[i].Some?;
    seq(|kept|, i requires 0 <= i < |kept| && kept[i].Some? => kept[i].value)
  }

  /** With select-all unchecked, the first checked column is lost: checking
      columns 2 and 3 deletes only column 3, and checking column 2 alone
      reports that no column is selected. */
  lemma SliceDropsFirstCheckedColumn()
    ensures CollectedColumnsAsWritten(false, [2, 3]) == [3]
    ensures CollectedColumnsAsWritten(false, [2]) == []
    ensures var t := Table([" ", "a", "b", "c"], [Left, Left, Left, Left], []);
      ColumnsDeleted(t, {3}).headers == [" ", "a", "b"]
  {
    var t := Table([" ", "a", "b", "c"], [Left, Left, Left, Left], []);
    assert DataColumns({3}) == {3};
    WithoutSingle(t.headers, 3);
  }

  /** Corrected: the checked column boxes, whatever the select-all box says. */
  function CollectedColumns(selectAll: bool, checkedColumns: seq<nat>): (r: seq<nat>)
    ensures forall c :: c in r <==> c in checkedColumns
  {
    checkedColumns
  }

  /** With the corrected collection, every checked column other than the
      row-header column is deleted and every other column stays. */
  lemma CheckedColumnsAllDeleted(t: Table, selectAll: bool, checkedColumns: seq<nat>)
    ensures var selected := set c | c in CollectedColumns(selectAll, checkedColumns);
      |ColumnsDeleted(t, selected).headers| + |DroppedIn(DataColumns(set c | c in checkedColumns), |t.headers|)| == |t.headers|
  {
    var selected := set c | c in CollectedColumns(selectAll, checkedColumns);
    assert selected == set c | c in checkedColumns;
    ColumnsDeletedKeepsRowHeaders(t, selected);
  }

  // ---------------------------------------------------------------------
  // Output

  /** `slice(1)`. */
  function Tail<T>(s: seq<T>): (r: seq<T>)
    ensures s != [] ==> r == s[1..]
    ensures s == [] ==> r == []
  {
    if s == [] then [] else s[1..]
  }

  function TailRows(rows: seq<seq<string>>): (r: seq<seq<string>>)
    ensures |r| == |rows|
    ensures forall k :: 0 <= k < |r| ==> r[k] == Tail(rows[k])
  {
    seq(|rows|, k requires 0 <= k < |rows| => Tail(rows[k]))
  }

  /** `generateMarkdown`: empty without a data column or without rows;
      otherwise the header, separator and row lines of every column but the
      row-header column. */
  function MarkdownOutput(t: Table): (r: string)
    ensures |t.headers| <= 1 || t.rows == [] ==> r == ""
  {
    if |t.headers| <= 1 || t.rows == [] then ""
    else
      var header := RowLine(Tail(t.headers));
      var separator := RowLine(Markers(Tail(t.alignments)));
      Join([header, separator, Join(RowLines(TailRows(t.rows)), "\n")], "\n")
  }

  /** A table whose output the markdown reader gives back: a data column,
      some rows, and every cell past the row-header column non-empty and
      plain. */
  predicate LooseTable(t: Table)
  {
    |t.headers| >= 2 && t.rows != [] &&
    (forall i :: 1 <= i < |t.headers| ==> IsLooseCell(t.headers[i])) &&
    (forall k, j :: 0 <= k < |t.rows| && 1 <= j < |t.rows[k]| ==> IsLooseCell(t.rows[k][j]))
  }

  /** The lines of the markdown output. */
  function OutputLines(t: Table): (r: seq<string>)
    ensures |r| == 2 + |t.rows|
  {
    [RowLine(Tail(t.headers)), RowLine(Markers(Tail(t.alignments)))] + RowLines(TailRows(t.rows))
  }

  lemma {:induction false} MarkdownOutputLines(t: Table)
    requires |t.headers| >= 2 && t.rows != []
    ensures MarkdownOutput(t) == Join(OutputLines(t), "\n")
  {
    var header := RowLine(Tail(t.headers));
    var separator := RowLine(Markers(Tail(t.alignments)));
    var lines := RowLines(TailRows(t.rows));
    var rows := Join(lines, "\n");
    JoinConcat([header, separator], lines, "\n");
    JoinAppend([header, separator], rows, "\n");
    assert [header, separator] + [rows] == [header, separator, rows];
  }

  /** Reading the markdown output back gives the table without its
      row-header column. */
  lemma {:induction false} MarkdownOutputReadBack(t: Table)
    requires LooseTable(t)
    ensures ParsedMarkdown(Trim(MarkdownOutput(t))) == Ok(Table(Tail(t.headers), Tail(t.alignments), TailRows(t.rows)))
  {
    OutputIsTrimmed(t);
    OutputParses(t);
  }

  lemma {:induction false} OutputParses(t: Table)
    requires LooseTable(t)
    ensures ParsedMarkdown(MarkdownOutput(t)) == Ok(Table(Tail(t.headers), Tail(t.alignments), TailRows(t.rows)))
  {
    OutputSplits(t);
    ParsedMarkdownOfLines(MarkdownOutput(t), OutputLines(t));
    LinesReadBack(t);
  }

  lemma {:induction false} LinesReadBack(t: Table)
    requires LooseTable(t)
    ensures var lines := OutputLines(t);
      Table(CleanCells(lines[0]), ClassifyAll(Cells(lines[1])),
            seq(|lines| - 2, i requires 0 <= i < |lines| - 2 => CleanCells(lines[i + 2])))
      == Table(Tail(t.headers), Tail(t.alignments), TailRows(t.rows))
  {
    HeaderLineCells(t);
    SeparatorLineCells(t);
    RowLinesReadBack(t);
  }

  lemma {:induction false} RowLinesReadBack(t: Table)
    requires LooseTable(t)
    ensures var lines := OutputLines(t);
      seq(|lines| - 2, i requires 0 <= i < |lines| - 2 => CleanCells(lines[i + 2])) == TailRows(t.rows)
  {
    var lines := OutputLines(t);
    var rows := seq(|lines| - 2, i requires 0 <= i < |lines| - 2 => CleanCells(lines[i + 2]));
    var tails := TailRows(t.rows);
    assert |rows| == |tails|;
    forall k | 0 <= k < |rows| ensures rows[k] == tails[k] {
      assert rows[k] == CleanCells(lines[k + 2]);
      RowLineCells(t, k);
    }
  }

  lemma {:induction false} ParsedMarkdownOfLines(text: string, lines: seq<string>)
    requires Split(text, '\n') == lines && |lines| >= 2
    ensures ParsedMarkdown(text) == Ok(Table(CleanCells(lines[0]), ClassifyAll(Cells(lines[1])),
      seq(|lines| - 2, i requires 0 <= i < |lines| - 2 => CleanCells(lines[i + 2]))))
  {
  }

  lemma {:induction false} OutputIsTrimmed(t: Table)
    requires |t.headers| >= 2 && t.rows != []
    ensures Trim(MarkdownOutput(t)) == MarkdownOutput(t)
  {
    var lines := OutputLines(t);
    MarkdownOutputLines(t);
    assert lines[|lines| - 1] == RowLine(Tail(t.rows[|t.rows| - 1]));
    PipeLinesTrimmed(lines, "\n");
  }

  lemma {:induction false} OutputSplits(t: Table)
    requires LooseTable(t)
    ensures Split(MarkdownOutput(t), '\n') == OutputLines(t)
  {
    MarkdownOutputLines(t);
    OutputLinesShape(t);
    SplitJoin(OutputLines(t), '\n');
  }

  lemma {:induction false} OutputLinesShape(t: Table)
    requires LooseTable(t)
    ensures forall i :: 0 <= i < |OutputLines(t)| ==> '\n' !in OutputLines(t)[i]
  {
    var lines := OutputLines(t);
    forall i | 0 <= i < |lines| ensures '\n' !in lines[i] {
      if i == 0 {
        RowLineShape(Tail(t.headers));
      } else if i == 1 {
        RowLineShape(Markers(Tail(t.alignments)));
      } else {
        assert lines[i] == RowLine(Tail(t.rows[i - 2]));
        RowLineShape(Tail(t.rows[i - 2]));
      }
    }
  }

  lemma {:induction false} HeaderLineCells(t: Table)
    requires LooseTable(t)
    ensures CleanCells(OutputLines(t)[0]) == Tail(t.headers)
  {
    var cells := Tail(t.headers);
    CellsOfRowLine(cells);
    forall i | 0 <= i < |cells| ensures Sanitize(cells[i]) == cells[i] {
      assert IsLooseCell(t.headers[i + 1]);
    }
  }

  lemma {:induction false} SeparatorLineCells(t: Table)
    requires LooseTable(t)
    ensures ClassifyAll(Cells(OutputLines(t)[1])) == Tail(t.alignments)
  {
    var markers := Markers(Tail(t.alignments));
    assert forall i :: 0 <= i < |markers| ==> IsLooseCell(markers[i]);
    CellsOfRowLine(markers);
    ClassifyMarkers(Tail(t.alignments));
  }

  lemma {:induction false} RowLineCells(t: Table, k: nat)
    requires LooseTable(t) && k < |t.rows|
    ensures CleanCells(OutputLines(t)[k + 2]) == Tail(t.rows[k])
  {
    var cells := Tail(t.rows[k]);
    assert OutputLines(t)[k + 2] == RowLine(cells);
    CellsOfRowLine(cells);
    forall i | 0 <= i < |cells| ensures Sanitize(cells[i]) == cells[i] {
      assert IsLooseCell(t.rows[k][i + 1]);
    }
  }

  /** `row[0]` as a property name: a row without cells is filed under
      "undefined". */
  function RowKey(row: seq<string>): (r: string)
    ensures row != [] ==> r == row[0]
  {
    if row == [] then "undefined" else row[0]
  }

  /** A property value of a row object: a cell, or `undefined` for a cell
      the row does not have (which `JSON.stringify` leaves out). */
  datatype JsonCell = Text(text: string) | Undefined

  /** `row[i]`. */
  function CellAt(row: seq<string>, i: nat): (r: JsonCell)
    ensures r.Text? <==> i < |row|
    ensures i < |row| ==> r == Text(row[i])
  {
    if i < |row| then Text(row[i]) else Undefined
  }

  /** The assignments of the column loop for one row:
      `rowData[headers[i]] = row[i]` for every data column `i`. */
  function ColumnAssignments(headers: seq<string>, row: seq<string>): (r: seq<Entry<JsonCell>>)
    ensures |r| == if headers == [] then 0 else |headers| - 1
    ensures forall j :: 0 <= j < |r| ==> r[j] == Entry(headers[j + 1], CellAt(row, j + 1))
  {
    if headers == [] then []
    else seq(|headers| - 1, j requires 0 <= j < |headers| - 1 => Entry(headers[j + 1], CellAt(row, j + 1)))
  }

  /** The object of one row. */
  function RowObject(headers: seq<string>, row: seq<string>): OMap<JsonCell>
  {
    Assigned(ColumnAssignments(headers, row))
  }

  /** Under each header of a data column is the cell of the last column
      with that header; there are no other properties. */
  lemma RowObjectContents(headers: seq<string>, row: seq<string>, i: nat, name: string)
    requires 1 <= i < |headers|
    requires forall j :: i < j < |headers| ==> headers[j] != headers[i]
    ensures Get(RowObject(headers, row), headers[i]) == Some(CellAt(row, i))
    ensures HasKey(RowObject(headers, row), name) <==> exists j :: 1 <= j < |headers| && headers[j] == name
  {
    var entries := ColumnAssignments(headers, row);
    AssignedLastWins(entries, i - 1);
    AssignedKeys(entries, name);
    if exists j :: 1 <= j < |headers| && headers[j] == name {
      var j :| 1 <= j < |headers| && headers[j] == name;
      assert entries[j - 1].key == name;
    }
    if Assigns(entries, name) {
      var j :| 0 <= j < |entries| && entries[j].key == name;
      assert headers[j + 1] == name;
    }
  }

  /** The assignments of the row loop: `jsonOutput[row[0]] = rowData`. */
  function RowAssignments(headers: seq<string>, rows: seq<seq<string>>): (r: seq<Entry<OMap<JsonCell>>>)
    ensures |r| == |rows|
    ensures forall k :: 0 <= k < |r| ==> r[k] == Entry(RowKey(rows[k]), RowObject(headers, rows[k]))
  {
    seq(|rows|, k requires 0 <= k < |rows| => Entry(RowKey(rows[k]), RowObject(headers, rows[k])))
  }

  /** The JSON object for `rows`: each row filed under its key, a later row
      with the same key replacing the earlier one in place. */
  function JsonObject(headers: seq<string>, rows: seq<seq<string>>): OMap<OMap<JsonCell>>
  {
    Assigned(RowAssignments(headers, rows))
  }

  /** Every row is in the output under its key with its own object, unless
      a later row has the same key. */
  lemma JsonObjectLastRowWins(headers: seq<string>, rows: seq<seq<string>>, k: nat)
    requires k < |rows|
    requires forall j :: k < j < |rows| ==> RowKey(rows[j]) != RowKey(rows[k])
    ensures Get(JsonObject(headers, rows), RowKey(rows[k])) == Some(RowObject(headers, rows[k]))
  {
    AssignedLastWins(RowAssignments(headers, rows), k);
  }

  /** The properties of the output are exactly the keys of the rows. */
  lemma JsonObjectKeys(headers: seq<string>, rows: seq<seq<string>>, name: string)
    ensures HasKey(JsonObject(headers, rows), name) <==> exists j :: 0 <= j < |rows| && RowKey(rows[j]) == name
  {
    var entries := RowAssignments(headers, rows);
    AssignedKeys(entries, name);
    if exists j :: 0 <= j < |rows| && RowKey(rows[j]) == name {
      var j :| 0 <= j < |rows| && RowKey(rows[j]) == name;
      assert entries[j].key == name;
    }
    if Assigns(entries, name) {
      var j :| 0 <= j < |entries| && entries[j].key == name;
      assert RowKey(rows[j]) == name;
    }
  }

  /** `generateJson` before `JSON.stringify`: nothing (the empty output)
      without a data column or without rows. */
  method GenerateJson(t: Table) returns (r: Option<OMap<OMap<JsonCell>>>)
    ensures r.None? <==> |t.headers| <= 1 || t.rows == []
    ensures r.Some? ==> r.value == JsonObject(t.headers, t.rows)
  {
    if |t.headers| <= 1 || |t.rows| == 0 {
      return None;
    }
    var jsonOutput: OMap<OMap<JsonCell>> := [];
    ghost var assignments := RowAssignments(t.headers, t.rows);
    var k := 0;
    while k < |t.rows|
      invariant 0 <= k <= |t.rows|
      invariant jsonOutput == Assigned(assignments[..k])
    {
      var row := t.rows[k];
      var rowData := BuildRowObject(t.headers, row);
      AssignedStep(assignments, k);
      jsonOutput := Set(jsonOutput, RowKey(row), rowData);
      k := k + 1;
    }
    assert assignments[..k] == assignments;
    return Some(jsonOutput);
  }

  /** The column loop of `generateJson` for one row. */
  method BuildRowObject(headers: seq<string>, row: seq<string>) returns (rowData: OMap<JsonCell>)
    requires |headers| >= 1
    ensures rowData == RowObject(headers, row)
  {
    rowData := [];
    ghost var assignments := ColumnAssignments(headers, row);
    var i := 1;
    while i < |headers|
      invariant 1 <= i <= |headers|
      invariant rowData == Assigned(assignments[..i - 1])
    {
      AssignedStep(assignments, i - 1);
      rowData := Set(rowData, headers[i], CellAt(row, i));
      i := i + 1;
    }
    assert assignments[..i - 1] == assignments;
  }

  /** `analyzeTableData`: no summary without a data column or without
      rows; otherwise the same summary row as the markdown editor's
      analyzer. */
  method AnalyzeTableData(t: Table) returns (summary: Option<string>)
    ensures summary.None? <==> t.rows == [] || |t.headers| <= 1
    ensures summary.Some? ==> summary.value == RowLine(AnalysisCells(t.rows, |t.headers|))
  {
    if |t.rows| == 0 || |t.headers| <= 1 {
      return None;
    }
    var text := Analyze(t);
    return Some(text);
  }

  // ---------------------------------------------------------------------
  // The editor state

  datatype InputKind = MarkdownKind | JsonKind

  /** `tableData`, which every action edits in place. */
  class TableData {
    var headers: seq<string>
    var rows: seq<seq<string>>
    var alignments: seq<Alignment>

    function Current(): Table
      reads this
    {
      Table(headers, alignments, rows)
    }

    constructor()
      ensures Current() == Table([], [], [])
    {
      headers := [];
      rows := [];
      alignments := [];
    }

    /** `parseMarkdownTable` on the trimmed input. */
    method ParseMarkdownTable(text: string) returns (error: Option<string>)
      modifies this
      ensures ParsedMarkdown(text).Err? ==> error == Some(ShortMarkdown) && Current() == old(Current())
      ensures ParsedMarkdown(text).Ok? ==> error == None && Current() == ParsedMarkdown(text).value
    {
      var parsed := ParsedMarkdown(text);
      if parsed.Err? {
        return Some(parsed.message);
      }
      headers := parsed.value.headers;
      alignments := parsed.value.alignments;
      rows := parsed.value.rows;
      return None;
    }

    /** `parseJsonTable` on the value `JSON.parse` produced. The headers and
        alignments are stored before the rows are built, so a `null` entry
        after the first leaves new headers over the old rows. */
    method ParseJsonTable(v: JsValue) returns (error: Option<string>)
      modifies this
      ensures JsonHeaders(v).Err? ==> error == Some(JsonHeaders(v).message) && Current() == old(Current())
      ensures JsonHeaders(v).Ok? ==>
        headers == JsonHeaders(v).value &&
        |alignments| == |headers| && (forall i :: 0 <= i < |alignments| ==> alignments[i] == Left) &&
        match JsonRows(Entries(v).value)
        case None => error == Some(JsonErrorPrefix + NullEntry) && rows == old(rows)
        case Some(r) => error == None && rows == r
    {
      var h := JsonHeaders(v);
      if h.Err? {
        return Some(h.message);
      }
      headers := h.value;
      alignments := seq(|headers|, _ => Left);
      var r := JsonRows(Entries(v).value);
      if r.None? {
        return Some(JsonErrorPrefix + NullEntry);
      }
      rows := r.value;
      return None;
    }

    /** `parseTable`: blank input is refused; otherwise the trimmed input is
        read as the chosen kind. `json` is what `JSON.parse` makes of the
        trimmed input, an error message when it throws. */
    method ParseTable(input: string, kind: InputKind, json: Result<JsValue>) returns (error: Option<string>)
      modifies this
      ensures IsBlank(input) ==> error.Some? && Current() == old(Current())
      ensures !IsBlank(input) && kind == MarkdownKind && ParsedMarkdown(Trim(input)).Ok? ==>
        error == None && Current() == ParsedMarkdown(Trim(input)).value
      ensures !IsBlank(input) && kind == JsonKind && json.Err? ==>
        error == Some(JsonErrorPrefix + json.message) && Current() == old(Current())
    {
      BlankIffTrimEmpty(input);
      var inputText := Trim(input);
      if inputText == [] {
        return Some(if kind == MarkdownKind then EmptyMarkdownInput else EmptyJsonInput);
      }
      if kind == MarkdownKind {
        error := ParseMarkdownTable(inputText);
      } else if json.Err? {
        error := Some(JsonErrorPrefix + json.message);
      } else {
        error := ParseJsonTable(json.value);
      }
    }

    /** `insertColumn`: `colIndex` is the parsed answer to the first prompt
        (`None` when it is not a number) and `headerName` the answer to the
        second (`None` when cancelled). */
    method InsertColumn(colIndex: Option<int>, headerName: Option<string>) returns (error: Option<string>)
      modifies this
      ensures error.Some? <==> colIndex.None? || colIndex.value < 1 || colIndex.value > |old(headers)|
      ensures error.Some? ==> error.value == InvalidColumnIndex
      ensures error.Some? || headerName.None? ==> Current() == old(Current())
      ensures error.None? && headerName.Some? ==>
        Current() == ColumnInserted(old(Current()), colIndex.value, headerName.value)
    {
      if colIndex.None? || colIndex.value < 1 || colIndex.value > |headers| {
        return Some(InvalidColumnIndex);
      }
      if headerName.None? {
        return None;
      }
      var index: nat := colIndex.value;
      headers := InsertAt(headers, index, Sanitize(headerName.value));
      alignments := InsertAt(alignments, index, Left);
      rows := InsertAtEach(rows, index, "");
      return None;
    }

    /** `insertRow`: `rowIndex` is the parsed, 1-based answer to the prompt. */
    method InsertRow(rowIndex: Option<int>) returns (error: Option<string>)
      modifies this
      ensures error.Some? <==> rowIndex.None? || rowIndex.value < 1 || rowIndex.value > |old(rows)| + 1
      ensures error.Some? ==> error.value == InvalidRowIndex && Current() == old(Current())
      ensures error.None? ==>
        (headers == old(headers) && alignments == old(alignments) &&
         rows == InsertAt(old(rows), rowIndex.value - 1, NewRow(|headers|)))
    {
      if rowIndex.None? || rowIndex.value < 1 || rowIndex.value > |rows| + 1 {
        return Some(InvalidRowIndex);
      }
      var newRow := seq(|headers|, _ => "");
      if |headers| > 0 {
        newRow := newRow[0 := NewRowHeader];
      }
      assert newRow == NewRow(|headers|);
      rows := InsertAt(rows, rowIndex.value - 1, newRow);
      return None;
    }

    /** `deleteSelectedColumns` once the user has answered the confirmation
        (`confirmed`) and the selected column indices are collected. */
    method DeleteSelectedColumns(confirmed: bool, selected: set<nat>) returns (error: Option<string>)
      modifies this
      ensures !confirmed || selected == {} ==> Current() == old(Current())
      ensures error.Some? <==> confirmed && selected == {}
      ensures error.Some? ==> error.value == NoColumnsSelected
      ensures confirmed && selected != {} ==> Current() == ColumnsDeleted(old(Current()), selected)
    {
      if !confirmed {
        return None;
      }
      if selected == {} {
        return Some(NoColumnsSelected);
      }
      var drop := DataColumns(selected);
      headers := RemoveDescending(headers, drop);
      alignments := RemoveDescending(alignments, drop);
      rows := RemoveDescendingEach(rows, drop);
      return None;
    }

    /** The whole column-deletion action as written, from the state of the
        header checkboxes. */
    method DeleteCheckedColumns(confirmed: bool, selectAll: bool, checkedColumns: seq<nat>) returns (error: Option<string>)
      modifies this
      ensures var selected := set c | c in CollectedColumnsAsWritten(selectAll, checkedColumns);
        (error.Some? <==> confirmed && selected == {}) &&
        (confirmed && selected != {} ==> Current() == ColumnsDeleted(old(Current()), selected)) &&
        (!confirmed || selected == {} ==> Current() == old(Current()))
    {
      var collected := CollectedColumnsAsWritten(selectAll, checkedColumns);
      var selected := set c | c in collected;
      if confirmed && collected != [] {
        assert collected[0] in selected;
      }
      error := DeleteSelectedColumns(confirmed, selected);
    }

    method DeleteSelectedRows(confirmed: bool, selected: set<nat>) returns (error: Option<string>)
      modifies this
      ensures !confirmed || selected == {} ==> Current() == old(Current())
      ensures error.Some? <==> confirmed && selected == {}
      ensures error.Some? ==> error.value == NoRowsSelected
      ensures confirmed && selected != {} ==> Current() == RowsDeleted(old(Current()), selected)
    {
      if !confirmed {
        return None;
      }
      if selected == {} {
        return Some(NoRowsSelected);
      }
      rows := RemoveDescending(rows, selected);
      return None;
    }

    /** `sortRows`: the rows ordered by their lower-cased first cell, the
        same rows each as often as before. */
    method SortTableRows() returns (error: Option<string>)
      modifies this
      ensures error.Some? <==> old(rows) == []
      ensures error.Some? ==> error.value == NoRowsToSort
      ensures headers == old(headers) && alignments == old(alignments)
      ensures SortedByKey(rows) && multiset(rows) == multiset(old(rows))
      ensures StableOf(rows, old(rows))
    {
      if |rows| == 0 {
        return Some(NoRowsToSort);
      }
      rows := SortRows(rows);
      return None;
    }

    /** `reorderColumns`, for a column every array has. */
    method ReorderColumns(from: nat, to: nat)
      requires from < |headers| && from < |alignments|
      requires forall k :: 0 <= k < |rows| ==> from < |rows[k]|
      modifies this
      ensures headers == Move(old(headers), from, to) && alignments == Move(old(alignments), from, to)
      ensures |rows| == |old(rows)| && forall k :: 0 <= k < |rows| ==> rows[k] == Move(old(rows)[k], from, to)
    {
      headers := Move(headers, from, to);
      alignments := Move(alignments, from, to);
      rows := MoveInEach(rows, from, to);
    }

    method ReorderRows(from: nat, to: nat)
      requires from < |rows|
      modifies this
      ensures headers == old(headers) && alignments == old(alignments)
      ensures rows == Move(old(rows), from, to)
    {
      rows := Move(rows, from, to);
    }

    /** `clearAll`, when the user confirms. */
    method ClearAll(confirmed: bool)
      modifies this
      ensures confirmed ==> Current() == Table([], [], [])
      ensures !confirmed ==> Current() == old(Current())
    {
      if confirmed {
        headers := [];
        rows := [];
        alignments := [];
      }
    }
  }
}
