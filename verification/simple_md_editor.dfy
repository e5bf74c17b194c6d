/** The plain markdown table editor (md-table-editor/app.js): a table read
    from markdown with the loose splitter, grown and shrunk at its right and
    bottom edges, and written back as markdown. */
module SimpleMdEditor {
  import opened Text
  import opened Wrappers
  import opened Splice
  import opened MarkdownSyntax
  import opened MdTableEditor
  import opened LooseRows

  const BlankInput := "Please enter a markdown table"
  const InvalidFormat := "Invalid table format"
  const LastColumn := "Cannot remove last column"
  const LastRow := "Cannot remove last row"
  const AddedColumnTitle := "New Column"

  /** This file's `sanitizeInput`, which writes `'` as `&#039;`. */
  function Escape(s: string): (r: string)
    ensures NoMarkup(r)
    ensures NoMarkup(s) ==> r == s
  {
    var r := EscapeMarkup(s, "&#039;");
    if NoMarkup(s) then EscapeMarkupOfPlain(s, "&#039;"); r else r
  }

  /** The kept cells of a line, trimmed and escaped. */
  function EscapedCells(line: string): (r: seq<string>)
    ensures |r| == |Cells(line)|
    ensures forall i :: 0 <= i < |r| ==> r[i] == Escape(Cells(line)[i])
  {
    seq(|Cells(line)|, i requires 0 <= i < |Cells(line)| => Escape(Cells(line)[i]))
  }

  /** `parseTable`: blank input and input of fewer than three lines (after
      trimming) are refused; otherwise the first line gives the headers, the
      second the alignments and every further line a row, each keeping only
      its non-blank cells. */
  function Parsed(input: string): (r: Result<Table>)
    ensures IsBlank(input) ==> r == Err(BlankInput)
    ensures !IsBlank(input) && |Split(Trim(input), '\n')| < 3 ==> r == Err(InvalidFormat)
    ensures r.Ok? ==> |Split(Trim(input), '\n')| >= 3 && |r.value.rows| == |Split(Trim(input), '\n')| - 2
    ensures r.Ok? ==> forall i :: 0 <= i < |r.value.headers| ==> NoMarkup(r.value.headers[i])
    ensures r.Ok? ==> r.value.headers == EscapedCells(Split(Trim(input), '\n')[0])
    ensures r.Ok? ==> r.value.alignments == ClassifyAll(Cells(Split(Trim(input), '\n')[1]))
    ensures r.Ok? ==> forall i :: 0 <= i < |r.value.rows| ==> r.value.rows[i] == EscapedCells(Split(Trim(input), '\n')[i + 2])
  {
    if IsBlank(input) then Err(BlankInput)
    else
      var lines := Split(Trim(input), '\n');
      if |lines| < 3 then Err(InvalidFormat)
      else
        Ok(TableOfLines(lines))
  }

  /** The table read from at least three lines. */
  function TableOfLines(lines: seq<string>): (t: Table)
    requires |lines| >= 3
    ensures t.headers == EscapedCells(lines[0]) && t.alignments == ClassifyAll(Cells(lines[1]))
    ensures |t.rows| == |lines| - 2 && forall i :: 0 <= i < |t.rows| ==> t.rows[i] == EscapedCells(lines[i + 2])
  {
    Table(EscapedCells(lines[0]), ClassifyAll(Cells(lines[1])),
          seq(|lines| - 2, i requires 0 <= i < |lines| - 2 => EscapedCells(lines[i + 2])))
  }

  /** `generateMarkdown`: the header line, the separator line and one line
      per row. */
  function Markdown(t: Table): string
  {
    Join(MarkdownLines(t), "\n")
  }

  function MarkdownLines(t: Table): (r: seq<string>)
    ensures |r| == 2 + |t.rows|
    ensures r[0] == RowLine(t.headers) && r[1] == RowLine(Markers(t.alignments))
    ensures forall k :: 0 <= k < |t.rows| ==> r[k + 2] == RowLine(t.rows[k])
  {
    [RowLine(t.headers), RowLine(Markers(t.alignments))] + RowLines(t.rows)
  }

  /** No cell holds a line break. */
  predicate SingleLineCells(t: Table)
  {
    (forall i :: 0 <= i < |t.headers| ==> '\n' !in t.headers[i]) &&
    (forall k, j :: 0 <= k < |t.rows| && 0 <= j < |t.rows[k]| ==> '\n' !in t.rows[k][j])
  }

  /** The output has exactly two lines more than the table has rows, the
      second being the markers of the alignments. */
  lemma MarkdownLineCount(t: Table)
    requires SingleLineCells(t)
    ensures |Split(Markdown(t), '\n')| == 2 + |t.rows|
    ensures Split(Markdown(t), '\n')[1] == RowLine(Markers(t.alignments))
  {
    SplitOutput(t);
  }

  /** Splitting the output at line breaks gives its lines. */
  lemma SplitOutput(t: Table)
    requires SingleLineCells(t)
    ensures Split(Markdown(t), '\n') == MarkdownLines(t)
  {
    var lines := MarkdownLines(t);
    forall k | 0 <= k < |lines| ensures '\n' !in lines[k] {
      if k == 0 {
        JoinChars(t.headers, " | ", '\n');
      } else if k == 1 {
        var markers := Markers(t.alignments);
        assert forall i :: 0 <= i < |markers| ==> IsPlainCell(markers[i]);
        JoinChars(markers, " | ", '\n');
      } else {
        var row := t.rows[k - 2];
        assert forall j :: 0 <= j < |row| ==> '\n' !in row[j];
        JoinChars(row, " | ", '\n');
      }
    }
    SplitJoin(lines, '\n');
  }

  /** A table the editor writes out and reads back unchanged: at least one
      row, and every header and cell non-empty and plain. */
  predicate Readable(t: Table)
  {
    t.rows != [] &&
    (forall i :: 0 <= i < |t.headers| ==> IsLooseCell(t.headers[i])) &&
    (forall k, j :: 0 <= k < |t.rows| && 0 <= j < |t.rows[k]| ==> IsLooseCell(t.rows[k][j]))
  }

  /** Parsing the output gives the table back. */
  lemma MarkdownReadBack(t: Table)
    requires Readable(t)
    ensures Parsed(Markdown(t)) == Ok(t)
  {
    OutputTrimmed(t);
    ReadableIsSingleLine(t);
    SplitOutput(t);
    ReadBackLines(t);
  }

  lemma ReadableIsSingleLine(t: Table)
    requires Readable(t)
    ensures SingleLineCells(t)
  {
    forall k, j | 0 <= k < |t.rows| && 0 <= j < |t.rows[k]| ensures '\n' !in t.rows[k][j] {
      assert IsLooseCell(t.rows[k][j]);
    }
  }

  lemma OutputTrimmed(t: Table)
    requires t.rows != []
    ensures Trim(Markdown(t)) == Markdown(t) && !IsBlank(Markdown(t))
  {
    var lines := MarkdownLines(t);
    assert lines[|lines| - 1] == RowLine(t.rows[|t.rows| - 1]);
    PipeLinesTrimmed(lines, "\n");
  }

  lemma ReadBackLines(t: Table)
    requires Readable(t)
    ensures var lines := MarkdownLines(t);
      EscapedCells(lines[0]) == t.headers &&
      ClassifyAll(Cells(lines[1])) == t.alignments &&
      seq(|lines| - 2, i requires 0 <= i < |lines| - 2 => EscapedCells(lines[i + 2])) == t.rows
  {
    CellsOfRowLine(t.headers);
    SeparatorReadBack(t.alignments);
    RowsReadBack(t);
  }

  lemma SeparatorReadBack(alignments: seq<Alignment>)
    ensures ClassifyAll(Cells(RowLine(Markers(alignments)))) == alignments
  {
    var markers := Markers(alignments);
    assert forall i :: 0 <= i < |markers| ==> IsLooseCell(markers[i]);
    CellsOfRowLine(markers);
    ClassifyMarkers(alignments);
  }

  lemma RowsReadBack(t: Table)
    requires Readable(t)
    ensures var lines := MarkdownLines(t);
      seq(|lines| - 2, i requires 0 <= i < |lines| - 2 => EscapedCells(lines[i + 2])) == t.rows
  {
    var lines := MarkdownLines(t);
    var rows := seq(|lines| - 2, i requires 0 <= i < |lines| - 2 => EscapedCells(lines[i + 2]));
    forall k | 0 <= k < |t.rows| ensures rows[k] == t.rows[k] {
      RowReadBack(t, k);
    }
  }

  lemma RowReadBack(t: Table, k: nat)
    requires Readable(t) && k < |t.rows|
    ensures EscapedCells(RowLine(t.rows[k])) == t.rows[k]
  {
    var row := t.rows[k];
    assert forall j :: 0 <= j < |row| ==> IsLooseCell(row[j]);
    CellsOfRowLine(row);
  }

  /** A table without rows is written as two lines, which the editor does
      not read back. */
  lemma HeaderOnlyNotReadBack(t: Table)
    requires t.rows == [] && SingleLineCells(t)
    ensures Parsed(Markdown(t)).Err?
  {
    MarkdownLineCount(t);
    var lines := MarkdownLines(t);
    JoinHead(lines, "\n");
    JoinLast(lines, "\n");
    TrimOfTrimmed(Markdown(t));
  }

  // ---------------------------------------------------------------------
  // Edits at the right and bottom edges

  /** `addColumn`. */
  function ColumnAdded(t: Table): (r: Table)
    ensures |r.headers| == |t.headers| + 1 && r.headers[|t.headers|] == AddedColumnTitle
    ensures |r.rows| == |t.rows|
    ensures IsRectangular(t) ==> IsRectangular(r)
  {
    Table(t.headers + [AddedColumnTitle], t.alignments + [Left],
          seq(|t.rows|, k requires 0 <= k < |t.rows| => t.rows[k] + [""]))
  }

  /** `removeColumn` past its check: `pop` on headers, alignments and every
      row (a no-op on an empty one). */
  function LastColumnRemoved(t: Table): (r: Table)
    ensures |r.rows| == |t.rows|
    ensures IsRectangular(t) && t.headers != [] ==> IsRectangular(r) && |r.headers| == |t.headers| - 1
  {
    Table(DropLast(t.headers), DropLast(t.alignments),
          seq(|t.rows|, k requires 0 <= k < |t.rows| => DropLast(t.rows[k])))
  }

  /** Removing the column just added gives the table back. */
  lemma RemoveColumnUndoesAdd(t: Table)
    ensures LastColumnRemoved(ColumnAdded(t)) == t
  {
    var r := LastColumnRemoved(ColumnAdded(t));
    assert DropLast(t.headers + [AddedColumnTitle]) == t.headers;
    assert DropLast(t.alignments + [Left]) == t.alignments;
    forall k | 0 <= k < |t.rows| ensures r.rows[k] == t.rows[k] {
      assert DropLast(t.rows[k] + [""]) == t.rows[k];
    }
  }

  /** `addRow`: an empty row as wide as the header. */
  function RowAdded(t: Table): (r: Table)
    ensures r.headers == t.headers && r.alignments == t.alignments
    ensures |r.rows| == |t.rows| + 1 && r.rows[..|t.rows|] == t.rows
    ensures |r.rows[|t.rows|]| == |t.headers| && forall j :: 0 <= j < |t.headers| ==> r.rows[|t.rows|][j] == ""
    ensures IsRectangular(t) ==> IsRectangular(r)
  {
    Table(t.headers, t.alignments, t.rows + [seq(|t.headers|, _ => "")])
  }

  /** Removing the row just added gives the table back. */
  lemma RemoveRowUndoesAdd(t: Table)
    ensures var r := RowAdded(t); Table(r.headers, r.alignments, DropLast(r.rows)) == t
  {
    assert DropLast(RowAdded(t).rows) == t.rows;
  }

  /** `reorderColumns`: the same move on headers, alignments and each row.
      The parser drops blank cells, so a row can be too short to hold the
      dragged column; the page then moves `undefined` into it, which it
      shows, edits and writes exactly as an empty cell, and so does the
      model. */
  function ColumnsReordered(t: Table, from: nat, to: nat): (r: Table)
    requires from < |t.headers| && from < |t.alignments|
    ensures multiset(r.headers) == multiset(t.headers) && multiset(r.alignments) == multiset(t.alignments)
    ensures |r.rows| == |t.rows|
    ensures forall k :: 0 <= k < |t.rows| && from < |t.rows[k]| ==> multiset(r.rows[k]) == multiset(t.rows[k])
    ensures forall k :: 0 <= k < |t.rows| && from >= |t.rows[k]| ==>
      |r.rows[k]| == |t.rows[k]| + 1 && multiset(r.rows[k]) == multiset(t.rows[k]) + multiset{""}
    ensures IsRectangular(t) ==> IsRectangular(r)
  {
    Table(Move(t.headers, from, to), Move(t.alignments, from, to), MovedOrFilledInEach(t.rows, from, to, ""))
  }

  /** `tableData`, which every action replaces or edits in place. */
  class TableData {
    var headers: seq<string>
    var rows: seq<seq<string>>
    var alignments: seq<Alignment>

    function Current(): Table
      reads this
    {
      Table(headers, alignments, rows)
    }

    constructor()
      ensures Current() == Table([], [], [])
    {
      headers := [];
      rows := [];
      alignments := [];
    }

    /** `parseTable`: on an error the table is left as it was. */
    method ParseTable(input: string) returns (error: Option<string>)
      modifies this
      ensures Parsed(input).Err? ==> error == Some(Parsed(input).message) && Current() == old(Current())
      ensures Parsed(input).Ok? ==> error == None && Current() == Parsed(input).value
    {
      var parsed := Parsed(input);
      if parsed.Err? {
        return Some(parsed.message);
      }
      headers := parsed.value.headers;
      alignments := parsed.value.alignments;
      rows := parsed.value.rows;
      return None;
    }

    method ReorderColumns(from: nat, to: nat)
      requires from < |headers| && from < |alignments|
      modifies this
      ensures Current() == ColumnsReordered(old(Current()), from, to)
    {
      headers := Move(headers, from, to);
      alignments := Move(alignments, from, to);
      rows := MoveOrFillInEach(rows, from, to, "");
    }

    method AddColumn()
      modifies this
      ensures Current() == ColumnAdded(old(Current()))
    {
      headers := headers + [AddedColumnTitle];
      alignments := alignments + [Left];
      rows := AppendToEach(rows, "");
    }

    method AddRow()
      modifies this
      ensures Current() == RowAdded(old(Current()))
    {
      rows := rows + [seq(|headers|, _ => "")];
    }

    /** `removeColumn`: refused while at most one header is left. */
    method RemoveColumn() returns (error: Option<string>)
      modifies this
      ensures error.Some? <==> |old(headers)| <= 1
      ensures error.Some? ==> error.value == LastColumn && Current() == old(Current())
      ensures error.None? ==> Current() == LastColumnRemoved(old(Current()))
    {
      if |headers| <= 1 {
        return Some(LastColumn);
      }
      headers := DropLast(headers);
      alignments := DropLast(alignments);
      rows := DropLastEach(rows);
      return None;
    }

    /** `removeRow`: refused while at most one row is left. */
    method RemoveRow() returns (error: Option<string>)
      modifies this
      ensures error.Some? <==> |old(rows)| <= 1
      ensures error.Some? ==> error.value == LastRow && Current() == old(Current())
      ensures error.None? ==> headers == old(headers) && alignments == old(alignments) && rows == DropLast(old(rows))
    {
      if |rows| <= 1 {
        return Some(LastRow);
      }
      rows := DropLast(rows);
      return None;
    }

    /** `clearAll`, when the user confirms. */
    method ClearAll(confirmed: bool)
      modifies this
      ensures confirmed ==> Current() == Table([], [], [])
      ensures !confirmed ==> Current() == old(Current())
    {
      if confirmed {
        headers := [];
        rows := [];
        alignments := [];
      }
    }
  }
}
