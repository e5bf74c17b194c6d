/** The mutable side of the markdown-table editor (md-table-editor/js/app.js):
    the `TableState` object with its bounded snapshot history and undo/redo
    cursor, the `tableOperations` that edit it, and the application's
    parse, clear, reorder-mode and undo/redo actions. */
module MdTableState {
  import opened Text
  import opened Wrappers
  import opened Splice
  import opened RowSort
  import opened MarkdownSyntax
  import opened MdTableEditor

  /** At most this many snapshots are kept. */
  const MaxHistory: nat := 50

  const NewColumnHeader := "New Column"

  datatype OutputFormat = MarkdownFormat | JsonFormat | HtmlFormat

  /** `Array(width).fill('')`. */
  function BlankRow(width: nat): (r: seq<string>)
    ensures |r| == width
    ensures forall i :: 0 <= i < width ==> r[i] == ""
  {
    seq(width, _ => "")
  }

  // ---------------------------------------------------------------------
  // The structural edits, as functions on the table value

  /** `addColumn`: a "New Column" header, a left alignment and an empty cell
      at the end of every row. */
  function WithColumn(t: Table): (r: Table)
    requires IsRectangular(t)
    ensures IsRectangular(r)
    ensures |r.headers| == |t.headers| + 1 && |r.rows| == |t.rows|
    ensures r.headers[|t.headers|] == NewColumnHeader && r.alignments[|t.headers|] == Left
    ensures forall i :: 0 <= i < |r.rows| ==> r.rows[i][|t.headers|] == ""
  {
    Table(t.headers + [NewColumnHeader], t.alignments + [Left],
          seq(|t.rows|, i requires 0 <= i < |t.rows| => t.rows[i] + [""]))
  }

  /** `removeColumn` past its guard: the last header, alignment and cell of
      every row are spliced off. */
  function WithoutLastColumn(t: Table): (r: Table)
    requires IsRectangular(t) && |t.headers| >= 1
    ensures IsRectangular(r)
    ensures |r.headers| == |t.headers| - 1 && |r.rows| == |t.rows|
  {
    var last := |t.headers| - 1;
    Table(RemoveAt(t.headers, last), RemoveAt(t.alignments, last),
          seq(|t.rows|, i requires 0 <= i < |t.rows| => RemoveAt(t.rows[i], last)))
  }

  /** Removing the column just added gives the table back. */
  lemma RemoveColumnUndoesAdd(t: Table)
    requires IsRectangular(t)
    ensures WithoutLastColumn(WithColumn(t)) == t
  {
    var r := WithoutLastColumn(WithColumn(t));
    assert r.headers == t.headers;
    assert r.alignments == t.alignments;
    forall i | 0 <= i < |t.rows| ensures r.rows[i] == t.rows[i] {
      assert WithColumn(t).rows[i] == t.rows[i] + [""];
    }
  }

  /** `addRow`: an empty row as wide as the header at the end. */
  function WithRow(t: Table): (r: Table)
    requires IsRectangular(t)
    ensures IsRectangular(r)
    ensures r.headers == t.headers && r.alignments == t.alignments
    ensures |r.rows| == |t.rows| + 1 && r.rows[..|t.rows|] == t.rows
  {
    Table(t.headers, t.alignments, t.rows + [BlankRow(|t.headers|)])
  }

  /** `removeRow` past its guard: the last row dropped. */
  function WithoutLastRow(t: Table): (r: Table)
    requires IsRectangular(t) && |t.rows| >= 1
    ensures IsRectangular(r)
    ensures r.headers == t.headers && r.alignments == t.alignments
    ensures |r.rows| == |t.rows| - 1
  {
    Table(t.headers, t.alignments, DropLast(t.rows))
  }

  /** Removing the row just added gives the table back. */
  lemma RemoveRowUndoesAdd(t: Table)
    requires IsRectangular(t)
    ensures WithoutLastRow(WithRow(t)) == t
  {
  }

  /** `reorderColumns`: the same move on the headers, the alignments and
      every row; what each of them keeps is stated by `ColumnMovedKeeps`. */
  function ColumnMoved(t: Table, from: nat, to: nat): (r: Table)
    requires IsRectangular(t) && from < |t.headers|
    ensures IsRectangular(r)
    ensures |r.headers| == |t.headers| && |r.rows| == |t.rows|
  {
    Table(Move(t.headers, from, to), Move(t.alignments, from, to), MovedInEach(t.rows, from, to))
  }

  /** A column move keeps every element of the headers, the alignments and
      each row, each as often as before. */
  lemma ColumnMovedKeeps(t: Table, from: nat, to: nat)
    requires IsRectangular(t) && from < |t.headers|
    ensures var r := ColumnMoved(t, from, to);
      multiset(r.headers) == multiset(t.headers)
      && multiset(r.alignments) == multiset(t.alignments)
      && forall i :: 0 <= i < |r.rows| ==> multiset(r.rows[i]) == multiset(t.rows[i])
  {
  }

  /** Dragging a column back to where it came from restores the table. */
  lemma ColumnMovedBack(t: Table, from: nat, to: nat)
    requires IsRectangular(t) && from < |t.headers| && to < |t.headers|
    ensures ColumnMoved(ColumnMoved(t, from, to), to, from) == t
  {
    HeadersMovedBack(t, from, to);
    RowsMovedBack(t, from, to);
  }

  lemma HeadersMovedBack(t: Table, from: nat, to: nat)
    requires IsRectangular(t) && from < |t.headers| && to < |t.headers|
    ensures ColumnMoved(ColumnMoved(t, from, to), to, from).headers == t.headers
    ensures ColumnMoved(ColumnMoved(t, from, to), to, from).alignments == t.alignments
  {
    MoveBack(t.headers, from, to);
    MoveBack(t.alignments, from, to);
  }

  lemma RowsMovedBack(t: Table, from: nat, to: nat)
    requires IsRectangular(t) && from < |t.headers| && to < |t.headers|
    ensures ColumnMoved(ColumnMoved(t, from, to), to, from).rows == t.rows
  {
    MoveEachBack(t.rows, |t.headers|, from, to);
  }

  lemma MoveEachBack(rows: seq<seq<string>>, width: nat, from: nat, to: nat)
    requires from < width && to < width && forall k :: 0 <= k < |rows| ==> |rows[k]| == width
    ensures MovedInEach(MovedInEach(rows, from, to), to, from) == rows
  {
    var m := MovedInEach(rows, from, to);
    var back := MovedInEach(m, to, from);
    forall k | 0 <= k < |rows| ensures back[k] == rows[k] {
      assert m[k] == Move(rows[k], from, to);
      assert back[k] == Move(m[k], to, from);
      MoveBack(rows[k], from, to);
    }
  }

  /** `reorderRows`: one row taken out and put back at `to`. */
  function RowMoved(t: Table, from: nat, to: nat): (r: Table)
    requires IsRectangular(t) && from < |t.rows|
    ensures IsRectangular(r)
    ensures r.headers == t.headers && r.alignments == t.alignments
    ensures multiset(r.rows) == multiset(t.rows)
  {
    var rows := Move(t.rows, from, to);
    assert forall i :: 0 <= i < |rows| ==> |rows[i]| == |t.headers| by {
      forall i | 0 <= i < |rows| ensures |rows[i]| == |t.headers| {
        MoveFromSame(t.rows, from, to, i);
      }
    }
    Table(t.headers, t.alignments, rows)
  }

  lemma RowMovedBack(t: Table, from: nat, to: nat)
    requires IsRectangular(t) && from < |t.rows| && to < |t.rows|
    ensures RowMoved(RowMoved(t, from, to), to, from) == t
  {
    MoveBack(t.rows, from, to);
  }

  /** `duplicateRow`: a copy of row `i` right after it. */
  function RowDuplicated(t: Table, i: nat): (r: Table)
    requires IsRectangular(t) && i < |t.rows|
    ensures IsRectangular(r)
    ensures r.headers == t.headers && r.alignments == t.alignments
    ensures |r.rows| == |t.rows| + 1 && r.rows[i] == r.rows[i + 1] == t.rows[i]
  {
    Table(t.headers, t.alignments, InsertAt(t.rows, i + 1, t.rows[i]))
  }

  /** Deleting the copy gives the original rows back. */
  lemma RowDuplicatedRemoved(t: Table, i: nat)
    requires IsRectangular(t) && i < |t.rows|
    ensures RemoveAt(RowDuplicated(t, i).rows, i + 1) == t.rows
  {
    RemoveInserted(t.rows, i + 1, t.rows[i]);
  }

  /** `insertRowAfter`: an empty row after row `i` (`splice` appends when
      `i + 1` is past the end). */
  function RowInsertedAfter(t: Table, i: nat): (r: Table)
    requires IsRectangular(t)
    ensures IsRectangular(r)
    ensures r.headers == t.headers && r.alignments == t.alignments
    ensures |r.rows| == |t.rows| + 1
    ensures r.rows[if i + 1 <= |t.rows| then i + 1 else |t.rows|] == BlankRow(|t.headers|)
  {
    Table(t.headers, t.alignments, InsertAt(t.rows, i + 1, BlankRow(|t.headers|)))
  }

  lemma RowInsertedRemoved(t: Table, i: nat)
    requires IsRectangular(t) && i < |t.rows|
    ensures RemoveAt(RowInsertedAfter(t, i).rows, i + 1) == t.rows
  {
    RemoveInserted(t.rows, i + 1, BlankRow(|t.headers|));
  }

  // ---------------------------------------------------------------------
  // The snapshot history

  /** The snapshots and the cursor into them (`history`, `historyIndex`). */
  datatype History = History(entries: seq<Table>, index: int)

  /** What `TableState` keeps true of its history: the cursor is -1 exactly
      when there are no snapshots and otherwise points at one, at most
      `MaxHistory` snapshots are kept, and every snapshot is a
      rectangular table. */
  predicate WellFormed(h: History)
  {
    -1 <= h.index < |h.entries| && |h.entries| <= MaxHistory &&
    (h.index == -1 <==> h.entries == []) &&
    forall i :: 0 <= i < |h.entries| ==> IsRectangular(h.entries[i])
  }

  /** `saveToHistory`: everything after the cursor is discarded, the
      snapshot appended, and the oldest snapshot dropped when that makes
      more than `MaxHistory`. The cursor ends on the new snapshot. */
  function Saved(h: History, s: Table): (r: History)
    requires -1 <= h.index < |h.entries|
    ensures |r.entries| >= 1 && r.index == |r.entries| - 1 && r.entries[r.index] == s
    ensures h.index + 2 <= MaxHistory ==> r.entries[..r.index] == h.entries[..h.index + 1]
    ensures h.index + 2 > MaxHistory ==> r.entries[..r.index] == h.entries[1..h.index + 1]
  {
    var kept := h.entries[..h.index + 1] + [s];
    if |kept| > MaxHistory then History(kept[1..], h.index) else History(kept, h.index + 1)
  }

  lemma SavedWellFormed(h: History, s: Table)
    requires WellFormed(h) && IsRectangular(s)
    ensures WellFormed(Saved(h, s))
  {
    var r := Saved(h, s);
    forall i | 0 <= i < |r.entries| ensures IsRectangular(r.entries[i]) {
      if i < r.index {
        assert r.entries[i] == r.entries[..r.index][i];
      }
    }
  }

  /** A snapshot to restore and the history with its moved cursor. */
  datatype Restored = Restored(history: History, table: Table)

  /** `undo`: only when the cursor is past the first snapshot; it steps back
      and restores the snapshot it lands on. */
  function UndoStep(h: History): (r: Option<Restored>)
    requires h.index < |h.entries|
    ensures r.Some? <==> h.index > 0
    ensures r.Some? ==> r.value.history == History(h.entries, h.index - 1)
    ensures r.Some? ==> r.value.table == h.entries[h.index - 1]
  {
    if h.index > 0 then Some(Restored(History(h.entries, h.index - 1), h.entries[h.index - 1])) else None
  }

  /** `redo`: only when there is a snapshot after the cursor; it steps
      forward and restores it. */
  function RedoStep(h: History): (r: Option<Restored>)
    requires -1 <= h.index
    ensures r.Some? <==> h.index < |h.entries| - 1
    ensures r.Some? ==> r.value.history == History(h.entries, h.index + 1)
    ensures r.Some? ==> r.value.table == h.entries[h.index + 1]
  {
    if h.index < |h.entries| - 1 then Some(Restored(History(h.entries, h.index + 1), h.entries[h.index + 1])) else None
  }

  /** Undo and redo keep the history well formed and restore rectangular
      tables. */
  lemma UndoRedoWellFormed(h: History)
    requires WellFormed(h)
    ensures UndoStep(h).Some? ==> WellFormed(UndoStep(h).value.history) && IsRectangular(UndoStep(h).value.table)
    ensures RedoStep(h).Some? ==> WellFormed(RedoStep(h).value.history) && IsRectangular(RedoStep(h).value.table)
  {
  }

  /** A redo straight after an undo puts the cursor back and restores the
      snapshot the cursor was on; an undo straight after a redo likewise. */
  lemma RedoUndoesUndo(h: History)
    requires WellFormed(h) && h.index > 0
    ensures RedoStep(UndoStep(h).value.history) == Some(Restored(h, h.entries[h.index]))
  {
  }

  lemma UndoUndoesRedo(h: History)
    requires WellFormed(h) && 0 <= h.index < |h.entries| - 1
    ensures UndoStep(RedoStep(h).value.history) == Some(Restored(h, h.entries[h.index]))
  {
  }

  /** As written, the snapshot an undo restores after a save is the one
      saved before it: the state just before the latest edit (the snapshot
      just saved) is skipped. */
  lemma UndoAfterSave(h: History, s: Table)
    requires WellFormed(h) && h.index >= 0
    ensures UndoStep(Saved(h, s)).Some?
    ensures UndoStep(Saved(h, s)).value.table == h.entries[h.index]
  {
    var r := Saved(h, s);
    assert r.entries[r.index - 1] == r.entries[..r.index][r.index - 1];
  }

  /** The counterexample: a fresh editor parses a one-column table `T` and
      then adds a column. An undo brings back the empty table from before
      the parse rather than `T`; the edit that produced `T` itself could not
      have been undone at all. */
  lemma UndoSkipsLastEdit()
    ensures var empty := Table([], [], []);
      var t := Table(["a"], [Left], []);
      var afterParse := Saved(History([], -1), empty);
      var afterAdd := Saved(afterParse, t);
      UndoStep(afterParse) == None &&
      UndoStep(afterAdd).Some? && UndoStep(afterAdd).value.table == empty && empty != t
  {
    var empty := Table([], [], []);
    var t := Table(["a"], [Left], []);
    var afterParse := Saved(History([], -1), empty);
    assert afterParse == History([empty], 0);
    var afterAdd := Saved(afterParse, t);
    assert afterAdd == History([empty, t], 1);
  }

  // ---------------------------------------------------------------------
  // The evidently intended undo: a past and a future stack

  /** Snapshots to go back to (newest last) and to go forward to (nearest
      first). */
  datatype UndoStack = UndoStack(past: seq<Table>, future: seq<Table>)

  /** A step of the corrected undo or redo: the new stacks and the table to
      show. */
  datatype Step = Step(stack: UndoStack, table: Table)

  /** Before an edit: remember the table as it is, forget the redo future,
      keep at most `MaxHistory` snapshots. */
  function Record(u: UndoStack, before: Table): (r: UndoStack)
    ensures r.future == [] && r.past != [] && r.past[|r.past| - 1] == before
    ensures |u.past| < MaxHistory ==> r.past == u.past + [before]
    ensures |u.past| <= MaxHistory ==> |r.past| <= MaxHistory
  {
    var past := u.past + [before];
    UndoStack(if |past| > MaxHistory then past[1..] else past, [])
  }

  /** Undo: go back to the newest remembered table, remembering the current
      one for redo. */
  function UndoTo(u: UndoStack, current: Table): (r: Option<Step>)
    ensures r.Some? <==> u.past != []
    ensures r.Some? ==> r.value.table == u.past[|u.past| - 1] && r.value.stack.future == [current] + u.future
  {
    if u.past == [] then None
    else Some(Step(UndoStack(u.past[..|u.past| - 1], [current] + u.future), u.past[|u.past| - 1]))
  }

  /** Redo: go forward to the nearest undone table, remembering the current
      one for undo. */
  function RedoTo(u: UndoStack, current: Table): (r: Option<Step>)
    ensures r.Some? <==> u.future != []
    ensures r.Some? ==> r.value.table == u.future[0] && r.value.stack.past == u.past + [current]
  {
    if u.future == [] then None
    else Some(Step(UndoStack(u.past + [current], u.future[1..]), u.future[0]))
  }

  /** The intended property: an undo right after an edit shows the table as
      it was just before that edit, and a redo then shows the edited table
      again, with the stacks as they were after the edit. */
  lemma CorrectedUndoRestoresEdit(u: UndoStack, before: Table, edited: Table)
    ensures UndoTo(Record(u, before), edited).Some?
    ensures UndoTo(Record(u, before), edited).value.table == before
    ensures var back := UndoTo(Record(u, before), edited).value;
      RedoTo(back.stack, back.table) == Some(Step(Record(u, before), edited))
  {
    var rec := Record(u, before);
    var back := UndoTo(rec, edited).value;
    assert back.stack.past + [before] == rec.past;
  }

  /** Redo undoes any successful undo. */
  lemma CorrectedRedoAfterUndo(u: UndoStack, current: Table)
    requires u.past != []
    ensures var back := UndoTo(u, current).value;
      RedoTo(back.stack, back.table) == Some(Step(u, current))
  {
    var n := |u.past| - 1;
    assert u.past[..n] + [u.past[n]] == u.past;
  }

  // ---------------------------------------------------------------------
  // TableState

  class TableState {
    var headers: seq<string>
    var rows: seq<seq<string>>
    var alignments: seq<Alignment>
    var isReorderMode: bool
    var outputFormat: OutputFormat
    var history: seq<Table>
    var historyIndex: int

    /** The table as shown. */
    function Current(): Table
      reads this
    {
      Table(headers, alignments, rows)
    }

    function Log(): History
      reads this
    {
      History(history, historyIndex)
    }

    ghost predicate Valid()
      reads this
    {
      IsRectangular(Current()) && WellFormed(Log())
    }

    constructor()
      ensures Valid()
      ensures Current() == Table([], [], []) && Log() == History([], -1)
      ensures !isReorderMode && outputFormat == MarkdownFormat
    {
      headers := [];
      rows := [];
      alignments := [];
      isReorderMode := false;
      outputFormat := MarkdownFormat;
      history := [];
      historyIndex := -1;
    }

    method SaveToHistory()
      requires Valid()
      modifies this
      ensures Valid()
      ensures Log() == Saved(old(Log()), old(Current()))
      ensures Current() == old(Current())
      ensures isReorderMode == old(isReorderMode) && outputFormat == old(outputFormat)
    {
      SavedWellFormed(Log(), Current());
      var state := Table(headers, alignments, rows);
      history := history[..historyIndex + 1];
      history := history + [state];
      historyIndex := historyIndex + 1;
      if |history| > MaxHistory {
        history := history[1..];
        historyIndex := historyIndex - 1;
      }
    }

    /** Returns whether there was something to undo; nothing changes when
        there was not. */
    method Undo() returns (ok: bool)
      requires Valid()
      modifies this
      ensures Valid()
      ensures ok <==> UndoStep(old(Log())).Some?
      ensures ok ==> Log() == UndoStep(old(Log())).value.history && Current() == UndoStep(old(Log())).value.table
      ensures !ok ==> Log() == old(Log()) && Current() == old(Current())
      ensures isReorderMode == old(isReorderMode) && outputFormat == old(outputFormat)
    {
      UndoRedoWellFormed(Log());
      if historyIndex > 0 {
        historyIndex := historyIndex - 1;
        var state := history[historyIndex];
        headers := state.headers;
        rows := state.rows;
        alignments := state.alignments;
        return true;
      }
      return false;
    }

    method Redo() returns (ok: bool)
      requires Valid()
      modifies this
      ensures Valid()
      ensures ok <==> RedoStep(old(Log())).Some?
      ensures ok ==> Log() == RedoStep(old(Log())).value.history && Current() == RedoStep(old(Log())).value.table
      ensures !ok ==> Log() == old(Log()) && Current() == old(Current())
      ensures isReorderMode == old(isReorderMode) && outputFormat == old(outputFormat)
    {
      UndoRedoWellFormed(Log());
      if historyIndex < |history| - 1 {
        historyIndex := historyIndex + 1;
        var state := history[historyIndex];
        headers := state.headers;
        rows := state.rows;
        alignments := state.alignments;
        return true;
      }
      return false;
    }

    /** `Object.assign(tableState, parsed)`: the parsed headers, alignments
        and rows replace the table. */
    method Assign(t: Table)
      requires Valid() && IsRectangular(t)
      modifies this
      ensures Valid()
      ensures Current() == t && Log() == old(Log())
      ensures isReorderMode == old(isReorderMode) && outputFormat == old(outputFormat)
    {
      headers := t.headers;
      alignments := t.alignments;
      rows := t.rows;
    }

    method Reset()
      modifies this
      ensures Valid()
      ensures Current() == Table([], [], []) && Log() == History([], -1)
      ensures !isReorderMode && outputFormat == MarkdownFormat
    {
      headers := [];
      rows := [];
      alignments := [];
      isReorderMode := false;
      outputFormat := MarkdownFormat;
      history := [];
      historyIndex := -1;
    }

    /** No headers and no rows. */
    function IsEmpty(): (r: bool)
      reads this
      ensures r <==> |headers| + |rows| == 0
    {
      |headers| == 0 && |rows| == 0
    }

    /** At least one header, and one alignment per header. */
    function IsValid(): (r: bool)
      reads this
      ensures r ==> |Current().headers| >= 1
      ensures IsRectangular(Current()) ==> (r <==> headers != [])
    {
      |headers| > 0 && |alignments| == |headers|
    }
  }

  /** A reset table is empty and not valid for output. */
  lemma ResetIsEmpty(s: TableState)
    requires s.Current() == Table([], [], [])
    ensures s.IsEmpty() && !s.IsValid()
  {
  }

  // ---------------------------------------------------------------------
  // tableOperations

  /** In reorder mode the edit is ignored; otherwise the table is saved to
      the history and then edited. */
  ghost predicate EditedAs(s: TableState, oldLog: History, oldTable: Table, oldMode: bool, edited: Table)
    reads s
    requires -1 <= oldLog.index < |oldLog.entries|
  {
    if oldMode then s.Log() == oldLog && s.Current() == oldTable
    else s.Log() == Saved(oldLog, oldTable) && s.Current() == edited
  }

  method AddColumn(s: TableState)
    requires s.Valid()
    modifies s
    ensures s.Valid()
    ensures old(s.isReorderMode) == s.isReorderMode && s.outputFormat == old(s.outputFormat)
    ensures EditedAs(s, old(s.Log()), old(s.Current()), old(s.isReorderMode), WithColumn(old(s.Current())))
  {
    if s.isReorderMode { return; }
    s.SaveToHistory();
    s.headers := s.headers + [NewColumnHeader];
    s.alignments := s.alignments + [Left];
    s.rows := AppendToEach(s.rows, "");
  }

  method AddRow(s: TableState)
    requires s.Valid()
    modifies s
    ensures s.Valid()
    ensures old(s.isReorderMode) == s.isReorderMode && s.outputFormat == old(s.outputFormat)
    ensures EditedAs(s, old(s.Log()), old(s.Current()), old(s.isReorderMode), WithRow(old(s.Current())))
  {
    if s.isReorderMode { return; }
    s.SaveToHistory();
    var newRow := BlankRow(|s.headers|);
    s.rows := s.rows + [newRow];
  }

  /** Refuses (returns false, changes nothing) in reorder mode and when only
      one column is left. */
  method RemoveColumn(s: TableState) returns (done: bool)
    requires s.Valid()
    modifies s
    ensures s.Valid()
    ensures old(s.isReorderMode) == s.isReorderMode && s.outputFormat == old(s.outputFormat)
    ensures done <==> !old(s.isReorderMode) && |old(s.headers)| > 1
    ensures !done ==> s.Log() == old(s.Log()) && s.Current() == old(s.Current())
    ensures done ==> s.Log() == Saved(old(s.Log()), old(s.Current())) && s.Current() == WithoutLastColumn(old(s.Current()))
  {
    if s.isReorderMode { return false; }
    if |s.headers| <= 1 { return false; }
    s.SaveToHistory();
    var indexToRemove := |s.headers| - 1;
    s.headers := RemoveAt(s.headers, indexToRemove);
    s.alignments := RemoveAt(s.alignments, indexToRemove);
    s.rows := RemoveAtEach(s.rows, indexToRemove);
    return true;
  }

  /** Refuses in reorder mode and when there are no rows. */
  method RemoveRow(s: TableState) returns (done: bool)
    requires s.Valid()
    modifies s
    ensures s.Valid()
    ensures old(s.isReorderMode) == s.isReorderMode && s.outputFormat == old(s.outputFormat)
    ensures done <==> !old(s.isReorderMode) && |old(s.rows)| > 0
    ensures !done ==> s.Log() == old(s.Log()) && s.Current() == old(s.Current())
    ensures done ==> s.Log() == Saved(old(s.Log()), old(s.Current())) && s.Current() == WithoutLastRow(old(s.Current()))
  {
    if s.isReorderMode { return false; }
    if |s.rows| == 0 { return false; }
    s.SaveToHistory();
    s.rows := DropLast(s.rows);
    return true;
  }

  /** Refuses in reorder mode and when there are no rows; otherwise the rows
      are ordered by their lower-cased first cell and are the same rows,
      each as often as before. */
  method SortTableRows(s: TableState) returns (done: bool)
    requires s.Valid()
    modifies s
    ensures s.Valid()
    ensures old(s.isReorderMode) == s.isReorderMode && s.outputFormat == old(s.outputFormat)
    ensures done <==> !old(s.isReorderMode) && |old(s.rows)| > 0
    ensures !done ==> s.Log() == old(s.Log()) && s.Current() == old(s.Current())
    ensures done ==> s.Log() == Saved(old(s.Log()), old(s.Current()))
    ensures done ==> s.headers == old(s.headers) && s.alignments == old(s.alignments)
    ensures done ==> SortedByKey(s.rows) && multiset(s.rows) == multiset(old(s.rows))
    ensures done ==> StableOf(s.rows, old(s.rows))
  {
    if s.isReorderMode { return false; }
    if |s.rows| == 0 { return false; }
    s.SaveToHistory();
    var before := s.rows;
    var sorted := SortRows(s.rows);
    assert forall i :: 0 <= i < |sorted| ==> sorted[i] in multiset(before);
    s.rows := sorted;
    return true;
  }

  /** `reorderColumns`, called on a drop: no reorder-mode check and no
      snapshot of its own. */
  method ReorderColumns(s: TableState, from: nat, to: nat)
    requires s.Valid() && from < |s.headers|
    modifies s
    ensures s.Valid()
    ensures s.Log() == old(s.Log()) && s.isReorderMode == old(s.isReorderMode) && s.outputFormat == old(s.outputFormat)
    ensures s.Current() == ColumnMoved(old(s.Current()), from, to)
  {
    var headers := Move(s.headers, from, to);
    var alignments := Move(s.alignments, from, to);
    var rows := MoveInEach(s.rows, from, to);
    s.Assign(Table(headers, alignments, rows));
  }

  method ReorderRows(s: TableState, from: nat, to: nat)
    requires s.Valid() && from < |s.rows|
    modifies s
    ensures s.Valid()
    ensures s.Log() == old(s.Log()) && s.isReorderMode == old(s.isReorderMode) && s.outputFormat == old(s.outputFormat)
    ensures s.Current() == RowMoved(old(s.Current()), from, to)
  {
    s.Assign(RowMoved(s.Current(), from, to));
  }

  /** `duplicateRow`. The snapshot is taken before the row is looked up, so
      an index with no row leaves a snapshot behind and the table as it was
      (the copy `[...undefined]` throws); `ok` reports the throw. */
  method DuplicateRow(s: TableState, rowIndex: nat) returns (ok: bool)
    requires s.Valid()
    modifies s
    ensures s.Valid()
    ensures old(s.isReorderMode) == s.isReorderMode && s.outputFormat == old(s.outputFormat)
    ensures ok <==> old(s.isReorderMode) || rowIndex < |old(s.rows)|
    ensures old(s.isReorderMode) ==> s.Log() == old(s.Log()) && s.Current() == old(s.Current())
    ensures !old(s.isReorderMode) ==> s.Log() == Saved(old(s.Log()), old(s.Current()))
    ensures !ok ==> s.Current() == old(s.Current())
    ensures !old(s.isReorderMode) && ok ==> s.Current() == RowDuplicated(old(s.Current()), rowIndex)
  {
    if s.isReorderMode { return true; }
    s.SaveToHistory();
    if rowIndex >= |s.rows| { return false; }
    var rowToDuplicate := s.rows[rowIndex];
    s.rows := InsertAt(s.rows, rowIndex + 1, rowToDuplicate);
    return true;
  }

  method InsertRowAfter(s: TableState, rowIndex: nat)
    requires s.Valid()
    modifies s
    ensures s.Valid()
    ensures old(s.isReorderMode) == s.isReorderMode && s.outputFormat == old(s.outputFormat)
    ensures EditedAs(s, old(s.Log()), old(s.Current()), old(s.isReorderMode), RowInsertedAfter(old(s.Current()), rowIndex))
  {
    if s.isReorderMode { return; }
    s.SaveToHistory();
    var newRow := BlankRow(|s.headers|);
    s.rows := InsertAt(s.rows, rowIndex + 1, newRow);
  }

  // ---------------------------------------------------------------------
  // Application actions

  /** What `tableParser.parse` yields for the input: the parsed markdown
      table, or, for input routed to the HTML parser, that parser's
      result `html`, which pads or cuts every row to the header width. */
  function ParseOutcome(input: string, html: Result<Table>): (r: Result<Table>)
    requires html.Ok? ==> IsRectangular(html.value)
    ensures r.Ok? ==> IsRectangular(r.value)
    ensures IsBlank(input) ==> r == Err(EmptyInput)
  {
    match Parse(input)
    case Err(m) => Err(m)
    case Ok(MarkdownInput(t)) => Ok(t)
    case Ok(HtmlInput(_)) => html
  }

  /** Input that is not blank goes to the HTML parser exactly when its
      lower-cased text holds `<table`, and to the markdown parser otherwise. */
  lemma ParseOutcomeRoutes(input: string, html: Result<Table>)
    requires html.Ok? ==> IsRectangular(html.value)
    requires !IsBlank(input)
    ensures Includes(Lower(Trim(input)), "<table") ==> ParseOutcome(input, html) == html
    ensures !Includes(Lower(Trim(input)), "<table") ==> ParseOutcome(input, html) == ParseMarkdown(Trim(input))
  {
    if !Includes(Lower(Trim(input)), "<table") {
      match ParseMarkdown(Trim(input))
      case Ok(t) => assert Parse(input) == Ok(MarkdownInput(t));
      case Err(m) => assert Parse(input) == Err(m);
    }
  }

  /** `app.parseTable`: on success the state is saved and the parsed
      headers, alignments and rows replace the table; on failure the
      message is returned and nothing changes. */
  method ParseTable(s: TableState, input: string, html: Result<Table>) returns (error: Option<string>)
    requires s.Valid()
    requires html.Ok? ==> IsRectangular(html.value)
    modifies s
    ensures s.Valid()
    ensures s.isReorderMode == old(s.isReorderMode) && s.outputFormat == old(s.outputFormat)
    ensures ParseOutcome(input, html).Err? ==>
      error == Some(ParseOutcome(input, html).message) && s.Log() == old(s.Log()) && s.Current() == old(s.Current())
    ensures ParseOutcome(input, html).Ok? ==>
      error == None && s.Current() == ParseOutcome(input, html).value && s.Log() == Saved(old(s.Log()), old(s.Current()))
  {
    var result := ParseOutcome(input, html);
    if result.Err? {
      return Some(result.message);
    }
    s.SaveToHistory();
    s.Assign(result.value);
    return None;
  }

  method ToggleReorderMode(s: TableState)
    requires s.Valid()
    modifies s
    ensures s.Valid()
    ensures s.isReorderMode == !old(s.isReorderMode)
    ensures s.Current() == old(s.Current()) && s.Log() == old(s.Log()) && s.outputFormat == old(s.outputFormat)
  {
    s.isReorderMode := !s.isReorderMode;
  }

  /** `app.clearAll`: only when the user confirms. */
  method ClearAll(s: TableState, confirmed: bool)
    requires s.Valid()
    modifies s
    ensures s.Valid()
    ensures confirmed ==> s.Current() == Table([], [], []) && s.Log() == History([], -1) && !s.isReorderMode
    ensures confirmed ==> s.outputFormat == MarkdownFormat
    ensures !confirmed ==> s.Current() == old(s.Current()) && s.Log() == old(s.Log()) && s.isReorderMode == old(s.isReorderMode)
    ensures !confirmed ==> s.outputFormat == old(s.outputFormat)
  {
    if confirmed {
      s.Reset();
    }
  }
}
