/** The row splitter of the two simpler table editors
    (json-table-editor/app.js and md-table-editor/app.js): a line is split at
    its pipes, every blank piece is dropped wherever it stands, and the
    rest are trimmed. Unlike the richer editor's `parseRow`, an empty cell
    inside the row disappears, so rows are not padded to the header. */
module LooseRows {
  import opened Text
  import opened MarkdownSyntax
  import opened MdTableEditor

  /** The pieces of a line between pipes, the blank ones dropped and the rest trimmed. */
  function Cells(line: string): (r: seq<string>)
    ensures forall i :: 0 <= i < |r| ==> IsTrimmed(r[i]) && r[i] != [] && '|' !in r[i]
  {
    var pieces := NonBlank(Split(line, '|'));
    assert forall i :: 0 <= i < |pieces| ==> '|' !in pieces[i] by {
      NonBlankKeepsAbsent(Split(line, '|'), '|');
    }
    forall i | 0 <= i < |pieces| ensures Trim(pieces[i]) != [] && '|' !in Trim(pieces[i]) {
      BlankIffTrimEmpty(pieces[i]);
      TrimKeepsAbsent(pieces[i], '|');
    }
    TrimAll(pieces)
  }

  lemma {:induction false} NonBlankKeepsAbsent(lines: seq<string>, c: char)
    requires forall i :: 0 <= i < |lines| ==> c !in lines[i]
    ensures forall i :: 0 <= i < |NonBlank(lines)| ==> c !in NonBlank(lines)[i]
  {
    if lines != [] {
      NonBlankKeepsAbsent(lines[1..], c);
    }
  }

  lemma {:induction false} NonBlankConcat(a: seq<string>, b: seq<string>)
    ensures NonBlank(a + b) == NonBlank(a) + NonBlank(b)
  {
    if a == [] {
      assert a + b == b;
    } else {
      NonBlankConcat(a[1..], b);
      var head: seq<string> := if IsBlank(a[0]) then [] else [a[0]];
      assert (a + b)[1..] == a[1..] + b;
      assert NonBlank(a + b) == head + NonBlank(a[1..] + b);
      assert NonBlank(a) == head + NonBlank(a[1..]);
      ConcatAssoc(head, NonBlank(a[1..]), NonBlank(b));
    }
  }

  /** A plain cell: what the splitter can give back unchanged. */
  predicate IsLooseCell(c: string)
  {
    IsPlainCell(c) && c != []
  }

  /** A row line of non-empty plain cells reads back as those cells. */
  lemma CellsOfRowLine(cells: seq<string>)
    requires forall i :: 0 <= i < |cells| ==> IsLooseCell(cells[i])
    ensures Cells(RowLine(cells)) == cells
  {
    var p := Pads(cells);
    var parts := [""] + p + [""];
    if cells == [] {
      assert RowLine(cells) == Join(["", "  ", ""], "|");
      SplitJoin(["", "  ", ""], '|');
      assert IsBlank("  ");
      assert NonBlank(["", "  ", ""]) == [];
    } else {
      RowLineAsJoin(cells);
      PaddedPieces(cells);
      PaddedNonBlank(cells);
      forall i | 0 <= i < |cells| ensures Trim(p[i]) == cells[i] {
        TrimPadded(cells[i]);
      }
    }
  }

  /** Splitting the bordered padded cells at the pipes gives them back. */
  lemma PaddedPieces(cells: seq<string>)
    requires forall i :: 0 <= i < |cells| ==> IsLooseCell(cells[i])
    ensures Split(Join([""] + Pads(cells) + [""], "|"), '|') == [""] + Pads(cells) + [""]
  {
    var parts := [""] + Pads(cells) + [""];
    forall k | 0 <= k < |parts| ensures '|' !in parts[k] {
      if 1 <= k < |parts| - 1 {
        assert parts[k] == " " + cells[k - 1] + " ";
      }
    }
    SplitJoin(parts, '|');
  }

  /** The empty border pieces are dropped and every padded cell is kept. */
  lemma PaddedNonBlank(cells: seq<string>)
    requires forall i :: 0 <= i < |cells| ==> IsLooseCell(cells[i])
    ensures NonBlank([""] + Pads(cells) + [""]) == Pads(cells)
  {
    var p := Pads(cells);
    forall i | 0 <= i < |p| ensures !IsBlank(p[i]) {
      assert p[i][1] == cells[i][0];
    }
    NonBlankKeepsAll(p);
    NonBlankConcat([""] + p, [""]);
    NonBlankConcat([""], p);
  }
}
