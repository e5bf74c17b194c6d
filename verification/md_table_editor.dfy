/** The markdown-table editor (md-table-editor/js/app.js): its row splitter,
    markdown parser, the markdown and JSON output generators, and the
    helper utilities. The editor's mutable state lives in `MdTableState`. */
module MdTableEditor {
  import opened Text
  import opened Wrappers
  import opened OrderedMap
  import opened JsValues
  import opened MarkdownSyntax

  /** The headers, column alignments and body rows the editor holds. */
  datatype Table = Table(headers: seq<string>, alignments: seq<Alignment>, rows: seq<seq<string>>)

  /** One alignment per column and every row exactly as wide as the header. */
  predicate IsRectangular(t: Table)
  {
    |t.alignments| == |t.headers| && forall i :: 0 <= i < |t.rows| ==> |t.rows[i]| == |t.headers|
  }

  // ---------------------------------------------------------------------
  // utils

  /** `utils.sanitizeInput`: a non-string becomes the empty string; a string
      has `<`, `>`, `"` and `'` replaced by `&lt;`, `&gt;`, `&quot;` and
      `&#39;`. The result has none of the four characters, and text without
      them comes through unchanged, so sanitising twice is sanitising once. */
  function SanitizeInput(v: JsValue): (r: string)
    ensures NoMarkup(r)
    ensures !v.JString? ==> r == ""
    ensures v.JString? && NoMarkup(v.s) ==> r == v.s
  {
    if v.JString? then Sanitize(v.s) else ""
  }

  /** `sanitizeInput` on a string argument. */
  function Sanitize(s: string): (r: string)
    ensures NoMarkup(r)
    ensures NoMarkup(s) ==> r == s
    ensures |r| >= |s|
  {
    var r := EscapeMarkup(s, "&#39;");
    if NoMarkup(s) then EscapeMarkupOfPlain(s, "&#39;"); r
    else EscapeMarkupLength(s, "&#39;"); r
  }

  lemma EscapeMarkupLength(s: string, apos: string)
    requires NoMarkup(apos) && |apos| >= 1
    ensures |EscapeMarkup(s, apos)| >= |s|
  {
    ReplaceLength(s, '<', "&lt;");
    var a := ReplaceChar(s, '<', "&lt;");
    ReplaceLength(a, '>', "&gt;");
    var b := ReplaceChar(a, '>', "&gt;");
    ReplaceLength(b, '"', "&quot;");
    var c := ReplaceChar(b, '"', "&quot;");
    ReplaceLength(c, '\'', apos);
  }

  lemma {:induction false} ReplaceLength(s: string, c: char, rep: string)
    requires |rep| >= 1
    ensures |ReplaceChar(s, c, rep)| >= |s|
  {
    if s != [] { ReplaceLength(s[1..], c, rep); }
  }

  function SanitizeAll(cells: seq<string>): (r: seq<string>)
    ensures |r| == |cells|
    ensures forall i :: 0 <= i < |cells| ==> r[i] == Sanitize(cells[i])
  {
    seq(|cells|, i requires 0 <= i < |cells| => Sanitize(cells[i]))
  }

  predicate NeedsCsvQuotes(s: string)
  {
    ',' in s || '"' in s || '\n' in s
  }

  /** `utils.escapeCSV`: a non-string becomes the empty string; a field with
      a comma, quote or line break is quoted with its quotes doubled; any
      other field is written as it is. */
  function EscapeCsv(v: JsValue): (r: string)
    ensures !v.JString? ==> r == ""
    ensures v.JString? && !NeedsCsvQuotes(v.s) ==> r == v.s
    ensures v.JString? && NeedsCsvQuotes(v.s) ==> |r| >= 2 && r[0] == '"' && r[|r| - 1] == '"'
  {
    if !v.JString? then ""
    else if NeedsCsvQuotes(v.s) then "\"" + ReplaceChar(v.s, '"', "\"\"") + "\""
    else v.s
  }

  /** Reading one CSV field back: a quoted field loses its quotes and has
      doubled quotes halved. */
  function UnescapeCsv(f: string): string
  {
    if |f| >= 2 && f[0] == '"' && f[|f| - 1] == '"' then HalveQuotes(f[1..|f| - 1]) else f
  }

  function HalveQuotes(x: string): string
  {
    if |x| >= 2 && x[0] == '"' && x[1] == '"' then "\"" + HalveQuotes(x[2..])
    else if x == [] then []
    else [x[0]] + HalveQuotes(x[1..])
  }

  lemma {:induction false} HalveDoubledQuotes(s: string)
    ensures HalveQuotes(ReplaceChar(s, '"', "\"\"")) == s
  {
    if s != [] {
      HalveDoubledQuotes(s[1..]);
      var d := ReplaceChar(s, '"', "\"\"");
      if s[0] == '"' {
        assert d == "\"\"" + ReplaceChar(s[1..], '"', "\"\"");
        assert d[2..] == ReplaceChar(s[1..], '"', "\"\"");
      } else {
        assert d == [s[0]] + ReplaceChar(s[1..], '"', "\"\"");
        assert d[1..] == ReplaceChar(s[1..], '"', "\"\"");
      }
      assert s == [s[0]] + s[1..];
    }
  }

  /** Every string field survives escaping and reading back. */
  lemma EscapeCsvRoundTrip(s: string)
    ensures UnescapeCsv(EscapeCsv(JString(s))) == s
  {
    if NeedsCsvQuotes(s) {
      var inner := ReplaceChar(s, '"', "\"\"");
      var f := "\"" + inner + "\"";
      assert f[1..|f| - 1] == inner;
      HalveDoubledQuotes(s);
    } else {
      assert s == [] || s[0] != '"';
    }
  }

  /** The message `validateTableStructure` throws for row `index`. */
  function RowWidthMessage(index: nat, width: nat, expected: nat): string
  {
    "Row " + NatToString(index + 1) + " has " + NatToString(width) + " cells, expected " + NatToString(expected)
  }

  /** `utils.validateTableStructure`: `None` when it returns normally,
      otherwise the message it throws, which names the first row whose width
      differs from the header count. */
  function ValidateTableStructure(headers: seq<string>, rows: seq<seq<string>>): (r: Option<string>)
    ensures r.None? <==> |headers| > 0 && forall i :: 0 <= i < |rows| ==> |rows[i]| == |headers|
    ensures |headers| == 0 ==> r == Some("Headers must be a non-empty array")
    ensures |headers| > 0 && r.Some? ==>
      exists i :: && 0 <= i < |rows| && |rows[i]| != |headers|
                  && r == Some(RowWidthMessage(i, |rows[i]|, |headers|))
                  && forall j :: 0 <= j < i ==> |rows[j]| == |headers|
  {
    if |headers| == 0 then Some("Headers must be a non-empty array")
    else
      match FirstWidthMismatch(rows, |headers|, 0)
      case None => None
      case Some(i) => Some(RowWidthMessage(i, |rows[i]|, |headers|))
  }

  function FirstWidthMismatch(rows: seq<seq<string>>, width: nat, from: nat): (r: Option<nat>)
    requires from <= |rows|
    ensures r.None? <==> forall i :: from <= i < |rows| ==> |rows[i]| == width
    ensures r.Some? ==>
      && from <= r.value < |rows| && |rows[r.value]| != width
      && forall j :: from <= j < r.value ==> |rows[j]| == width
    decreases |rows| - from
  {
    if from == |rows| then None
    else if |rows[from]| != width then Some(from)
    else FirstWidthMismatch(rows, width, from + 1)
  }

  // ---------------------------------------------------------------------
  // tableParser

  /** The filter in `parseRow`: a blank piece is dropped only when it is the
      first or the last one. */
  predicate KeepPiece(parts: seq<string>, i: nat)
    requires i < |parts|
  {
    !(i == 0 && IsBlank(parts[i])) && !(i == |parts| - 1 && IsBlank(parts[i]))
  }

  function KeptPieces(parts: seq<string>, i: nat): seq<string>
    requires i <= |parts|
    decreases |parts| - i
  {
    if i == |parts| then []
    else (if KeepPiece(parts, i) then [parts[i]] else []) + KeptPieces(parts, i + 1)
  }

  function TrimAll(cells: seq<string>): (r: seq<string>)
    ensures |r| == |cells|
    ensures forall i :: 0 <= i < |cells| ==> r[i] == Trim(cells[i])
  {
    seq(|cells|, i requires 0 <= i < |cells| => Trim(cells[i]))
  }

  /** The first piece `parseRow` keeps. */
  function FirstKept(parts: seq<string>): nat
    requires |parts| >= 1
  {
    if IsBlank(parts[0]) then 1 else 0
  }

  /** One past the last piece `parseRow` keeps. */
  function EndKept(parts: seq<string>): nat
    requires |parts| >= 1
  {
    if IsBlank(parts[|parts| - 1]) then |parts| - 1 else |parts|
  }

  /** `tableParser.parseRow`: the trimmed pieces between pipes, without a
      blank first or last piece (the table border). Blank pieces inside the
      row stay, as empty cells. */
  function ParseRow(line: string): (r: seq<string>)
    ensures var parts := Split(line, '|');
      && (FirstKept(parts) >= EndKept(parts) ==> r == [])
      && (FirstKept(parts) < EndKept(parts) ==> r == TrimAll(parts[FirstKept(parts)..EndKept(parts)]))
    ensures forall i :: 0 <= i < |r| ==> IsTrimmed(r[i]) && '|' !in r[i]
  {
    var parts := Split(line, '|');
    KeptPiecesSlice(parts);
    KeptPiecesClean(parts);
    TrimAll(KeptPieces(parts, 0))
  }

  /** Trimming the kept pieces brings back no separator. */
  lemma KeptPiecesClean(parts: seq<string>)
    requires |parts| >= 1 && forall k :: 0 <= k < |parts| ==> '|' !in parts[k]
    ensures forall i :: 0 <= i < |KeptPieces(parts, 0)| ==> '|' !in Trim(KeptPieces(parts, 0)[i])
  {
    KeptPiecesSlice(parts);
    var kept := KeptPieces(parts, 0);
    forall i | 0 <= i < |kept| ensures '|' !in Trim(kept[i]) {
      assert kept[i] == parts[FirstKept(parts) + i];
      TrimKeepsAbsent(kept[i], '|');
    }
  }

  lemma {:induction false} KeptPiecesInterior(parts: seq<string>, i: nat)
    requires 1 <= i <= |parts| - 1
    ensures KeptPieces(parts, i) == parts[i..EndKept(parts)]
    decreases |parts| - i
  {
    if i < |parts| - 1 {
      KeptPiecesInterior(parts, i + 1);
      assert parts[i..EndKept(parts)] == [parts[i]] + parts[i + 1..EndKept(parts)];
    } else {
      assert KeptPieces(parts, i + 1) == [];
    }
  }

  lemma {:induction false} KeptPiecesSlice(parts: seq<string>)
    requires |parts| >= 1
    ensures FirstKept(parts) >= EndKept(parts) ==> KeptPieces(parts, 0) == []
    ensures FirstKept(parts) < EndKept(parts) ==> KeptPieces(parts, 0) == parts[FirstKept(parts)..EndKept(parts)]
  {
    if |parts| == 1 {
      assert KeptPieces(parts, 1) == [];
    } else {
      KeptPiecesInterior(parts, 1);
      if !IsBlank(parts[0]) {
        assert parts[0..EndKept(parts)] == [parts[0]] + parts[1..EndKept(parts)];
      }
    }
  }

  /** The lines that are not blank, in order. */
  function NonBlank(lines: seq<string>): (r: seq<string>)
    ensures |r| <= |lines|
    ensures forall i :: 0 <= i < |r| ==> !IsBlank(r[i])
  {
    if lines == [] then []
    else (if IsBlank(lines[0]) then [] else [lines[0]]) + NonBlank(lines[1..])
  }

  /** Lines none of which is blank are all kept, in order. */
  lemma {:induction false} NonBlankKeepsAll(lines: seq<string>)
    requires forall i :: 0 <= i < |lines| ==> !IsBlank(lines[i])
    ensures NonBlank(lines) == lines
  {
    if lines != [] {
      NonBlankKeepsAll(lines[1..]);
    }
  }

  /** The lines `parseMarkdown` works on: the trimmed input split at line
      breaks, blank lines dropped. */
  function TableLines(text: string): seq<string>
  {
    NonBlank(Split(Trim(text), '\n'))
  }

  /** A parsed data row brought to the header width: padded with empty
      cells when short, cut when long, the leading cells kept. */
  function FitToWidth(row: seq<string>, width: nat): (r: seq<string>)
    ensures |r| == width
    ensures forall i :: 0 <= i < width && i < |row| ==> r[i] == row[i]
    ensures forall i :: |row| <= i < width ==> r[i] == ""
  {
    if |row| >= width then row[..width] else row + seq(width - |row|, _ => "")
  }

  /** The padding loop of `parseMarkdown`: push empty cells while the row is
      short, then splice off what is past the header width. */
  method PadRow(row: seq<string>, width: nat) returns (r: seq<string>)
    ensures r == FitToWidth(row, width)
  {
    r := row;
    if |r| != width {
      while |r| < width
        invariant |r| >= |row| && r[..|row|] == row
        invariant |row| > width ==> r == row
        invariant |row| <= width ==> |r| <= width
        invariant forall i :: |row| <= i < |r| ==> r[i] == ""
      {
        r := r + [""];
      }
      if |r| > width {
        r := r[..width];
      }
    }
  }

  function ClassifyAll(cells: seq<string>): (r: seq<Alignment>)
    ensures |r| == |cells|
    ensures forall i :: 0 <= i < |cells| ==> r[i] == Classify(Trim(cells[i]))
  {
    seq(|cells|, i requires 0 <= i < |cells| => Classify(Trim(cells[i])))
  }

  const TooFewLines := "Markdown table must have at least a header and separator row"
  const ColumnCountMismatch := "Header and separator row must have the same number of columns"

  /** `tableParser.parseMarkdown`. It fails when there are fewer than two
      non-blank lines or when the header and separator rows differ in cell
      count; otherwise every row has exactly one cell per header, with one
      alignment per header, and no cell holds a character `sanitizeInput`
      replaces. */
  function ParseMarkdown(text: string): (r: Result<Table>)
    ensures var lines := TableLines(text);
      r.Err? <==> |lines| < 2 || |ParseRow(lines[0])| != |ParseRow(lines[1])|
    ensures |TableLines(text)| < 2 ==> r == Err(TooFewLines)
    ensures r.Ok? ==> IsRectangular(r.value) && |r.value.rows| == |TableLines(text)| - 2
    ensures r.Ok? ==> forall i, j :: 0 <= i < |r.value.rows| && 0 <= j < |r.value.rows[i]| ==> NoMarkup(r.value.rows[i][j])
    ensures r.Ok? ==> |TableLines(text)| >= 2 && r.value.headers == SanitizeAll(ParseRow(TableLines(text)[0]))
    ensures r.Ok? ==> |TableLines(text)| >= 2 && r.value.alignments == ClassifyAll(ParseRow(TableLines(text)[1]))
    ensures r.Ok? ==> |TableLines(text)| >= 2 && r.value.rows == DataRows(TableLines(text)[2..], |ParseRow(TableLines(text)[0])|)
  {
    var lines := TableLines(text);
    if |lines| < 2 then Err(TooFewLines)
    else
      var headers := ParseRow(lines[0]);
      var separatorCells := ParseRow(lines[1]);
      if |headers| != |separatorCells| then Err(ColumnCountMismatch)
      else
        Ok(Table(SanitizeAll(headers), ClassifyAll(separatorCells), DataRows(lines[2..], |headers|)))
  }

  /** The data rows of `parseMarkdown`: each line split into cells, brought
      to the header width and sanitised. */
  function DataRows(lines: seq<string>, width: nat): (r: seq<seq<string>>)
    ensures |r| == |lines|
    ensures forall i :: 0 <= i < |r| ==> |r[i]| == width
    ensures forall i, j :: 0 <= i < |r| && 0 <= j < |r[i]| ==> NoMarkup(r[i][j])
    ensures forall i, j :: 0 <= i < |r| && 0 <= j < width ==>
      r[i][j] == if j < |ParseRow(lines[i])| then Sanitize(ParseRow(lines[i])[j]) else ""
  {
    assert NoMarkup("");
    seq(|lines|, i requires 0 <= i < |lines| => SanitizeAll(FitToWidth(ParseRow(lines[i]), width)))
  }

  /** What `tableParser.parse` hands back: a parsed markdown table, or input
      routed to the HTML table parser, which is not part of this model. */
  datatype ParsedInput = MarkdownInput(table: Table) | HtmlInput(html: string)

  const EmptyInput := "Please enter a markdown or HTML table"

  /** `tableParser.parse`: blank input is refused; input whose lower-cased
      text contains `<table` goes to the HTML parser; anything else is parsed
      as markdown. */
  function Parse(input: string): (r: Result<ParsedInput>)
    ensures IsBlank(input) ==> r == Err(EmptyInput)
    ensures r.Ok? && r.value.HtmlInput? ==> Includes(Lower(Trim(input)), "<table")
    ensures !IsBlank(input) && Includes(Lower(Trim(input)), "<table") ==> r == Ok(HtmlInput(Trim(input)))
    ensures r.Ok? && r.value.MarkdownInput? ==> IsRectangular(r.value.table)
    ensures !IsBlank(input) && !Includes(Lower(Trim(input)), "<table") ==>
      match ParseMarkdown(Trim(input))
      case Ok(t) => r == Ok(MarkdownInput(t))
      case Err(m) => r == Err(m)
  {
    BlankIffTrimEmpty(input);
    var trimmed := Trim(input);
    if trimmed == [] then Err(EmptyInput)
    else if Includes(Lower(trimmed), "<table") then Ok(HtmlInput(trimmed))
    else
      match ParseMarkdown(trimmed)
      case Ok(t) => Ok(MarkdownInput(t))
      case Err(m) => Err(m)
  }

  // ---------------------------------------------------------------------
  // outputGenerators

  function Markers(alignments: seq<Alignment>): (r: seq<string>)
    ensures |r| == |alignments|
    ensures forall i :: 0 <= i < |r| ==> r[i] == Marker(alignments[i])
  {
    seq(|alignments|, i requires 0 <= i < |alignments| => Marker(alignments[i]))
  }

  function RowLines(rows: seq<seq<string>>): (r: seq<string>)
    ensures |r| == |rows|
    ensures forall i :: 0 <= i < |r| ==> r[i] == RowLine(rows[i])
  {
    seq(|rows|, i requires 0 <= i < |rows| => RowLine(rows[i]))
  }

  /** The lines of the markdown output: header, separator, one per row. */
  function MarkdownLines(t: Table): (r: seq<string>)
    ensures |r| == 2 + |t.rows|
  {
    [RowLine(t.headers), RowLine(Markers(t.alignments))] + RowLines(t.rows)
  }

  /** The markdown output generator. The header, separator and row block are
      joined by line breaks, the row block left out when there are no rows
      (`filter(Boolean)`; the header and separator lines are never empty).
      The output is exactly the lines of `MarkdownLines`. */
  function GenerateMarkdown(t: Table): (r: string)
    ensures r == Join(MarkdownLines(t), "\n")
  {
    var separator := RowLine(Markers(t.alignments));
    var header := RowLine(t.headers);
    var rows := Join(RowLines(t.rows), "\n");
    if t.rows == [] then
      assert MarkdownLines(t) == [header, separator];
      Join([header, separator], "\n")
    else
      JoinConcat([header, separator], RowLines(t.rows), "\n");
      JoinAppend([header, separator], rows, "\n");
      JoinFirst(RowLines(t.rows), "\n");
      assert rows != "";
      Join([header, separator] + [rows], "\n")
  }

  lemma {:induction false} JoinFirst(parts: seq<string>, sep: string)
    requires |parts| >= 1
    ensures |Join(parts, sep)| >= |parts[0]|
  {
  }

  /** The JSON output generator, before `JSON.stringify`: one entry per row
      whose first cell, with `**` removed, is not empty; under it, for each
      column after the first, the header with `**` removed mapped to the
      lower-cased cell, or to `no` for an empty cell. A later row with the
      same name replaces the earlier entry's value in place. */
  method GenerateServiceJson(t: Table) returns (r: OMap<OMap<string>>)
    ensures r == ServiceJson(t.headers, t.rows)
  {
    r := [];
    var k := 0;
    while k < |t.rows|
      invariant 0 <= k <= |t.rows|
      invariant r == ServiceJson(t.headers, t.rows[..k])
    {
      var row := t.rows[k];
      var serviceName := if row == [] then "" else RemoveDoubleStars(row[0]);
      if serviceName != "" {
        var entry := BuildServiceEntry(t.headers, row);
        r := Set(r, serviceName, entry);
      }
      assert t.rows[..k + 1][..k] == t.rows[..k];
      assert ServiceName(row) == serviceName;
      k := k + 1;
    }
    assert t.rows[..k] == t.rows;
  }

  /** The column loop of the JSON generator for one row. */
  method BuildServiceEntry(headers: seq<string>, row: seq<string>) returns (entry: OMap<string>)
    ensures entry == ServiceEntry(headers, row, ColumnLimit(headers))
  {
    entry := [];
    var i := 1;
    while i < |headers|
      invariant 1 <= i <= ColumnLimit(headers)
      invariant entry == ServiceEntry(headers, row, i)
    {
      entry := Set(entry, RemoveDoubleStars(headers[i]), CellValue(row, i));
      i := i + 1;
    }
    assert i == ColumnLimit(headers);
  }

  /** `row[i] ? row[i].toLowerCase() : 'no'`. */
  function CellValue(row: seq<string>, i: nat): (r: string)
    ensures i < |row| && row[i] != "" ==> r == Lower(row[i])
    ensures i >= |row| || row[i] == "" ==> r == "no"
  {
    if i < |row| && row[i] != "" then Lower(row[i]) else "no"
  }

  /** Where the column loop stops: `headers.length`, or 1 when that loop
      never runs. */
  function ColumnLimit(headers: seq<string>): nat
  {
    if |headers| == 0 then 1 else |headers|
  }

  /** The object built for one row from the columns `1..upTo`: each key
      holds the value of the last column that writes it. */
  function ServiceEntry(headers: seq<string>, row: seq<string>, upTo: nat): (r: OMap<string>)
    requires 1 <= upTo <= ColumnLimit(headers)
    ensures UniqueKeys(r)
    decreases upTo
  {
    if upTo == 1 then []
    else
      var prev := ServiceEntry(headers, row, upTo - 1);
      SetUnique(prev, RemoveDoubleStars(headers[upTo - 1]), CellValue(row, upTo - 1));
      Set(prev, RemoveDoubleStars(headers[upTo - 1]), CellValue(row, upTo - 1))
  }

  /** Under each header key is the value of the last column with that key. */
  lemma {:induction false} ServiceEntryLastColumnWins(headers: seq<string>, row: seq<string>, upTo: nat, i: nat)
    requires 1 <= upTo <= ColumnLimit(headers) && 1 <= i < upTo
    requires forall j :: i < j < upTo ==> RemoveDoubleStars(headers[j]) != RemoveDoubleStars(headers[i])
    ensures Get(ServiceEntry(headers, row, upTo), RemoveDoubleStars(headers[i])) == Some(CellValue(row, i))
  {
    var prev := ServiceEntry(headers, row, upTo - 1);
    var key := RemoveDoubleStars(headers[upTo - 1]);
    var value := CellValue(row, upTo - 1);
    assert ServiceEntry(headers, row, upTo) == Set(prev, key, value);
    if i < upTo - 1 {
      ServiceEntryLastColumnWins(headers, row, upTo - 1, i);
      GetSetOther(prev, key, value, RemoveDoubleStars(headers[i]));
    } else {
      GetSetSame(prev, key, value);
    }
  }

  /** The JSON output for the rows `rows`. */
  function ServiceJson(headers: seq<string>, rows: seq<seq<string>>): (r: OMap<OMap<string>>)
    ensures UniqueKeys(r)
  {
    if rows == [] then []
    else
      var prev := ServiceJson(headers, rows[..|rows| - 1]);
      var row := rows[|rows| - 1];
      var serviceName := ServiceName(row);
      if serviceName == "" then prev
      else
        SetUnique(prev, serviceName, ServiceEntry(headers, row, ColumnLimit(headers)));
        Set(prev, serviceName, ServiceEntry(headers, row, ColumnLimit(headers)))
  }

  /** The name a row is filed under, `""` when it is skipped. */
  function ServiceName(row: seq<string>): string
  {
    if row == [] then "" else RemoveDoubleStars(row[0])
  }

  /** A named row is in the output, under its name, with the object built
      from its own cells, unless a later row has the same name; nothing else
      is in the output. */
  lemma ServiceJsonLastRowWins(headers: seq<string>, rows: seq<seq<string>>, k: nat)
    requires k < |rows| && ServiceName(rows[k]) != ""
    requires forall j :: k < j < |rows| ==> ServiceName(rows[j]) != ServiceName(rows[k])
    ensures Get(ServiceJson(headers, rows), ServiceName(rows[k])) == Some(ServiceEntry(headers, rows[k], ColumnLimit(headers)))
  {
    ServicePrefixLastRowWins(headers, rows, k, |rows|);
    assert rows[..|rows|] == rows;
  }

  /** The same for the output of the first `m` rows. */
  lemma {:induction false} ServicePrefixLastRowWins(headers: seq<string>, rows: seq<seq<string>>, k: nat, m: nat)
    requires k < m <= |rows| && ServiceName(rows[k]) != ""
    requires forall j :: k < j < m ==> ServiceName(rows[j]) != ServiceName(rows[k])
    ensures Get(ServiceJson(headers, rows[..m]), ServiceName(rows[k])) == Some(ServiceEntry(headers, rows[k], ColumnLimit(headers)))
    decreases m, 1
  {
    if k < m - 1 {
      ServicePrefixEarlierRow(headers, rows, k, m);
    } else {
      assert rows[..m][m - 1] == rows[k];
      ServiceJsonLastRow(headers, rows[..m]);
    }
  }

  lemma {:induction false} ServicePrefixEarlierRow(headers: seq<string>, rows: seq<seq<string>>, k: nat, m: nat)
    requires k < m - 1 && m <= |rows| && ServiceName(rows[k]) != ""
    requires forall j :: k < j < m ==> ServiceName(rows[j]) != ServiceName(rows[k])
    ensures Get(ServiceJson(headers, rows[..m]), ServiceName(rows[k])) == Some(ServiceEntry(headers, rows[k], ColumnLimit(headers)))
    decreases m, 0
  {
    var front := rows[..m];
    assert front[m - 1] == rows[m - 1];
    ServicePrefixLastRowWins(headers, rows, k, m - 1);
    assert front[..m - 1] == rows[..m - 1];
    ServiceJsonOtherKey(headers, front, ServiceName(rows[k]));
  }

  /** The last row leaves every key but its own name as it was. */
  lemma ServiceJsonOtherKey(headers: seq<string>, rows: seq<seq<string>>, key: string)
    requires rows != [] && key != ServiceName(rows[|rows| - 1])
    ensures Get(ServiceJson(headers, rows), key) == Get(ServiceJson(headers, rows[..|rows| - 1]), key)
  {
    var n := |rows| - 1;
    var prev := ServiceJson(headers, rows[..n]);
    var name := ServiceName(rows[n]);
    if name != "" {
      GetSetOther(prev, name, ServiceEntry(headers, rows[n], ColumnLimit(headers)), key);
    }
  }

  /** A named last row is in the output under its name. */
  lemma ServiceJsonLastRow(headers: seq<string>, rows: seq<seq<string>>)
    requires rows != [] && ServiceName(rows[|rows| - 1]) != ""
    ensures Get(ServiceJson(headers, rows), ServiceName(rows[|rows| - 1]))
      == Some(ServiceEntry(headers, rows[|rows| - 1], ColumnLimit(headers)))
  {
    var n := |rows| - 1;
    GetSetSame(ServiceJson(headers, rows[..n]), ServiceName(rows[n]), ServiceEntry(headers, rows[n], ColumnLimit(headers)));
  }

  lemma {:induction false} ServiceJsonKeys(headers: seq<string>, rows: seq<seq<string>>, name: string)
    ensures HasKey(ServiceJson(headers, rows), name) <==> name != "" && NamedRow(rows, name)
  {
    if rows != [] {
      var n := |rows| - 1;
      ServiceJsonKeys(headers, rows[..n], name);
      NamedRowStep(rows, name);
      var nm := ServiceName(rows[n]);
      if nm != "" {
        HasKeySet(ServiceJson(headers, rows[..n]), nm, ServiceEntry(headers, rows[n], ColumnLimit(headers)), name);
      }
    }
  }

  /** Some row is filed under `name`. */
  predicate NamedRow(rows: seq<seq<string>>, name: string)
  {
    exists k :: 0 <= k < |rows| && ServiceName(rows[k]) == name
  }

  lemma NamedRowStep(rows: seq<seq<string>>, name: string)
    requires rows != []
    ensures NamedRow(rows, name) <==> NamedRow(rows[..|rows| - 1], name) || ServiceName(rows[|rows| - 1]) == name
  {
    var n := |rows| - 1;
    if NamedRow(rows, name) {
      var k :| 0 <= k < |rows| && ServiceName(rows[k]) == name;
      if k < n { assert rows[..n][k] == rows[k]; }
    }
    if NamedRow(rows[..n], name) {
      var k :| 0 <= k < n && ServiceName(rows[..n][k]) == name;
      assert rows[k] == rows[..n][k];
    }
  }

  // ---------------------------------------------------------------------
  // the markdown output read back by the parser

  function Pads(cells: seq<string>): (r: seq<string>)
    ensures |r| == |cells|
    ensures forall i :: 0 <= i < |cells| ==> r[i] == " " + cells[i] + " "
  {
    seq(|cells|, i requires 0 <= i < |cells| => " " + cells[i] + " ")
  }

  lemma {:induction false} PadsJoin(cells: seq<string>)
    requires |cells| >= 1
    ensures Join(Pads(cells), "|") == " " + Join(cells, " | ") + " "
  {
    if |cells| > 1 {
      PadsJoin(cells[1..]);
      assert Pads(cells)[1..] == Pads(cells[1..]);
    }
  }

  /** A row line is the padded cells between pipes. */
  lemma {:induction false} RowLineAsJoin(cells: seq<string>)
    requires |cells| >= 1
    ensures RowLine(cells) == Join([""] + Pads(cells) + [""], "|")
  {
    var p := Pads(cells);
    PadsJoin(cells);
    JoinAppend(p, "", "|");
    JoinConcat([""], p + [""], "|");
    assert [""] + p + [""] == [""] + (p + [""]);
  }

  /** The splitter reads a row line back as the cells it was written from. */
  lemma {:induction false} ParseRowLine(cells: seq<string>)
    requires |cells| >= 1
    requires forall i :: 0 <= i < |cells| ==> IsPlainCell(cells[i])
    ensures ParseRow(RowLine(cells)) == cells
  {
    var p := Pads(cells);
    var parts := [""] + p + [""];
    RowLineAsJoin(cells);
    forall k | 0 <= k < |parts| ensures '|' !in parts[k] {
      if 1 <= k < |parts| - 1 {
        assert parts[k] == " " + cells[k - 1] + " ";
      }
    }
    SplitJoin(parts, '|');
    assert Split(RowLine(cells), '|') == parts;
    assert FirstKept(parts) == 1 && EndKept(parts) == |parts| - 1;
    assert parts[1..|parts| - 1] == p;
    forall i | 0 <= i < |cells| ensures Trim(p[i]) == cells[i] {
      TrimPadded(cells[i]);
    }
  }

  /** Lines that open and close with a pipe, joined, form a string that
      `trim` leaves alone and that is not blank. */
  lemma PipeLinesTrimmed(lines: seq<string>, sep: string)
    requires |lines| >= 1
    requires |lines[0]| >= 1 && lines[0][0] == '|'
    requires var l := lines[|lines| - 1]; |l| >= 1 && l[|l| - 1] == '|'
    ensures Trim(Join(lines, sep)) == Join(lines, sep) && !IsBlank(Join(lines, sep))
  {
    var m := Join(lines, sep);
    JoinHead(lines, sep);
    JoinLast(lines, sep);
    TrimOfTrimmed(m);
    BlankIffTrimEmpty(m);
  }

  lemma {:induction false} JoinHead(parts: seq<string>, sep: string)
    requires |parts| >= 1 && |parts[0]| >= 1
    ensures |Join(parts, sep)| >= 1 && Join(parts, sep)[0] == parts[0][0]
  {
  }

  lemma {:induction false} JoinLast(parts: seq<string>, sep: string)
    requires |parts| >= 1 && |parts[|parts| - 1]| >= 1
    ensures var j := Join(parts, sep); var l := parts[|parts| - 1];
      |j| >= 1 && j[|j| - 1] == l[|l| - 1]
  {
    if |parts| > 1 {
      JoinLast(parts[1..], sep);
    }
  }

  /** Lines that start and end with a pipe, joined by line breaks, are found
      again by `parseMarkdown`'s line splitting. */
  lemma {:induction false} TableLinesOfJoin(lines: seq<string>)
    requires |lines| >= 1
    requires forall i :: 0 <= i < |lines| ==>
      '\n' !in lines[i] && |lines[i]| >= 1 && lines[i][0] == '|' && lines[i][|lines[i]| - 1] == '|'
    ensures IsTrimmed(Join(lines, "\n")) && !IsBlank(Join(lines, "\n"))
    ensures TableLines(Join(lines, "\n")) == lines
  {
    var out := Join(lines, "\n");
    assert IsTrimmed(out) && !IsBlank(out) by {
      JoinHead(lines, "\n");
      JoinLast(lines, "\n");
    }
    assert Trim(out) == out by {
      TrimOfTrimmed(out);
    }
    assert Split(out, '\n') == lines by {
      SplitJoin(lines, '\n');
    }
    assert NonBlank(lines) == lines by {
      forall i | 0 <= i < |lines| ensures !IsBlank(lines[i]) {
        assert !IsWhiteSpace(lines[i][0]);
      }
      NonBlankKeepsAll(lines);
    }
  }

  lemma {:induction false} NoAngleInLower(s: string)
    requires '<' !in s
    ensures '<' !in Lower(s)
  {
    var l := Lower(s);
    forall i | 0 <= i < |l| ensures l[i] != '<' {
      assert s[i] in s;
    }
  }

  /** Text without `<` is never taken for an HTML table. */
  lemma NotHtml(s: string)
    requires '<' !in s
    ensures !Includes(Lower(s), "<table")
  {
    NoAngleInLower(s);
    var l := Lower(s);
    forall k ensures !OccursAt(l, "<table", k) {
      if 0 <= k < |l| {
        assert l[k] in l;
      }
    }
  }

  /** A row of plain cells gives a line without breaks or `<`. */
  lemma {:induction false} RowLineShape(cells: seq<string>)
    requires forall i :: 0 <= i < |cells| ==> IsPlainCell(cells[i])
    ensures '<' !in RowLine(cells) && '\n' !in RowLine(cells)
  {
    forall i | 0 <= i < |cells| ensures '<' !in cells[i] {
    }
    JoinChars(cells, " | ", '<');
    JoinChars(cells, " | ", '\n');
  }

  /** Plain cells survive parsing unchanged: trimming, `sanitizeInput` and
      fitting a row to its own width all leave them alone. */
  lemma PlainRowUnchanged(row: seq<string>)
    requires forall j :: 0 <= j < |row| ==> IsPlainCell(row[j])
    ensures SanitizeAll(FitToWidth(row, |row|)) == row
  {
  }

  predicate PlainTable(t: Table)
  {
    IsRectangular(t) && |t.headers| >= 1
    && (forall i :: 0 <= i < |t.headers| ==> IsPlainCell(t.headers[i]))
    && (forall i, j :: 0 <= i < |t.rows| && 0 <= j < |t.rows[i]| ==> IsPlainCell(t.rows[i][j]))
  }

  /** The generated text splits back into the lines it was joined from and
      holds no `<`. */
  lemma {:induction false} GeneratedLines(t: Table)
    requires PlainTable(t)
    ensures var out := GenerateMarkdown(t);
      IsTrimmed(out) && !IsBlank(out) && '<' !in out && TableLines(out) == MarkdownLines(t)
  {
    var lines := MarkdownLines(t);
    forall i | 0 <= i < |lines|
      ensures '\n' !in lines[i] && |lines[i]| >= 1 && lines[i][0] == '|' && lines[i][|lines[i]| - 1] == '|'
      ensures '<' !in lines[i]
    {
      if i == 0 {
        RowLineShape(t.headers);
      } else if i == 1 {
        RowLineShape(Markers(t.alignments));
      } else {
        assert lines[i] == RowLine(t.rows[i - 2]);
        RowLineShape(t.rows[i - 2]);
      }
    }
    TableLinesOfJoin(lines);
    JoinChars(lines, "\n", '<');
  }

  /** The data rows of a plain table's row lines are its rows. */
  lemma {:induction false} DataRowsOfLines(t: Table)
    requires PlainTable(t)
    ensures DataRows(RowLines(t.rows), |t.headers|) == t.rows
  {
    var r := DataRows(RowLines(t.rows), |t.headers|);
    forall i | 0 <= i < |t.rows| ensures r[i] == t.rows[i] {
      ParseRowLine(t.rows[i]);
      PlainRowUnchanged(t.rows[i]);
    }
  }

  /** Reading the separator cells back gives the alignments they were
      written for. */
  lemma {:induction false} ClassifyMarkers(alignments: seq<Alignment>)
    ensures ClassifyAll(Markers(alignments)) == alignments
  {
    var markers := Markers(alignments);
    forall i | 0 <= i < |markers| ensures Classify(Trim(markers[i])) == alignments[i] {
      TrimOfTrimmed(Marker(alignments[i]));
    }
  }

  /** `parseMarkdown` yields a given table once its header, separator and
      data lines are known to read as that table's parts. */
  lemma {:induction false} ParseMarkdownOfParts(text: string, t: Table)
    requires var lines := TableLines(text);
      && |lines| >= 2
      && ParseRow(lines[0]) == t.headers
      && |ParseRow(lines[1])| == |t.headers|
      && ClassifyAll(ParseRow(lines[1])) == t.alignments
      && (forall i :: 0 <= i < |t.headers| ==> IsPlainCell(t.headers[i]))
      && DataRows(lines[2..], |t.headers|) == t.rows
    ensures ParseMarkdown(text) == Ok(t)
  {
    assert SanitizeAll(t.headers) == t.headers;
  }

  lemma {:induction false} HeaderLineParts(t: Table)
    requires PlainTable(t)
    ensures ParseRow(MarkdownLines(t)[0]) == t.headers
  {
    assert MarkdownLines(t)[0] == RowLine(t.headers);
    ParseRowLine(t.headers);
  }

  lemma {:induction false} SeparatorLineParts(t: Table)
    requires PlainTable(t)
    ensures |ParseRow(MarkdownLines(t)[1])| == |t.headers|
    ensures ClassifyAll(ParseRow(MarkdownLines(t)[1])) == t.alignments
  {
    var markers := Markers(t.alignments);
    assert MarkdownLines(t)[1] == RowLine(markers);
    ParseRowLine(markers);
    ClassifyMarkers(t.alignments);
  }

  lemma {:induction false} DataLineParts(t: Table)
    requires PlainTable(t)
    ensures DataRows(MarkdownLines(t)[2..], |t.headers|) == t.rows
  {
    assert MarkdownLines(t)[2..] == RowLines(t.rows);
    DataRowsOfLines(t);
  }

  /** Trimmed text without `<` goes to the markdown parser. */
  lemma {:induction false} ParseAsMarkdown(text: string)
    requires IsTrimmed(text) && !IsBlank(text) && '<' !in text
    requires ParseMarkdown(text).Ok?
    ensures Parse(text) == Ok(MarkdownInput(ParseMarkdown(text).value))
  {
    TrimOfTrimmed(text);
    NotHtml(text);
  }

  /** `parseMarkdown` reads the lines of a plain table's markdown as that
      table. */
  lemma {:induction false} ParseMarkdownOfLines(t: Table, text: string)
    requires PlainTable(t) && TableLines(text) == MarkdownLines(t)
    ensures ParseMarkdown(text) == Ok(t)
  {
    HeaderLineParts(t);
    SeparatorLineParts(t);
    DataLineParts(t);
    ParseMarkdownOfParts(text, t);
  }

  /** The markdown the editor writes parses back to the same table, when the
      table has at least one column and its cells are plain: trimmed, free
      of pipes and line breaks, already sanitised. */
  lemma {:induction false} MarkdownRoundTrip(t: Table)
    requires PlainTable(t)
    ensures Parse(GenerateMarkdown(t)) == Ok(MarkdownInput(t))
  {
    var out := GenerateMarkdown(t);
    GeneratedLines(t);
    ParseMarkdownOfLines(t, out);
    ParseAsMarkdown(out);
  }
}
