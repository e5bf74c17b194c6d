# Verified model of the toolz table, list, codec and feed tools

This project is a Dafny model of the logic behind seven small browser tools,
with proofs of what that logic promises. Each tool has one module, named
after its source file:

- `MdTableEditor`, `MdTableState` and `MdTableAnalyzer` model the markdown
  table editor (md-table-editor/js/app.js). They cover:
  - the row splitter, which keeps interior empty cells;
  - the alignment classification of the separator row;
  - the padding and truncation of rows to the header width;
  - HTML-entity sanitising, CSV escaping and structure validation;
  - the markdown and JSON output generators;
  - the `TableState` object with its bounded snapshot history and undo/redo
    cursor;
  - the structural `tableOperations`;
  - the yes-count analyzer and the most-common-value query.
- `JsonTableEditor` models the JSON table editor (json-table-editor/app.js):
  - a table whose column 0 holds row headers;
  - reading from markdown or from a parsed JSON object;
  - index-based insertion and deletion of rows and columns;
  - sorting and reordering;
  - the markdown and JSON generators.
- `SimpleMdEditor` models the plain markdown table editor
  (md-table-editor/app.js): parsing, edits at the right and bottom edges,
  column reordering and the markdown generator.
- `ProviderMatrix` models the service/provider support matrix
  (md-table-to-json/js/app.js):
  - markdown to a JSON object of `✅`/`❌` marks;
  - the provider merge;
  - JSON back to markdown.
- `SongComparison` models the fuzzy list matcher (song-comaprison/js/app.js):
  - list parsing and title normalisation;
  - the Levenshtein matrix;
  - the greedy, order-dependent pairing with its strict 0.8 threshold.
- `Encoder` models the base64url page (encoder/js/app.js):
  - input validation;
  - base64 as in section 4 of RFC 4648, with the alphabet remapped to the
    URL-safe one of section 5 and the padding stripped;
  - decoding with re-padding;
  - the most-recent-first input history and its arrow-key cursor.
- `OpmlEditor` models the OPML feed manager (opml-editor/js/app.js):
  - feed records built from `outline` attribute maps;
  - selection, filtering and removal;
  - escaping of the five predefined entities of XML 1.0 (section 4.6);
  - the OPML 2.0 document written back.

The shared modules capture the JavaScript the tools rely on:

- `Text`: `trim`, single-character `split`, `join`, case mapping, replacement,
  `String(n)`.
- `OrderedMap`: plain objects as insertion-ordered dictionaries.
- `JsValues`: parsed JSON values with `Object.entries`, `String(v)` and
  truthiness.
- `Splice`: `splice`, `pop` and index filtering on arrays.
- `RowSort`: the sort-rows comparison.
- `MarkdownSyntax`: the pipe-table syntax of GitHub Flavored Markdown,
  section 4.10 "Tables (extension)".
- `LooseRows`: the splitter of the two simpler editors.
- `Wrappers`: `Result` and `Option`.

Code that works step by step is modelled as methods:

- the objects whose fields change (`TableState`, the JSON editor's and the
  plain editor's `tableData`, the encoder page, the OPML feeds and feed
  manager, the converter's last result) are classes;
- loops are `while` loops with invariants.

Each such method is proved against a function of its inputs or of the old
state. What the source promises is then proved about those functions as
lemmas.

The three table editors are modelled separately because they differ. For
example, `removeRow` refuses at no rows in md-table-editor/js/app.js, but at
one row in md-table-editor/app.js.

## Model

| member | source | states |
|---|---|---|
| Text.Trim | md-table-editor/js/app.js:285 | the result has no white space at either end and is never longer than the input |
| Text.TrimSlice | md-table-editor/js/app.js:285 | the trimmed text sits in the input at some offset, with only white space before and after it |
| Text.TrimKeepsAbsent | md-table-editor/js/app.js:285 | trimming brings in no character the text lacked (with lines 402-405 of the same file) |
| Text.TrimIsIdempotent | md-table-editor/js/app.js:285-296 | trimming twice is trimming once |
| Text.BlankIffTrimEmpty | md-table-editor/js/app.js:281 | a string is all white space exactly when trimming leaves nothing |
| Text.TrimPadded | md-table-editor/js/app.js:408-416 | the single spaces the writers put around a trimmed cell are removed again by trimming |
| Text.LowerChar | md-table-editor/js/app.js:811 | no capital is left, other characters are unchanged, and white space stays white space |
| Text.UpperChar | md-table-to-json/js/app.js:135 | a small letter becomes the capital whose lower case it is; anything else is unchanged |
| Text.Lower | md-table-editor/js/app.js:811 | same length, each character lower-cased |
| Text.Utf16LengthBounds | encoder/js/app.js:24 | a string's JavaScript length is between its character count and twice it, and equals the count exactly when no character lies above U+FFFF |
| Text.LowerIsIdempotent | md-table-editor/js/app.js:725 | lower-casing twice is lower-casing once |
| Text.LowerTrimCommute | md-table-to-json/js/app.js:125 | lower-casing and trimming can be done in either order |
| Text.Split | md-table-editor/js/app.js:296 | at least one piece, and no piece holds the separator (with line 402 of the same file) |
| Text.SplitJoin | md-table-editor/js/app.js:402-417 | round trip: splitting undoes joining pieces that do not hold the separator |
| Text.JoinSplit | md-table-editor/js/app.js:296 | round trip: joining the pieces of a split gives the string back |
| Text.JoinChars | md-table-editor/js/app.js:416-417 | a character in neither the pieces nor the separator is not in the join |
| Text.Includes | md-table-editor/js/app.js:181 | true exactly when the pattern occurs somewhere in the string |
| Text.IncludesChar | md-table-editor/js/app.js:181 | a one-character pattern occurs exactly when the character does |
| Text.ReplaceChar | md-table-editor/js/app.js:153-157 | after replacing every occurrence by text without the character, the character is gone |
| Text.ReplaceAbsent | md-table-editor/js/app.js:153-157 | replacing a character the string lacks changes nothing |
| Text.RemoveDoubleStars | md-table-to-json/js/app.js:72-80 | the result is never longer |
| Text.RemoveDoubleStarsNoStar | md-table-to-json/js/app.js:72-80 | a string without `*` is unchanged |
| Text.RemoveDoubleStarsBold | md-table-to-json/js/app.js:72 | round trip: removing `**` from a bold name without stars gives the name back (with line 224 of the same file) |
| Text.NatToString | md-table-editor/js/app.js:806-813 | at least one digit, all decimal digits, no leading zero for a positive number |
| Text.NatToStringRoundTrip | md-table-editor/js/app.js:806-813 | round trip: the digits printed read back as the number |
| OrderedMap.Keys | md-table-to-json/js/app.js:219-220 | one key per entry, in insertion order |
| OrderedMap.Get | md-table-to-json/js/app.js:228 | a value exactly when the object has the key |
| OrderedMap.Set | md-table-to-json/js/app.js:84 | the object keeps its entries or gains exactly one |
| OrderedMap.GetSetSame | md-table-to-json/js/app.js:84 | after an assignment the key reads the new value |
| OrderedMap.GetSetOther | md-table-to-json/js/app.js:84 | after an assignment every other key reads what it read before |
| OrderedMap.SetKeys | md-table-to-json/js/app.js:84 | an existing key keeps its position; a new key goes to the end (with line 174 of the same file) |
| OrderedMap.SetUnique | md-table-to-json/js/app.js:84 | assignment never makes a key occur twice (with line 174 of the same file) |
| OrderedMap.GetAt | md-table-to-json/js/app.js:228 | with unique keys, a key reads the value stored at its position |
| OrderedMap.AssignedLastWins | json-table-editor/app.js:434-441 | a key reads the value of its last assignment |
| OrderedMap.AssignedKeys | json-table-editor/app.js:434-441 | the object's keys are exactly the assigned keys |
| OrderedMap.AssignedUnique | md-table-to-json/js/app.js:156-162 | assignments build an object with each key once |
| OrderedMap.SetNew | md-table-to-json/js/app.js:174 | assigning a key the object lacks appends it |
| OrderedMap.SetAppended | md-table-to-json/js/app.js:180 | assigning again the key appended last replaces its value in place |
| OrderedMap.AssignedOfUnique | md-table-to-json/js/app.js:184-187 | assigning the entries of an object with unique keys copies it |
| OrderedMap.AssignedValuesIn | md-table-to-json/js/app.js:159-161 | assigning only values from a set gives an object whose values are all from it |
| OrderedMap.Applied | md-table-to-json/js/app.js:75-99 | a loop step that may skip keeps keys unique |
| OrderedMap.AssignedSome | md-table-to-json/js/app.js:74-99 | the object such a loop builds has each key once |
| OrderedMap.AssignedSomeLastWins | md-table-to-json/js/app.js:74-99 | a key reads the value of its last assignment, skipped steps aside |
| OrderedMap.AssignedSomeKeys | md-table-to-json/js/app.js:74-99 | the object's keys are exactly the keys of the steps that assign |
| JsValues.Entries | json-table-editor/app.js:118-130 | fails exactly on `null`; an object gives its fields, an array or string one entry per element under its decimal index |
| JsValues.Values | json-table-editor/app.js:122-131 | the values of the entries, in order |
| JsValues.ToJsString | json-table-editor/app.js:131 | a string is itself, a number its decimal text, `null` is "null" |
| JsValues.ElementString | json-table-editor/app.js:131 | a `null` element of an array prints as nothing |
| Splice.InsertAt | json-table-editor/app.js:236-238 | one element longer; the element at the position (at the end for a position past it); those before kept, those after shifted by one; a permutation of the old elements plus the new one |
| Splice.RemoveAt | md-table-editor/js/app.js:690-692 | one element shorter when the position exists, otherwise unchanged; those before kept, those after shifted back by one |
| Splice.RemoveInserted | json-table-editor/app.js:236-276 | inverse: removing what was just inserted gives the sequence back |
| Splice.Move | json-table-editor/app.js:341-345 | same length, a permutation, and the moved element ends at the target (or at the end) |
| Splice.MoveBack | json-table-editor/app.js:341-345 | inverse: moving the element back to where it came from undoes a move |
| Splice.DropLast | md-table-editor/app.js:204-206 | an empty array stays empty; otherwise the array is the result plus its old last element |
| Splice.Without | json-table-editor/app.js:274-280 | never longer than the input |
| Splice.WithoutNone | json-table-editor/app.js:274-280 | dropping no index that exists keeps everything |
| Splice.WithoutCount | json-table-editor/app.js:274-280 | the kept count plus the dropped indices that exist is the length |
| Splice.WithoutSingle | json-table-editor/app.js:276 | dropping one index is one `splice` at that index |
| Splice.RemoveAtWithout | json-table-editor/app.js:272-280 | splicing out an index above every one already dropped drops it too |
| Splice.Largest | json-table-editor/app.js:272 | the largest index of the selection |
| Splice.RemoveDescending | json-table-editor/app.js:272-280 | removing the selected indices largest first by `splice` drops exactly the selected positions, keeping the order of the rest |
| Splice.DescendingStep | json-table-editor/app.js:272-280 | one removal drops the largest remaining index and keeps every remaining index below every removed one |
| Splice.AppendToEach | md-table-editor/app.js:187 | every row gets the value appended, the row count kept |
| Splice.InsertAtEach | json-table-editor/app.js:238 | every row gets the value spliced in at the index, the row count kept |
| Splice.RemoveAtEach | md-table-editor/js/app.js:692 | every row loses the cell at the index, the row count kept |
| Splice.DropLastEach | md-table-editor/app.js:206 | every row loses its last cell, the row count kept |
| Splice.MovedInEach | json-table-editor/app.js:348 | the same move in every row: the row count kept, each row keeping its length and its elements |
| Splice.MoveInEach | json-table-editor/app.js:348 | the row loop computes exactly `MovedInEach` |
| Splice.MoveFromSame | json-table-editor/app.js:341-345 | every element after a move was an element before it |
| Splice.MoveOrFill | md-table-editor/app.js:173-181 | a move when the element exists; otherwise `splice(from, 1)` removes nothing and the filler standing for `undefined` is inserted at the target, one element longer |
| Splice.MovedOrFilledInEach | md-table-editor/app.js:173-181 | the row count kept; a row that reaches the index keeps its length and elements; a shorter row gains exactly the filler |
| Splice.MovedOrFilledWhenReached | md-table-editor/app.js:173-181 | when every row reaches the index, the loop is the plain move in every row |
| Splice.MoveOrFillInEach | md-table-editor/app.js:173-181 | the row loop computes exactly `MovedOrFilledInEach` |
| Splice.RemoveDescendingEach | json-table-editor/app.js:278 | every row drops exactly the selected columns, the row count kept |
| RowSort.SortKey | md-table-editor/js/app.js:725 | the sort key is the lower-cased first cell, or "" for an empty row |
| RowSort.LexLeTotal | md-table-editor/js/app.js:724-726 | the comparison orders any two keys |
| RowSort.LexLeTransitive | md-table-editor/js/app.js:724-726 | the comparison is transitive |
| RowSort.LexLeAntisymmetric | md-table-editor/js/app.js:724-726 | keys ordered both ways are equal |
| RowSort.SortRows | md-table-editor/js/app.js:724-726 | the sorted rows are ordered by key, are a permutation of the input rows, and rows with equal keys keep their relative order (the sort is stable) |
| RowSort.InsertKeepsSorted | md-table-editor/js/app.js:724-726 | inserting a row between its key neighbours keeps the rows ordered |
| RowSort.InsertSorted | md-table-editor/js/app.js:724-726 | one insertion step keeps the rows ordered, adds exactly that row, and places it after every row with its key |
| RowSort.RowsWithKey | md-table-editor/js/app.js:724-726 | the rows with one key, in order, are never more than the rows |
| RowSort.RowsWithKeyConcat | md-table-editor/js/app.js:724-726 | the rows with a key of a concatenation are those of each part, concatenated |
| RowSort.RowsWithKeyNone | md-table-editor/js/app.js:724-726 | rows none of which has the key contribute nothing |
| RowSort.InsertedStable | md-table-editor/js/app.js:724-726 | inserting a row after every row with its key appends it to its key's subsequence and leaves every other key's subsequence alone |
| RowSort.InsertedStableAt | md-table-editor/js/app.js:724-726 | the same for one key, the row placed before rows of other keys only |
| MarkdownSyntax.Classify | md-table-editor/js/app.js:309-314 | a separator cell centres when it starts and ends with `:`, right-aligns when it only ends with `:`, and left-aligns otherwise; the three cases are exclusive |
| MarkdownSyntax.Marker | md-table-editor/js/app.js:22-26 | every marker `:---:`, `---:`, `:---` classifies back to the alignment it was written for, and is a plain cell |
| MarkdownSyntax.EscapeMarkup | md-table-editor/js/app.js:151-158 | after the four replacements no `<`, `>`, `"` or `'` is left |
| MarkdownSyntax.EscapeMarkupOfPlain | md-table-editor/js/app.js:151-158 | text without those four characters comes through unchanged |
| MarkdownSyntax.EscapeMarkupIdempotent | md-table-editor/js/app.js:151-158 | escaping twice is escaping once |
| MarkdownSyntax.RowLine | md-table-editor/js/app.js:416-417 | a row line starts and ends with a pipe |
| MdTableEditor.SanitizeInput | md-table-editor/js/app.js:151-158 | a non-string becomes the empty string; the result never holds `<`, `>`, `"` or `'`; a string without them is returned unchanged |
| MdTableEditor.Sanitize | md-table-editor/js/app.js:153-157 | on a string: no markup character is left, plain text is unchanged, and nothing gets shorter |
| MdTableEditor.SanitizeAll | md-table-editor/js/app.js:328-330 | every cell is sanitised, in place, and the count is kept |
| MdTableEditor.EscapeCsv | md-table-editor/js/app.js:179-185 | a non-string becomes ""; a field without comma, quote or line break is unchanged; any other is wrapped in quotes |
| MdTableEditor.EscapeCsvRoundTrip | md-table-editor/js/app.js:179-185 | round trip: reading an escaped field back (quotes removed, doubled quotes halved) gives the original string |
| MdTableEditor.ValidateTableStructure | md-table-editor/js/app.js:187-205 | it returns normally exactly when there is a header and every row is as wide as it; otherwise it reports "Headers must be a non-empty array" or the first row of the wrong width with its message |
| MdTableEditor.TrimAll | md-table-editor/js/app.js:408 | each cell is trimmed, the count kept |
| MdTableEditor.ParseRow | md-table-editor/js/app.js:401-409 | the cells are the trimmed pieces between pipes, dropping a blank piece only in the first and last position, so interior empty cells survive; no cell holds a pipe or surrounding white space |
| MdTableEditor.NonBlank | md-table-editor/js/app.js:296 | only non-blank lines are kept, never more lines than were given |
| MdTableEditor.NonBlankKeepsAll | md-table-editor/js/app.js:296 | lines none of which is blank are all kept, in order |
| MdTableEditor.FitToWidth | md-table-editor/js/app.js:318-323 | a data row gets exactly the header width: its leading cells kept, padded with empty cells |
| MdTableEditor.PadRow | md-table-editor/js/app.js:318-323 | the push-then-splice loop yields exactly `FitToWidth` |
| MdTableEditor.ClassifyAll | md-table-editor/js/app.js:309-314 | one alignment per separator cell, each classified from the trimmed cell |
| MdTableEditor.ParseMarkdown | md-table-editor/js/app.js:295-332 | parsing fails exactly when there are fewer than two non-blank lines or the header and separator widths differ; a result is rectangular with no markup character in any cell; its headers are the sanitised cells of the first line, its alignments the classified cells of the second, and its rows `DataRows` of the further lines at the header width |
| MdTableEditor.DataRows | md-table-editor/js/app.js:316-330 | one row per line, each exactly as wide as the header; cell j is the sanitised j-th parsed cell of its line when the line has one, and "" otherwise, so a short row is padded and a long one cut with its leading cells kept |
| MdTableEditor.Parse | md-table-editor/js/app.js:280-293 | blank input is refused; HTML is recognised only when the lower-cased trimmed input contains `<table`; otherwise the result is that of the markdown parser on the trimmed input |
| MdTableEditor.Markers | md-table-editor/js/app.js:415 | one marker per alignment |
| MdTableEditor.RowLines | md-table-editor/js/app.js:417 | one line per row |
| MdTableEditor.MarkdownLines | md-table-editor/js/app.js:414-419 | the output has exactly two lines more than there are rows |
| MdTableEditor.GenerateMarkdown | md-table-editor/js/app.js:414-419 | the output is the header line, the separator line and one line per row, joined by line breaks, with an empty row block dropped |
| MdTableEditor.GenerateServiceJson | md-table-editor/js/app.js:421-434 | the row loop builds exactly `ServiceJson` |
| MdTableEditor.BuildServiceEntry | md-table-editor/js/app.js:426-430 | the column loop builds exactly `ServiceEntry` over all columns |
| MdTableEditor.CellValue | md-table-editor/js/app.js:429 | a non-empty cell gives its lower-cased text; a missing or empty one gives "no" |
| MdTableEditor.ServiceEntry | md-table-editor/js/app.js:426-430 | no key occurs twice in a row's object |
| MdTableEditor.ServiceEntryLastColumnWins | md-table-editor/js/app.js:427-430 | each header key, `**` removed, holds the value of the last column that writes it |
| MdTableEditor.ServiceJson | md-table-editor/js/app.js:422-432 | no service name occurs twice in the output |
| MdTableEditor.ServiceJsonLastRowWins | md-table-editor/js/app.js:423-432 | a named row is in the output under its name with its own object, unless a later row has the same name |
| MdTableEditor.ServicePrefixLastRowWins | md-table-editor/js/app.js:423-432 | the same after any prefix of the rows that holds the named row and no later row of that name |
| MdTableEditor.ServiceJsonOtherKey | md-table-editor/js/app.js:423-432 | one more row leaves every other name's entry as it was |
| MdTableEditor.ServiceJsonLastRow | md-table-editor/js/app.js:423-432 | the last named row is in the output under its name with its own object |
| MdTableEditor.ServiceJsonKeys | md-table-editor/js/app.js:424-426 | the output's keys are exactly the non-empty names of rows |
| MdTableEditor.RowLineAsJoin | md-table-editor/js/app.js:417 | a row line is the space-padded cells between pipes |
| MdTableEditor.ParseRowLine | md-table-editor/js/app.js:401-417 | the splitter reads a written row line back as the plain cells it was written from |
| MdTableEditor.TableLinesOfJoin | md-table-editor/js/app.js:296 | pipe-delimited lines joined by line breaks are trimmed, non-blank, and split back into those lines (with line 418 of the same file) |
| MdTableEditor.NotHtml | md-table-editor/js/app.js:288 | text without `<` is never taken for an HTML table |
| MdTableEditor.RowLineShape | md-table-editor/js/app.js:417 | a row of plain cells gives a line without breaks or `<` |
| MdTableEditor.PlainRowUnchanged | md-table-editor/js/app.js:316-330 | plain cells survive fitting and sanitising unchanged |
| MdTableEditor.GeneratedLines | md-table-editor/js/app.js:414-419 | the output of a plain table splits back into the lines it was joined from, each pipe-delimited, and holds no `<` |
| MdTableEditor.DataRowsOfLines | md-table-editor/js/app.js:316-330 | the data rows read from a plain table's row lines are its rows (with line 417 of the same file) |
| MdTableEditor.ClassifyMarkers | md-table-editor/js/app.js:22-26 | the separator cells read back as the alignments they were written for (with lines 309-314 of the same file) |
| MdTableEditor.ParseMarkdownOfParts | md-table-editor/js/app.js:295-332 | the parser yields a table once its header, separator and data lines read as that table's parts |
| MdTableEditor.HeaderLineParts | md-table-editor/js/app.js:302 | the header line reads back as the headers (with line 416 of the same file) |
| MdTableEditor.SeparatorLineParts | md-table-editor/js/app.js:303-314 | the separator line has one cell per header and reads back as the alignments (with line 415 of the same file) |
| MdTableEditor.DataLineParts | md-table-editor/js/app.js:316-330 | the lines after the separator read back as the rows (with line 417 of the same file) |
| MdTableEditor.ParseAsMarkdown | md-table-editor/js/app.js:280-293 | trimmed non-blank text without `<` goes to the markdown parser |
| MdTableEditor.ParseMarkdownOfLines | md-table-editor/js/app.js:295-332 | the markdown parser reads the lines of a plain table's output as that table (with lines 414-419 of the same file) |
| MdTableEditor.MarkdownRoundTrip | md-table-editor/js/app.js:280-332 | round trip: a rectangular table of plain cells, written as markdown and parsed again, gives the same headers, alignments and rows (with lines 414-419 of the same file) |
| MdTableState.BlankRow | md-table-editor/js/app.js:673 | a blank row has the requested width and only empty cells |
| MdTableState.WithColumn | md-table-editor/js/app.js:661-663 | adding a column keeps the table rectangular, adds one header "New Column" with a left alignment at the end and an empty last cell to every row |
| MdTableState.WithoutLastColumn | md-table-editor/js/app.js:689-692 | removing the last column keeps the table rectangular with one column fewer and the same number of rows |
| MdTableState.RemoveColumnUndoesAdd | md-table-editor/js/app.js:661-692 | removing the column just added gives the table back |
| MdTableState.WithRow | md-table-editor/js/app.js:673-674 | adding a row keeps the table rectangular, the headers, alignments and earlier rows unchanged, and one more row |
| MdTableState.WithoutLastRow | md-table-editor/js/app.js:708 | removing a row keeps the table rectangular with one row fewer and the same headers |
| MdTableState.RemoveRowUndoesAdd | md-table-editor/js/app.js:673-708 | removing the row just added gives the table back |
| MdTableState.ColumnMoved | md-table-editor/js/app.js:732-742 | the column move keeps the table rectangular, with as many columns and rows as before |
| MdTableState.ColumnMovedKeeps | md-table-editor/js/app.js:732-742 | headers, alignments and each row are permutations of what they were |
| MdTableState.ColumnMovedBack | md-table-editor/js/app.js:732-742 | moving the column back restores the table |
| MdTableState.RowMoved | md-table-editor/js/app.js:744-748 | the row move keeps the table rectangular and the rows a permutation of what they were |
| MdTableState.RowMovedBack | md-table-editor/js/app.js:744-748 | moving the row back restores the table |
| MdTableState.RowDuplicated | md-table-editor/js/app.js:754-755 | duplication adds one row, an equal copy right after the original, and keeps the table rectangular |
| MdTableState.RowDuplicatedRemoved | md-table-editor/js/app.js:754-755 | deleting the copy gives the original rows back |
| MdTableState.RowInsertedAfter | md-table-editor/js/app.js:765-766 | an empty row of header width lands after the given row, or at the end when the index is past it |
| MdTableState.RowInsertedRemoved | md-table-editor/js/app.js:765-766 | deleting the inserted row gives the original rows back |
| MdTableState.Saved | md-table-editor/js/app.js:82-99 | after a save the cursor is on the new snapshot, which is last; the snapshots up to the old cursor are kept in front of it, the oldest dropped once there would be more than 50 |
| MdTableState.SavedWellFormed | md-table-editor/js/app.js:82-99 | a save keeps the history well formed: at most 50 snapshots, cursor -1 exactly when empty, all snapshots rectangular |
| MdTableState.UndoStep | md-table-editor/js/app.js:102-112 | undo succeeds exactly when the cursor is above 0, and then moves it down one and restores the snapshot it lands on |
| MdTableState.RedoStep | md-table-editor/js/app.js:115-125 | redo succeeds exactly when there is a snapshot after the cursor, and then moves onto it and restores it |
| MdTableState.UndoRedoWellFormed | md-table-editor/js/app.js:102-125 | undo and redo keep the history well formed and restore rectangular tables |
| MdTableState.RedoUndoesUndo | md-table-editor/js/app.js:102-125 | a redo right after an undo returns to the cursor and snapshot of before |
| MdTableState.UndoUndoesRedo | md-table-editor/js/app.js:102-125 | an undo right after a redo returns to the cursor and snapshot of before |
| MdTableState.UndoAfterSave | md-table-editor/js/app.js:82-108 | as written, an undo right after a save restores the snapshot that was under the cursor before the save, not the one just saved |
| MdTableState.UndoSkipsLastEdit | md-table-editor/js/app.js:82-108 | counterexample: parse a table, add a column, undo: the empty table from before the parse comes back, and the parse alone could not be undone (with lines 660-663 and 856-862 of the same file) |
| MdTableState.Record | md-table-editor/js/app.js:82-99 | corrected history: before an edit the current table is pushed on the undo stack (at most 50) and the redo stack is cleared |
| MdTableState.UndoTo | md-table-editor/js/app.js:102-112 | corrected undo succeeds exactly when something is remembered, shows the newest remembered table and remembers the current one for redo |
| MdTableState.RedoTo | md-table-editor/js/app.js:115-125 | corrected redo succeeds exactly when something was undone, shows the nearest undone table and remembers the current one for undo |
| MdTableState.CorrectedUndoRestoresEdit | md-table-editor/js/app.js:102-112 | with the corrected history an undo right after an edit shows the table from just before the edit, and a redo shows the edit again |
| MdTableState.CorrectedRedoAfterUndo | md-table-editor/js/app.js:102-125 | with the corrected history a redo undoes any successful undo |
| MdTableState.TableState.constructor | md-table-editor/js/app.js:71-79 | a new state holds the empty table, no snapshots, the cursor at -1, reorder mode off and markdown output |
| MdTableState.TableState.SaveToHistory | md-table-editor/js/app.js:82-99 | the history becomes `Saved` of the old history and the current table; the table is unchanged |
| MdTableState.TableState.Undo | md-table-editor/js/app.js:102-112 | succeeds exactly when `UndoStep` does and then takes on its history and table; otherwise nothing changes |
| MdTableState.TableState.Redo | md-table-editor/js/app.js:115-125 | succeeds exactly when `RedoStep` does and then takes on its history and table; otherwise nothing changes |
| MdTableState.TableState.Assign | md-table-editor/js/app.js:862 | the parsed headers, alignments and rows replace the table; the history is kept |
| MdTableState.TableState.Reset | md-table-editor/js/app.js:127-135 | the empty table, no snapshots, cursor -1, reorder mode off, markdown output |
| MdTableState.TableState.IsEmpty | md-table-editor/js/app.js:137-139 | empty exactly when there are no headers and no rows |
| MdTableState.TableState.IsValid | md-table-editor/js/app.js:141-143 | valid tables have a header; a rectangular table is valid exactly when it has a header |
| MdTableState.ResetIsEmpty | md-table-editor/js/app.js:127-143 | the reset table is empty and not valid for output |
| MdTableState.AddColumn | md-table-editor/js/app.js:657-667 | in reorder mode nothing changes; otherwise the old table is saved and the table becomes `WithColumn` of it |
| MdTableState.AddRow | md-table-editor/js/app.js:669-678 | in reorder mode nothing changes; otherwise the old table is saved and the table becomes `WithRow` of it |
| MdTableState.RemoveColumn | md-table-editor/js/app.js:680-697 | refuses, changing nothing, in reorder mode or at one column or fewer; otherwise saves and removes the last column |
| MdTableState.RemoveRow | md-table-editor/js/app.js:699-713 | refuses, changing nothing, in reorder mode or with no rows; otherwise saves and removes the last row |
| MdTableState.SortTableRows | md-table-editor/js/app.js:715-730 | refuses, changing nothing, in reorder mode or with no rows; otherwise saves, and the rows become sorted by lower-cased first cell, a permutation of the old rows in which rows with equal keys keep their relative order |
| MdTableState.ReorderColumns | md-table-editor/js/app.js:732-742 | the table becomes `ColumnMoved`, without a snapshot or reorder-mode check |
| MdTableState.ReorderRows | md-table-editor/js/app.js:744-748 | the table becomes `RowMoved`, without a snapshot or reorder-mode check |
| MdTableState.DuplicateRow | md-table-editor/js/app.js:750-759 | in reorder mode nothing changes; otherwise the snapshot is taken first, then a row index past the end throws with the table unchanged, and a valid one gives `RowDuplicated` |
| MdTableState.InsertRowAfter | md-table-editor/js/app.js:761-770 | in reorder mode nothing changes; otherwise saves and inserts an empty row after the given one |
| MdTableState.ParseOutcome | md-table-editor/js/app.js:280-293 | blank input gives the empty-input error; a success is rectangular |
| MdTableState.ParseOutcomeRoutes | md-table-editor/js/app.js:280-293 | other input gives the HTML parser's result exactly when its lower-cased trimmed text holds `<table`, and the markdown parser's result on the trimmed text otherwise |
| MdTableState.ParseTable | md-table-editor/js/app.js:856-869 | a failed parse returns its message with nothing changed; a successful one saves the old table and replaces it with the parsed one |
| MdTableState.ToggleReorderMode | md-table-editor/js/app.js:890-894 | reorder mode flips and nothing else changes |
| MdTableState.ClearAll | md-table-editor/js/app.js:879-888 | when confirmed the state is reset: empty table, empty history, cursor -1, reorder mode off and markdown output; otherwise nothing changes, the output format included |
| MdTableAnalyzer.YesCount | md-table-editor/js/app.js:811-813 | the yes count of a column never exceeds the number of rows |
| MdTableAnalyzer.YesCountIsCardinality | md-table-editor/js/app.js:811-813 | the count is exactly the number of rows whose cell in that column lower-cases to `yes`; a missing cell is not a yes |
| MdTableAnalyzer.AnalysisCells | md-table-editor/js/app.js:806-815 | the summary has one cell per column: the row total first, then `yes/total` for each later column |
| MdTableAnalyzer.Analyze | md-table-editor/js/app.js:800-819 | nothing for a table without rows or headers; otherwise the summary cells written as one markdown row |
| MdTableAnalyzer.AnalysisReadsBack | md-table-editor/js/app.js:401-409 | the summary line reads back through the editor's row splitter as exactly its cells (with lines 806-815 of the same file) |
| MdTableAnalyzer.FirstIndex | md-table-editor/js/app.js:839-841 | the position of the first occurrence of a value |
| MdTableAnalyzer.CountValues | md-table-editor/js/app.js:838-841 | the counting loop computes exactly `Frequencies` of all the values |
| MdTableAnalyzer.FrequenciesCounted | md-table-editor/js/app.js:838-841 | after any number of values the object's keys are exactly the distinct values met, each once, in order of first occurrence, each holding its number of occurrences |
| MdTableAnalyzer.CountRound | md-table-editor/js/app.js:840 | one round of the counting loop keeps that invariant |
| MdTableAnalyzer.CountedEmpty | md-table-editor/js/app.js:838-843 | the counts are empty exactly when there are no values |
| MdTableAnalyzer.MostCountedFirst | md-table-editor/js/app.js:842-844 | the entry the maximum search ends on holds a value occurring at least as often as any other, the earliest first occurrence among equals |
| MdTableAnalyzer.MostCommonValue | md-table-editor/js/app.js:837-845 | "" for no values; otherwise a value occurring at least as often as any other, the earliest first occurrence among equals |
| LooseRows.Cells | json-table-editor/app.js:98 | every cell kept is trimmed, non-empty and holds no pipe (blank pieces are dropped wherever they stand) |
| LooseRows.CellsOfRowLine | md-table-editor/app.js:59-62 | round trip: a row line written from non-empty plain cells splits back into exactly those cells (with line 229 of the same file) |
| JsonTableEditor.CleanCells | json-table-editor/app.js:98 | one cell per non-blank piece of the line, cell i being the sanitised i-th trimmed piece, so each is non-empty and free of markup characters |
| JsonTableEditor.ParsedMarkdown | json-table-editor/app.js:90-106 | fails, with the "at least a header and separator" message, exactly when the input has fewer than two lines; otherwise the headers are the cleaned cells of the first line, the alignments the classified cells of the second, and row i the cleaned cells of line i + 2, every cell non-empty and sanitised |
| JsonTableEditor.JsonHeaders | json-table-editor/app.js:115-128 | succeeds exactly when the input is an object or array with at least one entry whose first entry is truthy and of type object; the headers are then the blank row-header title followed by the keys of the first entry; a falsy, non-object or empty input is refused as "must represent a non-empty object", a first entry that is not an object as "Each entry should be an object." |
| JsonTableEditor.JsonRows | json-table-editor/app.js:130-132 | fails exactly when some entry is `null`; otherwise one row per entry: the entry's sanitised key followed by `ValueCells` of the entry's values |
| JsonTableEditor.ValueCells | json-table-editor/app.js:131 | one cell per value of the entry, cell i being the sanitised `String` of the i-th value |
| JsonTableEditor.JsonCellUnderHeader | json-table-editor/app.js:118-132 | for an entry whose keys are the header keys in order, its row starts with the sanitised entry key, and the cell under header j is the sanitised `String` of the entry's value stored under header j's key |
| JsonTableEditor.CellOfRow | json-table-editor/app.js:130-132 | row k of the table holds the entry's sanitised key and then the sanitised `String` of each of the entry's values, in order |
| JsonTableEditor.KeyUnderHeader | json-table-editor/app.js:128 | when the entry's keys are the headers after the row-header title, header j is the entry's key at position j - 1 |
| JsonTableEditor.ColumnInserted | json-table-editor/app.js:236-238 | one more header, alignment and cell in every row; the new header is the sanitised name and its alignment is left; the number of rows is kept |
| JsonTableEditor.DataColumns | json-table-editor/app.js:274-275 | a column is acted on exactly when it is selected and is not column 0 |
| JsonTableEditor.ColumnsDeleted | json-table-editor/app.js:272-280 | the number of rows is kept (its other properties are the two lemmas below) |
| JsonTableEditor.DeleteInsertedColumn | json-table-editor/app.js:236-279 | inverse: deleting the column just inserted at a valid position gives the table back |
| JsonTableEditor.ColumnsDeletedKeepsRowHeaders | json-table-editor/app.js:274-280 | the row-header column stays first in the headers and in every row, and the header count drops by exactly the selected data columns that exist |
| JsonTableEditor.NewRow | json-table-editor/app.js:249-252 | as wide as the header, "New Row" first when there is a header, every other cell empty |
| JsonTableEditor.RowsDeleted | json-table-editor/app.js:299-303 | headers and alignments are untouched |
| JsonTableEditor.RowsDeletedCount | json-table-editor/app.js:299-303 | the row count drops by exactly the selected rows that exist |
| JsonTableEditor.DeleteInsertedRow | json-table-editor/app.js:249-303 | inverse: deleting the row just inserted at a 1-based position gives the table back |
| JsonTableEditor.CollectedColumnsAsWritten | json-table-editor/app.js:262-264 | as written: with select-all checked every checked column is collected; without it the first checked column is dropped |
| JsonTableEditor.SliceDropsFirstCheckedColumn | json-table-editor/app.js:262-264 | counterexample: checking columns 2 and 3 collects only 3, checking 2 alone collects nothing, and deleting {3} leaves column 2 in place |
| JsonTableEditor.CollectedColumns | json-table-editor/app.js:262-264 | corrected: exactly the checked columns are collected, whatever the select-all box says |
| JsonTableEditor.CheckedColumnsAllDeleted | json-table-editor/app.js:258-280 | corrected: the header count drops by exactly the checked data columns that exist |
| JsonTableEditor.Tail | json-table-editor/app.js:423-425 | everything but the first element, and nothing for an empty list |
| JsonTableEditor.TailRows | json-table-editor/app.js:425 | every row loses its row-header cell, the row count kept |
| JsonTableEditor.MarkdownOutput | json-table-editor/app.js:418-421 | the empty string without a data column or without rows |
| JsonTableEditor.OutputLines | json-table-editor/app.js:423-426 | a header line, a separator line and one line per row |
| JsonTableEditor.MarkdownOutputLines | json-table-editor/app.js:426 | the output is those lines joined by line breaks |
| JsonTableEditor.MarkdownOutputReadBack | json-table-editor/app.js:90-106 | round trip: reading the (trimmed) markdown output back gives the table without its row-header column, for cells that are non-empty and plain (with lines 418-427 of the same file) |
| JsonTableEditor.OutputParses | json-table-editor/app.js:90-106 | the same round trip before trimming (with lines 418-427 of the same file) |
| JsonTableEditor.RowKey | json-table-editor/app.js:435-440 | the first cell of a row, "undefined" for a row without cells |
| JsonTableEditor.CellAt | json-table-editor/app.js:438 | a cell exactly when the row has that index, `undefined` otherwise |
| JsonTableEditor.ColumnAssignments | json-table-editor/app.js:437-439 | one assignment per data column, header `i` to cell `i` |
| JsonTableEditor.RowObjectContents | json-table-editor/app.js:436-439 | under each header is the cell of the last column with that header, and the row object's properties are exactly the data-column headers |
| JsonTableEditor.RowAssignments | json-table-editor/app.js:434-440 | one assignment per row, its key to its row object |
| JsonTableEditor.JsonObjectLastRowWins | json-table-editor/app.js:434-441 | every row is in the output under its key with its own object unless a later row has the same key |
| JsonTableEditor.JsonObjectKeys | json-table-editor/app.js:434-441 | the output's properties are exactly the rows' keys |
| JsonTableEditor.GenerateJson | json-table-editor/app.js:429-443 | nothing exactly when there is no data column or no row; otherwise the loop builds exactly the object of the two lemmas above |
| JsonTableEditor.BuildRowObject | json-table-editor/app.js:436-439 | the column loop builds exactly the row object |
| JsonTableEditor.AnalyzeTableData | json-table-editor/app.js:398-415 | no summary exactly when there are no rows or no data column; otherwise the summary row of the markdown editor's analyzer (yes counts per column) |
| JsonTableEditor.TableData.constructor | json-table-editor/app.js:29-33 | the table starts empty |
| JsonTableEditor.TableData.ParseMarkdownTable | json-table-editor/app.js:90-113 | on a short input the error and an unchanged table; otherwise the parsed table replaces the old one |
| JsonTableEditor.TableData.ParseJsonTable | json-table-editor/app.js:115-140 | a refused input leaves the table unchanged with its message; otherwise the headers become `JsonHeaders` (the blank title and the first entry's keys) all aligned left, and the rows become `JsonRows` (each entry's key and values) unless an entry is `null`, in which case the old rows remain under the new headers |
| JsonTableEditor.TableData.ParseTable | json-table-editor/app.js:74-88 | blank input is refused with nothing changed; markdown input is parsed after trimming; a JSON syntax error is reported and changes nothing |
| JsonTableEditor.TableData.InsertColumn | json-table-editor/app.js:226-241 | refused with "Invalid column index." exactly when the index is not a number or outside 1..header count; cancelling the name changes nothing; otherwise the table becomes `ColumnInserted` |
| JsonTableEditor.TableData.InsertRow | json-table-editor/app.js:243-256 | refused exactly when the index is not a number or outside 1..rows+1; otherwise `NewRow` is inserted at that 1-based position and nothing else changes |
| JsonTableEditor.TableData.DeleteSelectedColumns | json-table-editor/app.js:266-284 | nothing changes without confirmation; an empty selection is the "No columns selected" error; otherwise the table becomes `ColumnsDeleted` |
| JsonTableEditor.TableData.DeleteCheckedColumns | json-table-editor/app.js:258-284 | the whole action as written, from the checkbox states through the as-written collection |
| JsonTableEditor.TableData.DeleteSelectedRows | json-table-editor/app.js:286-307 | nothing changes without confirmation; an empty selection is the "No rows selected" error; otherwise the table becomes `RowsDeleted` |
| JsonTableEditor.TableData.SortTableRows | json-table-editor/app.js:309-317 | refused exactly when there are no rows; otherwise the rows are sorted by their lower-cased first cell, are a permutation of the old rows, and rows with equal keys keep their relative order; headers and alignments untouched |
| JsonTableEditor.TableData.ReorderColumns | json-table-editor/app.js:340-349 | the column moves from one index to the other in the headers, the alignments and every row alike |
| JsonTableEditor.TableData.ReorderRows | json-table-editor/app.js:384-388 | the row moves from one index to the other; headers and alignments untouched |
| JsonTableEditor.TableData.ClearAll | json-table-editor/app.js:455-460 | when confirmed the table is empty; otherwise unchanged |
| SimpleMdEditor.Escape | md-table-editor/app.js:350-356 | no markup character is left, and text without markup is unchanged (`'` is written `&#039;` here) |
| SimpleMdEditor.EscapedCells | md-table-editor/app.js:59-78 | one escaped cell per kept piece of the line |
| SimpleMdEditor.Parsed | md-table-editor/app.js:44-78 | blank input gives "Please enter a markdown table"; fewer than three trimmed lines give "Invalid table format"; otherwise the headers are the escaped cells of the first line, the alignments the classified cells of the second, and row i the escaped cells of line i + 2 |
| SimpleMdEditor.MarkdownLines | md-table-editor/app.js:228-232 | header line, separator line of the alignment markers, then one line per row, in order |
| SimpleMdEditor.MarkdownLineCount | md-table-editor/app.js:228-232 | for cells without line breaks the output has exactly two lines more than the table has rows, the second being the separator |
| SimpleMdEditor.SplitOutput | md-table-editor/app.js:228-232 | splitting the output at line breaks gives back its lines |
| SimpleMdEditor.MarkdownReadBack | md-table-editor/app.js:44-78 | round trip: parsing the output of a table with at least one row and non-empty plain cells gives the table back (with lines 221-236 of the same file) |
| SimpleMdEditor.HeaderOnlyNotReadBack | md-table-editor/app.js:52-55 | a table without rows is written as two lines, which the parser refuses (with lines 228-232 of the same file) |
| SimpleMdEditor.ColumnAdded | md-table-editor/app.js:184-187 | one more header, "New Column", at the end; the row count kept; a rectangular table stays rectangular |
| SimpleMdEditor.LastColumnRemoved | md-table-editor/app.js:204-206 | the row count kept; a rectangular table with a header stays rectangular with one column fewer |
| SimpleMdEditor.RemoveColumnUndoesAdd | md-table-editor/app.js:184-206 | inverse: removing the column just added gives the table back |
| SimpleMdEditor.RowAdded | md-table-editor/app.js:192-194 | headers and alignments untouched; the old rows kept and followed by one empty row as wide as the header; rectangular stays rectangular |
| SimpleMdEditor.RemoveRowUndoesAdd | md-table-editor/app.js:192-216 | inverse: removing the row just added gives the table back |
| SimpleMdEditor.ColumnsReordered | md-table-editor/app.js:172-182 | headers and alignments are permutations of the old ones; a row that reaches the moved column is a permutation of the old row, and a shorter row gains one empty cell where `undefined` is spliced in; rectangular stays rectangular |
| SimpleMdEditor.TableData.constructor | md-table-editor/app.js:4-8 | the table starts empty |
| SimpleMdEditor.TableData.ParseTable | md-table-editor/app.js:44-86 | on a refused input its message and an unchanged table; otherwise the parsed table replaces the old one |
| SimpleMdEditor.TableData.ReorderColumns | md-table-editor/app.js:172-182 | the table becomes `ColumnsReordered`, each row moved by the row loop, short rows included |
| SimpleMdEditor.TableData.AddColumn | md-table-editor/app.js:184-190 | the table becomes `ColumnAdded` |
| SimpleMdEditor.TableData.AddRow | md-table-editor/app.js:192-197 | the table becomes `RowAdded` |
| SimpleMdEditor.TableData.RemoveColumn | md-table-editor/app.js:199-209 | refused with "Cannot remove last column", changing nothing, exactly when at most one header is left; otherwise the table becomes `LastColumnRemoved` |
| SimpleMdEditor.TableData.RemoveRow | md-table-editor/app.js:211-219 | refused with "Cannot remove last row", changing nothing, exactly when at most one row is left; otherwise the last row is dropped and nothing else changes |
| SimpleMdEditor.TableData.ClearAll | md-table-editor/app.js:329-337 | when confirmed the table is empty; otherwise unchanged |
| ProviderMatrix.StrippedCells | md-table-to-json/js/app.js:69-80 | one cell per kept piece of the line, each the trimmed piece with every `**` removed |
| ProviderMatrix.Mark | md-table-to-json/js/app.js:86-95 | `✅` exactly for `✅` or any casing of `yes`; every other cell, `❌` and `no` included, becomes `❌` |
| ProviderMatrix.HeaderKey | md-table-to-json/js/app.js:89 | the header of the column, "undefined" for a cell past the last header |
| ProviderMatrix.MarkAssignments | md-table-to-json/js/app.js:85-95 | one assignment per cell after the first: the column's header to the cell's mark |
| ProviderMatrix.MarkRowContents | md-table-to-json/js/app.js:84-96 | each column's header reads the mark of its cell unless a later column has the same header, and every value is `✅` or `❌` |
| ProviderMatrix.LineUpdate | md-table-to-json/js/app.js:76-82 | a line makes an assignment exactly when it starts with a pipe, holds no `-` and keeps at least one cell |
| ProviderMatrix.LineUpdates | md-table-to-json/js/app.js:75-99 | one possible assignment per data line, in order |
| ProviderMatrix.EntriesObjectKeys | md-table-to-json/js/app.js:74-99 | the services of the result are exactly the first cells of the entry lines |
| ProviderMatrix.EntriesObjectLastWins | md-table-to-json/js/app.js:74-99 | an entry line whose first cell no later entry line repeats gives that service the marks of its own cells |
| ProviderMatrix.TrimmedLines | md-table-to-json/js/app.js:65 | one trimmed line per line of the input |
| ProviderMatrix.Converted | md-table-to-json/js/app.js:54-101 | blank input gives "Please paste a Markdown table."; a single line gives "Invalid Markdown table"; a result has each service once |
| ProviderMatrix.ConvertToJson | md-table-to-json/js/app.js:64-101 | the conversion code computes exactly `Converted` |
| ProviderMatrix.ConvertLines | md-table-to-json/js/app.js:75-99 | the line loop builds exactly the object of the entry lines |
| ProviderMatrix.ConvertLine | md-table-to-json/js/app.js:76-98 | one pass of the line loop performs exactly that line's assignment, if any |
| ProviderMatrix.BuildMarkRow | md-table-to-json/js/app.js:84-96 | the column loop builds exactly the entry's object of marks |
| ProviderMatrix.NormalizeName | md-table-to-json/js/app.js:124-126 | the result is trimmed and has no capital letter |
| ProviderMatrix.NormalNameFixed | md-table-to-json/js/app.js:124-126 | a trimmed name without capitals is left alone |
| ProviderMatrix.NormalizeNameIdempotent | md-table-to-json/js/app.js:124-126 | normalising twice is normalising once |
| ProviderMatrix.FirstLetter | md-table-to-json/js/app.js:130-133 | the position of the first ASCII letter, with no letter before it; none exactly when there is no letter |
| ProviderMatrix.Capitalize | md-table-to-json/js/app.js:128-137 | same length; without a letter the string is unchanged; otherwise the first letter becomes its capital and every other character stays |
| ProviderMatrix.NormalizeValue | md-table-to-json/js/app.js:140-144 | always a mark; `✅` exactly when the value is truthy and its string, lower-cased and trimmed, is `yes` or `✅` |
| ProviderMatrix.NormalizeMark | md-table-to-json/js/app.js:140-144 | a mark is its own normal value |
| ProviderMatrix.LowerCapitalize | md-table-to-json/js/app.js:128-137 | lower-casing undoes capitalising |
| ProviderMatrix.NormalizeCapitalized | md-table-to-json/js/app.js:124-137 | capitalising does not change a name's normal form |
| ProviderMatrix.CapitalsOfCapitalized | md-table-to-json/js/app.js:128-137 | in a capitalised name without capitals the only capital is at its first letter |
| ProviderMatrix.CapitalizeInjective | md-table-to-json/js/app.js:128-187 | two names without capitals that capitalise alike are equal, so the last loop loses no service |
| ProviderMatrix.BaseValue | md-table-to-json/js/app.js:147-205 | the parsed JSON when the box is not blank, the last result otherwise |
| ProviderMatrix.BaseEntries | md-table-to-json/js/app.js:147-150 | a parse error is reported with "Error: ", `null` with the engine's message, an object without keys as "No valid JSON data provided"; otherwise its non-empty entries (with lines 205-208 of the same file) |
| ProviderMatrix.ValueMarks | md-table-to-json/js/app.js:159-216 | every provider keeps its key and position, its value normalised |
| ProviderMatrix.NormalizedProviders | md-table-to-json/js/app.js:159-216 | fails exactly on `null`; otherwise each provider once, every value a mark |
| ProviderMatrix.NormalizedProvidersOfObject | md-table-to-json/js/app.js:159-161 | the providers of an object keep their keys and order, each value becoming its mark |
| ProviderMatrix.ServiceEntries | md-table-to-json/js/app.js:156-161 | one entry per service, its key kept and its providers normalised |
| ProviderMatrix.NormalizedData | md-table-to-json/js/app.js:156-162 | fails exactly when some service's providers are `null`; otherwise each service once (with lines 211-217 of the same file) |
| ProviderMatrix.NameNormalized | md-table-to-json/js/app.js:156-158 | every service renamed to its normal form, its providers kept, the order kept |
| ProviderMatrix.NameNormalizedHasNull | md-table-to-json/js/app.js:156-159 | renaming keeps which services have `null` providers |
| ProviderMatrix.NormalizedDataKeys | md-table-to-json/js/app.js:156-162 | normal names stay normal through the normalising loop |
| ProviderMatrix.NormalizedNames | md-table-to-json/js/app.js:152 | each name normalised, in order |
| ProviderMatrix.ServiceList | md-table-to-json/js/app.js:152 | every listed service is in normal form |
| ProviderMatrix.ProviderMark | md-table-to-json/js/app.js:166-167 | `✅` exactly when the normalised service is listed, `❌` otherwise |
| ProviderMatrix.Marked | md-table-to-json/js/app.js:165-168 | the services, their names and their order are kept |
| ProviderMatrix.MarkedCovers | md-table-to-json/js/app.js:165-168 | after the second loop every service has the new provider with its `ProviderMark`, and every other provider keeps its mark |
| ProviderMatrix.Crosses | md-table-to-json/js/app.js:177-179 | every value is `❌` |
| ProviderMatrix.CrossesKeys | md-table-to-json/js/app.js:177-179 | its providers are exactly the given ones |
| ProviderMatrix.AddService | md-table-to-json/js/app.js:171-182 | keeps each service unique |
| ProviderMatrix.NewRow | md-table-to-json/js/app.js:174-180 | the new provider is `✅` in an added service |
| ProviderMatrix.AddServiceAppends | md-table-to-json/js/app.js:171-182 | a missing normal name is appended at the end with the first service's providers as `❌` and the new one as `✅`; nothing already there changes |
| ProviderMatrix.NotListedNotKey | md-table-to-json/js/app.js:172-173 | a normal name that no service normalises to is no service's name |
| ProviderMatrix.ListsAppended | md-table-to-json/js/app.js:172-174 | an appended name is then found by the `some` test, and what was found stays found |
| ProviderMatrix.ListedMark | md-table-to-json/js/app.js:166-180 | a listed normal name is marked `✅` |
| ProviderMatrix.ServicesAdded | md-table-to-json/js/app.js:171-182 | keeps each service unique |
| ProviderMatrix.ServicesAddedPrefix | md-table-to-json/js/app.js:171-182 | the services there were stay, unchanged and in order, in front |
| ProviderMatrix.AddServiceCovers | md-table-to-json/js/app.js:171-182 | adding one listed service keeps every new-provider mark right |
| ProviderMatrix.AddServiceLists | md-table-to-json/js/app.js:171-182 | an added service is found by the `some` test, and so is everything found before |
| ProviderMatrix.ServicesAddedCovers | md-table-to-json/js/app.js:171-182 | the third loop keeps every new-provider mark right |
| ProviderMatrix.ServicesAddedLists | md-table-to-json/js/app.js:171-182 | after the third loop every listed service is found |
| ProviderMatrix.ServicesAddedNormalKeys | md-table-to-json/js/app.js:171-182 | the third loop keeps every service name normal |
| ProviderMatrix.Updated | md-table-to-json/js/app.js:152-182 | fails exactly when some service's providers are `null`; otherwise each service once |
| ProviderMatrix.UpdatedCovers | md-table-to-json/js/app.js:164-182 | every service of `updatedJSON` has the new provider, `✅` exactly when its normal form is listed |
| ProviderMatrix.UpdatedLists | md-table-to-json/js/app.js:170-182 | every listed service is in `updatedJSON` |
| ProviderMatrix.UpdatedKeepsServices | md-table-to-json/js/app.js:155-182 | the normalised base services come first, in order, and keep every other provider's mark |
| ProviderMatrix.UpdatedNormalKeys | md-table-to-json/js/app.js:155-182 | every service of `updatedJSON` is named in normal form |
| ProviderMatrix.CapitalizedEntries | md-table-to-json/js/app.js:184-187 | each service renamed by `Capitalize`, its providers kept, in order |
| ProviderMatrix.Capitalized | md-table-to-json/js/app.js:184-187 | the result has each service once |
| ProviderMatrix.CapitalizedRenames | md-table-to-json/js/app.js:184-187 | on distinct normal names the last loop only renames: nothing merges or moves |
| ProviderMatrix.CapitalizedCovers | md-table-to-json/js/app.js:184-187 | renaming keeps the new provider's marks right |
| ProviderMatrix.CapitalizedNames | md-table-to-json/js/app.js:184-187 | renaming keeps every name's normal form |
| ProviderMatrix.Merged | md-table-to-json/js/app.js:111-195 | a blank provider or service list gives "Please enter both provider name and supported services."; the base's errors and `null` providers are reported; a result has each service once |
| ProviderMatrix.MergedParts | md-table-to-json/js/app.js:146-189 | a successful merge is `updatedJSON` with its services capitalised and nothing merged |
| ProviderMatrix.MergedMarksProvider | md-table-to-json/js/app.js:164-189 | after a merge every service has the new provider, `✅` exactly when its normalised name is in the list |
| ProviderMatrix.MergedListsServices | md-table-to-json/js/app.js:170-189 | after a merge every listed service has a service that normalises to it |
| ProviderMatrix.LiftRow | md-table-to-json/js/app.js:101 | each provider's mark kept as a JSON string, keys and order kept (with line 189 of the same file) |
| ProviderMatrix.Lift | md-table-to-json/js/app.js:101 | the result kept as a JSON object of objects, services and order kept (with line 189 of the same file) |
| ProviderMatrix.NormalizedLiftRow | md-table-to-json/js/app.js:159-189 | normalising a stored row of marks gives it back |
| ProviderMatrix.NormalizedLift | md-table-to-json/js/app.js:101 | normalising a stored result gives it back, so the writer and a second merge see exactly what the last operation produced (with lines 189 and 211-217 of the same file) |
| ProviderMatrix.Bold | md-table-to-json/js/app.js:224 | four characters longer than the provider |
| ProviderMatrix.BoldAll | md-table-to-json/js/app.js:224 | each provider made bold, in order |
| ProviderMatrix.Markers | md-table-to-json/js/app.js:225 | one `:---` per provider |
| ProviderMatrix.CellMark | md-table-to-json/js/app.js:228 | the service's non-empty mark for the provider, `❌` when it lacks the provider |
| ProviderMatrix.ServiceCells | md-table-to-json/js/app.js:227-229 | one cell per provider of the first service, in order |
| ProviderMatrix.TableLines | md-table-to-json/js/app.js:223-231 | a header line, a separator line and one line per service |
| ProviderMatrix.TableLinesShape | md-table-to-json/js/app.js:223-231 | with a provider, the header is the bold providers after "**Service Name**", the separator all `:---`, and each service's line its name and its marks |
| ProviderMatrix.ServiceCellsAreMarks | md-table-to-json/js/app.js:227-229 | every cell of a row of marks is `✅` or `❌` |
| ProviderMatrix.NormalizedDataNonEmpty | md-table-to-json/js/app.js:206-220 | a base with services gives data with a first service, whose providers head the table |
| ProviderMatrix.MarkdownOf | md-table-to-json/js/app.js:199-231 | the base's errors and `null` providers are reported; otherwise the table lines joined by line breaks |
| ProviderMatrix.NormalizeRow | md-table-to-json/js/app.js:159-216 | the provider loop builds exactly the object of normalised marks |
| ProviderMatrix.NormalizeServices | md-table-to-json/js/app.js:156-162 | the service loop computes exactly `NormalizedData` (with lines 211-217 of the same file) |
| ProviderMatrix.MarkProvider | md-table-to-json/js/app.js:165-168 | the second loop computes exactly `Marked` |
| ProviderMatrix.CrossRow | md-table-to-json/js/app.js:177-179 | the copy loop computes exactly `Crosses` |
| ProviderMatrix.AddMissingService | md-table-to-json/js/app.js:172-181 | one pass of the third loop computes exactly `AddService` |
| ProviderMatrix.AddMissingServices | md-table-to-json/js/app.js:171-182 | the third loop computes exactly `ServicesAdded` |
| ProviderMatrix.CapitalizeServices | md-table-to-json/js/app.js:184-187 | the last loop computes exactly `Capitalized` |
| ProviderMatrix.Converter.constructor | md-table-to-json/js/app.js:19 | the last result starts as the empty object |
| ProviderMatrix.Converter.ConvertMarkdown | md-table-to-json/js/app.js:53-108 | the result is `Converted`; a success becomes the last result, a failure leaves it |
| ProviderMatrix.Converter.MergeProvider | md-table-to-json/js/app.js:111-196 | the result is `Merged` on the last result; a success replaces the last result, a failure leaves it |
| ProviderMatrix.Converter.WriteMarkdown | md-table-to-json/js/app.js:199-239 | the result is `MarkdownOf` the last result, which is left alone |
| SongComparison.NonEmpty | song-comaprison/js/app.js:130 | the filter keeps only non-empty lines, never adds any, and keeps a list with no empty line whole |
| SongComparison.ParseListLines | song-comaprison/js/app.js:127-131 | every title read from a text is non-empty, trimmed and a single line |
| SongComparison.ParseListOfLines | song-comaprison/js/app.js:127-131 | round trip: titles that are non-empty, trimmed and single-line, written one per line, are read back unchanged |
| SongComparison.ParseEmptyText | song-comaprison/js/app.js:127-131 | the empty text holds no titles |
| SongComparison.KeepWordAndSpaceKeeps | song-comaprison/js/app.js:191 | the removal of special characters keeps only word characters and white space, and adds no upper-case letter |
| SongComparison.CollapseIsCollapsed | song-comaprison/js/app.js:192 | after `\s+` → one space no white space but single spaces remains, no two spaces are adjacent, and normal characters stay normal |
| SongComparison.NormalizeIsNormal | song-comaprison/js/app.js:189-194 | every normalised title is trimmed, has single spaces only, and holds only lower-case letters, digits, `_` and spaces |
| SongComparison.TrimKeepsNormal | song-comaprison/js/app.js:193 | the final trim keeps a collapsed string of normal characters so |
| SongComparison.NormalizeNormal | song-comaprison/js/app.js:189-194 | a title already in normal form is its own normal form |
| SongComparison.NormalizeIdempotent | song-comaprison/js/app.js:189-194 | normalising twice is normalising once |
| SongComparison.LevAtMostLonger | song-comaprison/js/app.js:224-236 | the edit distance of two prefixes never exceeds the longer prefix length |
| SongComparison.LevZeroIffEqual | song-comaprison/js/app.js:224-236 | the edit distance of two prefixes is 0 exactly when they are equal |
| SongComparison.Distance | song-comaprison/js/app.js:211-239 | the distance is 0 exactly for equal strings, is the length of the first string against the empty one, and is at most the longer length |
| SongComparison.LevenshteinDistance | song-comaprison/js/app.js:211-239 | the matrix algorithm returns exactly `Distance` |
| SongComparison.FillRow | song-comaprison/js/app.js:225-235 | one pass of the inner loop fills row i with the recurrence values and leaves the rows below untouched |
| SongComparison.RatioRange | song-comaprison/js/app.js:208 | `(max - distance) / max` lies in [0, 1] and is 1 exactly when the distance is 0 |
| SongComparison.RatioAboveThreshold | song-comaprison/js/app.js:158-208 | the ratio is above 0.8 exactly when five times the distance is below the length |
| SongComparison.SimilarityRange | song-comaprison/js/app.js:187-209 | the similarity lies in [0, 1] and is 1.0 exactly when the normalised titles are equal |
| SongComparison.CalculateSimilarity | song-comaprison/js/app.js:187-209 | the computed similarity, with the distance from the matrix, equals `Similarity` |
| SongComparison.SimilarityAboveThreshold | song-comaprison/js/app.js:158-209 | a pair passes the 0.8 threshold exactly when the normalised titles are equal or their distance is less than a fifth of the longer one |
| SongComparison.BestOf | song-comaprison/js/app.js:147-163 | the inner loop's best index is -1 or an earlier unmatched index |
| SongComparison.BestOfIsBest | song-comaprison/js/app.js:151-163 | the inner loop finds the best unmatched entry scoring above 0.8, the earliest among ties; when it finds none, no unmatched entry scores above 0.8 |
| SongComparison.PairsWellFormedSkip | song-comaprison/js/app.js:143-174 | passing an entry of the first list without a match keeps the pairs well formed |
| SongComparison.PairsWellFormedAppend | song-comaprison/js/app.js:165-173 | recording a match with an unmatched entry scoring above 0.8 keeps the pairs well formed |
| SongComparison.GreedyStep | song-comaprison/js/app.js:143-174 | one outer iteration keeps the matched pairs well formed |
| SongComparison.GreedyNext | song-comaprison/js/app.js:150-174 | the outer iteration records the candidate the inner search settled on when there is one and its text is non-empty (`if (bestMatch)`), and changes nothing otherwise |
| SongComparison.GreedyWellFormed | song-comaprison/js/app.js:143-174 | after any number of outer iterations each matched set has one index per pair, first-list indices increase, no second-list index is used twice and every pair scores above 0.8 |
| SongComparison.Unmatched | song-comaprison/js/app.js:177-178 | filtering by the matched set never adds entries |
| SongComparison.UnmatchedCount | song-comaprison/js/app.js:177-178 | left-over entries plus matched indices add up to the list length |
| SongComparison.UnmatchedMembers | song-comaprison/js/app.js:177-178 | the left-over entries are exactly the entries at unmatched indices |
| SongComparison.MatchesOf | song-comaprison/js/app.js:166-170 | one match row per recorded pair, holding both titles and their score |
| SongComparison.MatchesOfAppend | song-comaprison/js/app.js:166-170 | recording a pair appends its row to the matches |
| SongComparison.ComparedTotal | song-comaprison/js/app.js:133-185 | every entry of either list is either in a match or left over, never both |
| SongComparison.ComparedAboveThreshold | song-comaprison/js/app.js:158-170 | every reported match scores above 0.8 |
| SongComparison.MatchLists | song-comaprison/js/app.js:133-185 | the nested loops return exactly `Compared` for the given scorer |
| SongComparison.FindBest | song-comaprison/js/app.js:147-163 | the inner loop returns exactly `BestOf` over the whole second list |
| SongComparison.FuzzyMatch | song-comaprison/js/app.js:133-185 | `fuzzyMatch` returns `Compared` with `Similarity` as the scorer |
| SongComparison.CompareLists | song-comaprison/js/app.js:87-131 | a blank list gives the "provide both lists" error; otherwise the comparison of the two parsed lists |
| Encoder.IsValidInput | encoder/js/app.js:23-25 | a valid input is non-blank, and therefore non-empty, and its length in UTF-16 code units is below the 10000 cap |
| Encoder.ValidTrimmedInput | encoder/js/app.js:23-25 | on the trimmed text the handlers pass in, validity is exactly: non-empty and fewer than 10000 UTF-16 code units |
| Encoder.IsValidBase64Url | encoder/js/app.js:27-29 | true exactly when every character is `-`, `_`, an ASCII letter or a digit (the empty string included) |
| Encoder.StdChar | encoder/js/app.js:70 | every 6-bit value maps to a character of the base64 alphabet of section 4 of RFC 4648 |
| Encoder.StdIndex | encoder/js/app.js:102 | every alphabet character maps back to a value in 0..63 |
| Encoder.StdIndexOfChar | encoder/js/app.js:70-102 | decoding table after encoding table is the identity on 0..63 |
| Encoder.StdCharOfIndex | encoder/js/app.js:70-102 | encoding table after decoding table is the identity on the alphabet |
| Encoder.EncodeGroupsShape | encoder/js/app.js:70 | the unpadded base64 of n bytes uses only the alphabet and has 4·⌊n/3⌋ characters plus 2 or 3 for a final partial group |
| Encoder.Padding | encoder/js/app.js:70 | `btoa` appends 0, 2 or 1 `=` for n mod 3 = 0, 1, 2, all of them `=` |
| Encoder.EncodeStd | encoder/js/app.js:70 | the padded base64 text always has a length that is a multiple of 4 |
| Encoder.Unpadded | encoder/js/app.js:102 | `atob` removes at most two final `=` and keeps a prefix of its input |
| Encoder.DecodeStd | encoder/js/app.js:102 | `atob` succeeds exactly when the unpadded text is over the alphabet and its length is not 1 mod 4 |
| Encoder.StripPadding | encoder/js/app.js:73 | `.replace(/=+$/, '')` yields a prefix that does not end in `=`, and everything removed was `=` |
| Encoder.PadEnd | encoder/js/app.js:101 | `padEnd` keeps the text as a prefix and fills up to the target length with the fill character |
| Encoder.PaddedLength | encoder/js/app.js:101 | the decoder's target length is a multiple of 4 within 3 of the input length |
| Encoder.PaddedLengthIsLeast | encoder/js/app.js:101 | no smaller multiple of 4 reaches the input length |
| Encoder.Encode | encoder/js/app.js:70-73 | the encoder's output passes `isValidBase64URL` (no `+`, `/` or `=`) and has length ⌈4n/3⌉ for n bytes |
| Encoder.EncodedLength | encoder/js/app.js:70-73 | the group count formula equals ⌈4n/3⌉ |
| Encoder.UrlAlphabetOfStd | encoder/js/app.js:71-100 | mapping `+`→`-`, `/`→`_` turns an alphabet string into a valid base64url string of the same length, and the reverse mapping restores it |
| Encoder.StdAlphabetOfUrl | encoder/js/app.js:71-100 | the decoder's mapping turns a base64url string into an alphabet string, and the forward mapping restores it |
| Encoder.EncodeStrips | encoder/js/app.js:71-73 | stripping the final `=` run of the remapped padded text leaves the remapped unpadded text |
| Encoder.DecodeGroupsOfEncodeGroups | encoder/js/app.js:70-102 | unpacking the 6-bit groups gives back the bytes |
| Encoder.UnpaddedOfPadded | encoder/js/app.js:101-102 | the `=` the decoder adds are exactly the ones `atob` drops |
| Encoder.PaddedEncoding | encoder/js/app.js:98-101 | re-padding the encoder's output yields exactly what `btoa` produced |
| Encoder.StdOfEncode | encoder/js/app.js:70-100 | undoing the URL-safe remapping of the encoder's output gives the unpadded base64 text, of the same length |
| Encoder.StdRoundTrip | encoder/js/app.js:70-102 | `atob` of `btoa` of any byte sequence returns it |
| Encoder.DecodeEncode | encoder/js/app.js:70-102 | round trip: decoding the encoding of any byte sequence returns it |
| Encoder.DecodeFailsExactly | encoder/js/app.js:98-102 | a valid base64url string fails to decode exactly when its length is 1 mod 4 |
| Encoder.PaddedStdFails | encoder/js/app.js:98-102 | any string of length 1 mod 4, padded by the decoder, is rejected by `atob`, since one `=` is left behind |
| Encoder.PaddedStdDecodes | encoder/js/app.js:98-102 | any other alphabet string, padded by the decoder, reaches `atob`'s decoding unchanged |
| Encoder.Recorded | encoder/js/app.js:32-38 | after `addToHistory` the text is present; an already present text leaves the list alone; a new one goes first, followed by a prefix of the old list, and the list grows by one below the cap of 10 and keeps its length at it |
| Encoder.RecordedNoDuplicates | encoder/js/app.js:32-38 | a history without duplicates stays without duplicates |
| Encoder.Encoded | encoder/js/app.js:60-81 | the encode handler succeeds exactly for a non-empty trimmed text of fewer than 10000 UTF-16 code units, and its output decodes back to the UTF-8 bytes; otherwise it shows the validation message |
| Encoder.Decoded | encoder/js/app.js:83-110 | the decode handler succeeds exactly for a non-empty trimmed text of fewer than 10000 UTF-16 code units over the base64url alphabet whose length is not 1 mod 4; the length check comes before the alphabet check |
| Encoder.EncoderPage.constructor | encoder/js/app.js:18-19 | the page starts with an empty history and the cursor at -1 |
| Encoder.EncoderPage.AddToHistory | encoder/js/app.js:32-38 | the history becomes `Recorded(old history, text)` (bounded, duplicate-free) and the cursor is reset to -1 |
| Encoder.EncoderPage.EncodeInput | encoder/js/app.js:60-81 | returns `Encoded`; on success the trimmed text is recorded, on failure nothing changes |
| Encoder.EncoderPage.DecodeInput | encoder/js/app.js:83-110 | returns `Decoded`; on success the trimmed text is recorded, on failure nothing changes |
| Encoder.EncoderPage.ArrowUp | encoder/js/app.js:158-162 | with a non-empty history the cursor becomes min(i+1, len-1) and that entry is shown; otherwise nothing changes; the cursor stays in [-1, len-1] |
| Encoder.EncoderPage.ArrowDown | encoder/js/app.js:163-167 | with the cursor above -1 it moves down one and shows that entry, or the empty text at -1; otherwise nothing changes |
| OpmlEditor.AcceptedExtension | opml-editor/js/app.js:37 | the file-name check ignores case: any name ending in some casing of `.opml` or `.xml` is accepted |
| OpmlEditor.ShortNameRefused | opml-editor/js/app.js:37-40 | a name shorter than four characters is always refused |
| OpmlEditor.EscapeXml | opml-editor/js/app.js:278-288 | escaping never shortens the text |
| OpmlEditor.UnescapeEscape | opml-editor/js/app.js:278-288 | escaping loses nothing: reading the five XML 1.0 predefined entities back gives the original value |
| OpmlEditor.EscapedHasNoMarkup | opml-editor/js/app.js:278-288 | no `<`, `>`, `"` or `'` survives escaping, so an escaped value cannot close the attribute it is written into |
| OpmlEditor.EscapeKeepsAbsent | opml-editor/js/app.js:278-288 | escaping introduces no character other than those of the five entities |
| OpmlEditor.FeedOf | opml-editor/js/app.js:67-81 | an outline yields a feed exactly when it has a non-empty `xmlUrl`; the feed carries the outline's index, is selected, takes its title from `title`, else `text`, else "Untitled Feed", and its `htmlUrl` falls back to `xmlUrl` |
| OpmlEditor.FeedsOf | opml-editor/js/app.js:63-82 | there are never more feeds than outlines |
| OpmlEditor.FeedsOfSound | opml-editor/js/app.js:63-82 | every feed is exactly the feed built from the outline its id names |
| OpmlEditor.FeedsOfIncreasing | opml-editor/js/app.js:66-73 | feed ids are outline indexes and strictly increase, so no two feeds share an id |
| OpmlEditor.FeedsOfComplete | opml-editor/js/app.js:66-82 | every outline with an `xmlUrl` yields a feed with its index |
| OpmlEditor.Toggled | opml-editor/js/app.js:130-137 | toggling keeps the number of feeds |
| OpmlEditor.ToggledAt | opml-editor/js/app.js:131-133 | toggling flips the selection of the first feed with that id and changes nothing else |
| OpmlEditor.ToggledUnknown | opml-editor/js/app.js:131-132 | an unknown id changes nothing |
| OpmlEditor.ToggledTwice | opml-editor/js/app.js:130-137 | toggling the same id twice restores the feeds |
| OpmlEditor.WithSelection | opml-editor/js/app.js:139-151 | select all / deselect all set every feed's flag and change nothing else |
| OpmlEditor.SelectedCount | opml-editor/js/app.js:154-192 | the selected count never exceeds the number of feeds |
| OpmlEditor.SelectedCountWithSelection | opml-editor/js/app.js:139-151 | after select all every feed is counted as selected; after deselect all none is |
| OpmlEditor.SelectedOnly | opml-editor/js/app.js:199 | the exported feeds are as many as the selected count |
| OpmlEditor.Unselected | opml-editor/js/app.js:161 | the removal keeps as many feeds as were not selected |
| OpmlEditor.UnselectedExactly | opml-editor/js/app.js:161 | the removal keeps exactly the unselected feeds, in their original order |
| OpmlEditor.OutlineLines | opml-editor/js/app.js:230-239 | one outline line per feed, in the feeds' order |
| OpmlEditor.DocumentJoin | opml-editor/js/app.js:217-245 | the exported document is the header lines, the outline lines and the footer lines, joined by line breaks |
| OpmlEditor.DocumentLines | opml-editor/js/app.js:217-245 | for single-line values, splitting the document at line breaks gives back the header, one line per feed in order, and the footer |
| OpmlEditor.ExportImport | opml-editor/js/app.js:67-81 | round trip: the outline written for an imported feed is read back into the same feed, with the id of its new position and selected (with lines 231-237 of the same file) |
| OpmlEditor.Feed.constructor | opml-editor/js/app.js:72-80 | a new feed object holds exactly the given values |
| OpmlEditor.Records | opml-editor/js/app.js:1 | the value list has one entry per feed object, holding that object's current values |
| OpmlEditor.BuildFeeds | opml-editor/js/app.js:64-82 | the loop builds feed objects whose values are exactly `FeedsOf` of the outlines, with increasing ids |
| OpmlEditor.FirstWithId | opml-editor/js/app.js:131 | the position found holds the id and no earlier feed does; none is found only when no feed has the id |
| OpmlEditor.Filtered | opml-editor/js/app.js:170-174 | filtering never adds feeds |
| OpmlEditor.FilteredExactly | opml-editor/js/app.js:169-174 | the filtered list is exactly the feeds whose lower-cased title, URL or description contains the lower-cased term, in order |
| OpmlEditor.FilteredEmptyTerm | opml-editor/js/app.js:169-174 | an empty search shows every feed |
| OpmlEditor.UnselectedFeeds | opml-editor/js/app.js:161 | the removal never adds feed objects |
| OpmlEditor.UnselectedFeedsRecords | opml-editor/js/app.js:161 | removing on the objects gives the values of removing on the values, and keeps the object order |
| OpmlEditor.FeedManager.constructor | opml-editor/js/app.js:1-2 | the page starts with no feeds and an empty filtered list |
| OpmlEditor.FeedManager.ParseOpml | opml-editor/js/app.js:54-92 | an XML error leaves the page unchanged; otherwise the feeds become `FeedsOf` the outlines, and either the filtered list becomes all of them or, when there are none, the "no valid feeds" error is raised with an empty feed list |
| OpmlEditor.FeedManager.LoadFile | opml-editor/js/app.js:36-52 | a wrong extension is refused with no change; a parse error is reported with its message and the feed lists unchanged; otherwise the feeds are those of the document, the filtered list becomes them when there is at least one and is unchanged otherwise, and the load succeeds exactly when the document holds at least one feed |
| OpmlEditor.FeedManager.ToggleFeed | opml-editor/js/app.js:130-137 | the feed values become `Toggled` of the old values |
| OpmlEditor.FeedManager.SetAll | opml-editor/js/app.js:140-147 | the feed values become `WithSelection` of the old values |
| OpmlEditor.FeedManager.SelectAll | opml-editor/js/app.js:139-144 | every feed becomes selected, nothing else changes |
| OpmlEditor.FeedManager.DeselectAll | opml-editor/js/app.js:146-151 | every feed becomes deselected, nothing else changes |
| OpmlEditor.FeedManager.FilterFeeds | opml-editor/js/app.js:168-176 | the feeds are untouched and the filtered list becomes the feeds matching the lower-cased search text |
| OpmlEditor.FeedManager.RemoveSelected | opml-editor/js/app.js:153-166 | with nothing selected: an error and no change; when not confirmed: no change; otherwise the selected feeds are removed, the count removed is returned and the filter is re-applied |
| OpmlEditor.FeedManager.ExportOpml | opml-editor/js/app.js:198-215 | with nothing selected: the error; otherwise the document generated from exactly the selected feeds |
| OpmlEditor.WriteOutline | opml-editor/js/app.js:231-238 | one turn of the export loop writes exactly the feed's outline line, with `description` and `category` only when non-empty |
| OpmlEditor.GenerateOpml | opml-editor/js/app.js:217-245 | the text built by appending is exactly the document of header, outline lines and footer |

## Left out

- Rendering, drag-and-drop handlers, in-cell blur edits, notifications, themes, debounce timers and the clipboard code are user interface only. The answers to `confirm` and `prompt`, the selected indices, the checkbox states and the drop positions are parameters.
- The HTML table parser of md-table-editor/js/app.js (lines 334-399) depends on the browser's HTML parser. `MdTableState.ParseOutcome` takes its result as a parameter.
- The HTML output generator (md-table-editor/js/app.js:435-459) is left out. It is DOM-style string assembly, and no other part of the core reads it.
- `analyzer.getColumnStats` (md-table-editor/js/app.js:821-835) is left out. It is not part of the analysis the tools show.
- `JSON.parse`, `JSON.stringify` and `DOMParser` are library calls. The model takes the parsed value, or the parse error message, as a parameter. OPML documents arrive as the sequence of their `outline` attribute maps. Output objects are modelled before `JSON.stringify`.
- Saving and loading tables in `localStorage` (md-table-editor/app.js:239-282) is storage I/O.
- JavaScript orders integer-like object keys before the others. `OrderedMap` keeps every key in insertion order.
- `toLowerCase`, `toUpperCase` and the regular-expression class `\w` are modelled over ASCII only. Characters outside ASCII keep their case, and are not word characters.
- `RowSort.SortRows`, `JsonTableEditor.TableData.SortTableRows` and `MdTableState.SortTableRows` compare the lower-cased first cells by code-point order. The source's `localeCompare` is locale-dependent. Code-point order also differs from UTF-16 code-unit order when a character above U+FFFF meets one in U+E000–U+FFFF.
- Strings are sequences of Unicode characters, while JavaScript strings are sequences of UTF-16 code units. Lengths, indices and the Levenshtein distance therefore count characters; only the encoder's input cap counts code units, through `Text.Utf16Length`. Lone surrogates are not modelled.
- `Encoder.Encoded` and `Encoder.Decoded` work on the UTF-8 bytes of the text. The `encodeURIComponent`/`unescape` and `escape`/`decodeURIComponent` bridge is a boundary. So is the failure of `decodeURIComponent` on bytes that are not UTF-8.
- Encoder: the wording of the browser's `atob` error is a constant. The loading indicator, the `isProcessing` flag and the focus test around the arrow keys are user interface. The "Encoding failed" catch cannot be reached once the input is UTF-8 bytes.
- OPML: `downloadOPML` and the `confirm` before removal are I/O. The export timestamp is a parameter.
- `SongComparison.CompareLists` reports the source's `alert` as an error result.
- Similarity is an exact rational (`real`), where the source uses a floating-point number. The 0.8 threshold is proved equivalent to an integer test on the distance.
- `SongComparison.MatchLists` is proved for any scoring function, and `FuzzyMatch` instantiates it with `Similarity`.
- ReorderColumns (`JsonTableEditor.TableData.ReorderColumns`) requires every row to reach the moved column. Rows read from markdown drop their blank cells, and rows read from JSON carry each entry's own values, so a short row does occur. The source then moves nothing out of it and splices `undefined` in at the target. `JSON.stringify` would omit that value, and the empty cell the model could put in its place would not be omitted, so this case is not modelled.
- `SimpleMdEditor.ColumnsReordered` and `SimpleMdEditor.TableData.ReorderColumns` model short rows: the inserted `undefined` is written as the empty cell, which is how that editor shows, edits and prints it. They still require the moved column to exist in the alignments, because no `Alignment` value stands for `undefined`. A separator line with fewer non-blank cells than the header leaves the alignments short in the source.
- `MdTableState.ReorderColumns`, `JsonTableEditor.TableData.ReorderRows` and `MdTableState.ReorderRows` require the moved column or row to exist. The markdown editor of md-table-editor/js/app.js keeps every row at the header width, and the row drop handlers only offer existing rows.
- `JsonTableEditor.TableData.ParseTable` does not state the table after a JSON input that parses, since `ParseJsonTable` states it. It also does not state the outcome of a markdown input that fails to parse, which is `ParseMarkdownTable`'s contract.
- OpmlEditor.BuildFeeds: does not state that the feed objects it returns are newly allocated, only their values and their increasing ids; `OpmlEditor.FeedManager.ParseOpml` likewise.

## Findings

| source | as written | input that shows it | evidently intended | confidence | as-written member | corrected member |
|---|---|---|---|---|---|---|
| md-table-editor/js/app.js:82-108 | the snapshot is taken before each edit, and `undo` restores the snapshot below the cursor, which is the one taken before the previous edit | parse a table T, add a column, then undo: the empty table from before the parse comes back, not T | undo restores the table as it was just before the last edit | not executed | MdTableState.UndoSkipsLastEdit | MdTableState.CorrectedUndoRestoresEdit |
| json-table-editor/app.js:262-264 | `.slice(1)` drops the first checked header checkbox, assuming it is the select-all box, even when select-all is unchecked | with select-all unchecked, check columns 2 and 3 and delete: only column 3 goes; checking column 2 alone reports that no column is selected | every checked column box is collected | not executed | JsonTableEditor.SliceDropsFirstCheckedColumn | JsonTableEditor.CheckedColumnsAllDeleted |

The editor classes keep the undo of md-table-editor/js/app.js and the column collection of json-table-editor/app.js as they are written, because the model must reproduce the tools' behaviour. The corrected versions are separate definitions beside them, and their intended properties are proved:

- `MdTableState.Record`, `MdTableState.UndoTo` and `MdTableState.RedoTo` are the corrected history;
- `JsonTableEditor.CollectedColumns` is the corrected collection.
