/** The pieces of GitHub Flavored Markdown pipe-table syntax ("Tables
    (extension)", section 4.10 of the GFM specification) that the three
    table tools share: separator-row alignment markers, the `| a | b |` row
    layout, and the escaping of HTML-special characters in cell text. */
module MarkdownSyntax {
  import opened Text

  datatype Alignment = Left | Center | Right

  /** The separator-row rule: a cell that starts and ends with `:` centres
      the column, one that only ends with `:` right-aligns it, anything else
      left-aligns it. */
  function Classify(cell: string): (r: Alignment)
    ensures r == Center <==> StartsWith(cell, ":") && EndsWith(cell, ":")
    ensures r == Right <==> !StartsWith(cell, ":") && EndsWith(cell, ":")
    ensures r == Left <==> !EndsWith(cell, ":")
  {
    if StartsWith(cell, ":") && EndsWith(cell, ":") then Center
    else if EndsWith(cell, ":") then Right
    else Left
  }

  /** The separator cell written for each alignment; classifying it gives
      the alignment back. */
  function Marker(a: Alignment): (r: string)
    ensures Classify(r) == a
    ensures IsPlainCell(r)
  {
    match a
    case Center => ":---:"
    case Right => "---:"
    case Left => ":---"
  }

  /** The four characters the tools' `sanitizeInput` replaces by entities. */
  predicate IsMarkupChar(c: char)
  {
    c == '<' || c == '>' || c == '"' || c == '\''
  }

  predicate NoMarkup(s: string)
  {
    forall i :: 0 <= i < |s| ==> !IsMarkupChar(s[i])
  }

  /** Every `<`, `>` and `"` written as its HTML entity and every `'` as
      `apos`; the tools differ only in the entity they write for the
      apostrophe. `&` is left alone. */
  function EscapeMarkup(s: string, apos: string): (r: string)
    requires NoMarkup(apos)
    ensures NoMarkup(r)
  {
    var a := ReplaceChar(s, '<', "&lt;");
    var b := ReplaceChar(a, '>', "&gt;");
    var c := ReplaceChar(b, '"', "&quot;");
    var d := ReplaceChar(c, '\'', apos);
    ReplaceKeepsAbsent(a, '>', "&gt;", '<');
    ReplaceKeepsAbsent(b, '"', "&quot;", '<');
    ReplaceKeepsAbsent(b, '"', "&quot;", '>');
    assert '<' !in apos && '>' !in apos && '"' !in apos && '\'' !in apos;
    ReplaceKeepsAbsent(c, '\'', apos, '<');
    ReplaceKeepsAbsent(c, '\'', apos, '>');
    ReplaceKeepsAbsent(c, '\'', apos, '"');
    assert forall i :: 0 <= i < |d| ==> d[i] != '<' && d[i] != '>' && d[i] != '"' && d[i] != '\'' by {
      forall i | 0 <= i < |d| ensures d[i] != '<' && d[i] != '>' && d[i] != '"' && d[i] != '\'' {
        assert d[i] in d;
      }
    }
    d
  }

  /** Text without the four characters comes through unchanged, so escaping
      twice is escaping once. */
  lemma EscapeMarkupOfPlain(s: string, apos: string)
    requires NoMarkup(apos) && NoMarkup(s)
    ensures EscapeMarkup(s, apos) == s
  {
    assert '<' !in s && '>' !in s && '"' !in s && '\'' !in s;
    ReplaceAbsent(s, '<', "&lt;");
    ReplaceAbsent(s, '>', "&gt;");
    ReplaceAbsent(s, '"', "&quot;");
    ReplaceAbsent(s, '\'', apos);
  }

  lemma EscapeMarkupIdempotent(s: string, apos: string)
    requires NoMarkup(apos)
    ensures EscapeMarkup(EscapeMarkup(s, apos), apos) == EscapeMarkup(s, apos)
  {
    EscapeMarkupOfPlain(EscapeMarkup(s, apos), apos);
  }

  /** A cell the serialiser can write and the parser read back unchanged:
      no surrounding white space, no pipe, no line break, nothing left to
      escape. */
  predicate IsPlainCell(c: string)
  {
    IsTrimmed(c) && '|' !in c && '\n' !in c && NoMarkup(c)
  }

  /** `| a | b | c |`. */
  function RowLine(cells: seq<string>): (r: string)
    ensures |r| >= 4 && r[0] == '|' && r[|r| - 1] == '|'
  {
    "| " + Join(cells, " | ") + " |"
  }
}
