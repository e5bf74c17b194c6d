/** The analyzer of the markdown table editor: the one-line yes-count
    summary of the table, and the most common value of a column. */
module MdTableAnalyzer {
  import opened Text
  import opened Wrappers
  import opened OrderedMap
  import opened MarkdownSyntax
  import opened MdTableEditor

  // ---------------------------------------------------------------------
  // analyze

  /** A cell that reads `yes` in any casing; a missing cell is not a yes. */
  predicate IsYes(row: seq<string>, i: nat)
  {
    i < |row| && Lower(row[i]) == "yes"
  }

  /** The `reduce` over the rows: how many rows say yes in column `i`. */
  function YesCount(rows: seq<seq<string>>, i: nat): (r: nat)
    ensures r <= |rows|
  {
    if rows == [] then 0
    else YesCount(rows[..|rows| - 1], i) + (if IsYes(rows[|rows| - 1], i) then 1 else 0)
  }

  /** The indices of the rows that say yes in column `i`. */
  function YesRows(rows: seq<seq<string>>, i: nat): set<nat>
  {
    set k: nat | k < |rows| && IsYes(rows[k], i)
  }

  /** The count is the number of rows that say yes. */
  lemma {:induction false} YesCountIsCardinality(rows: seq<seq<string>>, i: nat)
    ensures YesCount(rows, i) == |YesRows(rows, i)|
  {
    if rows != [] {
      var n := |rows| - 1;
      YesCountIsCardinality(rows[..n], i);
      YesRowsStep(rows, i);
    }
  }

  /** The rows that say yes, one row more. */
  lemma YesRowsStep(rows: seq<seq<string>>, i: nat)
    requires rows != []
    ensures var n := |rows| - 1;
      YesRows(rows, i) == YesRows(rows[..n], i) + (if IsYes(rows[n], i) then {n} else {})
      && n !in YesRows(rows[..n], i)
  {
    var n := |rows| - 1;
    var front := rows[..n];
    forall k: nat ensures k in YesRows(rows, i) <==> k in YesRows(front, i) + (if IsYes(rows[n], i) then {n} else {}) {
      if k < n {
        assert front[k] == rows[k];
      }
    }
  }

  /** The first cell of the summary: `**Total** = \`n\``. */
  function TotalCell(total: nat): string
  {
    "**Total** = `" + NatToString(total) + "`"
  }

  /** The cell of one column: `\`yes/total\``. */
  function RatioCell(yes: nat, total: nat): string
  {
    "`" + NatToString(yes) + "/" + NatToString(total) + "`"
  }

  /** The summary cells: the row total, then one yes ratio for each column
      after the first. */
  function AnalysisCells(rows: seq<seq<string>>, width: nat): (r: seq<string>)
    requires width >= 1
    ensures |r| == width
    ensures r[0] == TotalCell(|rows|)
    ensures forall j :: 1 <= j < width ==> r[j] == RatioCell(YesCount(rows, j), |rows|)
  {
    [TotalCell(|rows|)] + seq(width - 1, j requires 0 <= j < width - 1 => RatioCell(YesCount(rows, j + 1), |rows|))
  }

  lemma {:induction false} RowLineAppend(cells: seq<string>, c: string)
    requires |cells| >= 1
    ensures RowLine(cells + [c]) == RowLine(cells) + " " + c + " |"
  {
    JoinAppend(cells, c, " | ");
    var j := Join(cells, " | ");
    assert "| " + (j + " | " + c) + " |" == ("| " + j + " |") + " " + c + " |";
  }

  /** `analyzer.analyze`: nothing for a table without rows or columns;
      otherwise a markdown row holding the summary cells. */
  method Analyze(t: Table) returns (text: string)
    ensures t.rows == [] || t.headers == [] ==> text == ""
    ensures t.rows != [] && t.headers != [] ==> text == RowLine(AnalysisCells(t.rows, |t.headers|))
  {
    if |t.rows| == 0 || |t.headers| == 0 {
      return "";
    }
    var total := |t.rows|;
    ghost var cells := AnalysisCells(t.rows, |t.headers|);
    text := "| **Total** = `" + NatToString(total) + "` |";
    TotalText(cells, total);
    var i := 1;
    while i < |t.headers|
      invariant 1 <= i <= |t.headers|
      invariant text == RowLine(cells[..i])
    {
      var yesCount := YesCount(t.rows, i);
      SummaryStep(cells, i);
      RatioText(text, yesCount, total);
      text := text + " `" + NatToString(yesCount) + "/" + NatToString(total) + "` |";
      i := i + 1;
    }
    assert cells[..i] == cells;
  }

  /** The text `analyze` starts from is the row of the first summary cell. */
  lemma TotalText(cells: seq<string>, total: nat)
    requires |cells| >= 1 && cells[0] == TotalCell(total)
    ensures "| **Total** = `" + NatToString(total) + "` |" == RowLine(cells[..1])
  {
    assert cells[..1] == [TotalCell(total)];
    ConcatAssoc("| ", "**Total** = `" + NatToString(total), "`");
    ConcatAssoc("| " + ("**Total** = `" + NatToString(total)), "`", " |");
  }

  /** One more summary cell in the row. */
  lemma SummaryStep(cells: seq<string>, i: nat)
    requires 1 <= i < |cells|
    ensures RowLine(cells[..i + 1]) == RowLine(cells[..i]) + " " + cells[i] + " |"
  {
    assert cells[..i + 1] == cells[..i] + [cells[i]];
    RowLineAppend(cells[..i], cells[i]);
  }

  /** The text one turn of the loop appends is a ratio cell. */
  lemma RatioText(text: string, yes: nat, total: nat)
    ensures text + " `" + NatToString(yes) + "/" + NatToString(total) + "` |"
         == text + " " + RatioCell(yes, total) + " |"
  {
    var y := NatToString(yes);
    var n := NatToString(total);
    assert " `" + y + "/" + n + "` |" == " " + RatioCell(yes, total) + " |";
    ConcatAssoc(text, " `" + y + "/" + n + "`", " |");
  }

  lemma {:induction false} DigitsArePlain(s: string)
    requires forall i :: 0 <= i < |s| ==> IsAsciiDigit(s[i])
    ensures '|' !in s && '\n' !in s && NoMarkup(s)
  {
  }

  lemma {:induction false} NoMarkupConcat(a: string, b: string)
    requires NoMarkup(a) && NoMarkup(b)
    ensures NoMarkup(a + b)
  {
    forall i | 0 <= i < |a + b| ensures !IsMarkupChar((a + b)[i]) {
      if i >= |a| {
        assert (a + b)[i] == b[i - |a|];
      }
    }
  }

  lemma {:induction false} TotalCellIsPlain(total: nat)
    ensures IsPlainCell(TotalCell(total))
  {
    var n := NatToString(total);
    DigitsArePlain(n);
    NoMarkupConcat("**Total** = `", n);
    NoMarkupConcat("**Total** = `" + n, "`");
  }

  lemma {:induction false} RatioCellIsPlain(yes: nat, total: nat)
    ensures IsPlainCell(RatioCell(yes, total))
  {
    var n := NatToString(total);
    var y := NatToString(yes);
    DigitsArePlain(n);
    DigitsArePlain(y);
    NoMarkupConcat("`", y);
    NoMarkupConcat("`" + y, "/");
    NoMarkupConcat("`" + y + "/", n);
    NoMarkupConcat("`" + y + "/" + n, "`");
  }

  lemma {:induction false} SummaryCellsArePlain(rows: seq<seq<string>>, width: nat)
    requires width >= 1
    ensures forall j :: 0 <= j < width ==> IsPlainCell(AnalysisCells(rows, width)[j])
  {
    TotalCellIsPlain(|rows|);
    forall j | 1 <= j < width ensures IsPlainCell(AnalysisCells(rows, width)[j]) {
      RatioCellIsPlain(YesCount(rows, j), |rows|);
    }
  }

  /** The summary reads back, through the editor's own row splitter, as the
      total followed by one yes ratio per column after the first. */
  lemma AnalysisReadsBack(rows: seq<seq<string>>, width: nat)
    requires width >= 1
    ensures ParseRow(RowLine(AnalysisCells(rows, width))) == AnalysisCells(rows, width)
  {
    SummaryCellsArePlain(rows, width);
    ParseRowLine(AnalysisCells(rows, width));
  }

  // ---------------------------------------------------------------------
  // getMostCommonValue

  /** The position of the first occurrence of `v`. */
  function FirstIndex(values: seq<string>, v: string): (r: nat)
    requires v in values
    ensures r < |values| && values[r] == v && v !in values[..r]
  {
    if values[0] == v then 0
    else
      var r := 1 + FirstIndex(values[1..], v);
      assert values[1..][..r - 1] == values[1..r];
      r
  }

  lemma {:induction false} FirstIndexBefore(values: seq<string>, v: string, i: nat)
    requires i <= |values| && v in values[..i]
    ensures FirstIndex(values, v) < i
  {
  }

  lemma {:induction false} FirstIndexAt(values: seq<string>, i: nat)
    requires i < |values| && values[i] !in values[..i]
    ensures FirstIndex(values, values[i]) == i
  {
    assert values[..i + 1][i] == values[i];
    FirstIndexBefore(values, values[i], i + 1);
  }

  /** What the counting loop knows after the first `i` values: the keys
      are the values met so far, in order of first occurrence, each with its
      count. */
  ghost predicate Counted(values: seq<string>, i: nat, freq: OMap<nat>)
    requires i <= |values|
  {
    UniqueKeys(freq) && KeysMet(values[..i], freq) && CountsOf(values[..i], freq) && InFirstOrder(values, freq)
  }

  /** The keys are the values met. */
  ghost predicate KeysMet(met: seq<string>, freq: OMap<nat>)
  {
    forall v :: HasKey(freq, v) <==> v in met
  }

  /** Each key is a value met, with the number of times it was met. */
  ghost predicate CountsOf(met: seq<string>, freq: OMap<nat>)
  {
    forall a :: 0 <= a < |freq| ==> freq[a].key in met && freq[a].value == multiset(met)[freq[a].key]
  }

  /** The keys are in order of first occurrence in `values`. */
  ghost predicate InFirstOrder(values: seq<string>, freq: OMap<nat>)
  {
    forall a, b :: 0 <= a < b < |freq| ==>
      freq[a].key in values && freq[b].key in values && FirstIndex(values, freq[a].key) < FirstIndex(values, freq[b].key)
  }

  /** `(frequency[val] || 0) + 1`: one more than the count read back, one
      for a value not counted yet. */
  function NextCount(c: Option<nat>): (r: nat)
    ensures r >= 1
  {
    if c.Some? then c.value + 1 else 1
  }

  /** The frequency map after counting the first `n` values in order: the
      count of each value met is raised by one, a value met for the first
      time is appended. */
  function Frequencies(values: seq<string>, n: nat): OMap<nat>
    requires n <= |values|
  {
    if n == 0 then []
    else
      var before := Frequencies(values, n - 1);
      Set(before, values[n - 1], NextCount(Get(before, values[n - 1])))
  }

  /** Counting any prefix gives the keys in order of first occurrence, each
      with its number of occurrences. */
  lemma {:induction false} FrequenciesCounted(values: seq<string>, n: nat)
    requires n <= |values|
    ensures Counted(values, n, Frequencies(values, n))
  {
    if n == 0 {
      CountedNothing(values);
    } else {
      FrequenciesCounted(values, n - 1);
      var freq := Frequencies(values, n - 1);
      FrequenciesNext(values, n - 1);
      CountRound(values, n, freq, NextCount(Get(freq, values[n - 1])), Frequencies(values, n));
    }
  }

  /** Before the loop nothing is counted. */
  lemma CountedNothing(values: seq<string>)
    ensures Counted(values, 0, [])
  {
    assert values[..0] == [];
  }

  /** The counting loop: `frequency[val] = (frequency[val] || 0) + 1`. */
  method CountValues(values: seq<string>) returns (freq: OMap<nat>)
    ensures freq == Frequencies(values, |values|)
  {
    freq := [];
    var i := 0;
    while i < |values|
      invariant 0 <= i <= |values|
      invariant freq == Frequencies(values, i)
    {
      var v := values[i];
      var c := Get(freq, v);
      var count := if c.Some? then c.value + 1 else 1;
      FrequenciesNext(values, i);
      freq := Set(freq, v, count);
      i := i + 1;
    }
  }

  /** Counting one more value. */
  lemma FrequenciesNext(values: seq<string>, i: nat)
    requires i < |values|
    ensures Frequencies(values, i + 1) == Set(Frequencies(values, i), values[i], NextCount(Get(Frequencies(values, i), values[i])))
  {
  }

  /** One round of the counting loop keeps its invariant. */
  lemma CountRound(values: seq<string>, n: nat, freq: OMap<nat>, count: nat, r: OMap<nat>)
    requires 0 < n <= |values| && Counted(values, n - 1, freq)
    requires count == NextCount(Get(freq, values[n - 1]))
    requires r == Set(freq, values[n - 1], count)
    ensures Counted(values, n, r)
  {
    var i := n - 1;
    var v := values[i];
    SetUnique(freq, v, count);
    CountStepKeys(values, i, freq, count);
    CountStepValues(values, i, freq, count, r);
    CountStepOrder(values, i, freq, count, r);
  }

  lemma {:induction false} CountStepKeys(values: seq<string>, i: nat, freq: OMap<nat>, count: nat)
    requires i < |values|
    requires forall v :: HasKey(freq, v) <==> v in values[..i]
    ensures forall w :: HasKey(Set(freq, values[i], count), w) <==> w in values[..i + 1]
  {
    assert values[..i + 1] == values[..i] + [values[i]];
    forall w ensures HasKey(Set(freq, values[i], count), w) <==> w in values[..i + 1] {
      HasKeySet(freq, values[i], count, w);
    }
  }

  lemma {:induction false} CountStepValues(values: seq<string>, i: nat, freq: OMap<nat>, count: nat, r: OMap<nat>)
    requires i < |values| && Counted(values, i, freq)
    requires count == NextCount(Get(freq, values[i]))
    requires r == Set(freq, values[i], count)
    ensures forall a :: 0 <= a < |r| ==> r[a].key in values[..i + 1] && r[a].value == multiset(values[..i + 1])[r[a].key]
  {
    SetUnique(freq, values[i], count);
    CountStepKeys(values, i, freq, count);
    forall a | 0 <= a < |r| ensures r[a].key in values[..i + 1] && r[a].value == multiset(values[..i + 1])[r[a].key] {
      assert HasKey(r, r[a].key);
      assert values[..i + 1] == values[..i] + [values[i]];
      CountEntry(values[..i], values[i], freq, count, a);
    }
  }

  /** The count stored at one entry after a round of the counting loop. */
  lemma {:induction false} CountEntry(before: seq<string>, v: string, freq: OMap<nat>, count: nat, a: nat)
    requires UniqueKeys(freq)
    requires forall w :: HasKey(freq, w) <==> w in before
    requires forall p :: 0 <= p < |freq| ==> freq[p].value == multiset(before)[freq[p].key]
    requires count == NextCount(Get(freq, v))
    requires UniqueKeys(Set(freq, v, count)) && a < |Set(freq, v, count)|
    ensures var r := Set(freq, v, count);
      r[a].value == multiset(before + [v])[r[a].key]
  {
    var r := Set(freq, v, count);
    var w := r[a].key;
    assert multiset(before + [v]) == multiset(before) + multiset{v};
    GetAt(r, a);
    if w == v {
      GetSetSame(freq, v, count);
      if HasKey(freq, v) {
        var p :| 0 <= p < |freq| && freq[p].key == v;
        GetAt(freq, p);
      }
    } else {
      GetSetOther(freq, v, count, w);
      assert HasKey(freq, w);
      var p :| 0 <= p < |freq| && freq[p].key == w;
      GetAt(freq, p);
    }
  }

  lemma {:induction false} CountStepOrder(values: seq<string>, i: nat, freq: OMap<nat>, count: nat, r: OMap<nat>)
    requires i < |values| && Counted(values, i, freq)
    requires r == Set(freq, values[i], count)
    ensures forall a :: 0 <= a < |r| ==> r[a].key in values
    ensures forall a, b :: 0 <= a < b < |r| ==> FirstIndex(values, r[a].key) < FirstIndex(values, r[b].key)
  {
    var v := values[i];
    SetKeys(freq, v, count);
    assert values == values[..i] + values[i..];
    forall a | 0 <= a < |r| ensures r[a].key in values {
      assert Keys(r)[a] == r[a].key;
      if HasKey(freq, v) || a < |freq| {
        assert Keys(freq)[a] == freq[a].key;
        assert freq[a].key in values[..i];
      }
    }
    forall a, b | 0 <= a < b < |r| ensures FirstIndex(values, r[a].key) < FirstIndex(values, r[b].key) {
      assert Keys(r)[a] == r[a].key && Keys(r)[b] == r[b].key;
      if HasKey(freq, v) {
        assert Keys(freq)[a] == freq[a].key && Keys(freq)[b] == freq[b].key;
      } else if b < |freq| {
        assert (Keys(freq) + [v])[a] == freq[a].key && (Keys(freq) + [v])[b] == freq[b].key;
      } else {
        assert (Keys(freq) + [v])[a] == freq[a].key && r[b].key == v;
        FirstIndexBefore(values, freq[a].key, i);
        FirstIndexAt(values, i);
      }
    }
  }

  /** `getMostCommonValue`: after counting, the entries are sorted by
      descending count with a stable sort and the first key is taken, `''`
      when there is none. The value returned occurs at least as often as any
      other, and among the values occurring that often it is the one that
      occurs first. */
  method MostCommonValue(values: seq<string>) returns (r: string)
    ensures values == [] ==> r == ""
    ensures values != [] ==> r in values
    ensures forall v :: v in values ==> multiset(values)[v] <= multiset(values)[r]
    ensures forall v :: v in values && multiset(values)[v] == multiset(values)[r] ==>
      FirstIndex(values, r) <= FirstIndex(values, v)
  {
    var freq := CountValues(values);
    CountedEmpty(values);
    r := "";
    if |freq| == 0 {
      return;
    }
    var best := 0;
    var j := 1;
    while j < |freq|
      invariant 1 <= j <= |freq| && best < j
      invariant forall a :: 0 <= a < j ==> freq[a].value <= freq[best].value
      invariant forall a :: 0 <= a < best ==> freq[a].value < freq[best].value
    {
      if freq[j].value > freq[best].value {
        best := j;
      }
      j := j + 1;
    }
    r := freq[best].key;
    MostCountedFirst(values, freq, best);
  }

  /** Nothing was counted only when there was nothing to count. */
  lemma CountedEmpty(values: seq<string>)
    ensures Frequencies(values, |values|) == [] <==> values == []
  {
    var freq := Frequencies(values, |values|);
    FrequenciesCounted(values, |values|);
    if values != [] {
      assert values[..|values|][0] == values[0];
      assert HasKey(freq, values[0]);
    }
    if freq != [] {
      assert freq[0].key in values[..|values|];
    }
  }

  /** The entry with the largest count, the first such entry when several
      tie, holds the value that occurs most often and, among those, first. */
  lemma MostCountedFirst(values: seq<string>, freq: OMap<nat>, best: nat)
    requires freq == Frequencies(values, |values|) && best < |freq|
    requires forall a :: 0 <= a < |freq| ==> freq[a].value <= freq[best].value
    requires forall a :: 0 <= a < best ==> freq[a].value < freq[best].value
    ensures freq[best].key in values
    ensures forall v :: v in values ==> multiset(values)[v] <= multiset(values)[freq[best].key]
    ensures forall v :: v in values && multiset(values)[v] == multiset(values)[freq[best].key] ==>
      FirstIndex(values, freq[best].key) <= FirstIndex(values, v)
  {
    var r := freq[best].key;
    FrequenciesCounted(values, |values|);
    assert values[..|values|] == values;
    forall v | v in values
      ensures multiset(values)[v] <= multiset(values)[r]
      ensures multiset(values)[v] == multiset(values)[r] ==> FirstIndex(values, r) <= FirstIndex(values, v)
    {
      assert HasKey(freq, v);
      var p :| 0 <= p < |freq| && freq[p].key == v;
      if multiset(values)[v] == multiset(values)[r] && p != best {
        assert best < p;
      }
    }
  }

}
