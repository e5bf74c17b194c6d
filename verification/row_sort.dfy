/** The "sort rows" action of the table editors: rows ordered by their first
    cell, compared case-insensitively, with a missing first cell sorting as
    the empty string. */
module RowSort {
  import opened Text

  /** The sort key of a row: its first cell lower-cased, the empty string for a row without cells. */
  function SortKey(row: seq<string>): (r: string)
    ensures row == [] ==> r == ""
    ensures row != [] ==> r == Lower(row[0])
  {
    if row == [] then "" else Lower(row[0])
  }

  /** Code-point order on strings: a prefix comes first, otherwise the first
      differing character decides. */
  predicate LexLe(a: string, b: string)
  {
    a == [] || (b != [] && (a[0] < b[0] || (a[0] == b[0] && LexLe(a[1..], b[1..]))))
  }

  lemma {:induction false} LexLeTotal(a: string, b: string)
    ensures LexLe(a, b) || LexLe(b, a)
  {
    if a != [] && b != [] && a[0] == b[0] {
      LexLeTotal(a[1..], b[1..]);
    }
  }

  lemma {:induction false} LexLeTransitive(a: string, b: string, c: string)
    requires LexLe(a, b) && LexLe(b, c)
    ensures LexLe(a, c)
  {
    if a != [] && b != [] && c != [] && a[0] == b[0] && b[0] == c[0] {
      LexLeTransitive(a[1..], b[1..], c[1..]);
    }
  }

  lemma {:induction false} LexLeAntisymmetric(a: string, b: string)
    requires LexLe(a, b) && LexLe(b, a)
    ensures a == b
  {
    if a != [] && b != [] {
      LexLeAntisymmetric(a[1..], b[1..]);
      assert a == [a[0]] + a[1..];
      assert b == [b[0]] + b[1..];
    }
  }

  predicate SortedByKey(rows: seq<seq<string>>)
  {
    forall i, j :: 0 <= i < j < |rows| ==> LexLe(SortKey(rows[i]), SortKey(rows[j]))
  }

  /** The rows whose key is `key`, in their order. */
  function RowsWithKey(rows: seq<seq<string>>, key: string): (r: seq<seq<string>>)
    ensures |r| <= |rows|
  {
    if rows == [] then [] else KeyedRow(rows[0], key) + RowsWithKey(rows[1..], key)
  }

  /** The row alone when it has the key, nothing otherwise. */
  function KeyedRow(row: seq<string>, key: string): seq<seq<string>>
  {
    if SortKey(row) == key then [row] else []
  }

  lemma {:induction false} RowsWithKeyConcat(a: seq<seq<string>>, b: seq<seq<string>>, key: string)
    ensures RowsWithKey(a + b, key) == RowsWithKey(a, key) + RowsWithKey(b, key)
  {
    if a == [] {
      assert a + b == b;
    } else {
      var ab := a + b;
      assert ab[0] == a[0] && ab[1..] == a[1..] + b;
      RowsWithKeyConcat(a[1..], b, key);
      ConcatAssoc(KeyedRow(a[0], key), RowsWithKey(a[1..], key), RowsWithKey(b, key));
    }
  }

  lemma RowsWithKeySingle(row: seq<string>, key: string)
    ensures RowsWithKey([row], key) == KeyedRow(row, key)
  {
    assert [row][1..] == [];
  }

  /** Rows none of which has the key contribute nothing. */
  lemma {:induction false} RowsWithKeyNone(rows: seq<seq<string>>, key: string)
    requires forall m :: 0 <= m < |rows| ==> SortKey(rows[m]) != key
    ensures RowsWithKey(rows, key) == []
  {
    if rows != [] {
      RowsWithKeyNone(rows[1..], key);
    }
  }

  /** `Array.prototype.sort` is stable: rows with the same key keep their
      relative order. */
  ghost predicate StableOf(sorted: seq<seq<string>>, rows: seq<seq<string>>)
  {
    forall key :: RowsWithKey(sorted, key) == RowsWithKey(rows, key)
  }

  /** `rows.sort(...)` by the first cell: the result is ordered, holds the
      same rows, each as often as before, and keeps rows with equal keys in
      their original order. */
  method SortRows(rows: seq<seq<string>>) returns (sorted: seq<seq<string>>)
    ensures SortedByKey(sorted)
    ensures multiset(sorted) == multiset(rows)
    ensures StableOf(sorted, rows)
  {
    sorted := [];
    var i := 0;
    while i < |rows|
      invariant 0 <= i <= |rows|
      invariant SortedByKey(sorted)
      invariant multiset(sorted) == multiset(rows[..i])
      invariant StableOf(sorted, rows[..i])
    {
      var before := sorted;
      sorted := InsertSorted(sorted, rows[i]);
      assert rows[..i + 1] == rows[..i] + [rows[i]];
      forall key ensures RowsWithKey(sorted, key) == RowsWithKey(rows[..i + 1], key) {
        RowsWithKeyConcat(rows[..i], [rows[i]], key);
      }
      i := i + 1;
    }
    assert rows[..i] == rows;
  }

  lemma {:induction false} InsertKeepsSorted(sorted: seq<seq<string>>, row: seq<string>, j: nat)
    requires SortedByKey(sorted) && j <= |sorted|
    requires j > 0 ==> LexLe(SortKey(sorted[j - 1]), SortKey(row))
    requires forall m :: j <= m < |sorted| ==> LexLe(SortKey(row), SortKey(sorted[m]))
    ensures SortedByKey(sorted[..j] + [row] + sorted[j..])
  {
    var r := sorted[..j] + [row] + sorted[j..];
    forall a, b | 0 <= a < b < |r| ensures LexLe(SortKey(r[a]), SortKey(r[b])) {
      if b <= j {
        InsertedPairBefore(sorted, row, j, a, b);
      } else {
        InsertedPairAfter(sorted, row, j, a, b);
      }
    }
  }

  lemma InsertedPairBefore(sorted: seq<seq<string>>, row: seq<string>, j: nat, a: nat, b: nat)
    requires SortedByKey(sorted) && a < b <= j <= |sorted|
    requires j > 0 ==> LexLe(SortKey(sorted[j - 1]), SortKey(row))
    ensures var r := sorted[..j] + [row] + sorted[j..];
      LexLe(SortKey(r[a]), SortKey(r[b]))
  {
    InsertedAt(sorted, row, j, a);
    InsertedAt(sorted, row, j, b);
    if b == j && a < j - 1 {
      LexLeTransitive(SortKey(sorted[a]), SortKey(sorted[j - 1]), SortKey(row));
    }
  }

  lemma InsertedPairAfter(sorted: seq<seq<string>>, row: seq<string>, j: nat, a: nat, b: nat)
    requires SortedByKey(sorted) && j <= |sorted| && a < b && j < b <= |sorted|
    requires forall m :: j <= m < |sorted| ==> LexLe(SortKey(row), SortKey(sorted[m]))
    ensures var r := sorted[..j] + [row] + sorted[j..];
      LexLe(SortKey(r[a]), SortKey(r[b]))
  {
    InsertedAt(sorted, row, j, a);
    InsertedAt(sorted, row, j, b);
  }

  /** Where the elements of `s` with `x` inserted at `j` come from. */
  lemma InsertedAt<T>(s: seq<T>, x: T, j: nat, i: nat)
    requires j <= |s| && i <= |s|
    ensures (s[..j] + [x] + s[j..])[i] == if i < j then s[i] else if i == j then x else s[i - 1]
  {
  }

  /** Inserts `row` after every row whose key is not greater, so rows with
      equal keys keep their order. */
  method InsertSorted(sorted: seq<seq<string>>, row: seq<string>) returns (r: seq<seq<string>>)
    requires SortedByKey(sorted)
    ensures SortedByKey(r)
    ensures multiset(r) == multiset(sorted) + multiset{row}
    ensures forall key :: RowsWithKey(r, key) == RowsWithKey(sorted, key) + RowsWithKey([row], key)
  {
    var key := SortKey(row);
    var j := |sorted|;
    while j > 0 && !LexLe(SortKey(sorted[j - 1]), key)
      invariant 0 <= j <= |sorted|
      invariant forall m :: j <= m < |sorted| ==> LexLe(key, SortKey(sorted[m]))
      invariant forall m :: j <= m < |sorted| ==> SortKey(sorted[m]) != key
    {
      LexLeTotal(key, SortKey(sorted[j - 1]));
      j := j - 1;
    }
    r := sorted[..j] + [row] + sorted[j..];
    assert j > 0 ==> LexLe(SortKey(sorted[j - 1]), key);
    InsertKeepsSorted(sorted, row, j);
    InsertedMultiset(sorted, row, j);
    InsertedStable(sorted, row, j);
  }

  /** Inserting a row after every row of its key, and before rows of other
      keys only, appends it to the rows of its key. */
  lemma InsertedStable(sorted: seq<seq<string>>, row: seq<string>, j: nat)
    requires j <= |sorted|
    requires forall m :: j <= m < |sorted| ==> SortKey(sorted[m]) != SortKey(row)
    ensures forall key ::
      RowsWithKey(sorted[..j] + [row] + sorted[j..], key) == RowsWithKey(sorted, key) + RowsWithKey([row], key)
  {
    var x, y := sorted[..j], sorted[j..];
    SplitAt(sorted, j);
    assert forall m :: 0 <= m < |y| ==> SortKey(y[m]) != SortKey(row) by {
      forall m | 0 <= m < |y| ensures y[m] == sorted[j + m] { }
    }
    forall key ensures RowsWithKey(x + [row] + y, key) == RowsWithKey(sorted, key) + RowsWithKey([row], key) {
      InsertedStableAt(x, row, y, key);
    }
  }

  lemma SplitAt<T>(s: seq<T>, j: nat)
    requires j <= |s|
    ensures s[..j] + s[j..] == s
  {
  }

  lemma InsertedStableAt(x: seq<seq<string>>, row: seq<string>, y: seq<seq<string>>, key: string)
    requires forall m :: 0 <= m < |y| ==> SortKey(y[m]) != SortKey(row)
    ensures RowsWithKey(x + [row] + y, key) == RowsWithKey(x + y, key) + RowsWithKey([row], key)
  {
    var a := RowsWithKey(x, key);
    var k := KeyedRow(row, key);
    var b := RowsWithKey(y, key);
    RowsWithKeyConcat(x + [row], y, key);
    RowsWithKeyConcat(x, [row], key);
    RowsWithKeyConcat(x, y, key);
    RowsWithKeySingle(row, key);
    assert RowsWithKey(x + [row] + y, key) == a + k + b;
    assert RowsWithKey(x + y, key) + RowsWithKey([row], key) == a + b + k;
    if key == SortKey(row) {
      RowsWithKeyNone(y, key);
    }
    SwapAroundEmpty(a, k, b);
  }

  lemma SwapAroundEmpty<T>(a: seq<T>, k: seq<T>, b: seq<T>)
    requires k == [] || b == []
    ensures a + k + b == a + b + k
  {
  }

  lemma InsertedMultiset<T>(s: seq<T>, x: T, j: nat)
    requires j <= |s|
    ensures multiset(s[..j] + [x] + s[j..]) == multiset(s) + multiset{x}
  {
    assert s == s[..j] + s[j..];
  }
}
