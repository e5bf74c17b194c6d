/** The fuzzy list matcher (song-comaprison/js/app.js): two lists of song
    titles are read one per line, and every entry of the first list is
    paired greedily with the most similar unmatched entry of the second,
    where similarity is one minus the Levenshtein distance of the normalised
    titles over the longer length, and only scores above 0.8 count. */
module SongComparison {
  import opened Text
  import opened Wrappers
  import MdTableEditor

  const EmptyListsMessage := "Please provide both lists to compare"

  // ---------------------------------------------------------------------
  // reading a list

  /** The lines that are not empty, in order. */
  function NonEmpty(lines: seq<string>): (r: seq<string>)
    ensures |r| <= |lines|
    ensures forall i :: 0 <= i < |r| ==> r[i] != []
    ensures (forall i :: 0 <= i < |lines| ==> lines[i] != []) ==> r == lines
  {
    if lines == [] then []
    else (if lines[0] == [] then [] else [lines[0]]) + NonEmpty(lines[1..])
  }

  /** `parseList`: the lines of the text, trimmed, without the empty ones. */
  function ParseList(text: string): seq<string>
  {
    NonEmpty(MdTableEditor.TrimAll(Split(text, '\n')))
  }

  /** Every title read is trimmed, non-empty and a single line. */
  lemma ParseListLines(text: string)
    ensures forall i :: 0 <= i < |ParseList(text)| ==>
      ParseList(text)[i] != [] && IsTrimmed(ParseList(text)[i]) && '\n' !in ParseList(text)[i]
  {
    var lines := Split(text, '\n');
    var trimmed := MdTableEditor.TrimAll(lines);
    forall i | 0 <= i < |trimmed| ensures '\n' !in trimmed[i] {
      TrimSlice(lines[i], '\n');
    }
    NonEmptyKeeps(trimmed);
  }

  /** Where the trimmed string starts inside the original. */
  lemma TrimOffset(s: string) returns (k: nat)
    ensures k + |Trim(s)| <= |s| && Trim(s) == s[k..k + |Trim(s)|]
  {
    var a := TrimStart(s);
    k := |s| - |a|;
    assert Trim(s) == TrimEnd(a);
  }

  lemma TrimSlice(s: string, c: char)
    requires c !in s
    ensures c !in Trim(s)
  {
    var r := Trim(s);
    var k := TrimOffset(s);
    assert forall i :: 0 <= i < |r| ==> r[i] == s[k + i];
  }

  lemma {:induction false} NonEmptyKeeps(lines: seq<string>)
    requires forall i :: 0 <= i < |lines| ==> IsTrimmed(lines[i]) && '\n' !in lines[i]
    ensures forall i :: 0 <= i < |NonEmpty(lines)| ==> IsTrimmed(NonEmpty(lines)[i]) && '\n' !in NonEmpty(lines)[i]
  {
    if lines != [] {
      NonEmptyKeeps(lines[1..]);
    }
  }

  /** Writing titles one per line and reading the text back gives the titles,
      when each is trimmed, non-empty and a single line. */
  lemma ParseListOfLines(titles: seq<string>)
    requires forall i :: 0 <= i < |titles| ==> titles[i] != [] && IsTrimmed(titles[i]) && '\n' !in titles[i]
    ensures ParseList(Join(titles, "\n")) == titles
  {
    if titles == [] {
      ParseEmptyText();
    } else {
      SplitJoin(titles, '\n');
      assert Split(Join(titles, "\n"), '\n') == titles;
      TrimAllOfTrimmed(titles);
    }
  }

  /** The empty text holds no titles. */
  lemma ParseEmptyText()
    ensures ParseList("") == []
  {
    assert Split("", '\n') == [""];
    var trimmed := MdTableEditor.TrimAll([""]);
    assert trimmed[0] == Trim("") == "";
    assert trimmed == [""];
  }

  lemma TrimAllOfTrimmed(lines: seq<string>)
    requires forall i :: 0 <= i < |lines| ==> IsTrimmed(lines[i])
    ensures MdTableEditor.TrimAll(lines) == lines
  {
    var trimmed := MdTableEditor.TrimAll(lines);
    forall i | 0 <= i < |lines| ensures trimmed[i] == lines[i] {
      TrimOfTrimmed(lines[i]);
    }
  }

  // ---------------------------------------------------------------------
  // normalisation

  /** The class `\w`: ASCII letters, digits and the underscore. */
  predicate IsWordChar(c: char)
  {
    IsAsciiLetter(c) || IsAsciiDigit(c) || c == '_'
  }

  /** A character a normalised title can hold besides the space. */
  predicate IsNormalChar(c: char)
  {
    IsAsciiLower(c) || IsAsciiDigit(c) || c == '_'
  }

  /** `replace(/[^\w\s]/g, '')`: keeps word characters and white space. */
  function KeepWordAndSpace(s: string): string
  {
    if s == [] then []
    else (if IsWordChar(s[0]) || IsWhiteSpace(s[0]) then [s[0]] else []) + KeepWordAndSpace(s[1..])
  }

  /** Only word characters and white space are kept, and no upper-case
      letter appears that was not there before. */
  lemma {:induction false} KeepWordAndSpaceKeeps(s: string)
    ensures forall i :: 0 <= i < |KeepWordAndSpace(s)| ==>
      IsWordChar(KeepWordAndSpace(s)[i]) || IsWhiteSpace(KeepWordAndSpace(s)[i])
    ensures (forall i :: 0 <= i < |s| ==> !IsAsciiUpper(s[i])) ==>
      forall i :: 0 <= i < |KeepWordAndSpace(s)| ==> !IsAsciiUpper(KeepWordAndSpace(s)[i])
  {
    if s != [] {
      KeepWordAndSpaceKeeps(s[1..]);
      assert (forall i :: 0 <= i < |s| ==> !IsAsciiUpper(s[i])) ==> forall i :: 0 <= i < |s[1..]| ==> !IsAsciiUpper(s[1..][i]);
    }
  }

  /** Every white-space character is a single space, with no white space
      right after it. */
  predicate IsCollapsed(s: string)
  {
    (forall i :: 0 <= i < |s| && IsWhiteSpace(s[i]) ==> s[i] == ' ') &&
    (forall i, j :: 0 <= i < |s| && j == i + 1 && j < |s| ==> !IsWhiteSpace(s[i]) || !IsWhiteSpace(s[j]))
  }

  /** Every character that is not white space is a normal one. */
  predicate AllNormal(s: string)
  {
    forall i :: 0 <= i < |s| && !IsWhiteSpace(s[i]) ==> IsNormalChar(s[i])
  }

  /** `replace(/\s+/g, ' ')`: each run of white space becomes one space. */
  function CollapseWhiteSpace(s: string): string
    decreases |s|
  {
    if s == [] then []
    else if IsWhiteSpace(s[0]) then
      var rest := TrimStart(s);
      assert |rest| < |s|;
      " " + CollapseWhiteSpace(rest)
    else [s[0]] + CollapseWhiteSpace(s[1..])
  }

  /** The result is collapsed, keeps the normal characters normal, and
      starts with the same character when that is not white space. */
  lemma {:induction false} CollapseIsCollapsed(s: string)
    ensures IsCollapsed(CollapseWhiteSpace(s))
    ensures AllNormal(s) ==> AllNormal(CollapseWhiteSpace(s))
    ensures s != [] && !IsWhiteSpace(s[0]) ==> CollapseWhiteSpace(s) != [] && CollapseWhiteSpace(s)[0] == s[0]
    decreases |s|
  {
    if s == [] {
    } else if IsWhiteSpace(s[0]) {
      var rest := TrimStart(s);
      SuffixNormal(s, |s| - |rest|);
      CollapseIsCollapsed(rest);
      var c := CollapseWhiteSpace(rest);
      assert CollapseWhiteSpace(s) == [' '] + c;
      assert rest == [] ==> c == [];
      ConsCollapsed(' ', c);
      if AllNormal(s) { ConsNormal(' ', c); }
    } else {
      SuffixNormal(s, 1);
      CollapseIsCollapsed(s[1..]);
      var c := CollapseWhiteSpace(s[1..]);
      assert CollapseWhiteSpace(s) == [s[0]] + c;
      ConsCollapsed(s[0], c);
      if AllNormal(s) {
        assert IsNormalChar(s[0]);
        ConsNormal(s[0], c);
      }
    }
  }

  lemma SuffixNormal(s: string, k: nat)
    requires k <= |s|
    ensures AllNormal(s) ==> AllNormal(s[k..])
  {
    assert forall i :: 0 <= i < |s| - k ==> s[k..][i] == s[k + i];
  }

  /** A character in front of a collapsed string keeps it collapsed unless
      it is white space other than a single space, or a space before more
      white space. */
  lemma ConsCollapsed(x: char, c: string)
    requires IsCollapsed(c) && (IsWhiteSpace(x) ==> x == ' ' && (c == [] || !IsWhiteSpace(c[0])))
    ensures IsCollapsed([x] + c)
  {
    var r := [x] + c;
    assert forall i :: 0 < i < |r| ==> r[i] == c[i - 1];
  }

  lemma ConsNormal(x: char, c: string)
    requires AllNormal(c) && (!IsWhiteSpace(x) ==> IsNormalChar(x))
    ensures AllNormal([x] + c)
  {
    var r := [x] + c;
    assert forall i :: 0 < i < |r| ==> r[i] == c[i - 1];
  }

  /** What `normalize` gives: lower-case word characters and single spaces
      between them. */
  predicate IsNormal(s: string)
  {
    IsTrimmed(s) && IsCollapsed(s) && AllNormal(s)
  }

  /** `normalize` inside `calculateSimilarity`. */
  function Normalize(s: string): string
  {
    Trim(CollapseWhiteSpace(KeepWordAndSpace(Lower(s))))
  }

  /** Whatever the title, its normal form is normal. */
  lemma NormalizeIsNormal(s: string)
    ensures IsNormal(Normalize(s))
  {
    var lower := Lower(s);
    var kept := KeepWordAndSpace(lower);
    KeepWordAndSpaceKeeps(lower);
    assert AllNormal(kept) by {
      forall i | 0 <= i < |kept| && !IsWhiteSpace(kept[i]) ensures IsNormalChar(kept[i]) {
        assert IsWordChar(kept[i]) && !IsAsciiUpper(kept[i]);
      }
    }
    CollapseIsCollapsed(kept);
    TrimKeepsNormal(CollapseWhiteSpace(kept));
  }

  /** Trimming a collapsed string of normal characters keeps it so. */
  lemma TrimKeepsNormal(s: string)
    requires IsCollapsed(s) && AllNormal(s)
    ensures IsCollapsed(Trim(s)) && AllNormal(Trim(s))
  {
    var r := Trim(s);
    var k := TrimOffset(s);
    SliceKeepsNormal(s, k, |r|);
  }

  lemma SliceKeepsNormal(s: string, k: nat, n: nat)
    requires k + n <= |s| && IsCollapsed(s) && AllNormal(s)
    ensures IsCollapsed(s[k..k + n]) && AllNormal(s[k..k + n])
  {
    var r := s[k..k + n];
    assert forall i :: 0 <= i < |r| ==> r[i] == s[k + i];
  }

  lemma {:induction false} KeepAll(s: string)
    requires forall i :: 0 <= i < |s| ==> IsWordChar(s[i]) || IsWhiteSpace(s[i])
    ensures KeepWordAndSpace(s) == s
  {
    if s != [] {
      KeepAll(s[1..]);
      assert s == [s[0]] + s[1..];
    }
  }

  lemma {:induction false} CollapseCollapsed(s: string)
    requires IsCollapsed(s)
    ensures CollapseWhiteSpace(s) == s
    decreases |s|
  {
    if s != [] {
      assert IsCollapsed(s[1..]) by {
        assert forall i :: 0 <= i < |s| - 1 ==> s[1..][i] == s[i + 1];
      }
      CollapseCollapsed(s[1..]);
      if IsWhiteSpace(s[0]) {
        assert TrimStart(s[1..]) == s[1..];
        assert TrimStart(s) == s[1..];
      }
      assert s == [s[0]] + s[1..];
    }
  }

  /** A normal title is its own normal form. */
  lemma NormalizeNormal(s: string)
    requires IsNormal(s)
    ensures Normalize(s) == s
  {
    assert Lower(s) == s;
    KeepAll(s);
    CollapseCollapsed(s);
    TrimOfTrimmed(s);
  }

  /** Normalising twice is normalising once. */
  lemma NormalizeIdempotent(s: string)
    ensures Normalize(Normalize(s)) == Normalize(s)
  {
    NormalizeIsNormal(s);
    NormalizeNormal(Normalize(s));
  }

  // ---------------------------------------------------------------------
  // edit distance

  function Min3(a: nat, b: nat, c: nat): nat
  {
    if a <= b && a <= c then a else if b <= c then b else c
  }

  function Max(a: nat, b: nat): nat
  {
    if a >= b then a else b
  }

  /** The Levenshtein distance between the first `j` characters of `s` and
      the first `i` characters of `t`, by the recurrence the matrix of
      `levenshteinDistance` is filled with. */
  function Lev(s: string, t: string, j: nat, i: nat): nat
    requires j <= |s| && i <= |t|
    decreases i + j
  {
    if i == 0 then j
    else if j == 0 then i
    else if t[i - 1] == s[j - 1] then Lev(s, t, j - 1, i - 1)
    else 1 + Min3(Lev(s, t, j - 1, i - 1), Lev(s, t, j - 1, i), Lev(s, t, j, i - 1))
  }

  /** The distance never exceeds the longer length. */
  lemma {:induction false} LevAtMostLonger(s: string, t: string, j: nat, i: nat)
    requires j <= |s| && i <= |t|
    ensures Lev(s, t, j, i) <= Max(j, i)
    decreases i + j
  {
    if i > 0 && j > 0 {
      LevAtMostLonger(s, t, j - 1, i - 1);
    }
  }

  /** The distance is 0 exactly when the prefixes are equal. */
  lemma {:induction false} LevZeroIffEqual(s: string, t: string, j: nat, i: nat)
    requires j <= |s| && i <= |t|
    ensures Lev(s, t, j, i) == 0 <==> s[..j] == t[..i]
    decreases i + j
  {
    if i > 0 && j > 0 {
      LevZeroIffEqual(s, t, j - 1, i - 1);
      assert s[..j] == s[..j - 1] + [s[j - 1]];
      assert t[..i] == t[..i - 1] + [t[i - 1]];
      if s[..j] == t[..i] {
        assert s[j - 1] == s[..j][j - 1] == t[..i][i - 1] == t[i - 1];
        assert s[..j - 1] == s[..j][..j - 1];
      }
    } else if i == 0 && j > 0 {
      assert |s[..j]| != |t[..i]|;
    } else if j == 0 && i > 0 {
      assert |s[..j]| != |t[..i]|;
    }
  }

  /** `levenshteinDistance(s, t)`: 0 for equal strings and only for them, the
      length of `s` against the empty string, and at most the longer length. */
  function Distance(s: string, t: string): (r: nat)
    ensures r == 0 <==> s == t
    ensures t == [] ==> r == |s|
    ensures r <= Max(|s|, |t|)
  {
    LevAtMostLonger(s, t, |s|, |t|);
    LevZeroIffEqual(s, t, |s|, |t|);
    assert s[..|s|] == s && t[..|t|] == t;
    Lev(s, t, |s|, |t|)
  }

  /** `levenshteinDistance`: row `i` of the matrix is for the first `i`
      characters of `t`, column `j` for the first `j` of `s`. */
  method LevenshteinDistance(s: string, t: string) returns (d: nat)
    ensures d == Distance(s, t)
  {
    var matrix := new nat[|t| + 1, |s| + 1];
    for i := 0 to |t| + 1
      invariant forall a :: 0 <= a < i ==> matrix[a, 0] == a
    {
      matrix[i, 0] := i;
    }
    for j := 0 to |s| + 1
      invariant forall a :: 0 <= a <= |t| ==> matrix[a, 0] == a
      invariant forall b :: 0 <= b < j ==> matrix[0, b] == b
    {
      matrix[0, j] := j;
    }
    for i := 1 to |t| + 1
      invariant forall a, b {:trigger matrix[a, b]} :: 0 <= a < i && 0 <= b <= |s| ==> matrix[a, b] == Lev(s, t, b, a)
      invariant forall a :: i <= a <= |t| ==> matrix[a, 0] == a
    {
      FillRow(matrix, s, t, i);
    }
    d := matrix[|t|, |s|];
  }

  /** One pass of the inner loop of `levenshteinDistance`: fills row `i`
      from the rows above it and leaves the rows below alone. */
  method FillRow(matrix: array2<nat>, s: string, t: string, i: nat)
    requires matrix.Length0 == |t| + 1 && matrix.Length1 == |s| + 1 && 1 <= i <= |t|
    requires forall a, b {:trigger matrix[a, b]} :: 0 <= a < i && 0 <= b <= |s| ==> matrix[a, b] == Lev(s, t, b, a)
    requires forall a :: i <= a <= |t| ==> matrix[a, 0] == a
    modifies matrix
    ensures forall a, b {:trigger matrix[a, b]} :: 0 <= a <= i && 0 <= b <= |s| ==> matrix[a, b] == Lev(s, t, b, a)
    ensures forall a :: i < a <= |t| ==> matrix[a, 0] == a
  {
    for j := 1 to |s| + 1
      invariant forall a, b {:trigger matrix[a, b]} :: 0 <= a < i && 0 <= b <= |s| ==> matrix[a, b] == Lev(s, t, b, a)
      invariant forall b {:trigger matrix[i, b]} :: 0 <= b < j ==> matrix[i, b] == Lev(s, t, b, i)
      invariant forall a :: i < a <= |t| ==> matrix[a, 0] == a
    {
      assert matrix[i - 1, j - 1] == Lev(s, t, j - 1, i - 1);
      assert matrix[i, j - 1] == Lev(s, t, j - 1, i);
      assert matrix[i - 1, j] == Lev(s, t, j, i - 1);
      if t[i - 1] == s[j - 1] {
        matrix[i, j] := matrix[i - 1, j - 1];
      } else {
        matrix[i, j] := Min3(matrix[i - 1, j - 1] + 1, matrix[i, j - 1] + 1, matrix[i - 1, j] + 1);
      }
      assert matrix[i, j] == Lev(s, t, j, i);
    }
  }

  // ---------------------------------------------------------------------
  // similarity

  /** `(m - d) / m` for a distance within the length. */
  function Ratio(m: nat, d: nat): real
    requires 0 < m && d <= m
  {
    (m - d) as real / m as real
  }

  lemma DivTimes(a: real, b: real)
    requires b > 0.0
    ensures (a / b) * b == a
  {
  }

  lemma ScaleStrict(x: real, c: real, M: real)
    requires M > 0.0
    ensures x * M > c * M <==> x > c
  {
    if x > c {
      assert (x - c) * M > 0.0;
    } else {
      assert (c - x) * M >= 0.0;
    }
  }

  lemma ScaleEqual(x: real, c: real, M: real)
    requires M > 0.0
    ensures x * M == c * M <==> x == c
  {
    ScaleStrict(x, c, M);
    ScaleStrict(c, x, M);
  }

  lemma RatioRange(m: nat, d: nat)
    requires 0 < m && d <= m
    ensures 0.0 <= Ratio(m, d) <= 1.0
    ensures Ratio(m, d) == 1.0 <==> d == 0
  {
    var x := Ratio(m, d);
    var M := m as real;
    DivTimes((m - d) as real, M);
    ScaleStrict(0.0, x, M);
    ScaleStrict(x, 1.0, M);
    ScaleEqual(x, 1.0, M);
  }

  /** The threshold 0.8 in whole numbers: the ratio is above it exactly when
      five times the distance is below the length. */
  lemma RatioAboveThreshold(m: nat, d: nat)
    requires 0 < m && d <= m
    ensures Ratio(m, d) > 0.8 <==> 5 * d < m
  {
    DivCompare((m - d) as real, m as real, 0.8);
    assert (m - d) as real == m as real - d as real;
  }

  /** Comparing a quotient with a constant, in linear terms. */
  lemma DivCompare(a: real, M: real, c: real)
    requires M > 0.0
    ensures a / M > c <==> a > c * M
  {
    var x := a / M;
    DivTimes(a, M);
    ScaleStrict(x, c, M);
  }

  /** `calculateSimilarity`. */
  function Similarity(a: string, b: string): real
  {
    var n1 := Normalize(a);
    var n2 := Normalize(b);
    if n1 == n2 then 1.0
    else
      var d := Distance(n1, n2);
      var m := Max(|n1|, |n2|);
      if m == 0 then 1.0 else Ratio(m, d)
  }

  /** The similarity lies in [0, 1] and is 1.0 exactly when the normalised
      titles are equal. */
  lemma SimilarityRange(a: string, b: string)
    ensures 0.0 <= Similarity(a, b) <= 1.0
    ensures Similarity(a, b) == 1.0 <==> Normalize(a) == Normalize(b)
  {
    var n1 := Normalize(a);
    var n2 := Normalize(b);
    if n1 != n2 {
      var m := Max(|n1|, |n2|);
      assert m > 0;
      RatioRange(m, Distance(n1, n2));
    }
  }

  /** `calculateSimilarity`, with the distance computed on the matrix. */
  method CalculateSimilarity(a: string, b: string) returns (r: real)
    ensures r == Similarity(a, b)
  {
    var n1 := Normalize(a);
    var n2 := Normalize(b);
    if n1 == n2 {
      return 1.0;
    }
    var d := LevenshteinDistance(n1, n2);
    var m := Max(|n1|, |n2|);
    r := if m == 0 then 1.0 else Ratio(m, d);
  }

  /** A pair counts as a match exactly when the normalised titles are equal
      or their distance is less than a fifth of the longer one. */
  lemma SimilarityAboveThreshold(a: string, b: string)
    ensures Similarity(a, b) > 0.8 <==>
      Normalize(a) == Normalize(b) ||
      5 * Distance(Normalize(a), Normalize(b)) < Max(|Normalize(a)|, |Normalize(b)|)
  {
    var n1 := Normalize(a);
    var n2 := Normalize(b);
    if n1 != n2 {
      var m := Max(|n1|, |n2|);
      if m > 0 {
        RatioAboveThreshold(m, Distance(n1, n2));
      }
    }
  }

  // ---------------------------------------------------------------------
  // greedy matching

  /** A row of `matches`. */
  datatype Match = Match(songA: string, songB: string, similarity: real)

  /** The result of `fuzzyMatch`. */
  datatype Comparison = Comparison(matches: seq<Match>, uniqueA: seq<string>, uniqueB: seq<string>)

  /** A way of scoring a pair of titles. The matching below is stated for
      any scorer; `fuzzyMatch` uses `Similarity`. */
  type Scorer = (string, string) -> real

  /** `bestIndex` and `bestScore` after the inner loop of `fuzzyMatch` has
      looked at the first `j` entries of `listB`: an unmatched entry replaces
      the best so far when it scores above 0.8 and strictly above the best
      score. */
  function BestOf(sim: Scorer, songA: string, listB: seq<string>, matchedB: set<nat>, j: nat): (r: (int, real))
    requires j <= |listB|
    ensures -1 <= r.0 < j
    ensures r.0 >= 0 ==> r.0 !in matchedB
  {
    if j == 0 then (-1, 0.0)
    else
      var previous := BestOf(sim, songA, listB, matchedB, j - 1);
      var score := sim(songA, listB[j - 1]);
      if j - 1 in matchedB then previous
      else if score > 0.8 && score > previous.1 then (j - 1, score)
      else previous
  }

  /** Entry `b` scores `score`, above 0.8; no unmatched entry among the
      first `j` scores higher, and none before `b` as high. */
  predicate IsBestFrom(sim: Scorer, songA: string, listB: seq<string>, matchedB: set<nat>, j: nat, b: nat, score: real)
    requires b < j <= |listB|
  {
    score == sim(songA, listB[b]) && score > 0.8 &&
    (forall k :: 0 <= k < j && k !in matchedB ==> sim(songA, listB[k]) <= score) &&
    (forall k :: 0 <= k < b && k !in matchedB ==> sim(songA, listB[k]) < score)
  }

  /** The inner loop finds the best unmatched entry, the earliest among
      equals; when it finds none, no unmatched entry scores above 0.8. */
  lemma {:induction false} BestOfIsBest(sim: Scorer, songA: string, listB: seq<string>, matchedB: set<nat>, j: nat)
    requires j <= |listB|
    ensures BestOf(sim, songA, listB, matchedB, j).0 == -1 ==>
      BestOf(sim, songA, listB, matchedB, j).1 == 0.0 &&
      forall k :: 0 <= k < j && k !in matchedB ==> sim(songA, listB[k]) <= 0.8
    ensures BestOf(sim, songA, listB, matchedB, j).0 >= 0 ==>
      IsBestFrom(sim, songA, listB, matchedB, j, BestOf(sim, songA, listB, matchedB, j).0, BestOf(sim, songA, listB, matchedB, j).1)
  {
    if j > 0 {
      BestOfIsBest(sim, songA, listB, matchedB, j - 1);
    }
  }

  /** The state `fuzzyMatch` keeps: the matched index pairs in order, and the
      two sets of matched indices. */
  datatype MatchState = MatchState(pairs: seq<(nat, nat)>, matchedA: set<nat>, matchedB: set<nat>)

  /** The state after the outer loop has handled the first `i` entries of
      `listA`. A match is recorded only when the best entry is a non-empty
      string, as `if (bestMatch)` tests the title itself. */
  function Greedy(sim: Scorer, listA: seq<string>, listB: seq<string>, i: nat): MatchState
    requires i <= |listA|
  {
    if i == 0 then MatchState([], {}, {})
    else
      var st := Greedy(sim, listA, listB, i - 1);
      var best := BestOf(sim, listA[i - 1], listB, st.matchedB, |listB|);
      if best.0 >= 0 && listB[best.0] != [] then
        MatchState(st.pairs + [(i - 1, best.0)], st.matchedA + {i - 1}, st.matchedB + {best.0})
      else st
  }

  /** The pairs recorded after `i` entries of `listA`: each set holds one
      index per pair, the `listA` indices increase, no `listB` index is used
      twice, and every pair scores above 0.8. */
  predicate PairsWellFormed(sim: Scorer, listA: seq<string>, listB: seq<string>, st: MatchState, i: nat)
    requires i <= |listA|
  {
    |st.matchedA| == |st.pairs| && |st.matchedB| == |st.pairs| &&
    (forall x :: x in st.matchedA ==> x < i) &&
    (forall x :: x in st.matchedB ==> x < |listB|) &&
    (forall k :: 0 <= k < |st.pairs| ==>
      st.pairs[k].0 < i && st.pairs[k].1 < |listB| &&
      st.pairs[k].0 in st.matchedA && st.pairs[k].1 in st.matchedB &&
      sim(listA[st.pairs[k].0], listB[st.pairs[k].1]) > 0.8) &&
    (forall k, l :: 0 <= k < l < |st.pairs| ==>
      st.pairs[k].0 < st.pairs[l].0 && st.pairs[k].1 != st.pairs[l].1)
  }

  /** Handling one more entry of `listA` without a match keeps the pairs
      well formed. */
  lemma PairsWellFormedSkip(sim: Scorer, listA: seq<string>, listB: seq<string>, st: MatchState, i: nat)
    requires 0 < i <= |listA|
    requires PairsWellFormed(sim, listA, listB, st, i - 1)
    ensures PairsWellFormed(sim, listA, listB, st, i)
  {
  }

  /** Recording entry `i` of `listA` with an unmatched entry `b` scoring
      above 0.8 keeps the pairs well formed. */
  lemma PairsWellFormedAppend(sim: Scorer, listA: seq<string>, listB: seq<string>, st: MatchState, i: nat, b: nat)
    requires 0 < i <= |listA| && b < |listB|
    requires PairsWellFormed(sim, listA, listB, st, i - 1)
    requires b !in st.matchedB && sim(listA[i - 1], listB[b]) > 0.8
    ensures PairsWellFormed(sim, listA, listB, MatchState(st.pairs + [(i - 1, b)], st.matchedA + {i - 1}, st.matchedB + {b}), i)
  {
    var pairs := st.pairs + [(i - 1, b)];
    assert forall k :: 0 <= k < |st.pairs| ==> pairs[k] == st.pairs[k];
    assert i - 1 !in st.matchedA;
  }

  lemma {:induction false} GreedyWellFormed(sim: Scorer, listA: seq<string>, listB: seq<string>, i: nat)
    requires i <= |listA|
    ensures PairsWellFormed(sim, listA, listB, Greedy(sim, listA, listB, i), i)
  {
    if i > 0 {
      GreedyWellFormed(sim, listA, listB, i - 1);
      GreedyStep(sim, listA, listB, i, Greedy(sim, listA, listB, i - 1));
    }
  }

  /** Handling entry `i - 1` of `listA` keeps the pairs well formed. */
  lemma GreedyStep(sim: Scorer, listA: seq<string>, listB: seq<string>, i: nat, st: MatchState)
    requires 0 < i <= |listA| && st == Greedy(sim, listA, listB, i - 1)
    requires PairsWellFormed(sim, listA, listB, st, i - 1)
    ensures PairsWellFormed(sim, listA, listB, Greedy(sim, listA, listB, i), i)
  {
    var best := BestOf(sim, listA[i - 1], listB, st.matchedB, |listB|);
    if best.0 >= 0 && listB[best.0] != [] {
      BestOfIsBest(sim, listA[i - 1], listB, st.matchedB, |listB|);
      PairsWellFormedAppend(sim, listA, listB, st, i, best.0);
    } else {
      PairsWellFormedSkip(sim, listA, listB, st, i);
    }
  }

  /** The entries whose index was not matched, in order. */
  function Unmatched(list: seq<string>, matched: set<nat>): (r: seq<string>)
    ensures |r| <= |list|
  {
    if list == [] then []
    else
      var n := |list| - 1;
      Unmatched(list[..n], matched) + (if n in matched then [] else [list[n]])
  }

  lemma {:induction false} UnmatchedAgree(list: seq<string>, m1: set<nat>, m2: set<nat>)
    requires forall x :: 0 <= x < |list| ==> (x in m1 <==> x in m2)
    ensures Unmatched(list, m1) == Unmatched(list, m2)
  {
    if list != [] {
      UnmatchedAgree(list[..|list| - 1], m1, m2);
    }
  }

  /** Each entry is either matched or left over: the left-over entries and
      the matched indices add up to the list. */
  lemma {:induction false} UnmatchedCount(list: seq<string>, matched: set<nat>)
    requires forall x :: x in matched ==> x < |list|
    ensures |Unmatched(list, matched)| + |matched| == |list|
  {
    if list != [] {
      var n := |list| - 1;
      var below := matched - {n};
      UnmatchedAgree(list[..n], matched, below);
      UnmatchedCount(list[..n], below);
      if n in matched {
        assert matched == below + {n};
      } else {
        assert matched == below;
      }
    }
  }

  /** The left-over entries are exactly the unmatched ones: each unmatched
      entry is kept, and each kept entry is an unmatched one. */
  lemma {:induction false} UnmatchedMembers(list: seq<string>, matched: set<nat>)
    ensures forall i :: 0 <= i < |list| && i !in matched ==> list[i] in Unmatched(list, matched)
    ensures forall x :: x in Unmatched(list, matched) ==> exists i :: 0 <= i < |list| && i !in matched && list[i] == x
  {
    if list != [] {
      var n := |list| - 1;
      UnmatchedMembers(list[..n], matched);
      assert forall i :: 0 <= i < n ==> list[..n][i] == list[i];
    }
  }

  /** The rows of `matches` for these index pairs. */
  function MatchesOf(sim: Scorer, listA: seq<string>, listB: seq<string>, pairs: seq<(nat, nat)>): (r: seq<Match>)
    requires forall k :: 0 <= k < |pairs| ==> pairs[k].0 < |listA| && pairs[k].1 < |listB|
    ensures |r| == |pairs|
    ensures forall k :: 0 <= k < |pairs| ==>
      r[k] == Match(listA[pairs[k].0], listB[pairs[k].1], sim(listA[pairs[k].0], listB[pairs[k].1]))
  {
    seq(|pairs|, k requires 0 <= k < |pairs| =>
      Match(listA[pairs[k].0], listB[pairs[k].1], sim(listA[pairs[k].0], listB[pairs[k].1])))
  }

  /** What `fuzzyMatch` returns when pairs are scored by `sim`. */
  function Compared(sim: Scorer, listA: seq<string>, listB: seq<string>): Comparison
  {
    var st := Greedy(sim, listA, listB, |listA|);
    GreedyWellFormed(sim, listA, listB, |listA|);
    Comparison(MatchesOf(sim, listA, listB, st.pairs), Unmatched(listA, st.matchedA), Unmatched(listB, st.matchedB))
  }

  /** Every entry of either list is matched or left over, never both. */
  lemma ComparedTotal(sim: Scorer, listA: seq<string>, listB: seq<string>)
    ensures |Compared(sim, listA, listB).matches| + |Compared(sim, listA, listB).uniqueA| == |listA|
    ensures |Compared(sim, listA, listB).matches| + |Compared(sim, listA, listB).uniqueB| == |listB|
  {
    var st := Greedy(sim, listA, listB, |listA|);
    GreedyWellFormed(sim, listA, listB, |listA|);
    UnmatchedCount(listA, st.matchedA);
    UnmatchedCount(listB, st.matchedB);
  }

  /** Every recorded match scores above 0.8. */
  lemma ComparedAboveThreshold(sim: Scorer, listA: seq<string>, listB: seq<string>)
    ensures forall k :: 0 <= k < |Compared(sim, listA, listB).matches| ==>
      Compared(sim, listA, listB).matches[k].similarity > 0.8
  {
    GreedyWellFormed(sim, listA, listB, |listA|);
  }

  /** Recording one more pair adds its row to the matches. */
  lemma MatchesOfAppend(sim: Scorer, listA: seq<string>, listB: seq<string>, pairs: seq<(nat, nat)>, i: nat, b: nat)
    requires forall k :: 0 <= k < |pairs| ==> pairs[k].0 < |listA| && pairs[k].1 < |listB|
    requires i < |listA| && b < |listB|
    ensures MatchesOf(sim, listA, listB, pairs + [(i, b)]) ==
      MatchesOf(sim, listA, listB, pairs) + [Match(listA[i], listB[b], sim(listA[i], listB[b]))]
  {
    var extended := pairs + [(i, b)];
    assert forall k :: 0 <= k < |pairs| ==> extended[k] == pairs[k];
  }

  /** One more step of the outer loop, from the state after `i` entries. */
  lemma GreedyNext(sim: Scorer, listA: seq<string>, listB: seq<string>, i: nat, st: MatchState, best: (int, real))
    requires i < |listA| && st == Greedy(sim, listA, listB, i)
    requires best == BestOf(sim, listA[i], listB, st.matchedB, |listB|)
    ensures best.0 >= 0 && listB[best.0] != [] ==>
      Greedy(sim, listA, listB, i + 1) == MatchState(st.pairs + [(i, best.0)], st.matchedA + {i}, st.matchedB + {best.0})
    ensures !(best.0 >= 0 && listB[best.0] != []) ==> Greedy(sim, listA, listB, i + 1) == st
  {
  }

  /** The outer loop of `fuzzyMatch`, for pairs scored by `sim`. The test
      `matchedA.has(i)` at its head is kept, although no index is marked
      before the loop reaches it. */
  method MatchLists(sim: Scorer, listA: seq<string>, listB: seq<string>) returns (r: Comparison)
    ensures r == Compared(sim, listA, listB)
  {
    var matches: seq<Match> := [];
    var matchedA: set<nat> := {};
    var matchedB: set<nat> := {};
    ghost var pairs: seq<(nat, nat)> := [];
    for i := 0 to |listA|
      invariant MatchState(pairs, matchedA, matchedB) == Greedy(sim, listA, listB, i)
      invariant forall k :: 0 <= k < |pairs| ==> pairs[k].0 < i && pairs[k].1 < |listB|
      invariant forall x :: x in matchedA ==> x < i
      invariant matches == MatchesOf(sim, listA, listB, pairs)
    {
      if i !in matchedA {
        var songA := listA[i];
        var bestIndex, bestScore := FindBest(sim, songA, listB, matchedB);
        GreedyNext(sim, listA, listB, i, MatchState(pairs, matchedA, matchedB), (bestIndex, bestScore));
        if bestIndex >= 0 && listB[bestIndex] != [] {
          BestOfIsBest(sim, songA, listB, matchedB, |listB|);
          MatchesOfAppend(sim, listA, listB, pairs, i, bestIndex);
          matches := matches + [Match(songA, listB[bestIndex], bestScore)];
          matchedA := matchedA + {i};
          matchedB := matchedB + {bestIndex};
          pairs := pairs + [(i, bestIndex)];
        }
      }
    }
    var uniqueA := Unmatched(listA, matchedA);
    var uniqueB := Unmatched(listB, matchedB);
    r := Comparison(matches, uniqueA, uniqueB);
  }

  /** The inner loop of `fuzzyMatch`. */
  method FindBest(sim: Scorer, songA: string, listB: seq<string>, matchedB: set<nat>) returns (bestIndex: int, bestScore: real)
    ensures (bestIndex, bestScore) == BestOf(sim, songA, listB, matchedB, |listB|)
  {
    bestIndex, bestScore := -1, 0.0;
    for j := 0 to |listB|
      invariant (bestIndex, bestScore) == BestOf(sim, songA, listB, matchedB, j)
    {
      if j !in matchedB {
        var similarity := sim(songA, listB[j]);
        if similarity > 0.8 && similarity > bestScore {
          bestScore := similarity;
          bestIndex := j;
        }
      }
    }
  }

  /** `fuzzyMatch`: the lists matched by `calculateSimilarity`. */
  method FuzzyMatch(listA: seq<string>, listB: seq<string>) returns (r: Comparison)
    ensures r == Compared(Similarity, listA, listB)
  {
    r := MatchLists(Similarity, listA, listB);
  }

  /** `compareLists` followed by `performComparison`: both texts must hold
      something besides white space. */
  method CompareLists(textA: string, textB: string) returns (r: Result<Comparison>)
    ensures Trim(textA) == [] || Trim(textB) == [] ==> r == Err(EmptyListsMessage)
    ensures Trim(textA) != [] && Trim(textB) != [] ==>
      r == Ok(Compared(Similarity, ParseList(Trim(textA)), ParseList(Trim(textB))))
  {
    var listA := Trim(textA);
    var listB := Trim(textB);
    if listA == [] || listB == [] {
      return Err(EmptyListsMessage);
    }
    var comparison := FuzzyMatch(ParseList(listA), ParseList(listB));
    r := Ok(comparison);
  }
}
