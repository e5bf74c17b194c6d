/** String primitives shared by the tools: JavaScript's `trim`, `split` on a
    single character, `join`, ASCII case mapping and character replacement,
    each with the facts the table and list models rely on. */
module Text {

  /** ECMAScript WhiteSpace and LineTerminator code points: the set removed
      by `String.prototype.trim` and matched by the regular-expression class `\s`. */
  predicate IsWhiteSpace(c: char)
  {
    || c == ' ' || c == '\t' || c == '\n' || c == '\r' || c == '\U{000B}' || c == '\U{000C}'
    || c == '\U{00A0}' || c == '\U{1680}' || ('\U{2000}' <= c <= '\U{200A}')
    || c == '\U{2028}' || c == '\U{2029}' || c == '\U{202F}' || c == '\U{205F}'
    || c == '\U{3000}' || c == '\U{FEFF}'
  }

  /** True when every character is white space (JavaScript: `s.trim() === ''`). */
  predicate IsBlank(s: string)
  {
    forall i :: 0 <= i < |s| ==> IsWhiteSpace(s[i])
  }

  /** A string that `trim` leaves unchanged. */
  predicate IsTrimmed(s: string)
  {
    s == [] || (!IsWhiteSpace(s[0]) && !IsWhiteSpace(s[|s| - 1]))
  }

  function TrimStart(s: string): (r: string)
    ensures |r| <= |s| && r == s[|s| - |r|..]
    ensures r == [] || !IsWhiteSpace(r[0])
    ensures forall i :: 0 <= i < |s| - |r| ==> IsWhiteSpace(s[i])
  {
    if s != [] && IsWhiteSpace(s[0]) then
      var t := s[1..];
      var r := TrimStart(t);
      var n := |s| - |r|;
      assert 1 <= n <= |s| && r == t[n - 1..];
      assert r == s[n..] by { assert t[n - 1..] == s[n..]; }
      assert forall i :: 0 <= i < n ==> IsWhiteSpace(s[i]) by {
        forall i | 0 <= i < n ensures IsWhiteSpace(s[i]) { if i > 0 { assert s[i] == t[i - 1]; } }
      }
      r
    else s
  }

  function TrimEnd(s: string): (r: string)
    ensures |r| <= |s| && r == s[..|r|]
    ensures r == [] || !IsWhiteSpace(r[|r| - 1])
    ensures forall i :: |r| <= i < |s| ==> IsWhiteSpace(s[i])
  {
    if s != [] && IsWhiteSpace(s[|s| - 1]) then
      var t := s[..|s| - 1];
      var r := TrimEnd(t);
      assert r == s[..|r|] by { assert t[..|r|] == s[..|r|]; }
      assert forall i :: |r| <= i < |s| - 1 ==> IsWhiteSpace(s[i]) by {
        forall i | |r| <= i < |s| - 1 ensures IsWhiteSpace(s[i]) { assert s[i] == t[i]; }
      }
      r
    else s
  }

  /** JavaScript `s.trim()`: no white space is left at either end. `TrimSlice`
      says what was removed. */
  function Trim(s: string): (r: string)
    ensures IsTrimmed(r)
    ensures |r| <= |s|
  {
    TrimEnd(TrimStart(s))
  }

  /** `r` sits in `s` at offset `k` with only white space before and after it. */
  predicate TrimmedAt(s: string, r: string, k: int)
  {
    0 <= k <= |s| - |r| && r == s[k..k + |r|] && IsBlank(s[..k]) && IsBlank(s[k + |r|..])
  }

  /** The trimmed string is a slice of `s`, and only white space was cut from
      each end. */
  lemma TrimSlice(s: string) returns (k: nat)
    ensures TrimmedAt(s, Trim(s), k)
  {
    var a := TrimStart(s);
    var r := TrimEnd(a);
    k := |s| - |a|;
    SliceBetweenBlanks(s, a, r, k);
  }

  lemma SliceBetweenBlanks(s: string, a: string, r: string, k: nat)
    requires k + |a| == |s| && a == s[k..]
    requires forall i :: 0 <= i < k ==> IsWhiteSpace(s[i])
    requires |r| <= |a| && r == a[..|r|]
    requires forall i :: |r| <= i < |a| ==> IsWhiteSpace(a[i])
    ensures TrimmedAt(s, r, k)
  {
    var front, back := s[..k], s[k + |r|..];
    forall i | 0 <= i < |front| ensures IsWhiteSpace(front[i]) {
      assert front[i] == s[i];
    }
    forall i | 0 <= i < |back| ensures IsWhiteSpace(back[i]) {
      assert back[i] == a[|r| + i];
    }
    assert r == s[k..k + |r|] by {
      forall i | 0 <= i < |r| ensures r[i] == s[k + i] {
        assert r[i] == a[i];
      }
    }
  }

  /** Concatenation regroups freely; stated once so that long proofs
      about strings can cite it instead of comparing characters. */
  lemma ConcatAssoc<T>(x: seq<T>, y: seq<T>, z: seq<T>)
    ensures x + (y + z) == x + y + z
  {
  }

  /** Trimming adds no character. */
  lemma TrimKeepsAbsent(s: string, c: char)
    requires c !in s
    ensures c !in Trim(s)
  {
    var r := Trim(s);
    var k := TrimSlice(s);
    forall i | 0 <= i < |r| ensures r[i] != c {
      assert r[i] == s[k + i];
    }
  }

  lemma TrimOfTrimmed(s: string)
    requires IsTrimmed(s)
    ensures Trim(s) == s
  {
  }

  lemma TrimIsIdempotent(s: string)
    ensures Trim(Trim(s)) == Trim(s)
  {
    TrimOfTrimmed(Trim(s));
  }

  /** A string is blank exactly when trimming it leaves nothing. */
  lemma {:induction false} BlankIffTrimEmpty(s: string)
    ensures IsBlank(s) <==> Trim(s) == []
  {
    if IsBlank(s) {
      BlankTrimStart(s);
    }
    if Trim(s) == [] {
      var k := TrimSlice(s);
      forall i | 0 <= i < |s| ensures IsWhiteSpace(s[i]) {
        if i < k { assert s[..k][i] == s[i]; } else { assert s[k..][i - k] == s[i]; }
      }
    }
  }

  lemma {:induction false} BlankTrimStart(s: string)
    requires IsBlank(s)
    ensures TrimStart(s) == []
  {
    if s != [] { BlankTrimStart(s[1..]); }
  }

  /** One space on each side of a trimmed string is removed again by `trim`. */
  lemma TrimPadded(c: string)
    requires IsTrimmed(c)
    ensures Trim(" " + c + " ") == c
  {
    assert " " + c + " " == [' '] + (c + [' ']);
    TrimStartSpace(c + [' ']);
    if c == [] {
      TrimStartSpace([]);
    } else {
      TrimStartKeeps(c + [' ']);
      TrimEndSpace(c);
      TrimEndKeeps(c);
    }
  }

  lemma TrimStartSpace(q: string)
    ensures TrimStart([' '] + q) == TrimStart(q)
  {
    assert ([' '] + q)[1..] == q;
  }

  lemma TrimEndSpace(q: string)
    ensures TrimEnd(q + [' ']) == TrimEnd(q)
  {
    assert (q + [' '])[..|q|] == q;
  }

  lemma TrimStartKeeps(q: string)
    requires q != [] && !IsWhiteSpace(q[0])
    ensures TrimStart(q) == q
  {
  }

  lemma TrimEndKeeps(q: string)
    requires q != [] && !IsWhiteSpace(q[|q| - 1])
    ensures TrimEnd(q) == q
  {
  }

  // ---------------------------------------------------------------------
  // length in UTF-16 code units

  /** Whether `c` lies outside the Basic Multilingual Plane, where UTF-16
      spends a surrogate pair on it. */
  predicate IsAstral(c: char)
  {
    c as int > 0xFFFF
  }

  /** JavaScript's `length`: the number of UTF-16 code units, two for a
      character outside the Basic Multilingual Plane and one otherwise. */
  function Utf16Length(s: string): (r: nat)
  {
    if s == [] then 0 else (if IsAstral(s[0]) then 2 else 1) + Utf16Length(s[1..])
  }

  /** The code units are at least the characters and at most twice as many,
      and exactly as many when no character is outside the Basic
      Multilingual Plane. */
  lemma {:induction false} Utf16LengthBounds(s: string)
    ensures |s| <= Utf16Length(s) <= 2 * |s|
    ensures (forall i :: 0 <= i < |s| ==> !IsAstral(s[i])) <==> Utf16Length(s) == |s|
  {
    if s != [] {
      Utf16LengthBounds(s[1..]);
      if forall i :: 0 <= i < |s| ==> !IsAstral(s[i]) {
        assert forall i :: 0 <= i < |s[1..]| ==> !IsAstral(s[1..][i]) by {
          forall i | 0 <= i < |s[1..]| ensures !IsAstral(s[1..][i]) {
            assert s[1..][i] == s[i + 1];
          }
        }
      } else if !IsAstral(s[0]) {
        var i :| 0 <= i < |s| && IsAstral(s[i]);
        assert s[1..][i - 1] == s[i];
      }
    }
  }

  // ---------------------------------------------------------------------
  // ASCII case mapping (JavaScript's toLowerCase/toUpperCase restricted to ASCII)

  predicate IsAsciiUpper(c: char) { 'A' <= c <= 'Z' }
  predicate IsAsciiLower(c: char) { 'a' <= c <= 'z' }
  predicate IsAsciiLetter(c: char) { IsAsciiUpper(c) || IsAsciiLower(c) }
  predicate IsAsciiDigit(c: char) { '0' <= c <= '9' }

  function LowerChar(c: char): (r: char)
    ensures !IsAsciiUpper(r)
    ensures !IsAsciiUpper(c) ==> r == c
    ensures IsWhiteSpace(r) <==> IsWhiteSpace(c)
  {
    if IsAsciiUpper(c) then (c as int + 32) as char else c
  }

  function UpperChar(c: char): (r: char)
    ensures IsAsciiLower(c) ==> IsAsciiUpper(r) && LowerChar(r) == c
    ensures !IsAsciiLower(c) ==> r == c
  {
    if IsAsciiLower(c) then (c as int - 32) as char else c
  }

  /** `s.toLowerCase()` over ASCII: same length, no upper-case letter left. */
  function Lower(s: string): (r: string)
    ensures |r| == |s|
    ensures forall i :: 0 <= i < |s| ==> r[i] == LowerChar(s[i])
  {
    seq(|s|, i requires 0 <= i < |s| => LowerChar(s[i]))
  }

  lemma LowerIsIdempotent(s: string)
    ensures Lower(Lower(s)) == Lower(s)
  {
  }

  /** Lower-casing keeps white space where it was, so it commutes with `trim`. */
  lemma {:induction false} LowerTrimCommute(s: string)
    ensures Lower(Trim(s)) == Trim(Lower(s))
  {
    LowerTrimStart(s);
    LowerTrimEnd(TrimStart(s));
  }

  lemma {:induction false} LowerTrimStart(s: string)
    ensures Lower(TrimStart(s)) == TrimStart(Lower(s))
  {
    if s != [] {
      var l := Lower(s);
      assert l[0] == LowerChar(s[0]);
      if IsWhiteSpace(s[0]) {
        assert l[1..] == Lower(s[1..]);
        LowerTrimStart(s[1..]);
      }
    }
  }

  lemma {:induction false} LowerTrimEnd(s: string)
    ensures Lower(TrimEnd(s)) == TrimEnd(Lower(s))
  {
    if s != [] {
      var l := Lower(s);
      assert l[|s| - 1] == LowerChar(s[|s| - 1]);
      if IsWhiteSpace(s[|s| - 1]) {
        assert l[..|s| - 1] == Lower(s[..|s| - 1]);
        LowerTrimEnd(s[..|s| - 1]);
      }
    }
  }

  // ---------------------------------------------------------------------
  // split, join, search

  /** JavaScript `s.split(c)` for a one-character separator: the pieces between separators,
      always at least one. */
  function Split(s: string, c: char): (r: seq<string>)
    ensures |r| >= 1
    ensures forall k :: 0 <= k < |r| ==> c !in r[k]
  {
    if s == [] then [""]
    else if s[0] == c then [""] + Split(s[1..], c)
    else
      var t := Split(s[1..], c);
      [[s[0]] + t[0]] + t[1..]
  }

  /** JavaScript `parts.join(sep)`. */
  function Join(parts: seq<string>, sep: string): string
  {
    if |parts| == 0 then ""
    else if |parts| == 1 then parts[0]
    else parts[0] + sep + Join(parts[1..], sep)
  }

  lemma {:induction false} SplitNoSeparator(a: string, c: char)
    requires c !in a
    ensures Split(a, c) == [a]
  {
    if a != [] {
      SplitNoSeparator(a[1..], c);
      assert [a[0]] + a[1..] == a;
    }
  }

  lemma {:induction false} SplitAtSeparator(a: string, c: char, b: string)
    requires c !in a
    ensures Split(a + [c] + b, c) == [a] + Split(b, c)
  {
    if a == [] {
      assert a + [c] + b == [c] + b;
      assert ([c] + b)[1..] == b;
    } else {
      assert (a + [c] + b)[1..] == a[1..] + [c] + b;
      SplitAtSeparator(a[1..], c, b);
      assert [a[0]] + a[1..] == a;
    }
  }

  /** Splitting undoes joining when no piece contains the separator. */
  lemma {:induction false} SplitJoin(parts: seq<string>, c: char)
    requires |parts| >= 1
    requires forall k :: 0 <= k < |parts| ==> c !in parts[k]
    ensures Split(Join(parts, [c]), c) == parts
  {
    if |parts| == 1 {
      SplitNoSeparator(parts[0], c);
    } else {
      SplitJoin(parts[1..], c);
      SplitAtSeparator(parts[0], c, Join(parts[1..], [c]));
      assert parts == [parts[0]] + parts[1..];
    }
  }

  /** Joining the pieces of a split gives the string back. */
  lemma {:induction false} JoinSplit(s: string, c: char)
    ensures Join(Split(s, c), [c]) == s
  {
    if s == [] {
    } else if s[0] == c {
      JoinSplit(s[1..], c);
      assert s == [c] + s[1..];
    } else {
      var t := Split(s[1..], c);
      JoinSplit(s[1..], c);
      var u := Split(s, c);
      assert u == [[s[0]] + t[0]] + t[1..];
      if |t| == 1 {
        assert s == [s[0]] + t[0];
      } else {
        assert u[1..] == t[1..];
        assert Join(u, [c]) == ([s[0]] + t[0]) + [c] + Join(t[1..], [c]);
        assert Join(t, [c]) == t[0] + [c] + Join(t[1..], [c]);
        JoinSplitRegroup(s[0], t[0], [c], Join(t[1..], [c]));
        assert s == [s[0]] + s[1..];
      }
    }
  }

  lemma JoinSplitRegroup(x: char, a: string, b: string, d: string)
    ensures ([x] + a) + b + d == [x] + (a + b + d)
  {
  }

  lemma {:induction false} JoinAppend(parts: seq<string>, last: string, sep: string)
    requires |parts| >= 1
    ensures Join(parts + [last], sep) == Join(parts, sep) + sep + last
  {
    if |parts| == 1 {
      assert (parts + [last])[1..] == [last];
    } else {
      assert (parts + [last])[1..] == parts[1..] + [last];
      JoinAppend(parts[1..], last, sep);
    }
  }

  lemma {:induction false} JoinConcat(a: seq<string>, b: seq<string>, sep: string)
    requires |a| >= 1 && |b| >= 1
    ensures Join(a + b, sep) == Join(a, sep) + sep + Join(b, sep)
  {
    if |a| == 1 {
      assert (a + b)[1..] == b;
    } else {
      assert (a + b)[1..] == a[1..] + b;
      JoinConcat(a[1..], b, sep);
    }
  }

  /** A character of a join comes from a piece or from the separator. */
  lemma {:induction false} JoinChars(parts: seq<string>, sep: string, x: char)
    requires x !in sep
    requires forall k :: 0 <= k < |parts| ==> x !in parts[k]
    ensures x !in Join(parts, sep)
  {
    if |parts| > 1 { JoinChars(parts[1..], sep, x); }
  }

  predicate StartsWith(s: string, p: string)
  {
    |p| <= |s| && s[..|p|] == p
  }

  predicate EndsWith(s: string, p: string)
  {
    |p| <= |s| && s[|s| - |p|..] == p
  }

  /** `p` occurs in `s` starting at position `k`. */
  predicate OccursAt(s: string, p: string, k: int)
  {
    0 <= k <= |s| - |p| && s[k..k + |p|] == p
  }

  /** JavaScript `s.includes(p)`. */
  ghost predicate Contains(s: string, p: string)
  {
    exists k :: OccursAt(s, p, k)
  }

  /** Decidable form of `Contains`, by scanning every start position. */
  function ContainsFrom(s: string, p: string, k: nat): (r: bool)
    ensures r <==> exists i :: k <= i && OccursAt(s, p, i)
    decreases |s| + 1 - k
  {
    if k + |p| > |s| then false
    else if s[k..k + |p|] == p then assert OccursAt(s, p, k); true
    else ContainsFrom(s, p, k + 1)
  }

  function Includes(s: string, p: string): (r: bool)
    ensures r <==> Contains(s, p)
  {
    ContainsFrom(s, p, 0)
  }

  /** A one-character string occurs exactly when the character does. */
  lemma IncludesChar(s: string, c: char)
    ensures Includes(s, [c]) <==> c in s
  {
    if c in s {
      var k :| 0 <= k < |s| && s[k] == c;
      assert OccursAt(s, [c], k);
    }
    if Contains(s, [c]) {
      var k :| OccursAt(s, [c], k);
      assert s[k] == c;
    }
  }

  lemma EmptyIsContained(s: string)
    ensures Contains(s, "")
  {
    assert OccursAt(s, "", 0);
  }

  // ---------------------------------------------------------------------
  // replacement

  /** JavaScript `s.replace(/c/g, rep)` for a single character `c`. */
  function ReplaceChar(s: string, c: char, rep: string): (r: string)
    ensures c !in rep ==> c !in r
  {
    if s == [] then []
    else (if s[0] == c then rep else [s[0]]) + ReplaceChar(s[1..], c, rep)
  }

  lemma {:induction false} ReplaceAbsent(s: string, c: char, rep: string)
    requires c !in s
    ensures ReplaceChar(s, c, rep) == s
  {
    if s != [] {
      ReplaceAbsent(s[1..], c, rep);
      assert s == [s[0]] + s[1..];
    }
  }

  lemma {:induction false} ReplaceKeepsAbsent(s: string, c: char, rep: string, d: char)
    requires d !in s && d !in rep
    ensures d !in ReplaceChar(s, c, rep)
  {
    if s != [] { ReplaceKeepsAbsent(s[1..], c, rep, d); }
  }

  /** JavaScript's global replacement of `**` by the empty string: every non-overlapping `**`, scanning from the left, removed. */
  function RemoveDoubleStars(s: string): (r: string)
    ensures |r| <= |s|
  {
    if |s| >= 2 && s[0] == '*' && s[1] == '*' then RemoveDoubleStars(s[2..])
    else if s == [] then []
    else [s[0]] + RemoveDoubleStars(s[1..])
  }

  lemma {:induction false} RemoveDoubleStarsNoStar(s: string)
    requires '*' !in s
    ensures RemoveDoubleStars(s) == s
  {
    if s != [] {
      RemoveDoubleStarsNoStar(s[1..]);
      assert s == [s[0]] + s[1..];
    }
  }

  /** Removing `**` from a bold string `**p**` gives `p` back. */
  lemma RemoveDoubleStarsBold(p: string)
    requires '*' !in p
    ensures RemoveDoubleStars("**" + p + "**") == p
  {
    assert ("**" + p + "**")[2..] == p + "**";
    RemoveDoubleStarsBeforeStars(p);
  }

  lemma {:induction false} RemoveDoubleStarsBeforeStars(p: string)
    requires '*' !in p
    ensures RemoveDoubleStars(p + "**") == p
  {
    if p == [] {
      assert RemoveDoubleStars("**") == RemoveDoubleStars("");
    } else {
      assert (p + "**")[1..] == p[1..] + "**";
      RemoveDoubleStarsBeforeStars(p[1..]);
      assert p == [p[0]] + p[1..];
    }
  }

  // ---------------------------------------------------------------------
  // numbers

  /** JavaScript `String(n)` for a non-negative integer. */
  function NatToString(n: nat): (r: string)
    ensures |r| >= 1
    ensures forall i :: 0 <= i < |r| ==> IsAsciiDigit(r[i])
    ensures n > 0 ==> r[0] != '0'
  {
    if n < 10 then [('0' as int + n) as char]
    else NatToString(n / 10) + [('0' as int + n % 10) as char]
  }

  function DigitValue(c: char): nat
    requires IsAsciiDigit(c)
  {
    c as int - '0' as int
  }

  /** Reading back the decimal digits gives the number. */
  function DigitsValue(s: string): nat
    requires forall i :: 0 <= i < |s| ==> IsAsciiDigit(s[i])
  {
    if s == [] then 0 else DigitsValue(s[..|s| - 1]) * 10 + DigitValue(s[|s| - 1])
  }

  lemma {:induction false} NatToStringRoundTrip(n: nat)
    ensures DigitsValue(NatToString(n)) == n
  {
    if n >= 10 {
      NatToStringRoundTrip(n / 10);
      var s := NatToString(n);
      assert s[..|s| - 1] == NatToString(n / 10);
    }
  }
}
