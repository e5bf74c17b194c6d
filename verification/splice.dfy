/** The array edits the table tools perform with `Array.prototype.splice`,
    `pop` and index filtering, as functions on sequences. */
module Splice {

  /** `a.splice(i, 0, x)`: a start past the end appends. */
  function InsertAt<T>(s: seq<T>, i: nat, x: T): (r: seq<T>)
    ensures |r| == |s| + 1
    ensures i <= |s| ==> r[i] == x
    ensures i > |s| ==> r == s + [x]
    ensures forall k :: 0 <= k < |s| && k < i ==> r[k] == s[k]
    ensures forall k :: i <= k < |s| ==> r[k + 1] == s[k]
    ensures multiset(r) == multiset(s) + multiset{x}
  {
    var j := if i <= |s| then i else |s|;
    assert s == s[..j] + s[j..];
    s[..j] + [x] + s[j..]
  }

  /** `a.splice(i, 1)`: a start past the end removes nothing. */
  function RemoveAt<T>(s: seq<T>, i: nat): (r: seq<T>)
    ensures i < |s| ==> |r| == |s| - 1
    ensures i >= |s| ==> r == s
    ensures forall k :: 0 <= k < |s| && k < i ==> r[k] == s[k]
    ensures forall k :: i < k < |s| ==> r[k - 1] == s[k]
  {
    if i < |s| then
      assert s == s[..i] + [s[i]] + s[i + 1..];
      s[..i] + s[i + 1..]
    else s
  }

  /** Removing what was just inserted gives the sequence back. */
  lemma RemoveInserted<T>(s: seq<T>, i: nat, x: T)
    requires i <= |s|
    ensures RemoveAt(InsertAt(s, i, x), i) == s
  {
  }

  /** The drag-and-drop reorder: the element at `from` taken out and
      spliced in again at `to`. */
  function Move<T>(s: seq<T>, from: nat, to: nat): (r: seq<T>)
    requires from < |s|
    ensures |r| == |s|
    ensures multiset(r) == multiset(s)
    ensures r[if to < |s| then to else |s| - 1] == s[from]
  {
    assert s == s[..from] + [s[from]] + s[from + 1..];
    assert RemoveAt(s, from) == s[..from] + s[from + 1..];
    InsertAt(RemoveAt(s, from), to, s[from])
  }

  /** Dragging the moved element back to where it came from undoes a move. */
  lemma {:induction false} MoveBack<T>(s: seq<T>, from: nat, to: nat)
    requires from < |s| && to < |s|
    ensures Move(Move(s, from, to), to, from) == s
  {
    var m := Move(s, from, to);
    assert m[to] == s[from];
    var back := Move(m, to, from);
    assert RemoveAt(m, to) == RemoveAt(s, from) by {
      RemoveInserted(RemoveAt(s, from), to, s[from]);
    }
    assert back == InsertAt(RemoveAt(s, from), from, s[from]);
    forall k | 0 <= k < |s| ensures back[k] == s[k] {
      if k < from {
      } else if k == from {
      } else {
        assert back[k] == RemoveAt(s, from)[k - 1];
      }
    }
  }

  /** Every element after a move was an element before it. */
  lemma MoveFromSame<T>(s: seq<T>, from: nat, to: nat, i: nat)
    requires from < |s| && i < |s|
    ensures Move(s, from, to)[i] in s
  {
    var r := Move(s, from, to);
    assert r[i] in multiset(r);
  }

  /** `a.pop()` on the array, which leaves an empty array alone. */
  function DropLast<T>(s: seq<T>): (r: seq<T>)
    ensures s == [] ==> r == []
    ensures s != [] ==> s == r + [s[|s| - 1]]
  {
    if s == [] then [] else s[..|s| - 1]
  }

  /** The elements whose index is not in `drop`, in their order. */
  function Without<T>(s: seq<T>, drop: set<int>): (r: seq<T>)
    ensures |r| <= |s|
  {
    if s == [] then []
    else
      var n := |s| - 1;
      assert s == s[..n] + [s[n]];
      Without(s[..n], drop) + (if n in drop then [] else [s[n]])
  }

  lemma {:induction false} WithoutNone<T>(s: seq<T>, drop: set<int>)
    requires forall p :: p in drop ==> p >= |s| || p < 0
    ensures Without(s, drop) == s
  {
    if s != [] {
      WithoutNone(s[..|s| - 1], drop);
    }
  }

  lemma {:induction false} WithoutPrefix<T>(s: seq<T>, drop: set<int>, m: nat)
    requires m <= |s|
    requires forall p :: p in drop ==> p >= m || p < 0
    ensures |Without(s, drop)| >= m
  {
    if |s| == m {
      WithoutNone(s, drop);
    } else {
      WithoutPrefix(s[..|s| - 1], drop, m);
    }
  }

  lemma RemoveAtAppend<T>(x: seq<T>, tail: seq<T>, k: nat)
    requires k < |x|
    ensures RemoveAt(x + tail, k) == RemoveAt(x, k) + tail
  {
    assert (x + tail)[..k] == x[..k];
    assert (x + tail)[k + 1..] == x[k + 1..] + tail;
  }

  /** Deleting indices from the largest down: removing index `k` after every
      larger selected index is gone removes exactly element `k` of the
      original. */
  lemma {:induction false} RemoveAtWithout<T>(s: seq<T>, drop: set<int>, k: nat)
    requires forall p :: p in drop ==> p > k
    ensures RemoveAt(Without(s, drop), k) == Without(s, drop + {k})
  {
    if k >= |s| {
      WithoutNone(s, drop);
      WithoutNone(s, drop + {k});
    } else if |s| - 1 == k {
      RemoveAtWithoutLast(s, drop, k);
    } else {
      var n := |s| - 1;
      RemoveAtWithout(s[..n], drop, k);
      RemoveAtWithoutStep(s, drop, k);
    }
  }

  lemma {:induction false} RemoveAtWithoutLast<T>(s: seq<T>, drop: set<int>, k: nat)
    requires forall p :: p in drop ==> p > k
    requires k == |s| - 1
    ensures RemoveAt(Without(s, drop), k) == Without(s, drop + {k})
  {
    var n := |s| - 1;
    WithoutNone(s[..n], drop);
    WithoutNone(s[..n], drop + {k});
    assert Without(s, drop) == s[..n] + [s[n]] == s;
    assert Without(s, drop + {k}) == s[..n];
  }

  lemma {:induction false} RemoveAtWithoutStep<T>(s: seq<T>, drop: set<int>, k: nat)
    requires forall p :: p in drop ==> p > k
    requires k < |s| - 1
    requires RemoveAt(Without(s[..|s| - 1], drop), k) == Without(s[..|s| - 1], drop + {k})
    ensures RemoveAt(Without(s, drop), k) == Without(s, drop + {k})
  {
    var n := |s| - 1;
    var x := Without(s[..n], drop);
    var y := Without(s[..n], drop + {k});
    var tail := if n in drop then [] else [s[n]];
    assert Without(s, drop) == x + tail by { WithoutLast(s, drop); }
    assert Without(s, drop + {k}) == y + tail by { WithoutLast(s, drop + {k}); }
    assert RemoveAt(x + tail, k) == RemoveAt(x, k) + tail by {
      WithoutPrefix(s[..n], drop, k + 1);
      RemoveAtAppend(x, tail, k);
    }
  }

  lemma WithoutLast<T>(s: seq<T>, drop: set<int>)
    requires s != []
    ensures Without(s, drop) == Without(s[..|s| - 1], drop) + (if |s| - 1 in drop then [] else [s[|s| - 1]])
  {
  }

  /** The indices of `drop` below `n`. */
  function DroppedIn(drop: set<int>, n: nat): set<int>
  {
    set i | i in drop && 0 <= i < n
  }

  /** `Without` removes exactly the elements whose index is dropped: the
      kept count plus the dropped in-range indices is the length. */
  lemma {:induction false} WithoutCount<T>(s: seq<T>, drop: set<int>)
    ensures |Without(s, drop)| + |DroppedIn(drop, |s|)| == |s|
  {
    var inRange := DroppedIn(drop, |s|);
    if s == [] {
      assert inRange == {};
    } else {
      var n := |s| - 1;
      WithoutCount(s[..n], drop);
      var prev := DroppedIn(drop, n);
      if n in drop {
        assert inRange == prev + {n};
      } else {
        assert inRange == prev;
      }
    }
  }

  /** Dropping a single index is `RemoveAt`. */
  lemma WithoutSingle<T>(s: seq<T>, i: nat)
    ensures Without(s, {i}) == RemoveAt(s, i)
  {
    WithoutNone(s, {});
    RemoveAtWithout(s, {}, i);
    assert {} + {i} == {i};
  }

  /** The largest of a non-empty set of indices. */
  method Largest(s: set<nat>) returns (m: nat)
    requires s != {}
    ensures m in s && forall x :: x in s ==> x <= m
  {
    m :| m in s;
    var rest := s - {m};
    while rest != {}
      invariant m in s && rest <= s
      invariant forall x :: x in s && x !in rest ==> x <= m
      decreases |rest|
    {
      var y :| y in rest;
      if y > m {
        m := y;
      }
      rest := rest - {y};
    }
  }

  /** The selected indices sorted from the largest down and spliced out one
      by one, so that no removal shifts an index still to be removed. */
  method RemoveDescending<T>(s: seq<T>, drop: set<nat>) returns (r: seq<T>)
    ensures r == Without(s, drop)
  {
    WithoutNone(s, {});
    r := s;
    var remaining := drop;
    ghost var done: set<nat> := {};
    while remaining != {}
      invariant remaining + done == drop
      invariant forall x, y :: x in remaining && y in done ==> x < y
      invariant r == Without(s, done)
      decreases |remaining|
    {
      var m := Largest(remaining);
      DescendingStep(s, r, remaining, done, m);
      r := RemoveAt(r, m);
      remaining := remaining - {m};
      done := done + {m};
    }
  }

  /** One removal of `RemoveDescending`: the largest remaining index goes,
      and everything removed so far is still above what remains. */
  lemma DescendingStep<T>(s: seq<T>, r: seq<T>, remaining: set<nat>, done: set<nat>, m: nat)
    requires forall x, y :: x in remaining && y in done ==> x < y
    requires r == Without(s, done)
    requires m in remaining && forall x :: x in remaining ==> x <= m
    ensures RemoveAt(r, m) == Without(s, done + {m})
    ensures forall x, y :: x in remaining - {m} && y in done + {m} ==> x < y
  {
    RemoveAtWithout(s, done, m);
  }

  // One edit applied to every row of a table

  /** `x` appended to every row. */
  method AppendToEach<T>(rows: seq<seq<T>>, x: T) returns (r: seq<seq<T>>)
    ensures |r| == |rows|
    ensures forall k :: 0 <= k < |r| ==> r[k] == rows[k] + [x]
  {
    r := rows;
    var i := 0;
    while i < |r|
      invariant 0 <= i <= |r| == |rows|
      invariant forall k :: 0 <= k < i ==> r[k] == rows[k] + [x]
      invariant forall k :: i <= k < |r| ==> r[k] == rows[k]
    {
      r := r[i := r[i] + [x]];
      i := i + 1;
    }
  }

  /** `x` spliced into every row at `index`. */
  method InsertAtEach<T>(rows: seq<seq<T>>, index: nat, x: T) returns (r: seq<seq<T>>)
    ensures |r| == |rows|
    ensures forall k :: 0 <= k < |r| ==> r[k] == InsertAt(rows[k], index, x)
  {
    r := rows;
    var i := 0;
    while i < |r|
      invariant 0 <= i <= |r| == |rows|
      invariant forall k :: 0 <= k < i ==> r[k] == InsertAt(rows[k], index, x)
      invariant forall k :: i <= k < |r| ==> r[k] == rows[k]
    {
      r := r[i := InsertAt(r[i], index, x)];
      i := i + 1;
    }
  }

  /** The cell at `index` spliced out of every row. */
  method RemoveAtEach<T>(rows: seq<seq<T>>, index: nat) returns (r: seq<seq<T>>)
    ensures |r| == |rows|
    ensures forall k :: 0 <= k < |r| ==> r[k] == RemoveAt(rows[k], index)
  {
    r := rows;
    var i := 0;
    while i < |r|
      invariant 0 <= i <= |r| == |rows|
      invariant forall k :: 0 <= k < i ==> r[k] == RemoveAt(rows[k], index)
      invariant forall k :: i <= k < |r| ==> r[k] == rows[k]
    {
      r := r[i := RemoveAt(r[i], index)];
      i := i + 1;
    }
  }

  /** The last cell popped from every row. */
  method DropLastEach<T>(rows: seq<seq<T>>) returns (r: seq<seq<T>>)
    ensures |r| == |rows|
    ensures forall k :: 0 <= k < |r| ==> r[k] == DropLast(rows[k])
  {
    r := rows;
    var i := 0;
    while i < |r|
      invariant 0 <= i <= |r| == |rows|
      invariant forall k :: 0 <= k < i ==> r[k] == DropLast(rows[k])
      invariant forall k :: i <= k < |r| ==> r[k] == rows[k]
    {
      r := r[i := DropLast(r[i])];
      i := i + 1;
    }
  }

  /** The same move in every row. */
  function MovedInEach<T>(rows: seq<seq<T>>, from: nat, to: nat): (r: seq<seq<T>>)
    requires forall k :: 0 <= k < |rows| ==> from < |rows[k]|
    ensures |r| == |rows|
    ensures forall k :: 0 <= k < |r| ==> |r[k]| == |rows[k]| && multiset(r[k]) == multiset(rows[k])
  {
    seq(|rows|, k requires 0 <= k < |rows| => Move(rows[k], from, to))
  }

  method MoveInEach<T>(rows: seq<seq<T>>, from: nat, to: nat) returns (r: seq<seq<T>>)
    requires forall k :: 0 <= k < |rows| ==> from < |rows[k]|
    ensures r == MovedInEach(rows, from, to)
  {
    r := rows;
    var i := 0;
    while i < |r|
      invariant 0 <= i <= |r| == |rows|
      invariant forall k :: 0 <= k < i ==> r[k] == Move(rows[k], from, to)
      invariant forall k :: i <= k < |r| ==> r[k] == rows[k]
    {
      r := r[i := Move(r[i], from, to)];
      i := i + 1;
    }
    assert r == MovedInEach(rows, from, to);
  }

  /** The move as the pages write it: `arr[from]` is read, then
      `splice(from, 1)` and `splice(to, 0, element)`. On a sequence too
      short to hold `from` nothing is removed and `filler`, standing for
      what reading past the end yields, is inserted at `to` (or appended). */
  function MoveOrFill<T>(s: seq<T>, from: nat, to: nat, filler: T): (r: seq<T>)
    ensures from < |s| ==> r == Move(s, from, to)
    ensures from >= |s| ==> |r| == |s| + 1 && multiset(r) == multiset(s) + multiset{filler}
    ensures from >= |s| ==> r[if to < |s| then to else |s|] == filler
  {
    if from < |s| then Move(s, from, to) else InsertAt(s, to, filler)
  }

  /** The move in every row, a row that does not reach `from` getting
      `filler` at `to`: a row that reaches it keeps its length and its
      elements, a shorter one gains exactly the filler. */
  function MovedOrFilledInEach<T>(rows: seq<seq<T>>, from: nat, to: nat, filler: T): (r: seq<seq<T>>)
    ensures |r| == |rows|
    ensures forall k :: 0 <= k < |r| && from < |rows[k]| ==>
      |r[k]| == |rows[k]| && multiset(r[k]) == multiset(rows[k])
    ensures forall k :: 0 <= k < |r| && from >= |rows[k]| ==>
      |r[k]| == |rows[k]| + 1 && multiset(r[k]) == multiset(rows[k]) + multiset{filler}
  {
    seq(|rows|, k requires 0 <= k < |rows| => MoveOrFill(rows[k], from, to, filler))
  }

  /** On rows that all reach `from` this is the plain move in every row. */
  lemma MovedOrFilledWhenReached<T>(rows: seq<seq<T>>, from: nat, to: nat, filler: T)
    requires forall k :: 0 <= k < |rows| ==> from < |rows[k]|
    ensures MovedOrFilledInEach(rows, from, to, filler) == MovedInEach(rows, from, to)
  {
  }

  method MoveOrFillInEach<T>(rows: seq<seq<T>>, from: nat, to: nat, filler: T) returns (r: seq<seq<T>>)
    ensures r == MovedOrFilledInEach(rows, from, to, filler)
  {
    r := rows;
    var i := 0;
    while i < |r|
      invariant 0 <= i <= |r| == |rows|
      invariant forall k :: 0 <= k < i ==> r[k] == MoveOrFill(rows[k], from, to, filler)
      invariant forall k :: i <= k < |r| ==> r[k] == rows[k]
    {
      r := r[i := MoveOrFill(r[i], from, to, filler)];
      i := i + 1;
    }
    assert r == MovedOrFilledInEach(rows, from, to, filler);
  }

  /** The cells at the indices of `drop` spliced out of every row, largest
      index first. */
  method RemoveDescendingEach<T>(rows: seq<seq<T>>, drop: set<nat>) returns (r: seq<seq<T>>)
    ensures |r| == |rows|
    ensures forall k :: 0 <= k < |r| ==> r[k] == Without(rows[k], drop)
  {
    r := rows;
    var i := 0;
    while i < |r|
      invariant 0 <= i <= |r| == |rows|
      invariant forall k :: 0 <= k < i ==> r[k] == Without(rows[k], drop)
      invariant forall k :: i <= k < |r| ==> r[k] == rows[k]
    {
      var row := RemoveDescending(r[i], drop);
      r := r[i := row];
      i := i + 1;
    }
  }
}
