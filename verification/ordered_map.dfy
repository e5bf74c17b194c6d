/** JavaScript plain objects used as dictionaries: string keys in insertion
    order, assignment to an existing key replaces the value in place. */
module OrderedMap {
  import opened Wrappers

  datatype Entry<V> = Entry(key: string, value: V)

  type OMap<V> = seq<Entry<V>>

  function Keys<V>(m: OMap<V>): (r: seq<string>)
    ensures |r| == |m|
    ensures forall i :: 0 <= i < |m| ==> r[i] == m[i].key
  {
    seq(|m|, i requires 0 <= i < |m| => m[i].key)
  }

  /** No key occurs twice, as in any JavaScript object. */
  predicate UniqueKeys<V>(m: OMap<V>)
  {
    forall i, j :: 0 <= i < j < |m| ==> m[i].key != m[j].key
  }

  predicate HasKey<V>(m: OMap<V>, k: string)
  {
    exists i :: 0 <= i < |m| && m[i].key == k
  }

  /** `obj[k]`, `None` standing for `undefined`. */
  function Get<V>(m: OMap<V>, k: string): (r: Option<V>)
    ensures r.Some? <==> HasKey(m, k)
  {
    if m == [] then None
    else if m[0].key == k then Some(m[0].value)
    else
      var r := Get(m[1..], k);
      assert HasKey(m[1..], k) ==> HasKey(m, k) by {
        if HasKey(m[1..], k) { var i :| 0 <= i < |m[1..]| && m[1..][i].key == k; assert m[i + 1].key == k; }
      }
      assert HasKey(m, k) ==> HasKey(m[1..], k) by {
        if HasKey(m, k) { var i :| 0 <= i < |m| && m[i].key == k; assert i > 0 && m[1..][i - 1].key == k; }
      }
      r
  }

  /** `obj[k] = v`: an existing key is replaced in place, a new key is
      appended. What it reads back afterwards is stated by `GetSetSame` and
      `GetSetOther`, where the key goes by `SetKeys`. */
  function Set<V>(m: OMap<V>, k: string, v: V): (r: OMap<V>)
    ensures |r| == |m| || |r| == |m| + 1
  {
    if m == [] then [Entry(k, v)]
    else if m[0].key == k then
      var r := [Entry(k, v)] + m[1..];
      assert r[1..] == m[1..];
      r
    else
      var r := [m[0]] + Set(m[1..], k, v);
      assert r[1..] == Set(m[1..], k, v);
      r
  }

  lemma HasKeyTail<V>(m: OMap<V>, k: string)
    requires m != [] && m[0].key != k
    ensures HasKey(m, k) <==> HasKey(m[1..], k)
  {
    if HasKey(m, k) { var i :| 0 <= i < |m| && m[i].key == k; assert m[1..][i - 1].key == k; }
    if HasKey(m[1..], k) { var i :| 0 <= i < |m[1..]| && m[1..][i].key == k; assert m[i + 1].key == k; }
  }

  /** An existing key keeps its position, a new key goes to the end. */
  lemma {:induction false} SetKeys<V>(m: OMap<V>, k: string, v: V)
    ensures HasKey(m, k) ==> Keys(Set(m, k, v)) == Keys(m)
    ensures !HasKey(m, k) ==> Keys(Set(m, k, v)) == Keys(m) + [k]
  {
    if m == [] {
      assert Keys(Set(m, k, v)) == [k];
    } else {
      var rest := Keys(m[1..]);
      KeysCons(m[0], m[1..]);
      assert [m[0]] + m[1..] == m;
      if m[0].key == k {
        assert HasKey(m, k) by { assert m[0].key == k; }
        assert Set(m, k, v) == [Entry(k, v)] + m[1..];
        KeysCons(Entry(k, v), m[1..]);
      } else {
        var t := Set(m[1..], k, v);
        SetKeys(m[1..], k, v);
        HasKeyTail(m, k);
        assert Set(m, k, v) == [m[0]] + t;
        KeysCons(m[0], t);
        if !HasKey(m, k) {
          assert [m[0].key] + (rest + [k]) == ([m[0].key] + rest) + [k];
        }
      }
    }
  }

  lemma KeysCons<V>(e: Entry<V>, t: OMap<V>)
    ensures Keys([e] + t) == [e.key] + Keys(t)
  {
  }

  /** Assignment never makes a key occur twice. */
  lemma {:induction false} SetUnique<V>(m: OMap<V>, k: string, v: V)
    requires UniqueKeys(m)
    ensures UniqueKeys(Set(m, k, v))
  {
    var r := Set(m, k, v);
    SetKeys(m, k, v);
    if HasKey(m, k) {
      forall i, j | 0 <= i < j < |r| ensures r[i].key != r[j].key {
        assert Keys(r)[i] == Keys(m)[i] && Keys(r)[j] == Keys(m)[j];
      }
    } else {
      forall i, j | 0 <= i < j < |r| ensures r[i].key != r[j].key {
        assert Keys(r)[i] == (Keys(m) + [k])[i] && Keys(r)[j] == (Keys(m) + [k])[j];
        if j == |m| {
          assert m[i].key != k;
        }
      }
    }
  }

  /** With unique keys, the value read back is the one stored at the key's
      position. */
  lemma {:induction false} GetAt<V>(m: OMap<V>, i: nat)
    requires UniqueKeys(m) && i < |m|
    ensures Get(m, m[i].key) == Some(m[i].value)
  {
    if i > 0 {
      assert UniqueKeys(m[1..]);
      GetAt(m[1..], i - 1);
    }
  }

  /** After `obj[k] = v`, `k` reads `v`. */
  lemma {:induction false} GetSetSame<V>(m: OMap<V>, k: string, v: V)
    ensures Get(Set(m, k, v), k) == Some(v)
  {
    if m != [] && m[0].key != k {
      GetSetSame(m[1..], k, v);
      assert Set(m, k, v) == [m[0]] + Set(m[1..], k, v);
      assert ([m[0]] + Set(m[1..], k, v))[1..] == Set(m[1..], k, v);
    }
  }

  /** After `obj[k] = v`, every other key reads what it read before. */
  lemma {:induction false} GetSetOther<V>(m: OMap<V>, k: string, v: V, k2: string)
    requires k2 != k
    ensures Get(Set(m, k, v), k2) == Get(m, k2)
  {
    if m != [] && m[0].key != k {
      GetSetOther(m[1..], k, v, k2);
      assert Set(m, k, v) == [m[0]] + Set(m[1..], k, v);
      assert ([m[0]] + Set(m[1..], k, v))[1..] == Set(m[1..], k, v);
    } else if m != [] {
      assert Set(m, k, v)[1..] == m[1..];
    }
  }

  lemma HasKeySet<V>(m: OMap<V>, k: string, v: V, k2: string)
    ensures HasKey(Set(m, k, v), k2) <==> k2 == k || HasKey(m, k2)
  {
    if k2 != k {
      GetSetOther(m, k, v, k2);
    } else {
      GetSetSame(m, k, v);
    }
  }

  lemma KeysMembership<V>(m: OMap<V>, k: string)
    ensures k in Keys(m) <==> HasKey(m, k)
  {
    if HasKey(m, k) {
      var i :| 0 <= i < |m| && m[i].key == k;
      assert Keys(m)[i] == k;
    }
  }

  /** The object built by assigning `obj[e.key] = e.value` for each entry
      in order, starting from `{}`. */
  function Assigned<V>(entries: seq<Entry<V>>): (r: OMap<V>)
  {
    if entries == [] then []
    else
      var n := |entries| - 1;
      Set(Assigned(entries[..n]), entries[n].key, entries[n].value)
  }

  /** A key reads the value of its last assignment. */
  lemma {:induction false} AssignedLastWins<V>(entries: seq<Entry<V>>, k: nat)
    requires k < |entries|
    requires forall j :: k < j < |entries| ==> entries[j].key != entries[k].key
    ensures Get(Assigned(entries), entries[k].key) == Some(entries[k].value)
  {
    var n := |entries| - 1;
    var prev := Assigned(entries[..n]);
    assert Assigned(entries) == Set(prev, entries[n].key, entries[n].value);
    if k == n {
      GetSetSame(prev, entries[n].key, entries[n].value);
    } else {
      var front := entries[..n];
      assert front[k] == entries[k];
      forall j | k < j < |front| ensures front[j].key != front[k].key {
        assert front[j] == entries[j];
      }
      AssignedLastWins(front, k);
      GetSetOther(prev, entries[n].key, entries[n].value, entries[k].key);
    }
  }

  /** Some entry assigns `name`. */
  predicate Assigns<V>(entries: seq<Entry<V>>, name: string)
  {
    exists k :: 0 <= k < |entries| && entries[k].key == name
  }

  lemma AssignsStep<V>(entries: seq<Entry<V>>, name: string)
    requires entries != []
    ensures Assigns(entries, name) <==> Assigns(entries[..|entries| - 1], name) || entries[|entries| - 1].key == name
  {
    var n := |entries| - 1;
    if Assigns(entries, name) {
      var k :| 0 <= k < |entries| && entries[k].key == name;
      if k < n {
        assert entries[..n][k] == entries[k];
      }
    }
    if Assigns(entries[..n], name) {
      var k :| 0 <= k < n && entries[..n][k].key == name;
      assert entries[k] == entries[..n][k];
    }
  }

  /** The keys of the object are exactly the assigned keys. */
  lemma {:induction false} AssignedKeys<V>(entries: seq<Entry<V>>, name: string)
    ensures HasKey(Assigned(entries), name) <==> Assigns(entries, name)
  {
    if entries != [] {
      var n := |entries| - 1;
      var prev := Assigned(entries[..n]);
      assert Assigned(entries) == Set(prev, entries[n].key, entries[n].value);
      AssignedKeys(entries[..n], name);
      HasKeySet(prev, entries[n].key, entries[n].value, name);
      AssignsStep(entries, name);
    }
  }

  /** One more assignment. */
  lemma AssignedStep<V>(entries: seq<Entry<V>>, k: nat)
    requires k < |entries|
    ensures Assigned(entries[..k + 1]) == Set(Assigned(entries[..k]), entries[k].key, entries[k].value)
  {
    assert entries[..k + 1][..k] == entries[..k];
  }

  /** Assignments give an object in which no key occurs twice. */
  lemma {:induction false} AssignedUnique<V>(entries: seq<Entry<V>>)
    ensures UniqueKeys(Assigned(entries))
  {
    if entries != [] {
      var n := |entries| - 1;
      AssignedUnique(entries[..n]);
      SetUnique(Assigned(entries[..n]), entries[n].key, entries[n].value);
    }
  }

  /** Assigning a key the object does not have appends it. */
  lemma {:induction false} SetNew<V>(m: OMap<V>, k: string, v: V)
    requires !HasKey(m, k)
    ensures Set(m, k, v) == m + [Entry(k, v)]
  {
    if m != [] {
      assert m[0].key != k;
      HasKeyTail(m, k);
      SetNew(m[1..], k, v);
      assert Set(m, k, v) == [m[0]] + Set(m[1..], k, v);
      assert [m[0]] + (m[1..] + [Entry(k, v)]) == m + [Entry(k, v)];
    }
  }

  /** Assigning again the key that was appended last replaces its value. */
  lemma {:induction false} SetAppended<V>(m: OMap<V>, k: string, v: V, w: V)
    requires !HasKey(m, k)
    ensures Set(m + [Entry(k, v)], k, w) == m + [Entry(k, w)]
  {
    if m == [] {
      assert [Entry(k, v)][1..] == [];
    } else {
      var m' := m + [Entry(k, v)];
      assert m'[0] == m[0] && m[0].key != k;
      HasKeyTail(m, k);
      SetAppended(m[1..], k, v, w);
      assert m'[1..] == m[1..] + [Entry(k, v)];
      assert Set(m', k, w) == [m[0]] + Set(m'[1..], k, w);
      assert [m[0]] + (m[1..] + [Entry(k, w)]) == m + [Entry(k, w)];
    }
  }

  /** One more assignment at the end. */
  lemma AssignedAppend<V>(entries: seq<Entry<V>>, e: Entry<V>)
    ensures Assigned(entries + [e]) == Set(Assigned(entries), e.key, e.value)
  {
    assert (entries + [e])[..|entries|] == entries;
  }

  /** Assigning the entries of an object, whose keys are unique, copies it. */
  lemma {:induction false} AssignedOfUnique<V>(entries: seq<Entry<V>>)
    requires UniqueKeys(entries)
    ensures Assigned(entries) == entries
  {
    if entries != [] {
      var n := |entries| - 1;
      var prev := entries[..n];
      assert UniqueKeys(prev);
      AssignedOfUnique(prev);
      assert !HasKey(prev, entries[n].key);
      SetNew(prev, entries[n].key, entries[n].value);
      assert prev + [entries[n]] == entries;
    }
  }

  /** Every key of the object was assigned by some entry. */
  lemma AssignedKeyFrom<V>(entries: seq<Entry<V>>, i: nat)
    requires i < |Assigned(entries)|
    ensures Assigns(entries, Assigned(entries)[i].key)
  {
    AssignedKeys(entries, Assigned(entries)[i].key);
  }

  /** Every value of `m` is in `vs`. */
  predicate ValuesIn<V>(m: OMap<V>, vs: set<V>)
  {
    forall i :: 0 <= i < |m| ==> m[i].value in vs
  }

  lemma {:induction false} SetValuesIn<V>(m: OMap<V>, k: string, v: V, vs: set<V>)
    requires ValuesIn(m, vs) && v in vs
    ensures ValuesIn(Set(m, k, v), vs)
  {
    if m != [] && m[0].key != k {
      SetValuesIn(m[1..], k, v, vs);
      assert Set(m, k, v) == [m[0]] + Set(m[1..], k, v);
    } else if m != [] {
      assert Set(m, k, v) == [Entry(k, v)] + m[1..];
    }
  }

  /** A key of such an object reads a value in `vs`. */
  lemma {:induction false} GetValuesIn<V>(m: OMap<V>, vs: set<V>, k: string)
    requires ValuesIn(m, vs)
    ensures Get(m, k).Some? ==> Get(m, k).value in vs
  {
    if m != [] && m[0].key != k {
      GetValuesIn(m[1..], vs, k);
    }
  }

  /** Assigning only values from `vs` gives an object whose values are all
      in `vs`. */
  lemma {:induction false} AssignedValuesIn<V>(entries: seq<Entry<V>>, vs: set<V>)
    requires forall i :: 0 <= i < |entries| ==> entries[i].value in vs
    ensures ValuesIn(Assigned(entries), vs)
  {
    if entries != [] {
      var n := |entries| - 1;
      AssignedValuesIn(entries[..n], vs);
      SetValuesIn(Assigned(entries[..n]), entries[n].key, entries[n].value, vs);
    }
  }

  /** One step of a loop that assigns on some steps (`Some`) and skips the
      others (`None`). */
  function Applied<V>(m: OMap<V>, u: Option<Entry<V>>): (r: OMap<V>)
    ensures UniqueKeys(m) ==> UniqueKeys(r)
  {
    match u
    case None => m
    case Some(e) =>
      assert UniqueKeys(m) ==> UniqueKeys(Set(m, e.key, e.value)) by {
        if UniqueKeys(m) { SetUnique(m, e.key, e.value); }
      }
      Set(m, e.key, e.value)
  }

  lemma GetAppliedOther<V>(m: OMap<V>, u: Option<Entry<V>>, k: string)
    requires u.None? || u.value.key != k
    ensures Get(Applied(m, u), k) == Get(m, k)
  {
    if u.Some? {
      GetSetOther(m, u.value.key, u.value.value, k);
    }
  }

  lemma HasKeyApplied<V>(m: OMap<V>, u: Option<Entry<V>>, k: string)
    ensures HasKey(Applied(m, u), k) <==> (u.Some? && u.value.key == k) || HasKey(m, k)
  {
    if u.Some? {
      HasKeySet(m, u.value.key, u.value.value, k);
    }
  }

  /** The object built by such a loop. */
  function AssignedSome<V>(updates: seq<Option<Entry<V>>>): (r: OMap<V>)
    ensures UniqueKeys(r)
  {
    if updates == [] then []
    else
      var n := |updates| - 1;
      Applied(AssignedSome(updates[..n]), updates[n])
  }

  lemma AssignedSomeAppend<V>(updates: seq<Option<Entry<V>>>, u: Option<Entry<V>>)
    ensures AssignedSome(updates + [u]) == Applied(AssignedSome(updates), u)
  {
    assert (updates + [u])[..|updates|] == updates;
  }

  /** A key reads the value of its last assignment. */
  lemma {:induction false} AssignedSomeLastWins<V>(updates: seq<Option<Entry<V>>>, k: nat)
    requires k < |updates| && updates[k].Some?
    requires forall j :: k < j < |updates| && updates[j].Some? ==> updates[j].value.key != updates[k].value.key
    ensures Get(AssignedSome(updates), updates[k].value.key) == Some(updates[k].value.value)
  {
    var n := |updates| - 1;
    var prev := AssignedSome(updates[..n]);
    assert AssignedSome(updates) == Applied(prev, updates[n]);
    if k == n {
      GetSetSame(prev, updates[n].value.key, updates[n].value.value);
    } else {
      assert updates[..n][k] == updates[k];
      AssignedSomeLastWins(updates[..n], k);
      GetAppliedOther(prev, updates[n], updates[k].value.key);
    }
  }

  /** Some step assigns `name`. */
  predicate AssignsSome<V>(updates: seq<Option<Entry<V>>>, name: string)
  {
    exists k :: 0 <= k < |updates| && updates[k].Some? && updates[k].value.key == name
  }

  lemma AssignsSomeStep<V>(updates: seq<Option<Entry<V>>>, name: string)
    requires updates != []
    ensures var n := |updates| - 1;
      AssignsSome(updates, name) <==> AssignsSome(updates[..n], name) || (updates[n].Some? && updates[n].value.key == name)
  {
    var n := |updates| - 1;
    if AssignsSome(updates, name) {
      var k :| 0 <= k < |updates| && updates[k].Some? && updates[k].value.key == name;
      if k < n {
        assert updates[..n][k] == updates[k];
      }
    }
    if AssignsSome(updates[..n], name) {
      var k :| 0 <= k < n && updates[..n][k].Some? && updates[..n][k].value.key == name;
      assert updates[k] == updates[..n][k];
    }
  }

  /** The keys of the object are exactly the assigned keys. */
  lemma {:induction false} AssignedSomeKeys<V>(updates: seq<Option<Entry<V>>>, name: string)
    ensures HasKey(AssignedSome(updates), name) <==> AssignsSome(updates, name)
  {
    if updates != [] {
      var n := |updates| - 1;
      var prev := AssignedSome(updates[..n]);
      assert AssignedSome(updates) == Applied(prev, updates[n]);
      AssignedSomeKeys(updates[..n], name);
      AssignsSomeStep(updates, name);
      HasKeyApplied(prev, updates[n], name);
    }
  }
}
