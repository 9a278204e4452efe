/** Dictionary entries as an insertion-ordered map. */
module Entries {
  import opened Values

  datatype Option<+T> = None | Some(value: T)

  /** Replace the value of an existing key where it stands, or add the entry at the end. */
  function SetEntry(es: seq<Entry>, key: CStr, value: Value): seq<Entry> {
    if es == [] then [Entry(key, value)]
    else if es[0].key == key then [es[0].(value := value)] + es[1..]
    else [es[0]] + SetEntry(es[1..], key, value)
  }

  function GetEntry(es: seq<Entry>, key: CStr): Option<Value> {
    if es == [] then None
    else if es[0].key == key then Some(es[0].value)
    else GetEntry(es[1..], key)
  }

  lemma {:induction false} SetExisting(es: seq<Entry>, key: CStr, value: Value, i: nat)
    requires i < |es| && es[i].key == key && forall j :: 0 <= j < i ==> es[j].key != key
    ensures SetEntry(es, key, value) == es[i := es[i].(value := value)]
    ensures GetEntry(es, key) == Some(es[i].value)
  {
    if i > 0 {
      SetExisting(es[1..], key, value, i - 1);
    }
  }

  lemma {:induction false} SetMissing(es: seq<Entry>, key: CStr, value: Value)
    requires !HasKey(es, key)
    ensures SetEntry(es, key, value) == es + [Entry(key, value)]
    ensures GetEntry(es, key) == None
  {
    if es != [] {
      assert es[0].key != key;
      assert !HasKey(es[1..], key) by {
        assert forall i :: 0 <= i < |es| - 1 ==> es[1..][i] == es[i + 1];
      }
      SetMissing(es[1..], key, value);
    }
  }

  lemma {:induction false} FirstWithKey(es: seq<Entry>, key: CStr) returns (i: nat)
    requires HasKey(es, key)
    ensures i < |es| && es[i].key == key && forall j :: 0 <= j < i ==> es[j].key != key
  {
    if es[0].key == key {
      i := 0;
    } else {
      var k :| 0 <= k < |es| && es[k].key == key;
      assert es[1..][k - 1].key == key;
      var n := FirstWithKey(es[1..], key);
      i := n + 1;
    }
  }

  lemma {:induction false} GetFound(es: seq<Entry>, key: CStr, i: nat)
    requires UniqueKeys(es) && i < |es| && es[i].key == key
    ensures GetEntry(es, key) == Some(es[i].value)
  {
    SetExisting(es, key, es[i].value, i);
  }

  /** Setting keeps keys distinct and in place, and adds at most the one key, at the end. */
  lemma SetEntryKeys(es: seq<Entry>, key: CStr, value: Value)
    requires UniqueKeys(es)
    ensures var r := SetEntry(es, key, value);
      && UniqueKeys(r)
      && |r| == |es| + (if HasKey(es, key) then 0 else 1)
      && (forall i :: 0 <= i < |es| ==> r[i].key == es[i].key)
      && (|r| > |es| ==> r[|es|].key == key)
  {
    if HasKey(es, key) {
      var i := FirstWithKey(es, key);
      SetExisting(es, key, value, i);
    } else {
      SetMissing(es, key, value);
    }
  }

  /** Setting changes what is found under the one key, and under no other. */
  lemma SetThenGet(es: seq<Entry>, key: CStr, value: Value, k: CStr)
    ensures GetEntry(SetEntry(es, key, value), k) == if k == key then Some(value) else GetEntry(es, k)
    ensures HasKey(SetEntry(es, key, value), k) <==> k == key || HasKey(es, k)
  {
    var r := SetEntry(es, key, value);
    if k != key {
      SetLeavesOthers(es, key, value, k);
    } else if HasKey(es, key) {
      var i := FirstWithKey(es, key);
      SetExisting(es, key, value, i);
      SetExisting(r, key, value, i);
    } else {
      SetMissing(es, key, value);
      SetExisting(r, key, value, |es|);
    }
    GetSome(r, k);
    GetSome(es, k);
  }

  lemma GetSome(es: seq<Entry>, k: CStr)
    ensures GetEntry(es, k).Some? <==> HasKey(es, k)
  {
    if HasKey(es, k) {
      var i := FirstWithKey(es, k);
      SetExisting(es, k, es[i].value, i);
    } else if es != [] {
      SetMissing(es, k, es[0].value);
    }
  }

  lemma {:induction false} SetLeavesOthers(es: seq<Entry>, key: CStr, value: Value, k: CStr)
    requires k != key
    ensures GetEntry(SetEntry(es, key, value), k) == GetEntry(es, k)
  {
    if es != [] {
      SetLeavesOthers(es[1..], key, value, k);
      var r := SetEntry(es, key, value);
      if es[0].key == key {
        assert r[1..] == es[1..];
      } else {
        assert r[1..] == SetEntry(es[1..], key, value);
      }
    }
  }

  /** A key that is still to come is not among those done: setting it adds it, and keys stay distinct. */
  lemma NewKey(done: seq<Entry>, es: seq<Entry>, v: Value)
    requires UniqueKeys(done + es) && es != []
    ensures !HasKey(done, es[0].key)
    ensures SetEntry(done, es[0].key, v) == done + [Entry(es[0].key, v)]
    ensures UniqueKeys(SetEntry(done, es[0].key, v) + es[1..])
  {
    var all, t := done + es, done + [Entry(es[0].key, v)] + es[1..];
    assert all[|done|] == es[0];
    assert forall i :: 0 <= i < |done| ==> all[i] == done[i];
    SetMissing(done, es[0].key, v);
    assert forall i :: 0 <= i < |t| ==> t[i].key == all[i].key;
  }

  // ----- Runs of sets on a dictionary

  /** The entries after setting each of `sets` in turn. */
  function SetAll(es: seq<Entry>, sets: seq<Entry>): seq<Entry> {
    if sets == [] then es
    else SetEntry(SetAll(es, sets[..|sets| - 1]), sets[|sets| - 1].key, sets[|sets| - 1].value)
  }

  ghost predicate FirstAt(sets: seq<Entry>, key: CStr, n: nat) {
    n < |sets| && sets[n].key == key && forall m :: 0 <= m < n ==> sets[m].key != key
  }

  ghost predicate LastAt(sets: seq<Entry>, key: CStr, n: nat) {
    n < |sets| && sets[n].key == key && forall m :: n < m < |sets| ==> sets[m].key != key
  }

  ghost predicate SameKeys(es: seq<Entry>, sets: seq<Entry>) {
    forall k: CStr :: HasKey(es, k) <==> HasKey(sets, k)
  }

  ghost predicate InFirstOrder(es: seq<Entry>, sets: seq<Entry>) {
    forall i, j, m: nat, n: nat ::
      0 <= i < j < |es| && FirstAt(sets, es[i].key, m) && FirstAt(sets, es[j].key, n) ==> m < n
  }

  ghost predicate WithLastValues(es: seq<Entry>, sets: seq<Entry>) {
    forall i, n: nat :: 0 <= i < |es| && LastAt(sets, es[i].key, n) ==> es[i].value == sets[n].value
  }

  /** es is what an insertion-ordered map makes of `sets`: the keys that were set, each once, in the
      order they were first set, each with the value it was last set to. */
  ghost predicate InsertionOrdered(es: seq<Entry>, sets: seq<Entry>) {
    UniqueKeys(es) && SameKeys(es, sets) && InFirstOrder(es, sets) && WithLastValues(es, sets)
  }

  lemma FirstInExtension(sets: seq<Entry>, last: Entry, key: CStr, n: nat)
    requires FirstAt(sets + [last], key, n)
    ensures if HasKey(sets, key) then FirstAt(sets, key, n) else n == |sets|
  {
    var t := sets + [last];
    assert forall m :: 0 <= m < |sets| ==> t[m] == sets[m];
  }

  lemma OneMoreOrder(es: seq<Entry>, sets: seq<Entry>, last: Entry)
    requires UniqueKeys(es) && SameKeys(es, sets) && InFirstOrder(es, sets)
    ensures InFirstOrder(SetEntry(es, last.key, last.value), sets + [last])
  {
    var r, t := SetEntry(es, last.key, last.value), sets + [last];
    SetEntryKeys(es, last.key, last.value);
    forall i, j, m: nat, n: nat | 0 <= i < j < |r| && FirstAt(t, r[i].key, m) && FirstAt(t, r[j].key, n)
      ensures m < n
    {
      assert r[i].key == es[i].key;
      assert HasKey(es, es[i].key);
      FirstInExtension(sets, last, r[i].key, m);
      FirstInExtension(sets, last, r[j].key, n);
      assert j < |es| ==> HasKey(es, es[j].key);
    }
  }

  lemma OneMoreValue(es: seq<Entry>, sets: seq<Entry>, last: Entry, i: nat, n: nat)
    requires UniqueKeys(es) && WithLastValues(es, sets)
    requires i < |SetEntry(es, last.key, last.value)|
    requires LastAt(sets + [last], SetEntry(es, last.key, last.value)[i].key, n)
    ensures SetEntry(es, last.key, last.value)[i].value == (sets + [last])[n].value
  {
    var r, t := SetEntry(es, last.key, last.value), sets + [last];
    assert t[|sets|] == last;
    SetEntryKeys(es, last.key, last.value);
    if r[i].key == last.key {
      SetThenGet(es, last.key, last.value, last.key);
      GetFound(r, last.key, i);
      assert n == |sets|;
    } else {
      assert LastAt(sets, r[i].key, n) by {
        assert forall m :: 0 <= m < |sets| ==> t[m] == sets[m];
      }
      SetElsewhere(es, last.key, last.value, i);
    }
  }

  lemma SetElsewhere(es: seq<Entry>, key: CStr, value: Value, i: nat)
    requires i < |SetEntry(es, key, value)| && SetEntry(es, key, value)[i].key != key
    ensures i < |es| && SetEntry(es, key, value)[i] == es[i]
  {
    if HasKey(es, key) {
      var j := FirstWithKey(es, key);
      SetExisting(es, key, value, j);
    } else {
      SetMissing(es, key, value);
    }
  }

  lemma OneMoreSet(es: seq<Entry>, sets: seq<Entry>, last: Entry)
    requires InsertionOrdered(es, sets)
    ensures InsertionOrdered(SetEntry(es, last.key, last.value), sets + [last])
  {
    var r, t := SetEntry(es, last.key, last.value), sets + [last];
    SetEntryKeys(es, last.key, last.value);
    forall k: CStr
      ensures HasKey(r, k) <==> HasKey(t, k)
    {
      HasKeyInExtension(sets, last, k);
      SetThenGet(es, last.key, last.value, k);
    }
    OneMoreOrder(es, sets, last);
    forall i, n: nat | 0 <= i < |r| && LastAt(t, r[i].key, n)
      ensures r[i].value == t[n].value
    {
      OneMoreValue(es, sets, last, i, n);
    }
  }

  lemma HasKeyInExtension(sets: seq<Entry>, last: Entry, k: CStr)
    ensures HasKey(sets + [last], k) <==> HasKey(sets, k) || k == last.key
  {
    var t := sets + [last];
    assert t[|sets|] == last && forall m :: 0 <= m < |sets| ==> t[m] == sets[m];
  }

  lemma {:induction false} SetAllIsInsertionOrdered(sets: seq<Entry>)
    ensures InsertionOrdered(SetAll([], sets), sets)
  {
    if sets != [] {
      var before, last := sets[..|sets| - 1], sets[|sets| - 1];
      SetAllIsInsertionOrdered(before);
      OneMoreSet(SetAll([], before), before, last);
      assert before + [last] == sets;
    }
  }

  lemma {:induction false} LastWithKey(sets: seq<Entry>, key: CStr) returns (n: nat)
    requires HasKey(sets, key)
    ensures LastAt(sets, key, n)
  {
    var m := |sets| - 1;
    if sets[m].key == key {
      n := m;
    } else {
      var k :| 0 <= k < |sets| && sets[k].key == key;
      assert sets[..m][k].key == key;
      n := LastWithKey(sets[..m], key);
    }
  }

  /** Where the key at one place of es stands in another list with the same keys and prefix. */
  lemma CounterpartOf(es: seq<Entry>, fs: seq<Entry>, sets: seq<Entry>, i: nat) returns (j: nat)
    requires InsertionOrdered(es, sets) && InsertionOrdered(fs, sets)
    requires i < |es| && i <= |fs| && es[..i] == fs[..i]
    ensures i <= j < |fs| && fs[j].key == es[i].key
  {
    assert HasKey(es, es[i].key);
    assert HasKey(fs, es[i].key);
    assert forall k :: 0 <= k < i ==> es[k] == es[..i][k] && fs[k] == fs[..i][k];
    j :| 0 <= j < |fs| && fs[j].key == es[i].key;
  }

  lemma SameNextKey(es: seq<Entry>, fs: seq<Entry>, sets: seq<Entry>, i: nat)
    requires InsertionOrdered(es, sets) && InsertionOrdered(fs, sets)
    requires i < |es| && i < |fs| && es[..i] == fs[..i]
    ensures es[i].key == fs[i].key
  {
    var j := CounterpartOf(es, fs, sets, i);
    var m := CounterpartOf(fs, es, sets, i);
    assert HasKey(es, es[i].key) && HasKey(fs, fs[i].key);
    var p := FirstWithKey(sets, es[i].key);
    var q := FirstWithKey(sets, fs[i].key);
    assert FirstAt(sets, es[i].key, p) && FirstAt(sets, fs[i].key, q);
    assert j > i ==> q < p;
    assert m > i ==> p < q;
  }

  lemma {:induction false} SameUpTo(es: seq<Entry>, fs: seq<Entry>, sets: seq<Entry>, n: nat)
    requires InsertionOrdered(es, sets) && InsertionOrdered(fs, sets) && n <= |es| && n <= |fs|
    ensures es[..n] == fs[..n]
  {
    if n > 0 {
      SameUpTo(es, fs, sets, n - 1);
      SameNextKey(es, fs, sets, n - 1);
      assert HasKey(es, es[n - 1].key);
      var l := LastWithKey(sets, es[n - 1].key);
      assert es[..n] == es[..n - 1] + [es[n - 1]] && fs[..n] == fs[..n - 1] + [fs[n - 1]];
    }
  }

  /** That description leaves no choice: it determines the entries. */
  lemma InsertionOrderedIsUnique(es: seq<Entry>, fs: seq<Entry>, sets: seq<Entry>)
    requires InsertionOrdered(es, sets) && InsertionOrdered(fs, sets)
    ensures es == fs
  {
    var n := if |es| <= |fs| then |es| else |fs|;
    SameUpTo(es, fs, sets, n);
    if |es| > n {
      var _ := CounterpartOf(es, fs, sets, n);
    } else if |fs| > n {
      var _ := CounterpartOf(fs, es, sets, n);
    }
  }
}
