/** Dictionaries with the same keys and equivalent values are equal up to order, and only they are;
    so the order in which a dictionary was filled does not show in its hash. */
module HashOrder {
  import opened Values
  import opened Entries
  import opened Hashes

  ghost predicate SameValues(es: seq<Entry>, fs: seq<Entry>) {
    forall i, j :: 0 <= i < |es| && 0 <= j < |fs| && es[i].key == fs[j].key ==> Equiv(es[i].value, fs[j].value)
  }

  /** Both have the same keys, and equivalent values under equal keys. */
  ghost predicate SameMap(es: seq<Entry>, fs: seq<Entry>) {
    SameKeys(es, fs) && SameValues(es, fs)
  }

  lemma {:induction false} EquivReflexive(v: Value)
    ensures Equiv(v, v)
    decreases v, 0
  {
    match v {
      case Prim(_) =>
      case Dict(es) => EquivEntriesReflexive(es);
      case Arr(vs) => EquivElemsReflexive(vs);
    }
  }

  lemma {:induction false} EquivEntriesReflexive(es: seq<Entry>)
    ensures EquivEntries(es, es)
    decreases es
  {
    if es != [] {
      EquivReflexive(es[0].value);
      EquivEntriesReflexive(es[1..]);
      assert Without(es, 0) == es[1..];
    }
  }

  lemma {:induction false} EquivElemsReflexive(vs: seq<Value>)
    ensures EquivElems(vs, vs)
    decreases vs
  {
    if vs != [] {
      EquivReflexive(vs[0]);
      EquivElemsReflexive(vs[1..]);
    }
  }

  lemma HasKeyWithout(es: seq<Entry>, j: nat, k: CStr)
    requires UniqueKeys(es) && j < |es|
    ensures UniqueKeys(Without(es, j))
    ensures HasKey(Without(es, j), k) <==> HasKey(es, k) && k != es[j].key
  {
    var w := Without(es, j);
    assert forall i :: 0 <= i < |w| ==> w[i] == es[if i < j then i else i + 1];
    if HasKey(es, k) && k != es[j].key {
      var i :| 0 <= i < |es| && es[i].key == k;
      assert w[if i < j then i else i - 1] == es[i];
    }
  }

  /** Taking equal keys out of both sides keeps and reflects having the same map. */
  lemma SameMapWithout(es: seq<Entry>, fs: seq<Entry>, j: nat)
    requires UniqueKeys(es) && UniqueKeys(fs) && es != [] && j < |fs| && fs[j].key == es[0].key
    ensures SameMap(es, fs) <==> Equiv(es[0].value, fs[j].value) && SameMap(es[1..], Without(fs, j))
  {
    var w := Without(fs, j);
    assert Without(es, 0) == es[1..];
    forall k: CStr
      ensures HasKey(es[1..], k) <==> HasKey(es, k) && k != es[0].key
      ensures HasKey(w, k) <==> HasKey(fs, k) && k != fs[j].key
    {
      HasKeyWithout(es, 0, k);
      HasKeyWithout(fs, j, k);
    }
    assert HasKey(es, es[0].key) && HasKey(fs, fs[j].key);
    SameValuesWithout(es, fs, j);
  }

  lemma SameValuesWithout(es: seq<Entry>, fs: seq<Entry>, j: nat)
    requires UniqueKeys(es) && UniqueKeys(fs) && es != [] && j < |fs| && fs[j].key == es[0].key
    ensures SameValues(es, fs) <==> Equiv(es[0].value, fs[j].value) && SameValues(es[1..], Without(fs, j))
  {
    var w := Without(fs, j);
    if SameValues(es, fs) {
      forall i, n | 0 <= i < |es[1..]| && 0 <= n < |w| && es[1..][i].key == w[n].key
        ensures Equiv(es[1..][i].value, w[n].value)
      {
        assert es[1..][i] == es[i + 1] && w[n] == fs[if n < j then n else n + 1];
      }
    }
    if Equiv(es[0].value, fs[j].value) && SameValues(es[1..], w) {
      forall i, n | 0 <= i < |es| && 0 <= n < |fs| && es[i].key == fs[n].key
        ensures Equiv(es[i].value, fs[n].value)
      {
        SameValueBack(es, fs, j, i, n);
      }
    }
  }

  lemma SameValueBack(es: seq<Entry>, fs: seq<Entry>, j: nat, i: nat, n: nat)
    requires UniqueKeys(es) && UniqueKeys(fs) && es != [] && j < |fs| && fs[j].key == es[0].key
    requires Equiv(es[0].value, fs[j].value) && SameValues(es[1..], Without(fs, j))
    requires i < |es| && n < |fs| && es[i].key == fs[n].key
    ensures Equiv(es[i].value, fs[n].value)
  {
    assert i == 0 <==> n == j;
    if i != 0 {
      assert es[1..][i - 1] == es[i];
      assert Without(fs, j)[if n < j then n else n - 1] == fs[n];
    }
  }

  lemma {:induction false} EquivIffSameMap(es: seq<Entry>, fs: seq<Entry>)
    requires UniqueKeys(es) && UniqueKeys(fs)
    ensures EquivEntries(es, fs) <==> SameMap(es, fs)
    decreases es
  {
    if es == [] {
      if fs != [] {
        assert HasKey(fs, fs[0].key) && !HasKey(es, fs[0].key);
      }
    } else {
      forall j: nat | j < |fs| && fs[j].key == es[0].key
        ensures EquivEntries(es[1..], Without(fs, j)) <==> SameMap(es[1..], Without(fs, j))
        ensures SameMap(es, fs) <==> Equiv(es[0].value, fs[j].value) && SameMap(es[1..], Without(fs, j))
      {
        HasKeyWithout(fs, j, fs[j].key);
        EquivIffSameMap(es[1..], Without(fs, j));
        SameMapWithout(es, fs, j);
      }
      assert HasKey(es, es[0].key);
      if SameMap(es, fs) {
        var j: nat :| j < |fs| && fs[j].key == es[0].key;
        assert EquivEntries(es[1..], Without(fs, j));
      }
    }
  }

  /** Two ways of filling an empty dictionary that end with the same value under every key give the
      same hash, whatever the order of the keys. */
  lemma FillingOrderDoesNotShow(sets: seq<Entry>, sets': seq<Entry>)
    requires forall k: CStr :: GetEntry(SetAll([], sets), k) == GetEntry(SetAll([], sets'), k)
    ensures Hash(Dict(SetAll([], sets))) == Hash(Dict(SetAll([], sets')))
  {
    var es, fs := SetAll([], sets), SetAll([], sets');
    SetAllIsInsertionOrdered(sets);
    SetAllIsInsertionOrdered(sets');
    forall k: CStr
      ensures HasKey(es, k) <==> HasKey(fs, k)
    {
      GetSome(es, k);
      GetSome(fs, k);
    }
    forall i, j | 0 <= i < |es| && 0 <= j < |fs| && es[i].key == fs[j].key
      ensures Equiv(es[i].value, fs[j].value)
    {
      GetFound(es, es[i].key, i);
      GetFound(fs, fs[j].key, j);
      EquivReflexive(es[i].value);
    }
    EquivIffSameMap(es, fs);
    EquivHashesAlike(Dict(es), Dict(fs));
  }
}
