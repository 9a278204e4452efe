/** Dictionaries and arrays as the library keeps them: a tail queue of pairs, or of elements, behind
    a head. The values in them are finished trees; each method is proved against `Entries`. */
module Containers {
  import opened Values
  import opened Entries
  import opened TailQueue

  /** The structures a queue of links is embedded in. */
  ghost function Contents<T(0)>(s: seq<Link<T>>): (c: seq<T>)
    reads s
    ensures |c| == |s| && forall i :: 0 <= i < |s| ==> c[i] == s[i].data
  {
    seq(|s|, i requires 0 <= i < |s| reads s => s[i].data)
  }

  class Dictionary {
    const head: Link<Entry>
    var size: nat
    ghost var pairs: seq<Link<Entry>>
    ghost var seed: nat   // what `size` started from

    ghost predicate Valid()
      reads this, head, pairs
    {
      Queue(head, pairs) && UniqueKeys(Entries()) && size == seed + |pairs|
    }

    ghost function Entries(): seq<Entry>
      reads this, pairs
    {
      Contents(pairs)
    }

    ghost function Repr(): set<object>
      reads this
    {
      {this, head} + (set p <- pairs)
    }

    /** An empty dictionary whose size field starts from a given count. */
    constructor Empty(count: nat)
      ensures Valid() && fresh(Repr()) && Entries() == [] && seed == count
    {
      head := new Link(Entry([], Prim(Null)));
      size, seed, pairs := count, count, [];
      new;
      Init(head);
    }

    /** The traversal both operations start with: the first pair with the key, if there is one. */
    method Find(key: CStr) returns (pair: Link?<Entry>, ghost i: nat)
      requires Valid()
      ensures i <= |pairs| && pair == At(pairs, i)
      ensures forall j :: 0 <= j < i ==> Entries()[j].key != key
      ensures i < |pairs| ==> Entries()[i].key == key
      ensures pair == null <==> !HasKey(Entries(), key)
    {
      i := 0;
      pair := head.next;
      while pair != null && pair.data.key != key
        invariant 0 <= i <= |pairs| && pair == At(pairs, i)
        invariant forall j :: 0 <= j < i ==> Entries()[j].key != key
        decreases |pairs| - i
      {
        i := i + 1;
        pair := pair.next;
      }
    }

    method SetValue(key: CStr, value: Value)
      requires Valid()
      modifies Repr()
      ensures Valid() && seed == old(seed) && fresh(Repr() - old(Repr()))
      ensures Entries() == SetEntry(old(Entries()), key, value)
      ensures size == old(size) + if HasKey(old(Entries()), key) then 0 else 1
    {
      var pair, i := Find(key);
      if pair != null {
        SetExisting(Entries(), key, value, i);
        SetValueAt(pair, value, i);
      } else {
        SetMissing(Entries(), key, value);
        SetEntryKeys(Entries(), key, value);
        AddPair(key, value);
      }
    }

    method SetValueAt(pair: Link<Entry>, value: Value, ghost i: nat)
      requires Valid() && i < |pairs| && pair == pairs[i]
      modifies pair`data
      ensures Valid()
      ensures Entries() == old(Entries())[i := old(Entries())[i].(value := value)]
    {
      pair.data := pair.data.(value := value);
    }

    method AddPair(key: CStr, value: Value)
      requires Valid() && !HasKey(Entries(), key) && UniqueKeys(Entries() + [Entry(key, value)])
      modifies Repr()
      ensures Valid() && seed == old(seed) && fresh(Repr() - old(Repr()))
      ensures Entries() == old(Entries()) + [Entry(key, value)]
    {
      hide UniqueKeys, Queue, HasKey;
      ghost var before := Entries();
      size := size + 1;
      var added := new Link(Entry(key, value));
      InsertTail(head, added, pairs);
      pairs := pairs + [added];
      assert Entries() == before + [Entry(key, value)];
    }

    method GetValue(key: CStr) returns (r: Option<Value>)
      requires Valid()
      ensures r == GetEntry(Entries(), key)
    {
      var pair, i := Find(key);
      if pair != null {
        SetExisting(Entries(), key, pair.data.value, i);
        return Some(pair.data.value);
      }
      SetMissing(Entries(), key, Prim(Null));
      return None;
    }

    /** The size field counts the keys exactly when the dictionary was created with no initial pairs. */
    method GetCount() returns (n: nat)
      requires Valid()
      ensures n == |Entries()| <==> seed == 0
      ensures n == seed + |Entries()|
    {
      n := size;
    }

    /** xpc_dictionary_apply: the pairs the applier is called on, in order, until it refuses one. */
    method Apply(applier: Entry -> bool) returns (visited: seq<Entry>, all: bool)
      requires Valid()
      ensures visited <= Entries()
      ensures all ==> visited == Entries() && forall e <- visited :: applier(e)
      ensures !all ==> visited != [] && !applier(visited[|visited| - 1])
      ensures !all ==> forall i :: 0 <= i < |visited| - 1 ==> applier(visited[i])
    {
      visited := [];
      var pair := head.next;
      while pair != null
        invariant |visited| <= |pairs| && pair == At(pairs, |visited|)
        invariant visited == Entries()[..|visited|]
        invariant forall i :: 0 <= i < |visited| ==> applier(visited[i])
        decreases |pairs| - |visited|
      {
        visited := visited + [pair.data];
        if !applier(pair.data) {
          return visited, false;
        }
        pair := pair.next;
      }
      all := true;
    }
  }

  /** xpc_dictionary_create: the count seeds the size, and setting the pairs counts them again. */
  method Create(pairs: seq<Entry>) returns (d: Dictionary)
    ensures d.Valid() && fresh(d.Repr())
    ensures d.Entries() == SetAll([], pairs) && d.seed == |pairs|
  {
    d := new Dictionary.Empty(|pairs|);
    assert pairs[..0] == [];
    for i := 0 to |pairs|
      invariant d.Valid() && fresh(d.Repr()) && d.seed == |pairs|
      invariant d.Entries() == SetAll([], pairs[..i])
    {
      assert pairs[..i + 1][..i] == pairs[..i];
      d.SetValue(pairs[i].key, pairs[i].value);
    }
    assert pairs[..|pairs|] == pairs;
  }

  /** The new link goes in after the old one, which is then unlinked. */
  method Substitute<T(0)>(h: Link<T>, item: Link<T>, added: Link<T>, ghost s: seq<Link<T>>, ghost i: nat)
    requires Queue(h, s) && added != h && added !in s && i < |s| && s[i] == item
    modifies h`next, h`prev, added`next, added`prev, s`next, s`prev
    ensures Queue(h, s[i := added])
  {
    InsertAfter(h, item, added, s, i);
    ghost var both := s[..i + 1] + [added] + s[i + 1..];
    Remove(h, item, both, i);
    assert both[..i] + both[i + 1..] == s[i := added];
  }

  class Array {
    const head: Link<Value>
    var size: nat
    ghost var items: seq<Link<Value>>

    ghost predicate Linked()
      reads this, head, items
    {
      Queue(head, items)
    }

    /** The size starts at zero, and no method raises it. */
    ghost predicate Valid()
      reads this, head, items
    {
      Linked() && size == 0
    }

    ghost function Elems(): seq<Value>
      reads this, items
    {
      Contents(items)
    }

    ghost function Repr(): set<object>
      reads this
    {
      {this, head} + (set p <- items)
    }

    constructor Empty()
      ensures Valid() && fresh(Repr()) && Elems() == []
    {
      head := new Link(Prim(Null));
      size, items := 0, [];
      new;
      Init(head);
    }

    method Append(value: Value)
      requires Valid()
      modifies Repr()
      ensures Valid() && fresh(Repr() - old(Repr()))
      ensures Elems() == old(Elems()) + [value]
    {
      var added := new Link(value);
      InsertTail(head, added, items);
      items := items + [added];
    }

    /** xpc_array_set_value at an index that is not the append marker. It replaces an element below
        the size, so in an array made by these methods, whose size is zero, it has no effect. */
    method SetAt(index: nat, value: Value)
      requires Linked()
      modifies Repr()
      ensures Linked() && fresh(Repr() - old(Repr())) && size == old(size)
      ensures Elems() == if index < size && index < |old(Elems())| then old(Elems())[index := value] else old(Elems())
      ensures old(Valid()) ==> Valid() && Elems() == old(Elems())
    {
      if index >= size {
        return;
      }
      var i := 0;
      var item := head.next;
      while item != null && i != index
        invariant i <= |items| && i <= index && item == At(items, i)
        decreases |items| - i
      {
        i := i + 1;
        item := item.next;
      }
      if item != null {
        ReplaceItem(item, value, i);
      }
    }

    method ReplaceItem(item: Link<Value>, value: Value, ghost i: nat)
      requires Linked() && i < |items| && items[i] == item
      modifies Repr()
      ensures Linked() && fresh(Repr() - old(Repr())) && size == old(size)
      ensures Elems() == old(Elems())[i := value]
    {
      var added := new Link(value);
      Substitute(head, item, added, items, i);
      items := items[i := added];
    }

    /** Of an array made by these methods, the first element is the only one that can be read. */
    method GetValue(index: nat) returns (r: Option<Value>)
      requires Linked()
      ensures r == if index <= size && index < |Elems()| then Some(Elems()[index]) else None
      ensures Valid() && index < |Elems()| ==> (r == Some(Elems()[index]) <==> index == 0)
    {
      if index > size {
        return None;
      }
      var i := 0;
      var item := head.next;
      while item != null
        invariant i <= |items| && i <= index && item == At(items, i)
        decreases |items| - i
      {
        if i == index {
          return Some(item.data);
        }
        i := i + 1;
        item := item.next;
      }
      return None;
    }

    /** xpc_array_apply: the elements the applier is called on, in order, until it refuses one. */
    method Apply(applier: (nat, Value) -> bool) returns (visited: seq<Value>, all: bool)
      requires Valid()
      ensures visited <= Elems()
      ensures all ==> visited == Elems() && forall i :: 0 <= i < |visited| ==> applier(i, visited[i])
      ensures !all ==> visited != [] && !applier(|visited| - 1, visited[|visited| - 1])
      ensures !all ==> forall i :: 0 <= i < |visited| - 1 ==> applier(i, visited[i])
    {
      visited := [];
      var item := head.next;
      var i := 0;
      while item != null
        invariant i == |visited| <= |items| && item == At(items, i)
        invariant visited == Elems()[..i]
        invariant forall j :: 0 <= j < i ==> applier(j, visited[j])
        decreases |items| - i
      {
        visited := visited + [item.data];
        if !applier(i, item.data) {
          return visited, false;
        }
        i := i + 1;
        item := item.next;
      }
      all := true;
    }
  }
}
