/** Building the trees that are destroyed: appending to an array and adding a pair to a dictionary
    keep the tree well linked and separate, provided the value is a tree of its own. */
module ObjectTrees {
  import opened Values
  import opened Entries
  import opened TailQueue
  import opened Destroy

  ghost predicate Tree(s: Shape)
    reads Foot(s)
  {
    Separate(s) && Linked(s)
  }

  ghost function Grown(s: Shape, e: Link<Cell>, v: Shape): Shape {
    s.(cells := s.cells + [e], kids := s.kids + [v])
  }

  lemma {:induction false} FootAllGrown(kids: seq<Shape>, v: Shape)
    ensures FootAll(kids + [v]) == FootAll(kids) + Foot(v)
    decreases kids
  {
    if kids != [] {
      FootAllGrown(kids[1..], v);
      assert (kids + [v])[1..] == kids[1..] + [v];
    } else {
      assert [] + [v] == [v] && [v][1..] == [];
    }
  }

  lemma {:induction false} SeparateAllGrown(kids: seq<Shape>, v: Shape)
    requires SeparateAll(kids) && Separate(v) && FootAll(kids) !! Foot(v)
    ensures SeparateAll(kids + [v])
    decreases kids
  {
    hide Foot, Separate;
    if kids != [] {
      SeparateAllGrown(kids[1..], v);
      FootAllGrown(kids[1..], v);
      assert (kids + [v])[1..] == kids[1..] + [v];
    } else {
      assert [] + [v] == [v] && [v][1..] == [];
    }
  }

  lemma {:induction false} LinkedAllGrown(tag: Tag, cells: seq<Link<Cell>>, kids: seq<Shape>, e: Link<Cell>, v: Shape)
    requires |cells| == |kids| && LinkedAll(tag, cells, kids) && Holds(tag, e, v.o) && Linked(v)
    ensures LinkedAll(tag, cells + [e], kids + [v])
    decreases kids
  {
    if kids != [] {
      LinkedAllGrown(tag, cells[1..], kids[1..], e, v);
      assert (kids + [v])[1..] == kids[1..] + [v] && (cells + [e])[1..] == cells[1..] + [e];
    } else {
      assert kids + [v] == [v] && cells + [e] == [e];
    }
  }

  lemma {:induction false} HooksGrown(cells: seq<Link<Cell>>, kids: seq<Shape>, e: Link<Cell>, v: Shape)
    requires |cells| == |kids|
    ensures Hooks(cells + [e], kids + [v]) == Hooks(cells, kids) + {e, v.o.link}
    ensures HooksApart(cells, kids) && {e, v.o.link} !! Hooks(cells, kids) ==> HooksApart(cells + [e], kids + [v])
    decreases kids
  {
    hide Foot, FootAll;
    FirstHook(cells + [e], kids + [v]);
    if kids != [] {
      FirstHook(cells, kids);
      HooksGrown(cells[1..], kids[1..], e, v);
      assert (kids + [v])[1..] == kids[1..] + [v] && (cells + [e])[1..] == cells[1..] + [e];
    } else {
      assert kids + [v] == [v] && cells + [e] == [e] && [v][1..] == [] && [e][1..] == [];
    }
  }

  /** A tree that can be linked into another one: apart from it, and hanging nowhere yet. */
  ghost predicate Loose(v: Shape, s: Shape) {
    Foot(s) !! Foot(v) && v.o.link !in Foot(s) && v.o.link !in Foot(v)
  }

  lemma FootOf(s: Shape)
    ensures Foot(s) == {s.o, s.o.head} + Hooks(s.cells, s.kids) + FootAll(s.kids)
    ensures forall i :: 0 <= i < |s.cells| ==> s.cells[i] in Foot(s)
  {
    assert forall i :: 0 <= i < |s.cells| ==> s.cells[i] in Hooks(s.cells, s.kids);
  }

  lemma FootGrown(s: Shape, e: Link<Cell>, v: Shape)
    requires Separate(s)
    ensures Foot(Grown(s, e, v)) == Foot(s) + {e, v.o.link} + Foot(v)
  {
    hide Foot, FootAll, Hooks, HooksApart;
    FootAllGrown(s.kids, v);
    HooksGrown(s.cells, s.kids, e, v);
    FootOf(s);
    FootOf(Grown(s, e, v));
  }

  lemma ApartGrown(h: Link<Cell>, cells: seq<Link<Cell>>, kids: seq<Shape>, e: Link<Cell>, v: Shape)
    requires Apart(h, cells, kids) && h != e && h != v.o.link && h !in Foot(v)
    requires {e, v.o.link} !! Hooks(cells, kids) + FootAll(kids) + Foot(v) && Hooks(cells, kids) !! Foot(v)
    ensures Apart(h, cells + [e], kids + [v])
  {
    hide Foot, FootAll, Hooks, HooksApart;
    FootAllGrown(kids, v);
    HooksGrown(cells, kids, e, v);
  }

  lemma SeparateGrown(s: Shape, e: Link<Cell>, v: Shape)
    requires Separate(s) && Separate(v) && Loose(v, s) && s.tag != LeafTag
    requires e !in Foot(s) && e !in Foot(v)
    ensures Separate(Grown(s, e, v))
  {
    hide Foot, FootAll, Hooks, HooksApart, SeparateAll, Apart;
    FootOf(s);
    FootAllGrown(s.kids, v);
    SeparateAllGrown(s.kids, v);
    HeadApart(s);
    ApartGrown(s.o.head, s.cells, s.kids, e, v);
  }

  lemma CellsInFoot(s: Shape)
    ensures s.o in Foot(s) && s.o.head in Foot(s) && forall i :: 0 <= i < |s.cells| ==> s.cells[i] in Foot(s)
  {
    FootOf(s);
  }

  lemma HeadApart(s: Shape)
    requires Separate(s)
    ensures s.o !in Hooks(s.cells, s.kids)
    ensures forall x <- Hooks(s.cells, s.kids) + FootAll(s.kids) :: x in Foot(s) && x != s.o.head
  {
  }

  // ----- The value of a tree

  function KeyOf(c: Cell): CStr {
    if c.Pair? then c.key else []
  }

  /** The value an object stands for. */
  ghost function ValueOf(s: Shape): Value
    reads Foot(s)
    decreases s, 1
  {
    match s.o.tag
    case LeafTag => Prim(s.o.prim)
    case DictionaryTag => Dict(EntriesOf(s.cells, s.kids))
    case ArrayTag => Arr(ElemsOf(s.kids))
  }

  ghost function EntriesOf(cells: seq<Link<Cell>>, kids: seq<Shape>): (es: seq<Entry>)
    reads cells`data, FootAll(kids)
    ensures |cells| == |kids| ==> |es| == |cells|
    decreases kids
  {
    if cells == [] || kids == [] then []
    else [Entry(KeyOf(cells[0].data), ValueOf(kids[0]))] + EntriesOf(cells[1..], kids[1..])
  }

  ghost function ElemsOf(kids: seq<Shape>): seq<Value>
    reads FootAll(kids)
    decreases kids
  {
    if kids == [] then [] else [ValueOf(kids[0])] + ElemsOf(kids[1..])
  }

  lemma {:induction false} EntriesOfGrown(cells: seq<Link<Cell>>, kids: seq<Shape>, e: Link<Cell>, v: Shape)
    requires |cells| == |kids|
    ensures EntriesOf(cells + [e], kids + [v]) == EntriesOf(cells, kids) + [Entry(KeyOf(e.data), ValueOf(v))]
    decreases kids
  {
    if kids != [] {
      EntriesOfGrown(cells[1..], kids[1..], e, v);
      assert (kids + [v])[1..] == kids[1..] + [v] && (cells + [e])[1..] == cells[1..] + [e];
    } else {
      assert kids + [v] == [v] && cells + [e] == [e];
      assert [v][1..] == [] && [e][1..] == [];
    }
  }

  lemma {:induction false} ElemsOfGrown(kids: seq<Shape>, v: Shape)
    ensures ElemsOf(kids + [v]) == ElemsOf(kids) + [ValueOf(v)]
    decreases kids
  {
    if kids != [] {
      ElemsOfGrown(kids[1..], v);
      assert (kids + [v])[1..] == kids[1..] + [v];
    } else {
      assert kids + [v] == [v] && [v][1..] == [];
    }
  }

  /** Linking a cell at the end of a queue touches no tree, neither below it nor of the new value. */
  method LinkEnd(h: Link<Cell>, e: Link<Cell>, ghost tag: Tag, ghost cells: seq<Link<Cell>>, ghost kids: seq<Shape>, ghost v: Shape)
    requires Queue(h, cells) && e != h && e !in cells && LinkedAll(tag, cells, kids) && Linked(v)
    requires {h, e} !! FootAll(kids) + Foot(v)
    requires forall i :: 0 <= i < |cells| ==> cells[i] !in FootAll(kids) + Foot(v)
    modifies h`next, h`prev, cells`next, e`next, e`prev
    ensures Queue(h, cells + [e]) && LinkedAll(tag, cells, kids) && Linked(v)
    ensures ElemsOf(kids) == old(ElemsOf(kids)) && EntriesOf(cells, kids) == old(EntriesOf(cells, kids))
    ensures ValueOf(v) == old(ValueOf(v))
  {
    FootAllAllocated(kids);
    FootAllocated(v);
    hide Foot, FootAll, Separate, Linked, LinkedAll, ElemsOf, EntriesOf, ValueOf, Queue;
    InsertTail(h, e, cells);
  }

  lemma TreeParts(s: Shape, e: Link<Cell>, v: Shape)
    requires Tree(s) && Tree(v) && Loose(v, s) && e !in Foot(s) && e !in Foot(v)
    ensures Separate(s) && Separate(v) && Linked(v) && s.o.tag == s.tag && s.o.head.data == Element(s.o)
    ensures |s.cells| == |s.kids| && Queue(s.o.head, s.cells) && LinkedAll(s.tag, s.cells, s.kids)
    ensures e != s.o.head && e !in s.cells && {s.o.head, e} !! FootAll(s.kids) + Foot(v)
    ensures forall i :: 0 <= i < |s.cells| ==> s.cells[i] !in FootAll(s.kids) + Foot(v)
  {
    FootOf(s);
    assert forall i :: 0 <= i < |s.cells| ==> s.cells[i] in Hooks(s.cells, s.kids);
  }

  lemma LinkedGrown(s: Shape, e: Link<Cell>, v: Shape)
    requires s.o.tag == s.tag && s.o.head.data == Element(s.o) && |s.cells| == |s.kids|
    requires Queue(s.o.head, s.cells + [e]) && LinkedAll(s.tag, s.cells, s.kids) && Holds(s.tag, e, v.o) && Linked(v)
    requires Separate(Grown(s, e, v))
    ensures Tree(Grown(s, e, v))
  {
    LinkedAllGrown(s.tag, s.cells, s.kids, e, v);
    hide LinkedAll, Queue;
  }

  /** Linking a cell that holds the value at the end of a container's queue. */
  method Attach(o: Obj, e: Link<Cell>, ghost s: Shape, ghost v: Shape)
    requires s.o == o && s.tag != LeafTag && Tree(s) && Tree(v) && Loose(v, s)
    requires e !in Foot(s) && e !in Foot(v) && Holds(s.tag, e, v.o)
    modifies o.head`next, o.head`prev, s.cells`next, e`next, e`prev
    ensures Tree(Grown(s, e, v))
    ensures ElemsOf(s.kids + [v]) == old(ElemsOf(s.kids) + [ValueOf(v)])
    ensures EntriesOf(s.cells + [e], s.kids + [v]) == old(EntriesOf(s.cells, s.kids) + [Entry(KeyOf(e.data), ValueOf(v))])
  {
    hide Foot, FootAll, Separate, Linked, LinkedAll, ElemsOf, EntriesOf, ValueOf, Queue, Loose, Tree, Grown,
         KeyOf, Holds;
    TreeParts(s, e, v);
    LinkEnd(o.head, e, s.tag, s.cells, s.kids, v);
    SeparateGrown(s, e, v);
    LinkedGrown(s, e, v);
    ElemsOfGrown(s.kids, v);
    EntriesOfGrown(s.cells, s.kids, e, v);
  }

  method ArrayAppend(arr: Obj, value: Obj, ghost s: Shape, ghost v: Shape)
    requires s.o == arr && s.tag == ArrayTag && Tree(s)
    requires v.o == value && Tree(v) && Loose(v, s) && value.link.data == Element(value)
    modifies arr.head`next, arr.head`prev, s.cells`next, value.link`next, value.link`prev
    ensures Tree(Grown(s, value.link, v))
    ensures ValueOf(Grown(s, value.link, v)) == Arr(old(ElemsOf(s.kids) + [ValueOf(v)]))
  {
    Attach(arr, value.link, s, v);
  }

  /** The traversal of xpc_dictionary_set_value. */
  method FindPair(dict: Obj, key: CStr, ghost s: Shape) returns (pair: Link?<Cell>, ghost i: nat)
    requires s.o == dict && s.tag == DictionaryTag && Tree(s)
    ensures i <= |s.cells| && pair == At(s.cells, i)
    ensures forall j :: 0 <= j < i ==> KeyOf(s.cells[j].data) != key
    ensures i < |s.cells| ==> KeyOf(s.cells[i].data) == key
  {
    i := 0;
    pair := dict.head.next;
    while pair != null && KeyOf(pair.data) != key
      invariant i <= |s.cells| && pair == At(s.cells, i)
      invariant forall j :: 0 <= j < i ==> KeyOf(s.cells[j].data) != key
      decreases |s.cells| - i
    {
      i := i + 1;
      pair := pair.next;
    }
  }

  method NewPair(key: CStr, value: Obj, ghost s: Shape, ghost v: Shape) returns (pair: Link<Cell>)
    requires Tree(s) && Tree(v)
    ensures fresh(pair) && pair.data == Pair(key, value) && pair !in Foot(s) && pair !in Foot(v)
    ensures Tree(s) && Tree(v)
    ensures EntriesOf(s.cells, s.kids) == old(EntriesOf(s.cells, s.kids)) && ValueOf(v) == old(ValueOf(v))
  {
    FootAllocated(s);
    FootAllocated(v);
    pair := new Link(Pair(key, value));
  }

  /** A new pair at the end of a dictionary. */
  method AddPair(dict: Obj, key: CStr, value: Obj, ghost s: Shape, ghost v: Shape)
    returns (pair: Link<Cell>, ghost t: Shape)
    requires s.o == dict && s.tag == DictionaryTag && Tree(s)
    requires v.o == value && Tree(v) && Loose(v, s)
    modifies dict.head`next, dict.head`prev, s.cells`next
    ensures t.o == dict && t.tag == DictionaryTag && Tree(t)
    ensures fresh(pair) && Foot(t) == Foot(s) + {pair, value.link} + Foot(v)
    ensures EntriesOf(t.cells, t.kids) == old(EntriesOf(s.cells, s.kids) + [Entry(key, ValueOf(v))])
  {
    hide Linked, LinkedAll, Separate, SeparateAll, EntriesOf, ValueOf, Foot, Queue;
    pair := NewPair(key, value, s, v);
    FootGrown(s, pair, v);
    CellsInFoot(s);
    Attach(dict, pair, s, v);
    t := Grown(s, pair, v);
  }

  // ----- Replacing a value

  lemma {:induction false} FootAllReplaced(kids: seq<Shape>, i: nat, v: Shape)
    requires i < |kids|
    ensures FootAll(kids[i := v]) <= FootAll(kids) + Foot(v)
    ensures SeparateAll(kids) && Separate(v) && FootAll(kids) !! Foot(v) ==> SeparateAll(kids[i := v])
    decreases kids
  {
    if i > 0 {
      FootAllReplaced(kids[1..], i - 1, v);
      assert kids[i := v][1..] == kids[1..][i - 1 := v];
    } else {
      assert kids[0 := v][1..] == kids[1..];
    }
  }

  lemma {:induction false} LinkedPointwise(tag: Tag, cells: seq<Link<Cell>>, kids: seq<Shape>)
    requires |cells| == |kids|
    ensures LinkedAll(tag, cells, kids) <==> forall j :: 0 <= j < |cells| ==> Holds(tag, cells[j], kids[j].o) && Linked(kids[j])
    decreases kids
  {
    if cells != [] {
      LinkedPointwise(tag, cells[1..], kids[1..]);
      assert forall j :: 0 < j < |cells| ==> cells[j] == cells[1..][j - 1] && kids[j] == kids[1..][j - 1];
      assert forall j :: 0 <= j < |cells| - 1 ==> cells[1..][j] == cells[j + 1] && kids[1..][j] == kids[j + 1];
    }
  }

  lemma {:induction false} EntriesPointwise(cells: seq<Link<Cell>>, kids: seq<Shape>)
    requires |cells| == |kids|
    ensures forall j :: 0 <= j < |cells| ==> EntriesOf(cells, kids)[j] == Entry(KeyOf(cells[j].data), ValueOf(kids[j]))
    decreases kids
  {
    if cells != [] {
      EntriesPointwise(cells[1..], kids[1..]);
    }
  }

  lemma {:induction false} KidInFoot(kids: seq<Shape>, j: nat)
    requires j < |kids|
    ensures Foot(kids[j]) <= FootAll(kids)
    decreases kids
  {
    if j > 0 {
      KidInFoot(kids[1..], j - 1);
    }
  }

  /** A pair's own field is in no tree below the pairs. */
  lemma PairsOutside(s: Shape)
    requires Tree(s)
    ensures |s.cells| == |s.kids| && Queue(s.o.head, s.cells) && LinkedAll(s.tag, s.cells, s.kids)
    ensures forall i, j :: 0 <= i < |s.cells| && 0 <= j < |s.kids| ==> s.cells[i] !in Foot(s.kids[j])
    ensures forall i, j :: 0 <= i < j < |s.cells| ==> s.cells[i] != s.cells[j]
    ensures s.o.head.data == Element(s.o) && s.o.head !in s.cells
  {
    assert forall i :: 0 <= i < |s.cells| ==> s.cells[i] in Hooks(s.cells, s.kids);
    forall j | 0 <= j < |s.kids|
      ensures Foot(s.kids[j]) <= FootAll(s.kids)
    {
      KidInFoot(s.kids, j);
    }
  }

  /** The value of a pair is overwritten; the tree it held is left to whoever else refers to it. */
  method ReplaceValue(pair: Link<Cell>, value: Obj, ghost s: Shape, ghost v: Shape, ghost i: nat)
    requires s.tag == DictionaryTag && Tree(s) && i < |s.cells| == |s.kids| && s.cells[i] == pair
    requires v.o == value && Linked(v) && pair !in Foot(v)
    modifies pair`data
    ensures LinkedAll(s.tag, s.cells, s.kids[i := v]) && Queue(s.o.head, s.cells) && s.o.head.data == Element(s.o)
    ensures EntriesOf(s.cells, s.kids[i := v]) == old(EntriesOf(s.cells, s.kids)[i := Entry(KeyOf(pair.data), ValueOf(v))])
  {
    hide Linked, LinkedAll, Separate, SeparateAll, EntriesOf, ValueOf, Foot, FootAll, Tree, Queue;
    PairsOutside(s);
    LinkedPointwise(s.tag, s.cells, s.kids);
    EntriesPointwise(s.cells, s.kids);
    ghost var kids := s.kids[i := v];
    ghost var es := EntriesOf(s.cells, s.kids)[i := Entry(KeyOf(pair.data), ValueOf(v))];
    pair.data := pair.data.(value := value);
    forall j | 0 <= j < |s.cells|
      ensures Holds(s.tag, s.cells[j], kids[j].o) && Linked(kids[j])
      ensures es[j] == Entry(KeyOf(s.cells[j].data), ValueOf(kids[j]))
    {
      if j != i {
        assert kids[j] == s.kids[j] && s.cells[j] != pair && pair !in Foot(s.kids[j]);
      }
    }
    LinkedPointwise(s.tag, s.cells, kids);
    EntriesPointwise(s.cells, kids);
  }

  lemma {:induction false} HooksReplaced(cells: seq<Link<Cell>>, kids: seq<Shape>, i: nat, v: Shape)
    requires i < |cells| == |kids|
    ensures Hooks(cells, kids[i := v]) <= Hooks(cells, kids) + {v.o.link}
    ensures HooksApart(cells, kids) && v.o.link !in Hooks(cells, kids) ==> HooksApart(cells, kids[i := v])
    decreases kids
  {
    FirstHook(cells, kids);
    FirstHook(cells, kids[i := v]);
    if i > 0 {
      HooksReplaced(cells[1..], kids[1..], i - 1, v);
      assert kids[i := v][1..] == kids[1..][i - 1 := v];
    } else {
      assert kids[0 := v][1..] == kids[1..];
    }
  }

  lemma ApartReplaced(h: Link<Cell>, cells: seq<Link<Cell>>, kids: seq<Shape>, i: nat, v: Shape)
    requires Apart(h, cells, kids) && i < |kids| && h != v.o.link && h !in Foot(v)
    requires v.o.link !in Hooks(cells, kids) + FootAll(kids) + Foot(v) && Hooks(cells, kids) !! Foot(v)
    ensures Apart(h, cells, kids[i := v])
  {
    hide Foot, FootAll, Hooks, HooksApart;
    FootAllReplaced(kids, i, v);
    HooksReplaced(cells, kids, i, v);
  }

  lemma SeparateReplaced(s: Shape, i: nat, v: Shape)
    requires Separate(s) && i < |s.cells| == |s.kids| && Separate(v) && Loose(v, s)
    ensures Separate(s.(kids := s.kids[i := v]))
    ensures Foot(s.(kids := s.kids[i := v])) <= Foot(s) + {v.o.link} + Foot(v)
  {
    hide Foot, FootAll, Hooks, HooksApart, SeparateAll, Apart;
    FootOf(s);
    FootOf(s.(kids := s.kids[i := v]));
    HeadApart(s);
    FootAllReplaced(s.kids, i, v);
    HooksReplaced(s.cells, s.kids, i, v);
    ApartReplaced(s.o.head, s.cells, s.kids, i, v);
  }

  lemma TreeReplaced(s: Shape, i: nat, v: Shape)
    requires Separate(s) && i < |s.cells| == |s.kids| && Separate(v) && Loose(v, s)
    requires s.o.tag == s.tag && s.o.head.data == Element(s.o) && Queue(s.o.head, s.cells)
    requires LinkedAll(s.tag, s.cells, s.kids[i := v])
    ensures Tree(s.(kids := s.kids[i := v]))
    ensures Foot(s.(kids := s.kids[i := v])) <= Foot(s) + {v.o.link} + Foot(v)
  {
    hide Foot, Separate, LinkedAll, Queue, Loose;
    SeparateReplaced(s, i, v);
  }

  /** What the traversal found, in terms of the entries. */
  lemma Found(s: Shape, key: CStr, i: nat, v: Value)
    requires Tree(s) && i <= |s.cells|
    requires forall j :: 0 <= j < i ==> KeyOf(s.cells[j].data) != key
    requires i < |s.cells| ==> KeyOf(s.cells[i].data) == key
    ensures |s.cells| == |s.kids| && s.o.tag == s.tag && s.o.head.data == Element(s.o)
    ensures SetEntry(EntriesOf(s.cells, s.kids), key, v)
         == if i < |s.cells| then EntriesOf(s.cells, s.kids)[i := Entry(key, v)]
            else EntriesOf(s.cells, s.kids) + [Entry(key, v)]
  {
    EntriesPointwise(s.cells, s.kids);
    if i < |s.cells| {
      SetExisting(EntriesOf(s.cells, s.kids), key, v, i);
    } else {
      SetMissing(EntriesOf(s.cells, s.kids), key, v);
    }
  }

  /** xpc_dictionary_set_value in memory. */
  method DictionarySet(dict: Obj, key: CStr, value: Obj, ghost s: Shape, ghost v: Shape) returns (ghost t: Shape)
    requires s.o == dict && s.tag == DictionaryTag && Tree(s)
    requires v.o == value && Tree(v) && Loose(v, s)
    modifies dict.head`next, dict.head`prev, s.cells`next, s.cells`data
    ensures t.o == dict && t.tag == DictionaryTag && Tree(t)
    ensures forall x <- Foot(t) :: x in Foot(s) || x in Foot(v) || x == value.link || fresh(x)
    ensures EntriesOf(t.cells, t.kids) == old(SetEntry(EntriesOf(s.cells, s.kids), key, ValueOf(v)))
  {
    hide Linked, LinkedAll, Separate, SeparateAll, EntriesOf, ValueOf, SetEntry, Queue;
    FootAllocated(s);
    FootAllocated(v);
    var pair, i := FindPair(dict, key, s);
    Found(s, key, i, ValueOf(v));
    if pair != null {
      assert pair in Hooks(s.cells, s.kids);
      ReplaceValue(pair, value, s, v, i);
      TreeReplaced(s, i, v);
      t := s.(kids := s.kids[i := v]);
    } else {
      pair, t := AddPair(dict, key, value, s, v);
    }
  }
}
