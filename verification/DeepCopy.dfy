/** xpc_copy in memory: the copy is a separate tree of new objects with the value that module `Copies`
    says. The original is only read. */
module DeepCopy {
  import opened Values
  import opened Entries
  import opened TailQueue
  import opened Destroy
  import opened ObjectTrees
  import opened Copies

  /** A tree that hangs nowhere yet, of objects that did not exist before. */
  twostate predicate Fresh(new t: Shape)
    reads Foot(t), t.o.link
  {
    && Tree(t) && fresh(Foot(t))
    && fresh(t.o.link) && t.o.link !in Foot(t) && t.o.link.data == Element(t.o)
  }

  method NewObject(tag: Tag, prim: Prim) returns (o: Obj, ghost t: Shape)
    ensures t == Shape(o, tag, [], []) && Fresh(t) && o.prim == prim
    ensures Foot(t) == {o, o.head}
  {
    o := new Obj(tag, prim);
    t := Shape(o, tag, [], []);
    assert FootAll(t.kids) == {} && Hooks(t.cells, t.kids) == {};
    assert Separate(t) && Linked(t);
  }

  /** What the copy of a tree came to: no object where there is no copy, otherwise a fresh tree. */
  twostate predicate Outcome(r: Result, new o: Obj?, new t: Shape)
    reads Foot(t), t.o.link
  {
    && (o == null <==> r == NoCopy)
    && (o != null ==> t.o == o && Fresh(t) && r == Copied(ValueOf(t)))
  }

  method CopyObject(xo: Obj, ghost s: Shape) returns (r: Obj?, ghost t: Shape)
    requires s.o == xo && Tree(s) && WellFormed(ValueOf(s)) && NoNullPut(ValueOf(s))
    ensures Outcome(Copy(old(ValueOf(s))), r, t)
    ensures old(Faithful(ValueOf(s))) ==> r != null && ValueOf(t) == old(ValueOf(s))
    decreases Size(s), 1
  {
    CopyIsTheObjectIff(ValueOf(s));
    if xo.tag == LeafTag {
      if HasCopy(xo.prim) {
        r, t := NewObject(LeafTag, xo.prim);
      } else {
        r, t := null, s;
      }
    } else if xo.tag == DictionaryTag {
      r, t := CopyDict(xo, s);
    } else {
      r, t := CopyArr(xo, s);
    }
  }

  /** Following `next` from the first cell meets the others, in order, and ends. */
  ghost predicate Chain(cells: seq<Link<Cell>>)
    reads cells`next
  {
    cells != [] ==> cells[0].next == At(cells, 1) && Chain(cells[1..])
  }

  lemma {:induction false} QueueIsChain(h: Link<Cell>, cells: seq<Link<Cell>>, i: nat)
    requires Queue(h, cells) && i <= |cells|
    ensures Chain(cells[i..])
    decreases |cells| - i
  {
    if i < |cells| {
      QueueIsChain(h, cells, i + 1);
      assert cells[i..][1..] == cells[i + 1..];
      assert cells[i].next == At(cells, i + 1);
    }
  }

  /** Pairs still to be copied, and the trees below them. */
  ghost predicate Waiting(cells: seq<Link<Cell>>, kids: seq<Shape>)
    reads cells`data, cells`next, FootAll(kids)
  {
    |cells| == |kids| && LinkedAll(DictionaryTag, cells, kids) && SeparateAll(kids) && Chain(cells)
  }

  /** The copy made so far is a tree apart from them. */
  ghost predicate Layout(cells: seq<Link<Cell>>, kids: seq<Shape>, t: Shape)
    reads cells`data, cells`next, FootAll(kids), Foot(t)
  {
    && Waiting(cells, kids) && Tree(t) && t.tag == DictionaryTag
    && Foot(t) !! Hooks(cells, kids) + FootAll(kids)
  }

  /** The entries still to be copied can be added to those already there, and none of them crashes. */
  ghost predicate Addable(es: seq<Entry>, done: seq<Entry>) {
    UniqueKeys(done + es) && (forall e <- es :: WellFormed(e.value)) && CopyEntries(es, done).Some?
  }

  lemma AddOne(es: seq<Entry>, done: seq<Entry>, v: Value)
    requires Addable(es, done) && es != [] && Copy(es[0].value) == Copied(v)
    ensures !HasKey(done, es[0].key)
    ensures Addable(es[1..], done + [Entry(es[0].key, v)])
    ensures CopyEntries(es[1..], done + [Entry(es[0].key, v)]) == CopyEntries(es, done)
  {
    NewKey(done, es, v);
  }

  /** The entry the first cell and its tree stand for, and the cells after it. */
  lemma FirstEntry(cells: seq<Link<Cell>>, kids: seq<Shape>, t: Shape)
    requires Layout(cells, kids, t) && cells != []
    ensures |cells| == |kids| && SizeAll(kids[1..]) <= SizeAll(kids)
    ensures Tree(kids[0]) && Holds(DictionaryTag, cells[0], kids[0].o) && cells[0].data.Pair?
    ensures EntriesOf(cells, kids) == [Entry(cells[0].data.key, ValueOf(kids[0]))] + EntriesOf(cells[1..], kids[1..])
    ensures Foot(kids[0]) <= FootAll(kids) && Layout(cells[1..], kids[1..], t)
    ensures cells[0].next == At(cells, 1)
    ensures FootAll(kids[1..]) <= FootAll(kids) && Hooks(cells[1..], kids[1..]) <= Hooks(cells, kids)
  {
    hide Foot, FootAll, Hooks, Linked, Separate;
    FirstHook(cells, kids);
  }

  lemma FirstCopies(cells: seq<Link<Cell>>, kids: seq<Shape>, t: Shape)
    requires Layout(cells, kids, t) && cells != [] && Addable(EntriesOf(cells, kids), EntriesOf(t.cells, t.kids))
    ensures EntriesOf(cells, kids) != [] && EntriesOf(cells, kids)[0].value == ValueOf(kids[0])
    ensures WellFormed(ValueOf(kids[0])) && NoNullPut(ValueOf(kids[0])) && Copy(ValueOf(kids[0])).Copied?
    ensures Size(kids[0]) <= SizeAll(kids)
  {
    assert EntriesOf(cells, kids)[0] in EntriesOf(cells, kids);
    CopyOutcomes(ValueOf(kids[0]));
  }

  lemma ChildOf(p: Link<Cell>, kid: Obj)
    requires Holds(DictionaryTag, p, kid)
    ensures p.data.Pair? && p.data.value == kid
  {
  }

  /** What is laid out exists. */
  lemma LayoutAllocated(cells: seq<Link<Cell>>, kids: seq<Shape>, t: Shape)
    ensures forall x <- Hooks(cells, kids) :: allocated(x)
    ensures forall x <- FootAll(kids) :: allocated(x)
    ensures forall x <- Foot(t) :: allocated(x)
    ensures forall i :: 0 <= i < |cells| ==> cells[i] in Hooks(cells, kids)
    ensures t.o in Foot(t) && t.o.head in Foot(t) && FootAll(t.kids) <= Foot(t)
    ensures forall i :: 0 <= i < |t.cells| ==> t.cells[i] in Foot(t)
  {
    FootAllAllocated(kids);
    FootAllocated(t);
    FootOf(t);
  }

  /** xpc_copy of a child touches neither the pairs still to come nor the copy made so far. */
  method CopyChild(p: Link<Cell>, ghost cells: seq<Link<Cell>>, ghost kids: seq<Shape>, ghost t: Shape)
    returns (c: Obj, ghost v: Shape)
    requires Layout(cells, kids, t) && cells != [] && cells[0] == p
    requires Addable(EntriesOf(cells, kids), EntriesOf(t.cells, t.kids))
    ensures Layout(cells, kids, t) && Fresh(v) && v.o == c
    ensures EntriesOf(cells, kids) == old(EntriesOf(cells, kids))
    ensures EntriesOf(t.cells, t.kids) == old(EntriesOf(t.cells, t.kids))
    ensures Copy(EntriesOf(cells, kids)[0].value) == Copied(ValueOf(v))
    ensures Foot(v) + {v.o.link} !! Hooks(cells, kids) + FootAll(kids) + Foot(t)
    decreases SizeAll(kids), 2
  {
    hide Tree, Waiting, Foot, FootAll, Hooks, EntriesOf, ValueOf, Copy, CopyEntries, WellFormed, NoNullPut,
         Faithful, Addable, Holds;
    LayoutAllocated(cells, kids, t);
    FirstEntry(cells, kids, t);
    FirstCopies(cells, kids, t);
    ChildOf(p, kids[0].o);
    var o;
    o, v := CopyObject(p.data.value, kids[0]);
    c := o;
  }

  /** Adding the copied pair touches nothing of what is still to come. */
  method AddCopied(key: CStr, c: Obj, copy: Obj, ghost v: Shape, ghost t: Shape,
                   ghost cells: seq<Link<Cell>>, ghost kids: seq<Shape>)
    returns (ghost t': Shape)
    requires Layout(cells, kids, t) && t.o == copy && v.o == c && Tree(v) && c.link !in Foot(v)
    requires Foot(v) + {c.link} !! Hooks(cells, kids) + FootAll(kids) + Foot(t)
    requires !HasKey(EntriesOf(t.cells, t.kids), key)
    modifies Foot(t) - {copy}
    ensures Layout(cells, kids, t') && t'.o == copy
    ensures forall x <- Foot(t') :: x in Foot(t) || x in Foot(v) || x == c.link || fresh(x)
    ensures EntriesOf(t'.cells, t'.kids) == old(EntriesOf(t.cells, t.kids) + [Entry(key, ValueOf(v))])
    ensures EntriesOf(cells, kids) == old(EntriesOf(cells, kids))
  {
    hide Tree, Waiting, Foot, FootAll, Hooks, EntriesOf, ValueOf;
    LayoutAllocated(cells, kids, t);
    SetMissing(EntriesOf(t.cells, t.kids), key, ValueOf(v));
    t' := DictionarySet(copy, key, c, t, v);
  }

  /** dict_copy_cb on one pair. */
  method CopyPair(p: Link<Cell>, copy: Obj, ghost cells: seq<Link<Cell>>, ghost kids: seq<Shape>, ghost t: Shape)
    returns (ghost t': Shape)
    requires Layout(cells, kids, t) && t.o == copy && cells != [] && cells[0] == p
    requires Addable(EntriesOf(cells, kids), EntriesOf(t.cells, t.kids))
    modifies Foot(t) - {copy}
    ensures Layout(cells[1..], kids[1..], t') && t'.o == copy && forall x <- Foot(t') :: x in Foot(t) || fresh(x)
    ensures SizeAll(kids[1..]) <= SizeAll(kids) && p.next == old(p.next)
    ensures Addable(EntriesOf(cells[1..], kids[1..]), EntriesOf(t'.cells, t'.kids))
    ensures CopyEntries(EntriesOf(cells[1..], kids[1..]), EntriesOf(t'.cells, t'.kids))
         == old(CopyEntries(EntriesOf(cells, kids), EntriesOf(t.cells, t.kids)))
    decreases SizeAll(kids), 3
  {
    hide Tree, Waiting, Foot, FootAll, Hooks, EntriesOf, ValueOf, Copy, CopyEntries, Addable, Holds, SizeAll;
    ghost var es, done := EntriesOf(cells, kids), EntriesOf(t.cells, t.kids);
    LayoutAllocated(cells, kids, t);
    FirstEntry(cells, kids, t);
    var c, v := CopyChild(p, cells, kids, t);
    FirstEntry(cells, kids, t);
    AddOne(es, done, ValueOf(v));
    t' := AddCopied(p.data.key, c, copy, v, t, cells[1..], kids[1..]);
  }

  lemma AllWaiting(s: Shape)
    requires Tree(s) && s.tag == DictionaryTag
    ensures Waiting(s.cells, s.kids) && Hooks(s.cells, s.kids) + FootAll(s.kids) <= Foot(s)
    ensures EntriesOf([], []) == []
  {
    QueueIsChain(s.o.head, s.cells, 0);
    assert s.cells[0..] == s.cells;
  }

  /** An empty copy to begin with. */
  method StartCopy(ghost s: Shape) returns (r: Obj, ghost t: Shape)
    requires Tree(s) && s.tag == DictionaryTag
    ensures Layout(s.cells, s.kids, t) && t.o == r && Fresh(t) && EntriesOf(t.cells, t.kids) == []
    ensures Tree(s) && EntriesOf(s.cells, s.kids) == old(EntriesOf(s.cells, s.kids))
  {
    hide Tree, Waiting, Foot, FootAll, Hooks, EntriesOf;
    AllWaiting(s);
    LayoutAllocated(s.cells, s.kids, s);
    r, t := NewObject(DictionaryTag, Null);
  }

  lemma SizeOf(s: Shape)
    ensures Size(s) == 1 + SizeAll(s.kids)
  {
  }

  lemma DictionaryValue(s: Shape)
    requires Tree(s) && s.tag == DictionaryTag && WellFormed(ValueOf(s)) && NoNullPut(ValueOf(s))
    ensures s.o.head.next == At(s.cells, 0)
    ensures Addable(EntriesOf(s.cells, s.kids), [])
    ensures Copy(ValueOf(s)) == Copied(Dict(CopyEntries(EntriesOf(s.cells, s.kids), []).value))
  {
    CopyOutcomes(ValueOf(s));
    assert [] + EntriesOf(s.cells, s.kids) == EntriesOf(s.cells, s.kids);
  }

  lemma DictionaryDone(t: Shape, cells: seq<Link<Cell>>, kids: seq<Shape>)
    requires Layout(cells, kids, t) && cells == []
    ensures CopyEntries(EntriesOf(cells, kids), EntriesOf(t.cells, t.kids)) == Some(EntriesOf(t.cells, t.kids))
    ensures ValueOf(t) == Dict(EntriesOf(t.cells, t.kids))
  {
  }

  method CopyDict(xo: Obj, ghost s: Shape) returns (r: Obj, ghost t: Shape)
    requires s.o == xo && Tree(s) && s.tag == DictionaryTag
    requires WellFormed(ValueOf(s)) && NoNullPut(ValueOf(s))
    ensures Outcome(Copy(old(ValueOf(s))), r, t)
    decreases Size(s), 0
  {
    hide Tree, Waiting, Foot, FootAll, Hooks, ValueOf, EntriesOf, Copy, CopyEntries, WellFormed, NoNullPut,
         Addable, SizeAll, Size, Holds;
    SizeOf(s);
    ghost var es := EntriesOf(s.cells, s.kids);
    DictionaryValue(s);
    r, t := StartCopy(s);
    ghost var cells, kids := s.cells, s.kids;
    var p := xo.head.next;
    while p != null
      invariant Layout(cells, kids, t) && t.o == r && Fresh(t)
      invariant p == At(cells, 0)
      invariant SizeAll(kids) <= SizeAll(s.kids)
      invariant Addable(EntriesOf(cells, kids), EntriesOf(t.cells, t.kids))
      invariant CopyEntries(EntriesOf(cells, kids), EntriesOf(t.cells, t.kids)) == CopyEntries(es, [])
      decreases |cells|
    {
      FirstEntry(cells, kids, t);
      t := CopyPair(p, r, cells, kids, t);
      cells, kids, p := cells[1..], kids[1..], p.next;
    }
    DictionaryDone(t, cells, kids);
  }

  /** The elements of an array still to be copied. */
  ghost predicate Elements(cells: seq<Link<Cell>>, kids: seq<Shape>)
    reads cells`data, cells`next, FootAll(kids)
  {
    && |cells| == |kids| && LinkedAll(ArrayTag, cells, kids) && SeparateAll(kids) && Chain(cells)
    && (forall x <- ElemsOf(kids) :: WellFormed(x) && NoNullPut(x))
  }

  lemma FirstElement(cells: seq<Link<Cell>>, kids: seq<Shape>)
    requires Elements(cells, kids) && cells != []
    ensures |cells| == |kids| && Tree(kids[0]) && cells[0].data == Element(kids[0].o) && cells[0].next == At(cells, 1)
    ensures WellFormed(ValueOf(kids[0])) && NoNullPut(ValueOf(kids[0]))
    ensures Size(kids[0]) <= SizeAll(kids) && SizeAll(kids[1..]) <= SizeAll(kids)
    ensures Elements(cells[1..], kids[1..])
  {
    assert ElemsOf(kids)[0] == ValueOf(kids[0]);
  }

  /** array_copy_cb on one element: the copy is made, and refused by xpc_array_set_value, because no
      index is below the size of the new array, which is zero. */
  method CopyElement(p: Link<Cell>, ghost cells: seq<Link<Cell>>, ghost kids: seq<Shape>)
    requires Elements(cells, kids) && cells != [] && cells[0] == p
    ensures Elements(cells[1..], kids[1..]) && p.next == At(cells, 1)
    decreases SizeAll(kids), 3
  {
    hide Linked, LinkedAll, Separate, SeparateAll, ElemsOf, ValueOf, Copy, WellFormed, ElemsCrash, Chain;
    FirstElement(cells, kids);
    FootAllAllocated(kids[1..]);
    var _, _ := CopyObject(p.data.obj, kids[0]);
  }

  lemma ArrayValue(s: Shape)
    requires Tree(s) && s.tag == ArrayTag && WellFormed(ValueOf(s)) && NoNullPut(ValueOf(s))
    ensures s.o.head.next == At(s.cells, 0) && Elements(s.cells, s.kids)
    ensures Copy(ValueOf(s)) == Copied(Arr([]))
  {
    CopyOutcomes(ValueOf(s));
    QueueIsChain(s.o.head, s.cells, 0);
    assert s.cells[0..] == s.cells;
  }

  method CopyArr(xo: Obj, ghost s: Shape) returns (r: Obj, ghost t: Shape)
    requires s.o == xo && Tree(s) && s.tag == ArrayTag
    requires WellFormed(ValueOf(s)) && NoNullPut(ValueOf(s))
    ensures Outcome(Copy(old(ValueOf(s))), r, t)
    decreases Size(s), 0
  {
    hide Tree, Elements, Foot, FootAll, Hooks, ValueOf, ElemsOf, Copy, WellFormed, NoNullPut, SizeAll, Size, Holds;
    SizeOf(s);
    ArrayValue(s);
    LayoutAllocated(s.cells, s.kids, s);
    var p := xo.head.next;
    r, t := NewArray();
    ghost var cells, kids := s.cells, s.kids;
    while p != null
      invariant Elements(cells, kids) && p == At(cells, 0) && SizeAll(kids) <= SizeAll(s.kids)
      invariant Fresh(t) && t.o == r && ValueOf(t) == Arr([])
      decreases |cells|
    {
      FirstElement(cells, kids);
      LayoutAllocated(cells, kids, t);
      CopyElement(p, cells, kids);
      cells, kids, p := cells[1..], kids[1..], p.next;
    }
  }

  method NewArray() returns (r: Obj, ghost t: Shape)
    ensures Fresh(t) && t.o == r && ValueOf(t) == Arr([])
  {
    r, t := NewObject(ArrayTag, Null);
  }
}
