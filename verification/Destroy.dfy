/** Objects in memory, and their recursive destruction. A container's queue runs through its pairs,
    or through the links inside its elements; the tree below an object is its own. */
module Destroy {
  import opened Values
  import opened TailQueue

  /** The structure a queue link is embedded in: a dictionary pair, or an object. */
  datatype Cell = Pair(key: CStr, value: Obj?) | Element(obj: Obj?)

  datatype Tag = LeafTag | DictionaryTag | ArrayTag

  /** The head and the link lie inside the object, so their addresses never change. */
  class Obj {
    var tag: Tag
    var prim: Prim           // of a leaf
    const head: Link<Cell>   // of the pairs, or of the elements
    const link: Link<Cell>   // by which the object hangs in an array

    constructor (tag: Tag, prim: Prim)
      ensures this.tag == tag && this.prim == prim && fresh(head) && fresh(link) && head != link
      ensures Queue(head, []) && head.data == Element(this) && link.data == Element(this)
    {
      this.tag, this.prim := tag, prim;
      head := new Link(Element(null));
      link := new Link(Element(null));
      new;
      head.data, link.data := Element(this), Element(this);
      Init(head);
    }
  }

  /** The allocated block a link is part of. */
  ghost function Home(l: Link<Cell>): object
    reads l`data
  {
    if l.data.Element? && l.data.obj != null then l.data.obj else l
  }

  // ----- Memory

  /** What happens to a block: a field of it is read or written, or it goes back to the allocator. */
  datatype Event = Access(block: object) | Freed(block: object)

  ghost function Frees(log: seq<Event>): seq<object> {
    if log == [] then []
    else
      var e := log[|log| - 1];
      Frees(log[..|log| - 1]) + if e.Freed? then [e.block] else []
  }

  /** After a block is freed it is neither accessed nor freed again. */
  ghost predicate Safe(log: seq<Event>) {
    forall i, j :: 0 <= i < j < |log| && log[i].Freed? ==> log[j].block != log[i].block
  }

  lemma {:induction false} FreesAreLogged(log: seq<Event>, i: nat)
    requires i < |log| && log[i].Freed?
    ensures log[i].block in Frees(log)
  {
    if i < |log| - 1 {
      FreesAreLogged(log[..|log| - 1], i);
    }
  }

  lemma SafeStep(log: seq<Event>, e: Event)
    requires Safe(log) && e.block !in Frees(log)
    ensures Safe(log + [e])
    ensures Frees(log + [e]) == Frees(log) + if e.Freed? then [e.block] else []
  {
    assert (log + [e])[..|log|] == log;
    forall i | 0 <= i < |log| && log[i].Freed?
      ensures log[i].block != e.block
    {
      FreesAreLogged(log, i);
    }
  }

  /** The block can be accessed. */
  ghost predicate Alive(log: seq<Event>, block: object) {
    Safe(log) && block !in Frees(log)
  }

  ghost predicate Live(blocks: set<object>, log: seq<Event>) {
    Safe(log) && forall x <- blocks :: x !in Frees(log)
  }

  /** From one log to a later one: these blocks were freed, in this order, after each of which nothing
      touched it any more, and no event concerned a block outside the given ones. */
  ghost predicate Did(before: seq<Event>, after: seq<Event>, freed: seq<object>, blocks: set<object>) {
    && Safe(after) && Frees(after) == Frees(before) + freed
    && before <= after && forall i :: |before| <= i < |after| ==> after[i].block in blocks
  }

  lemma DidChain(a: seq<Event>, b: seq<Event>, c: seq<Event>, f: seq<object>, g: seq<object>, s: set<object>, t: set<object>)
    requires Did(a, b, f, s) && Did(b, c, g, t)
    ensures Did(a, c, f + g, s + t)
  {
    assert Frees(a) + f + g == Frees(a) + (f + g);
  }

  lemma DidMore(a: seq<Event>, b: seq<Event>, f: seq<object>, s: set<object>, t: set<object>)
    requires Did(a, b, f, s) && s <= t
    ensures Did(a, b, f, t)
  {
  }

  lemma StillLive(blocks: set<object>, before: seq<Event>, after: seq<Event>, freed: seq<object>, touched: set<object>)
    requires Live(blocks, before) && Did(before, after, freed, touched) && forall x <- freed :: x !in blocks
    ensures Live(blocks, after)
  {
  }

  /** The allocator, and the way the destruction accesses memory: every read and write of a block is
      logged, and none is possible once the block is freed, when its fields hold anything. */
  class Memory {
    ghost var log: seq<Event>

    ghost method Log(e: Event)
      requires Alive(log, e.block)
      modifies this
      ensures log == old(log) + [e]
      ensures Did(old(log), log, if e.Freed? then [e.block] else [], {e.block})
    {
      hide Safe, Frees;
      SafeStep(log, e);
      log := log + [e];
    }

    method TagOf(o: Obj) returns (tag: Tag)
      requires Alive(log, o)
      modifies this
      ensures log == old(log) + [Access(o)] && Did(old(log), log, [], {o})
      ensures tag == o.tag
    {
      Log(Access(o));
      tag := o.tag;
    }

    method Data(l: Link<Cell>) returns (data: Cell)
      requires Alive(log, Home(l))
      modifies this
      ensures log == old(log) + [Access(Home(l))] && Did(old(log), log, [], {Home(l)})
      ensures data == l.data
    {
      Log(Access(Home(l)));
      data := l.data;
    }

    method Next(l: Link<Cell>) returns (next: Link?<Cell>)
      requires Alive(log, Home(l))
      modifies this
      ensures log == old(log) + [Access(Home(l))] && Did(old(log), log, [], {Home(l)})
      ensures next == l.next
    {
      Log(Access(Home(l)));
      next := l.next;
    }

    method Prev(l: Link<Cell>) returns (prev: Link?<Cell>)
      requires Alive(log, Home(l))
      modifies this
      ensures log == old(log) + [Access(Home(l))] && Did(old(log), log, [], {Home(l)})
      ensures prev == l.prev
    {
      Log(Access(Home(l)));
      prev := l.prev;
    }

    method SetNext(l: Link<Cell>, next: Link?<Cell>)
      requires Alive(log, Home(l))
      modifies this, l`next
      ensures log == old(log) + [Access(Home(l))] && Did(old(log), log, [], {Home(l)})
      ensures l.next == next
    {
      Log(Access(Home(l)));
      l.next := next;
    }

    method SetPrev(l: Link<Cell>, prev: Link?<Cell>)
      requires Alive(log, Home(l))
      modifies this, l`prev
      ensures log == old(log) + [Access(Home(l))] && Did(old(log), log, [], {Home(l)})
      ensures l.prev == prev
    {
      Log(Access(Home(l)));
      l.prev := prev;
    }

    method FreePair(l: Link<Cell>)
      requires Alive(log, l)
      modifies this, l
      ensures log == old(log) + [Freed(l)] && Did(old(log), log, [l], {l})
    {
      Log(Freed(l));
      l.next, l.prev, l.data := *, *, *;
    }

    method FreeObj(o: Obj)
      requires Alive(log, o)
      modifies this, o, o.head, o.link
      ensures log == old(log) + [Freed(o)] && Did(old(log), log, [o], {o})
    {
      Log(Freed(o));
      o.tag, o.prim := *, *;
      o.head.next, o.head.prev, o.head.data := *, *, *;
      o.link.next, o.link.prev, o.link.data := *, *, *;
    }
  }

  // ----- Trees of objects

  /** The tree below an object: its queue cells, and the trees below the cells. */
  datatype Shape = Shape(o: Obj, tag: Tag, cells: seq<Link<Cell>>, kids: seq<Shape>)

  ghost function Links(kids: seq<Shape>): set<object> {
    set k <- kids :: k.o.link
  }

  /** The links of a container's queue and those inside its children, which are the same for an array. */
  ghost function Hooks(cells: seq<Link<Cell>>, kids: seq<Shape>): set<object> {
    (set c <- cells) + Links(kids)
  }

  /** Everything in the tree but the link by which its root may hang somewhere. */
  ghost function Foot(s: Shape): set<object>
    decreases s, 1
  {
    {s.o, s.o.head} + Hooks(s.cells, s.kids) + FootAll(s.kids)
  }

  ghost function FootAll(kids: seq<Shape>): set<object>
    decreases kids
  {
    if kids == [] then {} else Foot(kids[0]) + FootAll(kids[1..])
  }

  ghost function Size(s: Shape): (n: nat)
    ensures n > 0
    decreases s, 1
  {
    1 + SizeAll(s.kids)
  }

  ghost function SizeAll(kids: seq<Shape>): nat
    decreases kids
  {
    if kids == [] then 0 else Size(kids[0]) + SizeAll(kids[1..])
  }

  /** Nothing in the tree is reached twice. */
  ghost predicate Separate(s: Shape)
    decreases s, 1
  {
    && (s.tag == LeafTag ==> s.cells == [])
    && s.o !in FootAll(s.kids)
    && Distinct(s.o.head, s.cells)
    && Apart(s.o.head, s.cells, s.kids)
    && SeparateAll(s.kids)
  }

  ghost predicate SeparateAll(kids: seq<Shape>)
    decreases kids
  {
    kids != [] ==> Separate(kids[0]) && Foot(kids[0]) !! FootAll(kids[1..]) && SeparateAll(kids[1..])
  }

  /** The head, the hooks and the trees below are apart. */
  ghost predicate Apart(h: Link<Cell>, cells: seq<Link<Cell>>, kids: seq<Shape>) {
    && |cells| == |kids| && h !in Hooks(cells, kids) + FootAll(kids)
    && Hooks(cells, kids) !! FootAll(kids) && HooksApart(cells, kids)
  }

  /** Only a cell and its own child's link may be the same. */
  ghost predicate HooksApart(cells: seq<Link<Cell>>, kids: seq<Shape>) {
    cells != [] && kids != [] ==>
      {cells[0], kids[0].o.link} !! Hooks(cells[1..], kids[1..]) && HooksApart(cells[1..], kids[1..])
  }

  /** How a container's cell holds its child: a pair of its own, or the child's embedded link. */
  ghost predicate Holds(tag: Tag, cell: Link<Cell>, kid: Obj)
    reads cell`data
  {
    if tag == DictionaryTag then cell.data.Pair? && cell.data.value == kid
    else cell.data == Element(kid) && cell == kid.link
  }

  /** The pointers in memory have the shape of the tree. */
  ghost predicate Linked(s: Shape)
    reads Foot(s)
    decreases s, 1
  {
    && s.o.tag == s.tag && s.o.head.data == Element(s.o)
    && Queue(s.o.head, s.cells) && LinkedAll(s.tag, s.cells, s.kids)
  }

  ghost predicate LinkedAll(tag: Tag, cells: seq<Link<Cell>>, kids: seq<Shape>)
    reads cells`data, FootAll(kids)
    decreases kids
  {
    cells != [] && kids != [] ==>
      Holds(tag, cells[0], kids[0].o) && Linked(kids[0]) && LinkedAll(tag, cells[1..], kids[1..])
  }

  // ----- The order of destruction

  /** Every block of the tree, children before their parent, a pair after the value it holds. */
  ghost function Order(s: Shape): seq<object>
    decreases s, 1
  {
    OrderKids(s.tag, s.cells, s.kids) + [s.o]
  }

  ghost function OrderKids(tag: Tag, cells: seq<Link<Cell>>, kids: seq<Shape>): seq<object>
    decreases kids
  {
    if cells == [] || kids == [] then []
    else OrderCell(tag, cells[0], kids[0]) + OrderKids(tag, cells[1..], kids[1..])
  }

  ghost function OrderCell(tag: Tag, cell: Link<Cell>, kid: Shape): seq<object>
    decreases kid, 2
  {
    Order(kid) + if tag == DictionaryTag then [cell] else []
  }

  /** The blocks an unlinked cell and its child consist of. */
  ghost function Branch(cell: Link<Cell>, kid: Shape): set<object> {
    {cell, kid.o.link} + Foot(kid)
  }

  /** Only blocks of the tree are freed. */
  lemma {:induction false} OrderInFoot(s: Shape)
    ensures forall x <- Order(s) :: x in Foot(s)
    decreases s, 1
  {
    OrderKidsInFoot(s.tag, s.cells, s.kids);
  }

  lemma {:induction false} OrderKidsInFoot(tag: Tag, cells: seq<Link<Cell>>, kids: seq<Shape>)
    ensures forall x <- OrderKids(tag, cells, kids) :: x in Hooks(cells, kids) + FootAll(kids)
    decreases kids
  {
    if cells != [] && kids != [] {
      OrderInFoot(kids[0]);
      OrderKidsInFoot(tag, cells[1..], kids[1..]);
    }
  }

  // ----- Destruction

  /** The blocks of an existing tree exist. */
  lemma FootAllocated(s: Shape)
    ensures forall x <- Foot(s) :: allocated(x)
    decreases s, 1
  {
    FootAllAllocated(s.kids);
  }

  lemma FootAllAllocated(kids: seq<Shape>)
    ensures forall x <- FootAll(kids) :: allocated(x)
    decreases kids
  {
    if kids != [] {
      FootAllocated(kids[0]);
      FootAllAllocated(kids[1..]);
    }
  }

  /** The object xo and what hangs below the given part of its queue. */
  ghost function Territory(xo: Obj, cells: seq<Link<Cell>>, kids: seq<Shape>): set<object> {
    {xo, xo.head} + Hooks(cells, kids) + FootAll(kids)
  }

  /** A well-linked queue of separate trees, in the object xo. */
  ghost predicate Shaped(xo: Obj, tag: Tag, cells: seq<Link<Cell>>, kids: seq<Shape>)
    reads xo.head, cells, FootAll(kids)
  {
    && xo.head.data == Element(xo) && Queue(xo.head, cells) && LinkedAll(tag, cells, kids)
    && xo !in FootAll(kids) && Apart(xo.head, cells, kids) && SeparateAll(kids)
  }

  /** What the destruction loop of xo still has ahead of it, all of it alive. */
  ghost predicate Ahead(xo: Obj, tag: Tag, cells: seq<Link<Cell>>, kids: seq<Shape>, mem: Memory)
    reads xo.head, cells, FootAll(kids), mem
  {
    && Shaped(xo, tag, cells, kids)
    && mem !in Territory(xo, cells, kids) && Live(Territory(xo, cells, kids), mem.log)
  }

  /** A cell is accessed in the block it lies in, which belongs to the tree. */
  lemma {:induction false} HomeBelow(tag: Tag, cells: seq<Link<Cell>>, kids: seq<Shape>, i: nat)
    requires LinkedAll(tag, cells, kids) && i < |cells| == |kids|
    ensures Home(cells[i]) in Hooks(cells, kids) + FootAll(kids)
    decreases i
  {
    if i > 0 {
      HomeBelow(tag, cells[1..], kids[1..], i - 1);
    }
  }

  lemma FirstHomes(xo: Obj, tag: Tag, cells: seq<Link<Cell>>, kids: seq<Shape>, mem: Memory)
    requires Ahead(xo, tag, cells, kids, mem) && cells != []
    ensures Shaped(xo, tag, cells, kids) && Live(Territory(xo, cells, kids), mem.log)
    ensures Home(xo.head) == xo && xo in Territory(xo, cells, kids) && Home(cells[0]) in Territory(xo, cells, kids)
    ensures |cells| > 1 ==> Home(cells[1]) in Territory(xo, cells, kids)
    ensures mem !in FootAll(kids) && xo.head !in FootAll(kids)
    ensures forall i :: 0 <= i < |cells| ==> cells[i] !in FootAll(kids)
  {
    HomeBelow(tag, cells, kids, 0);
    if |cells| > 1 {
      HomeBelow(tag, cells, kids, 1);
    }
    assert forall i :: 0 <= i < |cells| ==> cells[i] in Hooks(cells, kids);
  }

  /** The link whose back link names p. */
  ghost function Behind(h: Link<Cell>, p: Link<Cell>): Link<Cell>
    reads p`next
  {
    if p.next == null then h else p.next
  }

  /** The first half of TAILQ_REMOVE, access by access. */
  method PassBackLink(h: Link<Cell>, p: Link<Cell>, mem: Memory, ghost blocks: set<object>)
    requires Live(blocks, mem.log) && Home(p) in blocks && Home(Behind(h, p)) in blocks
    modifies Behind(h, p)`prev, mem
    ensures old(Behind(h, p)).prev == old(p.prev)
    ensures Did(old(mem.log), mem.log, [], blocks)
  {
    hide Safe, Frees;
    var next := mem.Next(p);
    var prev := mem.Prev(p);
    if next != null {
      mem.SetPrev(next, prev);
    } else {
      mem.SetPrev(h, prev);
    }
  }

  /** The second half. */
  method PassNext(p: Link<Cell>, mem: Memory, ghost blocks: set<object>)
    requires Live(blocks, mem.log) && p.prev != null && Home(p) in blocks && Home(p.prev) in blocks
    modifies p.prev`next, mem
    ensures old(p.prev).next == old(p.next)
    ensures Did(old(mem.log), mem.log, [], blocks)
  {
    hide Safe, Frees;
    var prev := mem.Prev(p);
    var next := mem.Next(p);
    mem.SetNext(prev, next);
  }

  method RemoveFirst(h: Link<Cell>, p: Link<Cell>, mem: Memory, ghost cells: seq<Link<Cell>>, ghost blocks: set<object>)
    requires Queue(h, cells) && cells != [] && p == cells[0]
    requires Live(blocks, mem.log) && Home(h) in blocks && Home(p) in blocks
    requires |cells| > 1 ==> Home(cells[1]) in blocks
    modifies h`next, h`prev, cells`next, cells`prev, mem
    ensures Queue(h, cells[1..]) && Did(old(mem.log), mem.log, [], blocks)
  {
    hide Live, Did;
    ghost var before := mem.log;
    PassBackLink(h, p, mem, blocks);
    ghost var log := mem.log;
    StillLive(blocks, before, log, [], blocks);
    PassNext(p, mem, blocks);
    DidChain(before, log, mem.log, [], [], blocks, blocks);
    assert blocks + blocks == blocks;
    RemovedAt(h, cells, 0);
    assert cells[..0] + cells[1..] == cells[1..];
  }

  /** Unlinking touches no tree below the cells. */
  method Unlink(xo: Obj, tag: Tag, p: Link<Cell>, mem: Memory, ghost cells: seq<Link<Cell>>, ghost kids: seq<Shape>)
    requires Ahead(xo, tag, cells, kids, mem) && cells != [] && p == cells[0]
    modifies xo.head`next, xo.head`prev, cells`next, cells`prev, mem
    ensures Queue(xo.head, cells[1..]) && LinkedAll(tag, cells, kids) && xo.head.data == Element(xo)
    ensures Did(old(mem.log), mem.log, [], Territory(xo, cells, kids))
  {
    hide Live, Did, LinkedAll, Separate, SeparateAll, Queue, FootAll, Home, Ahead, Territory, Apart;
    FootAllAllocated(kids);
    FirstHomes(xo, tag, cells, kids, mem);
    RemoveFirst(xo.head, p, mem, cells, Territory(xo, cells, kids));
  }

  lemma RootOf(s: Shape)
    requires Linked(s) && Separate(s)
    ensures s.o.tag == s.tag && s.o in Foot(s) && s.o.head in Foot(s)
    ensures s.tag == LeafTag ==> OrderKids(s.tag, s.cells, s.kids) == []
    ensures Order(s) == OrderKids(s.tag, s.cells, s.kids) + [s.o]
    ensures s.o !in OrderKids(s.tag, s.cells, s.kids)
  {
    OrderKidsInFoot(s.tag, s.cells, s.kids);
  }

  lemma StillAlive(block: object, blocks: set<object>, before: seq<Event>, after: seq<Event>, freed: seq<object>)
    requires Live(blocks, before) && block in blocks && Did(before, after, freed, blocks) && block !in freed
    ensures Alive(after, block)
  {
  }

  lemma LiveBlock(block: object, blocks: set<object>, log: seq<Event>)
    requires Live(blocks, log) && block in blocks
    ensures Alive(log, block)
  {
  }

  lemma RootInFoot(s: Shape)
    ensures s.o in Foot(s)
  {
  }

  /** The first `if` of the destruction. */
  method IfDictionary(xo: Obj, mem: Memory, ghost s: Shape) returns (ghost freed: seq<object>)
    requires s.o == xo && Separate(s) && Linked(s) && Live(Foot(s), mem.log) && mem !in Foot(s)
    modifies Foot(s) - {xo}, mem
    ensures freed == if s.tag == DictionaryTag then OrderKids(s.tag, s.cells, s.kids) else []
    ensures Did(old(mem.log), mem.log, freed, Foot(s))
    ensures s.tag != DictionaryTag ==> Linked(s) && Live(Foot(s), mem.log)
    decreases Size(s), 1
  {
    hide Linked, Separate, Foot, Order, OrderKids, Live, Did, Alive;
    RootOf(s);
    FootAllocated(s);
    LiveBlock(xo, Foot(s), mem.log);
    ghost var before := mem.log;
    var tag := mem.TagOf(xo);
    ghost var log := mem.log;
    StillLive(Foot(s), before, log, [], {xo});
    DidMore(before, log, [], {xo}, Foot(s));
    freed := [];
    if tag == DictionaryTag {
      freed := OrderKids(s.tag, s.cells, s.kids);
      CellsDestroy(xo, tag, mem, s);
      DidChain(before, log, mem.log, [], freed, Foot(s), Foot(s));
      assert [] + freed == freed && Foot(s) + Foot(s) == Foot(s);
    }
  }

  /** The second `if`. */
  method IfArray(xo: Obj, mem: Memory, ghost s: Shape) returns (ghost freed: seq<object>)
    requires s.o == xo && xo.tag == s.tag && Separate(s) && Alive(mem.log, xo) && mem !in Foot(s)
    requires s.tag != DictionaryTag ==> Linked(s) && Live(Foot(s), mem.log)
    modifies Foot(s) - {xo}, mem
    ensures freed == if s.tag == ArrayTag then OrderKids(s.tag, s.cells, s.kids) else []
    ensures Did(old(mem.log), mem.log, freed, Foot(s))
    decreases Size(s), 1
  {
    hide Linked, Separate, Foot, Order, OrderKids, Live, Did, Alive;
    RootInFoot(s);
    FootAllocated(s);
    ghost var before := mem.log;
    var tag := mem.TagOf(xo);
    ghost var log := mem.log;
    DidMore(before, log, [], {xo}, Foot(s));
    freed := [];
    if tag == ArrayTag {
      StillLive(Foot(s), before, log, [], {xo});
      freed := OrderKids(s.tag, s.cells, s.kids);
      CellsDestroy(xo, tag, mem, s);
      DidChain(before, log, mem.log, [], freed, Foot(s), Foot(s));
      assert [] + freed == freed && Foot(s) + Foot(s) == Foot(s);
    }
  }

  /** xpc_object_destroy: frees exactly the blocks of the tree, in the order of destruction, accesses
      only blocks of the tree, and none of them once it is freed. */
  method ObjectDestroy(xo: Obj, mem: Memory, ghost s: Shape)
    requires s.o == xo && Separate(s) && Linked(s) && xo.link !in Foot(s)
    requires Live(Foot(s), mem.log) && mem !in Foot(s)
    modifies Foot(s), xo.link, mem
    ensures Did(old(mem.log), mem.log, Order(s), Foot(s))
    decreases Size(s), 2
  {
    hide Linked, Separate, Foot, Order, OrderKids, Live, Did, Alive;
    RootOf(s);
    ghost var before := mem.log;
    ghost var f1 := IfDictionary(xo, mem, s);
    ghost var log1 := mem.log;
    StillAlive(xo, Foot(s), before, log1, f1);
    ghost var f2 := IfArray(xo, mem, s);
    ghost var log2 := mem.log;
    ChildrenGone(s, before, log1, log2, f1, f2);
    mem.FreeObj(xo);
    DidChain(before, log2, mem.log, OrderKids(s.tag, s.cells, s.kids), [xo], Foot(s), {xo});
    assert Foot(s) + {xo} == Foot(s);
  }

  lemma ChildrenGone(s: Shape, before: seq<Event>, log1: seq<Event>, log2: seq<Event>, f1: seq<object>, f2: seq<object>)
    requires s.o in Foot(s) && Live(Foot(s), before) && s.o !in OrderKids(s.tag, s.cells, s.kids)
    requires s.tag == LeafTag ==> OrderKids(s.tag, s.cells, s.kids) == []
    requires f1 == if s.tag == DictionaryTag then OrderKids(s.tag, s.cells, s.kids) else []
    requires f2 == if s.tag == ArrayTag then OrderKids(s.tag, s.cells, s.kids) else []
    requires Did(before, log1, f1, Foot(s)) && Did(log1, log2, f2, Foot(s))
    ensures Did(before, log2, OrderKids(s.tag, s.cells, s.kids), Foot(s)) && Alive(log2, s.o)
  {
    hide Foot, Did, OrderKids, Live, Alive;
    DidChain(before, log1, log2, f1, f2, Foot(s), Foot(s));
    assert Foot(s) + Foot(s) == Foot(s);
    assert f1 + f2 == OrderKids(s.tag, s.cells, s.kids);
    StillAlive(s.o, Foot(s), before, log2, f1 + f2);
  }

  lemma BranchParts(tag: Tag, p: Link<Cell>, kid: Shape, log: seq<Event>)
    requires Holds(tag, p, kid.o) && Live(Branch(p, kid), log) && p !in Foot(kid)
    ensures Home(p) in Branch(p, kid) && Alive(log, Home(p)) && Live(Foot(kid), log)
    ensures Foot(kid) <= Branch(p, kid) && p in Branch(p, kid) && kid.o.link in Branch(p, kid)
    ensures Home(p) == if tag == DictionaryTag then p else kid.o
    ensures p !in Order(kid)
    ensures OrderCell(tag, p, kid) == Order(kid) + if tag == DictionaryTag then [p] else []
  {
    OrderInFoot(kid);
  }

  /** The child and the pair of an unlinked cell. For an element, finding the child is arithmetic on
      the address of its link; it is logged as an access all the same. */
  method BranchDestroy(tag: Tag, p: Link<Cell>, mem: Memory, ghost kid: Shape)
    requires Holds(tag, p, kid.o) && Linked(kid) && Separate(kid) && kid.o.link !in Foot(kid) && p !in Foot(kid)
    requires Live(Branch(p, kid), mem.log) && mem !in Branch(p, kid)
    modifies Branch(p, kid), mem
    ensures Did(old(mem.log), mem.log, OrderCell(tag, p, kid), Branch(p, kid))
    decreases Size(kid), 3
  {
    hide Linked, Separate, Foot, Order, OrderCell, Live, Did, Home, Branch, Alive;
    ghost var before, branch := mem.log, Branch(p, kid);
    BranchParts(tag, p, kid, mem.log);
    FootAllocated(kid);
    var data := mem.Data(p);
    ghost var log := mem.log;
    StillLive(branch, before, log, [], {Home(p)});
    StillLive(Foot(kid), before, log, [], {Home(p)});
    DidMore(before, log, [], {Home(p)}, branch);
    ObjectDestroy(if tag == DictionaryTag then data.value else data.obj, mem, kid);
    DidChain(before, log, mem.log, [], Order(kid), branch, Foot(kid));
    assert [] + Order(kid) == Order(kid) == Order(kid) + [] && branch + Foot(kid) == branch;
    if tag == DictionaryTag {
      StillAlive(p, branch, before, mem.log, Order(kid));
      log := mem.log;
      mem.FreePair(p);
      DidChain(before, log, mem.log, Order(kid), [p], branch, {p});
      assert branch + {p} == branch;
    }
  }

  lemma QueueInTerritory(xo: Obj, cells: seq<Link<Cell>>, kids: seq<Shape>)
    ensures xo.head in Territory(xo, cells, kids) - {xo} && FootAll(kids) <= Territory(xo, cells, kids)
    ensures forall i :: 0 <= i < |cells| ==> cells[i] in Territory(xo, cells, kids) - {xo}
  {
    assert forall i :: 0 <= i < |cells| ==> cells[i] in Hooks(cells, kids);
  }

  /** Destroying the branch of an unlinked cell does not touch the queue it was in. */
  method ChildDestroy(xo: Obj, tag: Tag, p: Link<Cell>, mem: Memory, ghost kid: Shape,
                      ghost cells: seq<Link<Cell>>, ghost kids: seq<Shape>)
    requires Holds(tag, p, kid.o) && Linked(kid) && Separate(kid) && kid.o.link !in Foot(kid) && p !in Foot(kid)
    requires Live(Branch(p, kid), mem.log) && mem !in Branch(p, kid)
    requires Shaped(xo, tag, cells, kids) && Branch(p, kid) + {mem} !! Territory(xo, cells, kids)
    modifies Branch(p, kid), mem
    ensures Did(old(mem.log), mem.log, OrderCell(tag, p, kid), Branch(p, kid))
    ensures Shaped(xo, tag, cells, kids)
    decreases Size(kid), 4
  {
    hide Linked, LinkedAll, Separate, SeparateAll, Foot, FootAll, OrderCell, Live, Did, Branch, Queue, Apart,
         Territory;
    FootAllAllocated(kids);
    QueueInTerritory(xo, cells, kids);
    BranchDestroy(tag, p, mem, kid);
  }

  lemma FirstHook(cells: seq<Link<Cell>>, kids: seq<Shape>)
    requires cells != [] && kids != []
    ensures Hooks(cells, kids) == {cells[0], kids[0].o.link} + Hooks(cells[1..], kids[1..])
    ensures FootAll(kids) == Foot(kids[0]) + FootAll(kids[1..])
  {
    assert cells == [cells[0]] + cells[1..] && kids == [kids[0]] + kids[1..];
    assert Links(kids) == {kids[0].o.link} + Links(kids[1..]);
  }

  lemma RestApart(h: Link<Cell>, cells: seq<Link<Cell>>, kids: seq<Shape>)
    requires Distinct(h, cells) && Apart(h, cells, kids) && cells != []
    ensures Distinct(h, cells[1..]) && Apart(h, cells[1..], kids[1..])
    ensures {cells[0], kids[0].o.link} !! {h} + Hooks(cells[1..], kids[1..]) + FootAll(kids)
    ensures h !in Foot(kids[0]) && Hooks(cells[1..], kids[1..]) !! Foot(kids[0])
  {
    hide FootAll, Foot, Hooks;
    FirstHook(cells, kids);
  }

  /** The branch of the first cell is apart from the object and from what hangs below the other cells. */
  lemma FirstBranch(xo: Obj, cells: seq<Link<Cell>>, kids: seq<Shape>)
    requires Distinct(xo.head, cells) && Apart(xo.head, cells, kids) && SeparateAll(kids)
    requires xo !in FootAll(kids) && cells != []
    ensures Branch(cells[0], kids[0]) !! Territory(xo, cells[1..], kids[1..])
    ensures Branch(cells[0], kids[0]) <= Territory(xo, cells, kids) - {xo}
    ensures Territory(xo, cells[1..], kids[1..]) <= Territory(xo, cells, kids)
  {
    hide FootAll, Foot, Hooks, Separate, SeparateAll, Apart, Distinct;
    ApartParts(xo.head, cells, kids);
    FirstHook(cells, kids);
    RestApart(xo.head, cells, kids);
    FirstSeparate(kids);
  }

  lemma QueueIsDistinct(h: Link<Cell>, cells: seq<Link<Cell>>)
    requires Queue(h, cells)
    ensures Distinct(h, cells)
  {
  }

  lemma ApartParts(h: Link<Cell>, cells: seq<Link<Cell>>, kids: seq<Shape>)
    requires Apart(h, cells, kids)
    ensures |cells| == |kids| && Hooks(cells, kids) !! FootAll(kids)
  {
  }

  lemma FirstSeparate(kids: seq<Shape>)
    requires SeparateAll(kids) && kids != []
    ensures Foot(kids[0]) !! FootAll(kids[1..])
  {
  }

  lemma FirstOrder(tag: Tag, cells: seq<Link<Cell>>, kids: seq<Shape>)
    requires cells != [] && kids != [] && SeparateAll(kids) && Hooks(cells, kids) !! FootAll(kids)
    ensures forall x <- OrderCell(tag, cells[0], kids[0]) :: x in Branch(cells[0], kids[0])
    ensures Separate(kids[0]) && kids[0].o.link !in Foot(kids[0]) && cells[0] !in Foot(kids[0])
    ensures SeparateAll(kids[1..]) && Size(kids[0]) <= SizeAll(kids)
  {
    OrderInFoot(kids[0]);
    FirstHook(cells, kids);
  }

  lemma LiveWithin(log: seq<Event>, s: set<object>, t: set<object>)
    requires Live(t, log) && s <= t
    ensures Live(s, log)
  {
  }

  /** What is known about the branch of the first cell once it is unlinked. */
  lemma Unlinked(xo: Obj, tag: Tag, cells: seq<Link<Cell>>, kids: seq<Shape>)
    requires Distinct(xo.head, cells) && Apart(xo.head, cells, kids) && SeparateAll(kids)
    requires xo !in FootAll(kids) && cells != []
    requires xo.head.data == Element(xo) && Queue(xo.head, cells[1..]) && LinkedAll(tag, cells, kids)
    ensures Shaped(xo, tag, cells[1..], kids[1..])
    ensures Holds(tag, cells[0], kids[0].o) && Linked(kids[0]) && Separate(kids[0])
    ensures kids[0].o.link !in Foot(kids[0]) && cells[0] !in Foot(kids[0]) && Size(kids[0]) <= SizeAll(kids)
  {
    FirstOrder(tag, cells, kids);
    RestApart(xo.head, cells, kids);
    FirstHook(cells, kids);
  }

  /** The first cell: unlink it and destroy its branch. */
  method CellDestroy(xo: Obj, tag: Tag, p: Link<Cell>, mem: Memory, ghost cells: seq<Link<Cell>>, ghost kids: seq<Shape>)
    requires Ahead(xo, tag, cells, kids, mem) && cells != [] && p == cells[0]
    modifies Territory(xo, cells, kids) - {xo}, mem
    ensures Ahead(xo, tag, cells[1..], kids[1..], mem)
    ensures Did(old(mem.log), mem.log, OrderCell(tag, p, kids[0]), Territory(xo, cells, kids))
    decreases SizeAll(kids), 5
  {
    hide Live, Did, Queue, Separate, SeparateAll, Apart, Distinct, Linked, LinkedAll, FootAll, Foot, OrderCell,
         Branch, Territory, Hooks, Holds;
    ApartParts(xo.head, cells, kids);
    QueueIsDistinct(xo.head, cells);
    ghost var all, rest, branch := Territory(xo, cells, kids), Territory(xo, cells[1..], kids[1..]), Branch(p, kids[0]);
    ghost var freed, before := OrderCell(tag, p, kids[0]), mem.log;
    FirstBranch(xo, cells, kids);
    FirstOrder(tag, cells, kids);
    QueueInTerritory(xo, cells, kids);
    Unlink(xo, tag, p, mem, cells, kids);
    Unlinked(xo, tag, cells, kids);
    ghost var log := mem.log;
    StillLive(all, before, log, [], all);
    LiveWithin(log, branch, all);
    ChildDestroy(xo, tag, p, mem, kids[0], cells[1..], kids[1..]);
    BranchGone(before, log, mem.log, freed, all, branch, rest);
  }

  lemma BranchGone(before: seq<Event>, unlinked: seq<Event>, after: seq<Event>, freed: seq<object>,
                   all: set<object>, branch: set<object>, rest: set<object>)
    requires Live(all, before) && Did(before, unlinked, [], all) && Did(unlinked, after, freed, branch)
    requires branch <= all && rest <= all && branch !! rest && forall x <- freed :: x in branch
    ensures Did(before, after, freed, all) && Live(rest, after)
  {
    DidChain(before, unlinked, after, [], freed, all, branch);
    assert [] + freed == freed && all + branch == all;
    StillLive(rest, before, after, freed, all);
  }

  /** Reading the first cell, or the one after it: what is ahead stays so. */
  method ReadNext(xo: Obj, tag: Tag, l: Link<Cell>, mem: Memory, ghost cells: seq<Link<Cell>>, ghost kids: seq<Shape>)
    returns (next: Link?<Cell>)
    requires Ahead(xo, tag, cells, kids, mem) && (l == xo.head || (cells != [] && l == cells[0]))
    modifies mem
    ensures Ahead(xo, tag, cells, kids, mem) && next == At(cells, if l == xo.head then 0 else 1)
    ensures Did(old(mem.log), mem.log, [], Territory(xo, cells, kids))
  {
    hide Live, Did, Alive, Separate, SeparateAll, Linked, LinkedAll, FootAll, Territory, Hooks, Home, Apart, Distinct;
    ghost var before, all := mem.log, Territory(xo, cells, kids);
    FootAllAllocated(kids);
    HomesOf(xo, tag, cells, kids, mem);
    next := mem.Next(l);
    StillLive(all, before, mem.log, [], {Home(l)});
    DidMore(before, mem.log, [], {Home(l)}, all);
  }

  lemma HomesOf(xo: Obj, tag: Tag, cells: seq<Link<Cell>>, kids: seq<Shape>, mem: Memory)
    requires Ahead(xo, tag, cells, kids, mem)
    ensures Home(xo.head) in Territory(xo, cells, kids) && Alive(mem.log, Home(xo.head))
    ensures cells != [] ==> Home(cells[0]) in Territory(xo, cells, kids) && Alive(mem.log, Home(cells[0]))
    ensures mem !in FootAll(kids)
  {
    if cells != [] {
      HomeBelow(tag, cells, kids, 0);
    }
  }

  /** One round of the loop: the next cell is read, then the first one goes. */
  lemma RoundDone(tag: Tag, cells: seq<Link<Cell>>, kids: seq<Shape>, start: seq<Event>, before: seq<Event>,
                  read: seq<Event>, after: seq<Event>, done: seq<object>, all: set<object>, tree: set<object>)
    requires cells != [] && kids != [] && all <= tree
    requires Did(start, before, done, tree) && Did(before, read, [], all)
    requires Did(read, after, OrderCell(tag, cells[0], kids[0]), all)
    ensures Did(start, after, done + OrderCell(tag, cells[0], kids[0]), tree)
    ensures done + OrderCell(tag, cells[0], kids[0]) + OrderKids(tag, cells[1..], kids[1..]) == done + OrderKids(tag, cells, kids)
  {
    var freed := OrderCell(tag, cells[0], kids[0]);
    DidChain(start, before, read, done, [], tree, all);
    DidChain(start, read, after, done + [], freed, tree + all, all);
    assert done + [] == done && tree + all + all == tree;
  }

  lemma Start(xo: Obj, s: Shape, mem: Memory)
    requires s.o == xo && Separate(s) && Linked(s) && Live(Foot(s), mem.log) && mem !in Foot(s)
    ensures Ahead(xo, s.tag, s.cells, s.kids, mem) && Territory(xo, s.cells, s.kids) == Foot(s)
    ensures Size(s) == 1 + SizeAll(s.kids)
  {
  }

  lemma RestOf(xo: Obj, tag: Tag, cells: seq<Link<Cell>>, kids: seq<Shape>, mem: Memory)
    requires Ahead(xo, tag, cells, kids, mem) && cells != []
    ensures |cells| == |kids| && cells[0] != xo.head && SizeAll(kids[1..]) <= SizeAll(kids)
    ensures Territory(xo, cells[1..], kids[1..]) <= Territory(xo, cells, kids)
  {
    FirstBranch(xo, cells, kids);
  }

  lemma NothingAhead(tag: Tag, kids: seq<Shape>, done: seq<object>)
    ensures done + OrderKids(tag, [], kids) == done
  {
  }

  /** xpc_dictionary_destroy and xpc_array_destroy, a TAILQ_FOREACH_SAFE: the next cell is read before
      the current one goes. */
  method CellsDestroy(xo: Obj, tag: Tag, mem: Memory, ghost s: Shape)
    requires s.o == xo && s.tag == tag && Separate(s) && Linked(s) && Live(Foot(s), mem.log) && mem !in Foot(s)
    modifies Foot(s) - {xo}, mem
    ensures Did(old(mem.log), mem.log, OrderKids(s.tag, s.cells, s.kids), Foot(s))
    decreases Size(s), 0
  {
    hide Live, Did, Queue, Separate, SeparateAll, Apart, Distinct, Linked, LinkedAll, FootAll, Foot, OrderCell,
         OrderKids, Branch, Territory, Hooks, Holds, Home, Shaped, Ahead, SizeAll, Size;
    ghost var cells, kids, done, start := s.cells, s.kids, [], mem.log;
    Start(xo, s, mem);
    var p := ReadNext(xo, tag, xo.head, mem, cells, kids);
    while p != null
      invariant Ahead(xo, tag, cells, kids, mem) && p == At(cells, 0)
      invariant Territory(xo, cells, kids) <= Foot(s) && SizeAll(kids) <= SizeAll(s.kids)
      invariant Did(start, mem.log, done, Foot(s))
      invariant done + OrderKids(tag, cells, kids) == OrderKids(tag, s.cells, s.kids)
      decreases |cells|
    {
      RestOf(xo, tag, cells, kids, mem);
      ghost var before := mem.log;
      var next := ReadNext(xo, tag, p, mem, cells, kids);
      ghost var read := mem.log;
      CellDestroy(xo, tag, p, mem, cells, kids);
      RoundDone(tag, cells, kids, start, before, read, mem.log, done, Territory(xo, cells, kids), Foot(s));
      done := done + OrderCell(tag, cells[0], kids[0]);
      cells, kids, p := cells[1..], kids[1..], next;
    }
    NothingAhead(tag, kids, done);
  }
}
