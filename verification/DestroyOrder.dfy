/** What the order of destruction amounts to: every block once, and children before their parents. */
module DestroyOrder {
  import opened TailQueue
  import opened Destroy

  /** The blocks of a tree that the library allocated one by one: its objects, and the pairs of its
      dictionaries. */
  ghost function Owned(s: Shape): set<object>
    decreases s, 1
  {
    {s.o} + OwnedAll(s.tag, s.cells, s.kids)
  }

  ghost function OwnedAll(tag: Tag, cells: seq<Link<Cell>>, kids: seq<Shape>): set<object>
    decreases kids
  {
    if cells == [] || kids == [] then {}
    else Owned(kids[0]) + (if tag == DictionaryTag then {cells[0]} else {}) + OwnedAll(tag, cells[1..], kids[1..])
  }

  lemma {:induction false} OwnedInFoot(s: Shape)
    ensures Owned(s) <= Foot(s)
    decreases s, 1
  {
    OwnedAllInFoot(s.tag, s.cells, s.kids);
  }

  lemma {:induction false} OwnedAllInFoot(tag: Tag, cells: seq<Link<Cell>>, kids: seq<Shape>)
    ensures OwnedAll(tag, cells, kids) <= Hooks(cells, kids) + FootAll(kids)
    decreases kids
  {
    if cells != [] && kids != [] {
      OwnedInFoot(kids[0]);
      OwnedAllInFoot(tag, cells[1..], kids[1..]);
    }
  }

  /** Every object and every pair of a separate tree is freed exactly once, and nothing else is. */
  lemma {:induction false} FreedExactlyOnce(s: Shape)
    requires Separate(s)
    ensures multiset(Order(s)) == multiset(Owned(s))
    decreases s, 1
  {
    CellsFreedExactlyOnce(s.tag, s.o.head, s.cells, s.kids);
    OwnedAllInFoot(s.tag, s.cells, s.kids);
    assert s.o !in OwnedAll(s.tag, s.cells, s.kids);
  }

  lemma {:induction false} CellsFreedExactlyOnce(tag: Tag, h: Link<Cell>, cells: seq<Link<Cell>>, kids: seq<Shape>)
    requires Distinct(h, cells) && Apart(h, cells, kids) && SeparateAll(kids)
    ensures multiset(OrderKids(tag, cells, kids)) == multiset(OwnedAll(tag, cells, kids))
    decreases kids
  {
    hide Foot, FootAll, Hooks, Order, Owned, Separate, Apart, Distinct;
    if cells != [] {
      ApartParts(h, cells, kids);
      FreedExactlyOnce(kids[0]);
      RestApart(h, cells, kids);
      CellsFreedExactlyOnce(tag, h, cells[1..], kids[1..]);
      var pair: set<object> := if tag == DictionaryTag then {cells[0]} else {};
      FirstApart(tag, h, cells, kids, pair);
      MultisetOfUnion(Owned(kids[0]), pair);
      MultisetOfUnion(Owned(kids[0]) + pair, OwnedAll(tag, cells[1..], kids[1..]));
    }
  }

  lemma FirstApart(tag: Tag, h: Link<Cell>, cells: seq<Link<Cell>>, kids: seq<Shape>, pair: set<object>)
    requires Distinct(h, cells) && Apart(h, cells, kids) && SeparateAll(kids) && cells != []
    requires pair <= {cells[0]}
    ensures Owned(kids[0]) !! pair
    ensures Owned(kids[0]) + pair !! OwnedAll(tag, cells[1..], kids[1..])
  {
    OwnedInFoot(kids[0]);
    OwnedAllInFoot(tag, cells[1..], kids[1..]);
    RestApart(h, cells, kids);
    FirstHook(cells, kids);
  }

  lemma MultisetOfUnion(a: set<object>, b: set<object>)
    requires a !! b
    ensures multiset(a + b) == multiset(a) + multiset(b)
  {
  }

  /** t is a tree somewhere in s. */
  ghost predicate Within(t: Shape, s: Shape)
    decreases s, 1
  {
    t == s || WithinAny(t, s.kids)
  }

  ghost predicate WithinAny(t: Shape, kids: seq<Shape>)
    decreases kids
  {
    kids != [] && (Within(t, kids[0]) || WithinAny(t, kids[1..]))
  }

  /** A subtree is freed in one piece, its root last, and before the root of any tree it is in. */
  lemma {:induction false} SubtreeFreedBeforeRoot(s: Shape, t: Shape) returns (before: seq<object>, after: seq<object>)
    requires Separate(s) && Within(t, s)
    ensures Order(s) == before + Order(t) + after
    ensures Order(t)[|Order(t)| - 1] == t.o
    ensures t != s ==> after != [] && after[|after| - 1] == s.o
    decreases s, 1
  {
    if t == s {
      before, after := [], [];
    } else {
      var rest;
      before, rest := SubtreeFreedInPlace(s.tag, s.cells, s.kids, t);
      after := rest + [s.o];
    }
  }

  lemma {:induction false} SubtreeFreedInPlace(tag: Tag, cells: seq<Link<Cell>>, kids: seq<Shape>, t: Shape)
    returns (before: seq<object>, after: seq<object>)
    requires |cells| == |kids| && SeparateAll(kids) && WithinAny(t, kids)
    ensures OrderKids(tag, cells, kids) == before + Order(t) + after
    decreases kids
  {
    var rest := OrderKids(tag, cells[1..], kids[1..]);
    if Within(t, kids[0]) {
      var b, a := SubtreeFreedBeforeRoot(kids[0], t);
      var pair: seq<object> := if tag == DictionaryTag then [cells[0]] else [];
      before, after := b, a + pair + rest;
      Regroup(b, Order(t), a, pair, rest);
    } else {
      var b, a := SubtreeFreedInPlace(tag, cells[1..], kids[1..], t);
      before, after := OrderCell(tag, cells[0], kids[0]) + b, a;
      Regroup(OrderCell(tag, cells[0], kids[0]), b, Order(t), a, []);
    }
  }

  /** A pair is freed right after the root of the value it holds. */
  lemma {:induction false} PairFreedAfterValue(cells: seq<Link<Cell>>, kids: seq<Shape>, i: nat)
    returns (before: seq<object>, after: seq<object>)
    requires i < |cells| == |kids|
    ensures OrderKids(DictionaryTag, cells, kids) == before + [kids[i].o, cells[i]] + after
    decreases kids
  {
    if i == 0 {
      var inner := OrderKids(kids[0].tag, kids[0].cells, kids[0].kids);
      before, after := inner, OrderKids(DictionaryTag, cells[1..], kids[1..]);
      assert OrderCell(DictionaryTag, cells[0], kids[0]) == inner + [kids[0].o, cells[0]];
    } else {
      var first := OrderCell(DictionaryTag, cells[0], kids[0]);
      var b, a := PairFreedAfterValue(cells[1..], kids[1..], i - 1);
      before, after := first + b, a;
      assert kids[1..][i - 1] == kids[i] && cells[1..][i - 1] == cells[i];
      Regroup(first, b, [kids[i].o, cells[i]], a, []);
    }
  }

  lemma Regroup(a: seq<object>, b: seq<object>, c: seq<object>, d: seq<object>, e: seq<object>)
    ensures a + b + c + d + e == a + b + (c + d + e) == a + (b + c + d) + e
    ensures e == [] ==> a + (b + c + d) == a + b + c + d
  {
  }

  // ----- Use after free

  lemma {:induction false} FreedInLog(log: seq<Event>, x: object) returns (i: nat)
    requires x in Frees(log)
    ensures i < |log| && log[i] == Freed(x)
  {
    var last := |log| - 1;
    if log[last] == Freed(x) {
      i := last;
    } else {
      i := FreedInLog(log[..last], x);
    }
  }

  /** What the contract of the destruction says about one block it frees: the block is freed during
      the destruction, and from then on no event concerns it, neither an access nor a second free. */
  lemma NothingAfterFree(s: Shape, before: seq<Event>, after: seq<Event>, x: object) returns (i: nat)
    requires Live(Foot(s), before) && Did(before, after, Order(s), Foot(s)) && x in Order(s)
    ensures |before| <= i < |after| && after[i] == Freed(x)
    ensures forall j :: |before| <= j < |after| && j != i && after[j].block == x ==> j < i && after[j].Access?
  {
    OrderInFoot(s);
    i := FreedInLog(after, x);
    if i < |before| {
      FreesAreLogged(before, i);
    }
  }
}
