/** The intrusive tail queue. The back link of an element is the address of the slot that points to
    it, so a head, whose two words are its first-element slot and the address of its last slot, has
    the layout of an element's link. Both are a `Link` here, and a back link, the address of a
    `next` slot, is the `Link` that slot is in. */
module TailQueue {

  class Link<T(0)> {
    var next: Link?<T>   // of a head: the first element
    var prev: Link?<T>   // the link whose `next` points here; of a head: the link of the last slot
    var data: T          // the structure the link is embedded in

    constructor (data: T)
      ensures this.data == data && next == null && prev == null
    {
      this.data := data;
      next, prev := null, null;
    }
  }

  /** The link before position i of a queue: its head, or the element before. */
  ghost function Before<T(0)>(h: Link<T>, s: seq<Link<T>>, i: nat): Link<T>
    requires i <= |s|
  {
    if i == 0 then h else s[i - 1]
  }

  ghost function At<T(0)>(s: seq<Link<T>>, i: nat): Link?<T> {
    if i < |s| then s[i] else null
  }

  ghost predicate Distinct<T(0)>(h: Link<T>, s: seq<Link<T>>) {
    h !in s && forall i, j :: 0 <= i < j < |s| ==> s[i] != s[j]
  }

  /** h heads a well-formed queue of exactly the elements s. */
  ghost predicate Queue<T(0)>(h: Link<T>, s: seq<Link<T>>)
    reads h`next, h`prev, s`next, s`prev
  {
    && Distinct(h, s)
    && h.next == At(s, 0)
    && h.prev == Before(h, s, |s|)
    && (forall i {:trigger s[i].next} :: 0 <= i < |s| ==> s[i].next == At(s, i + 1))
    && (forall i {:trigger s[i].prev} :: 0 <= i < |s| ==> s[i].prev == Before(h, s, i))
  }

  /** The pointers decide the elements: a head heads at most one queue. */
  lemma {:induction false} QueueIsUnique<T(0)>(h: Link<T>, s: seq<Link<T>>, t: seq<Link<T>>)
    requires Queue(h, s) && Queue(h, t)
    ensures s == t
  {
    if |s| <= |t| {
      SamePrefix(h, s, t, |s|);
    } else {
      SamePrefix(h, t, s, |t|);
    }
  }

  lemma {:induction false} SamePrefix<T(0)>(h: Link<T>, s: seq<Link<T>>, t: seq<Link<T>>, n: nat)
    requires Queue(h, s) && Queue(h, t) && n <= |s| <= |t|
    ensures s[..n] == t[..n]
    ensures At(s, n) == At(t, n)
  {
    if n > 0 {
      SamePrefix(h, s, t, n - 1);
      assert s[n - 1].next == At(s, n) && t[n - 1].next == At(t, n);
      assert s[..n] == s[..n - 1] + [s[n - 1]];
      assert t[..n] == t[..n - 1] + [t[n - 1]];
    }
  }

  /** The links of a queue after an element was linked in at position i. */
  ghost predicate LinkedIn<T(0)>(h: Link<T>, e: Link<T>, s: seq<Link<T>>, i: nat)
    requires i <= |s|
    reads h, e, s
  {
    && h.next == (if i == 0 then e else At(s, 0))
    && h.prev == (if i == |s| then e else Before(h, s, |s|))
    && e.next == At(s, i) && e.prev == Before(h, s, i)
    && (forall k {:trigger s[k].next} :: 0 <= k < |s| ==> s[k].next == if k + 1 == i then e else At(s, k + 1))
    && (forall k {:trigger s[k].prev} :: 0 <= k < |s| ==> s[k].prev == if k == i then e else Before(h, s, k))
  }

  lemma InsertedAt<T(0)>(h: Link<T>, e: Link<T>, s: seq<Link<T>>, i: nat)
    requires Distinct(h, s) && e != h && e !in s && i <= |s| && LinkedIn(h, e, s, i)
    ensures Queue(h, s[..i] + [e] + s[i..])
  {
    var t := s[..i] + [e] + s[i..];
    assert forall k :: 0 <= k < |t| ==> t[k] == if k < i then s[k] else if k == i then e else s[k - 1];
  }

  /** The links of a queue after the element at position i was unlinked. */
  ghost predicate LinkedOut<T(0)>(h: Link<T>, s: seq<Link<T>>, i: nat)
    requires i < |s|
    reads h, s
  {
    && h.next == At(s, if i == 0 then 1 else 0)
    && h.prev == (if i + 1 == |s| then Before(h, s, i) else s[|s| - 1])
    && (forall k {:trigger s[k].next} :: 0 <= k < |s| && k != i ==> s[k].next == At(s, if k + 1 == i then k + 2 else k + 1))
    && (forall k {:trigger s[k].prev} :: 0 <= k < |s| && k != i ==> s[k].prev == Before(h, s, if k == i + 1 then i else k))
  }

  lemma RemovedAt<T(0)>(h: Link<T>, s: seq<Link<T>>, i: nat)
    requires Distinct(h, s) && i < |s| && LinkedOut(h, s, i)
    ensures Queue(h, s[..i] + s[i + 1..])
  {
    var t := s[..i] + s[i + 1..];
    assert forall k :: 0 <= k < |t| ==> t[k] == s[if k < i then k else k + 1];
  }

  method Init<T(0)>(h: Link<T>)
    modifies h`next, h`prev
    ensures Queue(h, [])
  {
    h.next := null;
    h.prev := h;
  }

  method InsertHead<T(0)>(h: Link<T>, e: Link<T>, ghost s: seq<Link<T>>)
    requires Queue(h, s) && e != h && e !in s
    modifies h`next, h`prev, e`next, e`prev, s`prev
    ensures Queue(h, [e] + s)
  {
    e.next := h.next;
    if e.next != null {
      h.next.prev := e;
    } else {
      h.prev := e;
    }
    h.next := e;
    e.prev := h;
  }

  method InsertTail<T(0)>(h: Link<T>, e: Link<T>, ghost s: seq<Link<T>>)
    requires Queue(h, s) && e != h && e !in s
    modifies h`next, h`prev, e`next, e`prev, s`next
    ensures Queue(h, s + [e])
  {
    e.next := null;
    e.prev := h.prev;
    h.prev.next := e;
    h.prev := e;
  }

  method InsertAfter<T(0)>(h: Link<T>, at: Link<T>, e: Link<T>, ghost s: seq<Link<T>>, ghost i: nat)
    requires Queue(h, s) && e != h && e !in s && i < |s| && s[i] == at
    modifies h`prev, e`next, e`prev, s`next, s`prev
    ensures Queue(h, s[..i + 1] + [e] + s[i + 1..])
  {
    e.next := at.next;
    if e.next != null {
      e.next.prev := e;
    } else {
      h.prev := e;
    }
    at.next := e;
    e.prev := at;
    InsertedAt(h, e, s, i + 1);
  }

  method InsertBefore<T(0)>(ghost h: Link<T>, at: Link<T>, e: Link<T>, ghost s: seq<Link<T>>, ghost i: nat)
    requires Queue(h, s) && e != h && e !in s && i < |s| && s[i] == at
    modifies h`next, e`next, e`prev, s`next, s`prev
    ensures Queue(h, s[..i] + [e] + s[i..])
  {
    e.prev := at.prev;
    e.next := at;
    at.prev.next := e;
    at.prev := e;
    InsertedAt(h, e, s, i);
  }

  method Remove<T(0)>(h: Link<T>, e: Link<T>, ghost s: seq<Link<T>>, ghost i: nat)
    requires Queue(h, s) && i < |s| && s[i] == e
    modifies h`next, h`prev, s`next, s`prev
    ensures Queue(h, s[..i] + s[i + 1..])
    ensures e.next == old(e.next) && e.prev == old(e.prev)
  {
    if e.next != null {
      e.next.prev := e.prev;
    } else {
      h.prev := e.prev;
    }
    e.prev.next := e.next;
    RemovedAt(h, s, i);
  }

  /** The links of a queue after the element at position i gave its place to e. */
  ghost predicate LinkedInstead<T(0)>(h: Link<T>, e: Link<T>, s: seq<Link<T>>, i: nat)
    requires i < |s|
    reads h, e, s
  {
    && h.next == (if i == 0 then e else At(s, 0))
    && h.prev == (if i + 1 == |s| then e else s[|s| - 1])
    && e.next == At(s, i + 1) && e.prev == Before(h, s, i)
    && (forall k {:trigger s[k].next} :: 0 <= k < |s| && k != i ==> s[k].next == if k + 1 == i then e else At(s, k + 1))
    && (forall k {:trigger s[k].prev} :: 0 <= k < |s| && k != i ==> s[k].prev == if k == i + 1 then e else Before(h, s, k))
  }

  lemma ReplacedAt<T(0)>(h: Link<T>, e: Link<T>, s: seq<Link<T>>, i: nat)
    requires Distinct(h, s) && e != h && e !in s && i < |s| && LinkedInstead(h, e, s, i)
    ensures Queue(h, s[i := e])
  {
    var t := s[i := e];
    assert forall k :: 0 <= k < |t| ==> t[k] == if k == i then e else s[k];
  }

  method Replace<T(0)>(h: Link<T>, e: Link<T>, e2: Link<T>, ghost s: seq<Link<T>>, ghost i: nat)
    requires Queue(h, s) && e2 != h && e2 !in s && i < |s| && s[i] == e
    modifies h`next, h`prev, e2`next, e2`prev, s`next, s`prev
    ensures Queue(h, s[i := e2])
    ensures e.next == old(e.next) && e.prev == old(e.prev)
  {
    e2.next := e.next;
    if e2.next != null {
      e2.next.prev := e2;
    } else {
      h.prev := e2;
    }
    e2.prev := e.prev;
    e2.prev.next := e2;
    ReplacedAt(h, e2, s, i);
  }

  method Concat<T(0)>(h1: Link<T>, h2: Link<T>, ghost s1: seq<Link<T>>, ghost s2: seq<Link<T>>)
    requires Queue(h1, s1) && Queue(h2, s2) && h1 != h2 && h1 !in s2 && h2 !in s1
    requires forall i, j :: 0 <= i < |s1| && 0 <= j < |s2| ==> s1[i] != s2[j]
    modifies h1`next, h1`prev, h2`next, h2`prev, s1`next, s2`prev
    ensures Queue(h1, s1 + s2) && Queue(h2, [])
  {
    if h2.next != null {
      h1.prev.next := h2.next;
      h2.next.prev := h1.prev;
      h1.prev := h2.prev;
      Init(h2);
    }
  }

  /** The last element, read by taking the link of the last slot for a head. */
  method Last<T(0)>(h: Link<T>, ghost s: seq<Link<T>>) returns (l: Link?<T>)
    requires Queue(h, s)
    ensures l == if s == [] then null else s[|s| - 1]
  {
    l := h.prev.prev.next;
  }

  /** The element before, read in the same way; there is none before the first. */
  method Prev<T(0)>(ghost h: Link<T>, e: Link<T>, ghost s: seq<Link<T>>, ghost i: nat) returns (l: Link?<T>)
    requires Queue(h, s) && i < |s| && s[i] == e
    ensures l == if i == 0 then null else s[i - 1]
  {
    l := e.prev.prev.next;
  }

  /** TAILQ_FOREACH visits the elements in order. */
  method ForEach<T(0)>(h: Link<T>, ghost s: seq<Link<T>>) returns (visited: seq<Link<T>>)
    requires Queue(h, s)
    ensures visited == s
  {
    visited := [];
    var e := h.next;
    while e != null
      invariant |visited| <= |s| && visited == s[..|visited|] && e == At(s, |visited|)
      decreases |s| - |visited|
    {
      visited := visited + [e];
      e := e.next;
    }
  }

  /** TAILQ_FOREACH_REVERSE visits them in the opposite order. */
  method ForEachReverse<T(0)>(h: Link<T>, ghost s: seq<Link<T>>) returns (visited: seq<Link<T>>)
    requires Queue(h, s)
    ensures |visited| == |s|
    ensures forall k :: 0 <= k < |s| ==> visited[k] == s[|s| - 1 - k]
  {
    visited := [];
    ghost var i := |s|;
    var e := Last(h, s);
    while e != null
      invariant 0 <= i <= |s| && |visited| == |s| - i
      invariant forall k :: 0 <= k < |visited| ==> visited[k] == s[|s| - 1 - k]
      invariant e == if i == 0 then null else s[i - 1]
      decreases i
    {
      visited := visited + [e];
      i := i - 1;
      e := Prev(h, e, s, i);
    }
  }

  /** The elements a traversal keeps. */
  ghost function Kept<T(0)>(s: seq<Link<T>>, drop: Link<T> -> bool): seq<Link<T>> {
    if s == [] then []
    else Kept(s[..|s| - 1], drop) + if drop(s[|s| - 1]) then [] else [s[|s| - 1]]
  }

  lemma {:induction false} KeptAreTheRest<T(0)>(s: seq<Link<T>>, drop: Link<T> -> bool, e: Link<T>)
    ensures e in Kept(s, drop) <==> e in s && !drop(e)
  {
    if s != [] {
      KeptAreTheRest(s[..|s| - 1], drop, e);
      assert s == s[..|s| - 1] + [s[|s| - 1]];
    }
  }

  /** Unlinking an element that is then given away: its links hold anything. */
  method GiveAway<T(0)>(h: Link<T>, e: Link<T>, ghost s: seq<Link<T>>, ghost i: nat)
    requires Queue(h, s) && i < |s| && s[i] == e
    modifies h`next, h`prev, s`next, s`prev
    ensures Queue(h, s[..i] + s[i + 1..])
  {
    Remove(h, e, s, i);
    e.next, e.prev := *, *;
    assert e !in s[..i] && e !in s[i + 1..];
  }

  lemma NextOf<T(0)>(h: Link<T>, s: seq<Link<T>>, i: nat, kept: seq<Link<T>>)
    requires i < |s| && Queue(h, kept + s[i..])
    ensures s[i].next == At(s, i + 1)
  {
    assert (kept + s[i..])[|kept|] == s[i];
    assert At(kept + s[i..], |kept| + 1) == At(s, i + 1);
  }

  lemma NextKept<T(0)>(s: seq<Link<T>>, drop: Link<T> -> bool, i: nat, kept: seq<Link<T>>)
    requires i < |s| && kept == Kept(s[..i], drop)
    ensures s[..i] + [s[i]] == s[..i + 1]
    ensures Kept(s[..i + 1], drop) == kept + if drop(s[i]) then [] else [s[i]]
  {
    assert s[..i + 1][..i] == s[..i];
  }

  lemma SplitAt<T(0)>(s: seq<Link<T>>, i: nat, kept: seq<Link<T>>)
    requires i < |s|
    ensures (kept + s[i..])[|kept|] == s[i]
    ensures (kept + s[i..])[..|kept|] + (kept + s[i..])[|kept| + 1..] == kept + s[i + 1..]
    ensures kept + [s[i]] + s[i + 1..] == kept + s[i..]
  {
  }

  /** TAILQ_FOREACH_SAFE whose body unlinks the elements that `drop` names and gives them away. It
      still visits every element, in order, since it reads the next one before the body runs, and
      the queue is left with the others. */
  method ForEachSafe<T(0)>(h: Link<T>, drop: Link<T> -> bool, ghost s: seq<Link<T>>) returns (visited: seq<Link<T>>)
    requires Queue(h, s)
    modifies h`next, h`prev, s`next, s`prev
    ensures visited == s && Queue(h, Kept(s, drop))
  {
    hide Queue, Distinct, Kept;
    visited := [];
    ghost var i, kept: seq<Link<T>> := 0, [];
    StartKept(h, s, drop);
    var e := h.next;
    while e != null
      invariant i <= |s| && visited == s[..i] && e == At(s, i)
      invariant kept == Kept(s[..i], drop) && Queue(h, kept + s[i..]) && (forall k :: 0 <= k < |kept| ==> kept[k] in s)
      decreases |s| - i
    {
      NextOf(h, s, i, kept);
      NextKept(s, drop, i, kept);
      SplitAt(s, i, kept);
      ghost var left := kept + s[i..];
      assert forall k :: 0 <= k < |left| ==> left[k] in s;
      var next := e.next;
      visited := visited + [e];
      if drop(e) {
        GiveAway(h, e, left, |kept|);
      } else {
        kept := kept + [e];
      }
      i, e := i + 1, next;
    }
    assert s[..i] == s && kept + s[i..] == kept;
  }

  lemma StartKept<T(0)>(h: Link<T>, s: seq<Link<T>>, drop: Link<T> -> bool)
    requires Queue(h, s)
    ensures h.next == At(s, 0) && Kept(s[..0], drop) == [] && s == [] + s[0..]
  {
  }
}
