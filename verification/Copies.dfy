/** xpc_copy: exactly when it crashes, and exactly when the copy is the object. */
module Copies {
  import opened Values
  import opened Entries

  /** A copy, the NULL that types without a copy give, or the crash of putting that NULL into a
      dictionary, where it is retained. */
  datatype Result = Copied(v: Value) | NoCopy | Crash

  function CopyPrim(p: Prim): Result {
    match p
    case Bool(_) => Copied(Prim(p))
    case Int(_) => Copied(Prim(p))
    case Uint(_) => Copied(Prim(p))
    case Date(_) => Copied(Prim(p))
    case Endpoint(_) => Copied(Prim(p))
    case Str(_) => Copied(Prim(p))
    case Data(_) => Copied(Prim(p))
    case _ => NoCopy
  }

  /** The copies of an array's elements are set at indices an empty array does not have, so they are
      dropped: only a crash while copying one of them shows. */
  function Copy(v: Value): Result
    decreases v, 0
  {
    match v
    case Prim(p) => CopyPrim(p)
    case Dict(es) =>
      var r := CopyEntries(es, []);
      if r.Some? then Copied(Dict(r.value)) else Crash
    case Arr(vs) => if ElemsCrash(vs) then Crash else Copied(Arr([]))
  }

  function CopyEntries(es: seq<Entry>, done: seq<Entry>): Option<seq<Entry>>
    decreases es
  {
    if es == [] then Some(done)
    else
      var c := Copy(es[0].value);
      if c.Copied? then CopyEntries(es[1..], SetEntry(done, es[0].key, c.v)) else None
  }

  predicate ElemsCrash(vs: seq<Value>)
    decreases vs
  {
    vs != [] && (Copy(vs[0]) == Crash || ElemsCrash(vs[1..]))
  }

  /** The types of leaf that xpc_copy knows. */
  predicate HasCopy(p: Prim) {
    p.Bool? || p.Int? || p.Uint? || p.Date? || p.Endpoint? || p.Str? || p.Data?
  }

  /** No dictionary in the tree holds a leaf of a type without a copy. */
  ghost predicate NoNullPut(v: Value) {
    match v
    case Prim(_) => true
    case Dict(es) => forall e <- es :: (e.value.Prim? ==> HasCopy(e.value.p)) && NoNullPut(e.value)
    case Arr(vs) => forall x <- vs :: NoNullPut(x)
  }

  /** Copying retains NULL exactly when some dictionary, at any depth, holds a leaf without a copy; it
      gives NULL exactly for such a leaf itself. */
  lemma {:induction false} CopyOutcomes(v: Value)
    ensures Copy(v) == Crash <==> !NoNullPut(v)
    ensures Copy(v) == NoCopy <==> v.Prim? && !HasCopy(v.p)
    decreases v, 0
  {
    match v {
      case Prim(_) =>
      case Dict(es) => CopyEntriesOutcome(es, []);
      case Arr(vs) => ElemsCrashIff(vs);
    }
  }

  lemma {:induction false} CopyEntriesOutcome(es: seq<Entry>, done: seq<Entry>)
    ensures CopyEntries(es, done) == None
       <==> !forall e <- es :: (e.value.Prim? ==> HasCopy(e.value.p)) && NoNullPut(e.value)
    decreases es
  {
    if es != [] {
      var c := Copy(es[0].value);
      CopyOutcomes(es[0].value);
      assert es == [es[0]] + es[1..];
      if c.Copied? {
        CopyEntriesOutcome(es[1..], SetEntry(done, es[0].key, c.v));
      }
    }
  }

  lemma {:induction false} ElemsCrashIff(vs: seq<Value>)
    ensures ElemsCrash(vs) <==> !forall x <- vs :: NoNullPut(x)
    decreases vs
  {
    if vs != [] {
      CopyOutcomes(vs[0]);
      ElemsCrashIff(vs[1..]);
      assert vs == [vs[0]] + vs[1..];
    }
  }

  /** The copy of a leaf is the leaf, for every type that has a copy; the others give NULL. */
  lemma CopyOfLeaf(p: Prim)
    ensures match p
      case Bool(b) => Copy(Prim(p)) == Copied(Prim(Bool(b)))
      case Int(i) => Copy(Prim(p)) == Copied(Prim(Int(i)))
      case Uint(u) => Copy(Prim(p)) == Copied(Prim(Uint(u)))
      case Date(t) => Copy(Prim(p)) == Copied(Prim(Date(t)))
      case Endpoint(port) => Copy(Prim(p)) == Copied(Prim(Endpoint(port)))
      case Str(s) => Copy(Prim(p)) == Copied(Prim(Str(s)))
      case Data(bytes) => Copy(Prim(p)) == Copied(Prim(Data(bytes)))
      case Null => Copy(Prim(p)) == NoCopy
      case Fd(_) => Copy(Prim(p)) == NoCopy
      case Double(_) => Copy(Prim(p)) == NoCopy
      case Other(_) => Copy(Prim(p)) == NoCopy
  {
  }

  /** The object with every array emptied. */
  function Pruned(v: Value): Value
    decreases v, 0
  {
    match v
    case Prim(_) => v
    case Dict(es) => Dict(PrunedEntries(es))
    case Arr(_) => Arr([])
  }

  function PrunedEntries(es: seq<Entry>): seq<Entry>
    decreases es
  {
    if es == [] then [] else [Entry(es[0].key, Pruned(es[0].value))] + PrunedEntries(es[1..])
  }

  /** Whenever there is a copy, it is the object with every array emptied. */
  lemma {:induction false} CopyIsPruned(v: Value)
    requires WellFormed(v) && Copy(v).Copied?
    ensures Copy(v) == Copied(Pruned(v))
    decreases v, 0
  {
    match v {
      case Prim(_) =>
      case Arr(_) =>
      case Dict(es) =>
        CopyEntriesPruned(es, []);
        assert [] + es == es && [] + PrunedEntries(es) == PrunedEntries(es);
    }
  }

  lemma Regroup(a: seq<Entry>, e: Entry, b: seq<Entry>)
    ensures (a + [e]) + b == a + ([e] + b)
  {
  }

  lemma {:induction false} CopyEntriesPruned(es: seq<Entry>, done: seq<Entry>)
    requires UniqueKeys(done + es) && (forall e <- es :: WellFormed(e.value)) && CopyEntries(es, done).Some?
    ensures CopyEntries(es, done) == Some(done + PrunedEntries(es))
    decreases es
  {
    hide Copy, Pruned, SetEntry, WellFormed, HasKey;
    if es == [] {
      assert done + PrunedEntries(es) == done;
    } else {
      var e := es[0];
      CopyIsPruned(e.value);
      NewKey(done, es, Pruned(e.value));
      var done' := SetEntry(done, e.key, Pruned(e.value));
      CopyEntriesPruned(es[1..], done');
      Regroup(done, Entry(e.key, Pruned(e.value)), PrunedEntries(es[1..]));
    }
  }

  /** A null or a descriptor has no copy; under a key of a dictionary it makes the copy crash, however
      deep the dictionary stands, while as an element of an array it does no harm. */
  lemma NullInDictionary(key: CStr, file: int)
    ensures var nil, fd := Prim(Null), Prim(Fd(file));
      && Copy(nil) == NoCopy && Copy(fd) == NoCopy
      && Copy(Dict([Entry(key, nil)])) == Crash && Copy(Arr([Dict([Entry(key, fd)])])) == Crash
      && Copy(Arr([nil, fd])) == Copied(Arr([]))
  {
    var e, d := Entry(key, Prim(Null)), Dict([Entry(key, Prim(Fd(file)))]);
    assert e in [e] && d.entries[0] in d.entries && d in [d];
    CopyOutcomes(Dict([e]));
    CopyOutcomes(Arr([d]));
    CopyOutcomes(Arr([Prim(Null), Prim(Fd(file))]));
  }

  /** Every leaf has a copy and every array is empty. */
  ghost predicate Faithful(v: Value) {
    match v
    case Prim(p) => HasCopy(p)
    case Dict(es) => forall e <- es :: Faithful(e.value)
    case Arr(vs) => vs == []
  }

  /** The copy is the object exactly for objects without elements in arrays and without leaves of a
      type that has no copy. */
  lemma {:induction false} CopyIsTheObjectIff(v: Value)
    requires WellFormed(v)
    ensures Copy(v) == Copied(v) <==> Faithful(v)
    decreases v, 0
  {
    match v {
      case Prim(_) =>
      case Arr(_) =>
      case Dict(es) =>
        CopyEntriesIff(es, []);
        assert [] + es == es;
    }
  }

  lemma {:induction false} CopyEntriesIff(es: seq<Entry>, done: seq<Entry>)
    requires UniqueKeys(done + es) && forall e <- es :: WellFormed(e.value)
    ensures CopyEntries(es, done) == Some(done + es) <==> forall e <- es :: Faithful(e.value)
    decreases es
  {
    if es == [] {
      assert done + es == done;
    } else {
      var e, c := es[0], Copy(es[0].value);
      CopyIsTheObjectIff(e.value);
      assert es == [e] + es[1..];
      if c.Copied? {
        NewKey(done, es, c.v);
        var done' := SetEntry(done, e.key, c.v);
        if c.v == e.value {
          assert done' + es[1..] == done + es;
          CopyEntriesIff(es[1..], done');
        } else {
          CopyKeepsDone(es[1..], done');
          assert done'[|done|] != (done + es)[|done|];
        }
      }
    }
  }

  lemma {:induction false} CopyKeepsDone(es: seq<Entry>, done: seq<Entry>)
    requires UniqueKeys(done + es)
    ensures CopyEntries(es, done).Some? ==> done <= CopyEntries(es, done).value
    decreases es
  {
    if es != [] && Copy(es[0].value).Copied? {
      var v := Copy(es[0].value).v;
      NewKey(done, es, v);
      CopyKeepsDone(es[1..], SetEntry(done, es[0].key, v));
    }
  }
}
