/** Reading back what was written. */
module WireRoundTrip {
  import opened Values
  import opened Entries
  import opened Wire

  lemma SkipOpen(open: Token, inner: seq<Token>)
    requires open.Open?
    ensures Skip([open] + inner) == SkipOut(inner, 1)
  {
    assert ([open] + inner)[1..] == inner;
  }

  /** The iterator steps over exactly one emitted value. */
  lemma SkipEmit(v: Value, rest: seq<Token>)
    requires DataFree(v)
    ensures Skip(Emit(v) + rest) == rest
  {
    match v {
      case Prim(p) => assert ([EmitPrim(p)] + rest)[1..] == rest;
      case Dict(es) =>
        assert Emit(v) + rest == [Open(ArrayKind, "{sv}")] + (EmitEntries(es) + ([Close] + rest));
        SkipOpen(Open(ArrayKind, "{sv}"), EmitEntries(es) + ([Close] + rest));
        SkipOutEntries(es, [Close] + rest, 1);
        SkipOutPast(Close, rest, 1);
      case Arr(vs) =>
        assert Emit(v) + rest == [Open(ArrayKind, "v")] + (EmitElems(vs) + ([Close] + rest));
        SkipOpen(Open(ArrayKind, "v"), EmitElems(vs) + ([Close] + rest));
        SkipOutElems(vs, [Close] + rest, 1);
        SkipOutPast(Close, rest, 1);
    }
  }

  lemma SkipVariant(v: Value, rest: seq<Token>)
    requires DataFree(v)
    ensures Skip(EmitVariant(v) + rest) == rest
  {
    var open, inner := Open(VariantKind, TypeString(v)), Emit(v) + ([Close] + rest);
    assert EmitVariant(v) + rest == [open] + inner;
    SkipOpen(open, inner);
    SkipOutEmit(v, [Close] + rest, 1);
    SkipOutPast(Close, rest, 1);
  }

  lemma SkipEntry(e: Entry, rest: seq<Token>)
    requires DataFree(e.value)
    ensures Skip(EmitEntry(e) + rest) == rest
  {
    var open, key := Open(DictEntryKind, ""), TString(e.key);
    var inner := EmitVariant(e.value) + ([Close] + rest);
    assert EmitEntry(e) + rest == [open] + ([key] + inner);
    SkipOpen(open, [key] + inner);
    SkipOutPast(key, inner, 1);
    SkipOutVariant(e.value, [Close] + rest, 1);
    SkipOutPast(Close, rest, 1);
  }

  /** Reading what was written gives the normalised object, and stepping past it leaves exactly the
      tokens that follow. */
  lemma {:induction false} RoundTrip(v: Value, rest: seq<Token>)
    requires DataFree(v) && WellFormed(v)
    ensures Decode(Emit(v) + rest) == Object(Normalise(v))
    ensures Skip(Emit(v) + rest) == rest
    decreases v, 0
  {
    hide Skip, DecodeDict, DecodeArr, EmitEntries, EmitElems;
    SkipEmit(v, rest);
    match v {
      case Prim(_) =>
      case Dict(es) =>
        var body := EmitEntries(es) + ([Close] + rest);
        assert Emit(v) + rest == [Open(ArrayKind, "{sv}")] + body;
        assert (Emit(v) + rest)[1..] == body;
        RoundTripEntries(es, [], [Close] + rest);
        assert [] + NormaliseEntries(es) == NormaliseEntries(es);
      case Arr(vs) =>
        var body := EmitElems(vs) + ([Close] + rest);
        assert Emit(v) + rest == [Open(ArrayKind, "v")] + body;
        assert (Emit(v) + rest)[1..] == body;
        RoundTripElems(vs, [], [Close] + rest);
        assert [] + NormaliseElems(vs) == NormaliseElems(vs);
    }
  }

  lemma {:induction false} RoundTripEntries(es: seq<Entry>, done: seq<Entry>, rest: seq<Token>)
    requires forall e <- es :: DataFree(e.value) && WellFormed(e.value)
    requires UniqueKeys(done + es) && AtEnd(rest)
    ensures DecodeDict(EmitEntries(es) + rest, done) == Some(done + NormaliseEntries(es))
    decreases es
  {
    hide Emit, EmitEntry, Decode, Normalise;
    if es == [] {
      assert EmitEntries(es) + rest == rest;
      assert done + NormaliseEntries(es) == done;
    } else {
      var e, tail := es[0], EmitEntries(es[1..]) + rest;
      assert EmitEntries(es) + rest == EmitEntry(e) + tail;
      RoundTrip(e.value, [Close, Close] + tail);
      ReadEntry(e, tail, done);
      var done' := SetEntry(done, e.key, Normalise(e.value));
      NewKey(done, es, Normalise(e.value));
      RoundTripEntries(es[1..], done', rest);
      Regroup(done, Entry(e.key, Normalise(e.value)), NormaliseEntries(es[1..]));
    }
  }

  lemma Regroup<T>(a: seq<T>, x: T, b: seq<T>)
    ensures (a + [x]) + b == a + ([x] + b)
  {
  }

  lemma ReadEntry(e: Entry, tail: seq<Token>, done: seq<Entry>)
    requires DataFree(e.value)
    requires Decode(Emit(e.value) + ([Close, Close] + tail)) == Object(Normalise(e.value))
    ensures DecodeDict(EmitEntry(e) + tail, done) == DecodeDict(tail, SetEntry(done, e.key, Normalise(e.value)))
  {
    EntryStart(e, tail);
    SkipEntry(e, tail);
  }

  lemma EntryStart(e: Entry, tail: seq<Token>)
    requires DataFree(e.value)
    ensures var ts := EmitEntry(e) + tail;
      !AtEnd(ts) && EntryParts(ts) == Some((e.key, Emit(e.value) + ([Close, Close] + tail)))
  {
    var ts, after := EmitEntry(e) + tail, Emit(e.value) + ([Close, Close] + tail);
    var start := [Open(DictEntryKind, ""), TString(e.key), Open(VariantKind, TypeString(e.value))];
    assert EmitEntry(e) == start + Emit(e.value) + [Close, Close];
    assert ts == start + after;
    assert ts[3..] == after;
  }

  lemma {:induction false} RoundTripElems(vs: seq<Value>, done: seq<Value>, rest: seq<Token>)
    requires forall x <- vs :: DataFree(x) && WellFormed(x)
    requires AtEnd(rest)
    ensures DecodeArr(EmitElems(vs) + rest, done) == Some(done + NormaliseElems(vs))
    decreases vs
  {
    hide Emit, EmitVariant, Decode, Normalise;
    if vs == [] {
      assert EmitElems(vs) + rest == rest;
      assert done + NormaliseElems(vs) == done;
    } else {
      var v, tail := vs[0], EmitElems(vs[1..]) + rest;
      assert EmitElems(vs) + rest == EmitVariant(v) + tail;
      RoundTrip(v, [Close] + tail);
      ReadElem(v, tail, done);
      RoundTripElems(vs[1..], done + [Normalise(v)], rest);
      Regroup(done, Normalise(v), NormaliseElems(vs[1..]));
    }
  }

  lemma ReadElem(v: Value, tail: seq<Token>, done: seq<Value>)
    requires DataFree(v) && Decode(Emit(v) + ([Close] + tail)) == Object(Normalise(v))
    ensures DecodeArr(EmitVariant(v) + tail, done) == DecodeArr(tail, done + [Normalise(v)])
  {
    var after := Emit(v) + ([Close] + tail);
    assert EmitVariant(v) + tail == [Open(VariantKind, TypeString(v))] + after;
    assert (EmitVariant(v) + tail)[1..] == after;
    SkipVariant(v, tail);
  }

  /** What each leaf is written as and read as: dates as integers, types unknown to D-Bus as false. */
  lemma LeafAcross(p: Prim, rest: seq<Token>)
    requires NotData(p)
    ensures var ts, r := Emit(Prim(p)), Decode(Emit(Prim(p)) + rest);
      match p
      case Bool(b) => ts == [TBool(b)] && r == Object(Prim(Bool(b)))
      case Int(i) => ts == [TInt64(i)] && r == Object(Prim(Int(i)))
      case Uint(u) => ts == [TUint64(u)] && r == Object(Prim(Uint(u)))
      case Str(s) => ts == [TString(s)] && r == Object(Prim(Str(s)))
      case Fd(f) => ts == [TFd(f)] && r == Object(Prim(Fd(f)))
      case Date(t) => ts == [TInt64(t)] && r == Object(Prim(Int(t)))
      case Null => ts == [TBool(false)] && r == Object(Prim(Bool(false)))
      case Endpoint(_) => ts == [TBool(false)] && r == Object(Prim(Bool(false)))
      case Double(_) => ts == [TBool(false)] && r == Object(Prim(Bool(false)))
      case Other(_) => ts == [TBool(false)] && r == Object(Prim(Bool(false)))
      case Data(_) => false
  {
  }

  /** On any tokens: what stands at the start decides whether there can be an object, and of which
      type; a byte array always fails, and only containers can. */
  lemma WhatCanBeRead(ts: seq<Token>)
    ensures Decode(ts).NoObject? <==>
      AtEnd(ts) || (ts[0].Open? && (ts[0].kind != ArrayKind || ts[0].sig == "" || ts[0].sig[0] !in {'{', 'v', 'y'}))
    ensures Decode(ts).Failure? ==> ts[0].Open? && ts[0].kind == ArrayKind && ts[0].sig != ""
    ensures !AtEnd(ts) && ts[0].Open? && ts[0].kind == ArrayKind && ts[0].sig != "" ==>
      && (ts[0].sig[0] == '{' && Decode(ts).Object? ==> Decode(ts).v.Dict?)
      && (ts[0].sig[0] == 'v' && Decode(ts).Object? ==> Decode(ts).v.Arr?)
      && (ts[0].sig[0] == 'y' ==> Decode(ts).Failure?)
  {
  }

  // ----- When nothing changes

  /** The leaves that keep their type on the wire. */
  predicate Travels(p: Prim) { p.Bool? || p.Int? || p.Uint? || p.Str? || p.Fd? }

  /** The trip is lossless exactly for trees of those leaves. */
  lemma {:induction false} NormaliseIsIdentityIff(v: Value)
    ensures Normalise(v) == v <==> AllPrims(v, Travels)
    decreases v, 0
  {
    match v {
      case Prim(_) =>
      case Dict(es) => NormaliseEntriesIdentityIff(es);
      case Arr(vs) => NormaliseElemsIdentityIff(vs);
    }
  }

  lemma {:induction false} NormaliseEntriesIdentityIff(es: seq<Entry>)
    ensures NormaliseEntries(es) == es <==> forall e <- es :: AllPrims(e.value, Travels)
    decreases es
  {
    if es != [] {
      NormaliseIsIdentityIff(es[0].value);
      NormaliseEntriesIdentityIff(es[1..]);
      assert es == [es[0]] + es[1..];
      assert NormaliseEntries(es)[1..] == NormaliseEntries(es[1..]);
    }
  }

  lemma {:induction false} NormaliseElemsIdentityIff(vs: seq<Value>)
    ensures NormaliseElems(vs) == vs <==> forall x <- vs :: AllPrims(x, Travels)
    decreases vs
  {
    if vs != [] {
      NormaliseIsIdentityIff(vs[0]);
      NormaliseElemsIdentityIff(vs[1..]);
      assert vs == [vs[0]] + vs[1..];
      assert NormaliseElems(vs)[1..] == NormaliseElems(vs[1..]);
    }
  }

  /** What has made the trip once travels unchanged, and is still well formed. */
  lemma {:induction false} NormaliseTravels(v: Value)
    ensures AllPrims(Normalise(v), Travels) && DataFree(Normalise(v))
    ensures WellFormed(v) ==> WellFormed(Normalise(v))
    decreases v, 0
  {
    match v {
      case Prim(_) =>
      case Dict(es) => NormaliseEntriesTravel(es);
      case Arr(vs) => NormaliseElemsTravel(vs);
    }
  }

  lemma {:induction false} NormaliseEntriesTravel(es: seq<Entry>)
    ensures forall e <- NormaliseEntries(es) :: AllPrims(e.value, Travels) && DataFree(e.value)
    ensures (forall e <- es :: WellFormed(e.value)) ==> forall e <- NormaliseEntries(es) :: WellFormed(e.value)
    decreases es
  {
    if es != [] {
      NormaliseTravels(es[0].value);
      NormaliseEntriesTravel(es[1..]);
    }
  }

  lemma {:induction false} NormaliseElemsTravel(vs: seq<Value>)
    ensures forall x <- NormaliseElems(vs) :: AllPrims(x, Travels) && DataFree(x)
    ensures (forall x <- vs :: WellFormed(x)) ==> forall x <- NormaliseElems(vs) :: WellFormed(x)
    decreases vs
  {
    if vs != [] {
      NormaliseTravels(vs[0]);
      NormaliseElemsTravel(vs[1..]);
    }
  }

  /** A second trip is the identity. */
  lemma SecondTrip(v: Value, rest: seq<Token>)
    requires WellFormed(v)
    ensures DataFree(Normalise(v)) && Decode(Emit(Normalise(v)) + rest) == Object(Normalise(v))
  {
    NormaliseTravels(v);
    NormaliseIsIdentityIff(Normalise(v));
    RoundTrip(Normalise(v), rest);
  }
}
