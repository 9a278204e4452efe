/** When the hash of an object survives the wire. */
module HashWire {
  import opened Words
  import opened Values
  import opened Hashes
  import opened Wire
  import opened WireRoundTrip

  /** The ports of all endpoints in the tree, combined as the hash combines its parts. */
  function Ports(v: Value): Uint64
    decreases v, 0
  {
    match v
    case Prim(p) => if p.Endpoint? then p.port else 0
    case Dict(es) => EntryPorts(es)
    case Arr(vs) => ElemPorts(vs)
  }

  function EntryPorts(es: seq<Entry>): Uint64
    decreases es
  {
    if es == [] then 0 else Xor64(Ports(es[0].value), EntryPorts(es[1..]))
  }

  function ElemPorts(vs: seq<Value>): Uint64
    decreases vs
  {
    if vs == [] then 0 else Xor64(Ports(vs[0]), ElemPorts(vs[1..]))
  }

  lemma XorPairs(a: Uint64, b: Uint64, c: Uint64, d: Uint64)
    ensures Xor64(Xor64(a, b), Xor64(c, d)) == Xor64(Xor64(a, c), Xor64(b, d))
  {
    XorAssociates(a, b, Xor64(c, d));
    XorSwap(b, c, d);
    XorAssociates(a, c, Xor64(b, d));
  }

  /** The type collapses of the wire take the ports, and nothing else, out of the hash. */
  lemma {:induction false} NormaliseDropsPorts(v: Value)
    requires DataFree(v)
    ensures Hash(v) == Xor64(Hash(Normalise(v)), Ports(v))
    decreases v, 0
  {
    match v {
      case Prim(p) => XorZero(HashPrim(p));
      case Dict(es) => NormaliseEntriesDropsPorts(es);
      case Arr(vs) => NormaliseElemsDropsPorts(vs);
    }
  }

  lemma {:induction false} NormaliseEntriesDropsPorts(es: seq<Entry>)
    requires forall e <- es :: DataFree(e.value)
    ensures HashEntries(es) == Xor64(HashEntries(NormaliseEntries(es)), EntryPorts(es))
    decreases es
  {
    if es == [] {
      XorZero(0);
    } else {
      var e, fs := es[0], NormaliseEntries(es);
      NormaliseDropsPorts(e.value);
      NormaliseEntriesDropsPorts(es[1..]);
      assert fs[1..] == NormaliseEntries(es[1..]);
      XorAssociates(DataHash(e.key), Hash(Normalise(e.value)), Ports(e.value));
      XorPairs(EntryHash(fs[0]), Ports(e.value), HashEntries(fs[1..]), EntryPorts(es[1..]));
    }
  }

  lemma {:induction false} NormaliseElemsDropsPorts(vs: seq<Value>)
    requires forall x <- vs :: DataFree(x)
    ensures HashElems(vs) == Xor64(HashElems(NormaliseElems(vs)), ElemPorts(vs))
    decreases vs
  {
    if vs == [] {
      XorZero(0);
    } else {
      var ws := NormaliseElems(vs);
      NormaliseDropsPorts(vs[0]);
      NormaliseElemsDropsPorts(vs[1..]);
      assert ws[1..] == NormaliseElems(vs[1..]);
      XorPairs(Hash(ws[0]), Ports(vs[0]), HashElems(ws[1..]), ElemPorts(vs[1..]));
    }
  }

  lemma XorFixes(n: Uint64, p: Uint64)
    ensures Xor64(n, p) == n <==> p == 0
  {
    XorZero(n);
    XorZero(p);
    XorSelf(n);
    XorAssociates(n, n, p);
  }

  /** What arrives hashes like what was sent exactly when the ports of its endpoints cancel out. */
  lemma HashSurvivesTheWire(v: Value, rest: seq<Token>)
    requires WellFormed(v) && DataFree(v)
    ensures Decode(Emit(v) + rest).Object?
    ensures Hash(Decode(Emit(v) + rest).v) == Hash(v) <==> Ports(v) == 0
  {
    NormaliseDropsPorts(v);
    XorFixes(Hash(Normalise(v)), Ports(v));
    RoundTrip(v, rest);
  }

  /** A lone endpoint keeps its hash only with port 0, but two equal ones in an array always do. */
  lemma EndpointHashes(port: Uint64, rest: seq<Token>)
    ensures var one, two := Prim(Endpoint(port)), Arr([Prim(Endpoint(port)), Prim(Endpoint(port))]);
      && Decode(Emit(one) + rest) == Object(Prim(Bool(false)))
      && (Hash(Prim(Bool(false))) == Hash(one) <==> port == 0)
      && Decode(Emit(two) + rest) == Object(Arr([Prim(Bool(false)), Prim(Bool(false))]))
      && Hash(Arr([Prim(Bool(false)), Prim(Bool(false))])) == Hash(two)
  {
    var e := Prim(Endpoint(port));
    var two := Arr([e, e]);
    RoundTrip(e, rest);
    RoundTrip(two, rest);
    HashSurvivesTheWire(two, rest);
    assert [e, e][1..] == [e] && [e][1..] == [];
    assert NormaliseElems([e, e]) == [Normalise(e), Normalise(e)];
    assert ElemPorts([e, e]) == Xor64(port, ElemPorts([e]));
    assert ElemPorts([e]) == Xor64(port, 0);
    XorZero(port);
    XorSelf(port);
  }
}
