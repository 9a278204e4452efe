/** xpc_hash: the string hash, the fold over containers, and what the hash does not see. */
module Hashes {
  import opened Words
  import opened Values

  // ----- Bytes

  /** xpc_data_hash consumes the bytes from the last to the first. */
  function DataHash(data: seq<Byte>): (h: Uint64) {
    if data == [] then 5381 else (33 * DataHash(data[1..]) + data[0]) % 0x1_0000_0000_0000_0000
  }

  method DataHashLoop(data: seq<Byte>) returns (hash: Uint64)
    ensures hash == DataHash(data)
  {
    hash := 5381;
    var length := |data|;
    while length > 0
      invariant 0 <= length <= |data|
      invariant hash == DataHash(data[length..])
    {
      length := length - 1;
      assert data[length..][1..] == data[length + 1..];
      ShiftAndAdd(hash, data[length]);
      hash := ((hash * 32) % 0x1_0000_0000_0000_0000 + hash + data[length]) % 0x1_0000_0000_0000_0000;
    }
  }

  /** The shift by five bits drops what leaves the word. */
  lemma ShiftAndAdd(hash: Uint64, c: Byte)
    ensures ((hash * 32) % TWO_TO_THE_64 + hash + c) % TWO_TO_THE_64 == (33 * hash + c) % TWO_TO_THE_64
  {
  }

  function Pow33(n: nat): nat {
    if n == 0 then 1 else 33 * Pow33(n - 1)
  }

  /** The sum of data[i] * 33^i. */
  function PowerSum(data: seq<Byte>): nat {
    if data == [] then 0
    else PowerSum(data[..|data| - 1]) + data[|data| - 1] * Pow33(|data| - 1)
  }

  lemma {:induction false} PowerSumHorner(data: seq<Byte>)
    requires data != []
    ensures PowerSum(data) == data[0] + 33 * PowerSum(data[1..])
  {
    var n := |data|;
    if n > 1 {
      PowerSumHorner(data[..n - 1]);
      assert data[..n - 1][1..] == data[1..][..n - 2];
      assert data[n - 1] * Pow33(n - 1) == 33 * (data[n - 1] * Pow33(n - 2));
    } else {
      assert data[..0] == [] && data[1..] == [];
    }
  }

  /** Hashing a concatenation: a polynomial in 33, modulo 2^64. */
  lemma DataHashConcat(a: seq<Byte>, b: seq<Byte>)
    ensures DataHash(a + b) == (Pow33(|a|) * DataHash(b) + PowerSum(a)) % TWO_TO_THE_64
  {
    var q := DataHashWraps(a, b);
    Remainder(Pow33(|a|) * DataHash(b) + PowerSum(a), q, DataHash(a + b));
  }

  lemma Remainder(n: nat, q: nat, r: Uint64)
    requires n == TWO_TO_THE_64 * q + r
    ensures r == n % TWO_TO_THE_64
  {
  }

  /** The same without the modulus: q is how often the word wrapped around. */
  lemma {:induction false} DataHashWraps(a: seq<Byte>, b: seq<Byte>) returns (q: nat)
    ensures Pow33(|a|) * DataHash(b) + PowerSum(a) == TWO_TO_THE_64 * q + DataHash(a + b)
  {
    if a == [] {
      assert a + b == b;
      q := 0;
    } else {
      var q' := DataHashWraps(a[1..], b);
      assert (a + b)[1..] == a[1..] + b;
      q := 33 * q' + (33 * DataHash(a[1..] + b) + a[0]) / TWO_TO_THE_64;
      PowerSumHorner(a);
      Pow33Step(|a|, DataHash(b));
    }
  }

  lemma Pow33Step(n: nat, h: nat)
    requires n > 0
    ensures Pow33(n) * h == 33 * (Pow33(n - 1) * h)
  {
    var p := Pow33(n - 1);
    assert (33 * p) * h == 33 * (p * h);
  }

  /** The closed form of the byte hash. */
  lemma DataHashPolynomial(data: seq<Byte>)
    ensures DataHash(data) == (5381 * Pow33(|data|) + PowerSum(data)) % TWO_TO_THE_64
  {
    var q := DataHashWraps(data, []);
    assert data + [] == data;
    Remainder(5381 * Pow33(|data|) + PowerSum(data), q, DataHash(data));
  }

  // ----- Objects

  function HashPrim(p: Prim): Uint64 {
    match p
    case Bool(b) => if b then 1 else 0
    case Int(i) => AsUnsigned(i)
    case Uint(u) => u
    case Date(t) => AsUnsigned(t)
    case Endpoint(port) => port
    case Str(s) => DataHash(s)
    case Data(bytes) => DataHash(bytes)
    case _ => 0
  }

  function Hash(v: Value): Uint64
    decreases v, 0
  {
    match v
    case Prim(p) => HashPrim(p)
    case Dict(es) => HashEntries(es)
    case Arr(vs) => HashElems(vs)
  }

  function EntryHash(e: Entry): Uint64
    decreases e
  {
    Xor64(DataHash(e.key), Hash(e.value))
  }

  function HashEntries(es: seq<Entry>): Uint64
    decreases es
  {
    if es == [] then 0 else Xor64(EntryHash(es[0]), HashEntries(es[1..]))
  }

  function HashElems(vs: seq<Value>): Uint64
    decreases vs
  {
    if vs == [] then 0 else Xor64(Hash(vs[0]), HashElems(vs[1..]))
  }

  /** The traversal with its accumulator, entry by entry and element by element. */
  method HashObject(v: Value) returns (hash: Uint64)
    ensures hash == Hash(v)
    decreases v
  {
    hash := 0;
    match v {
      case Prim(p) =>
        match p {
          case Str(s) => hash := DataHashLoop(s);
          case Data(bytes) => hash := DataHashLoop(bytes);
          case _ => hash := HashPrim(p);
        }
      case Dict(es) =>
        XorZero(HashEntries(es));
        assert es[0..] == es;
        for i := 0 to |es|
          invariant Xor64(hash, HashEntries(es[i..])) == HashEntries(es)
        {
          var k := DataHashLoop(es[i].key);
          var h := HashObject(es[i].value);
          assert es[i..][0] == es[i] && es[i..][1..] == es[i + 1..];
          XorFold(hash, k, h, HashEntries(es[i + 1..]));
          hash := Xor64(hash, k);
          hash := Xor64(hash, h);
        }
        XorZero(hash);
      case Arr(vs) =>
        XorZero(HashElems(vs));
        assert vs[0..] == vs;
        for i := 0 to |vs|
          invariant Xor64(hash, HashElems(vs[i..])) == HashElems(vs)
        {
          var h := HashObject(vs[i]);
          assert vs[i..][0] == vs[i] && vs[i..][1..] == vs[i + 1..];
          XorAssociates(hash, h, HashElems(vs[i + 1..]));
          hash := Xor64(hash, h);
        }
        XorZero(hash);
    }
  }

  lemma XorFold(hash: Uint64, k: Uint64, h: Uint64, rest: Uint64)
    ensures Xor64(hash, Xor64(Xor64(k, h), rest)) == Xor64(Xor64(Xor64(hash, k), h), rest)
  {
    XorAssociates(k, h, rest);
    XorAssociates(hash, k, Xor(h, rest));
    XorAssociates(Xor(hash, k), h, rest);
  }

  // ----- Equality up to the order of dictionary entries

  function Without<T>(s: seq<T>, j: nat): seq<T>
    requires j < |s|
  {
    s[..j] + s[j + 1..]
  }

  /** Equal up to reordering the entries of dictionaries, at every level. */
  ghost predicate Equiv(v: Value, w: Value)
    decreases v, 0
  {
    match v
    case Prim(_) => v == w
    case Dict(es) => w.Dict? && EquivEntries(es, w.entries)
    case Arr(vs) => w.Arr? && EquivElems(vs, w.elems)
  }

  ghost predicate EquivEntries(es: seq<Entry>, fs: seq<Entry>)
    decreases es
  {
    if es == [] then fs == []
    else (exists j: nat :: j < |fs| && fs[j].key == es[0].key &&
            Equiv(es[0].value, fs[j].value) && EquivEntries(es[1..], Without(fs, j)))
  }

  ghost predicate EquivElems(vs: seq<Value>, ws: seq<Value>)
    decreases vs
  {
    if vs == [] then ws == [] else ws != [] && Equiv(vs[0], ws[0]) && EquivElems(vs[1..], ws[1..])
  }

  /** An entry can be taken out of the fold from any place. */
  lemma {:induction false} HashEntriesPick(es: seq<Entry>, j: nat)
    requires j < |es|
    ensures HashEntries(es) == Xor64(EntryHash(es[j]), HashEntries(Without(es, j)))
  {
    if j == 0 {
      assert Without(es, 0) == es[1..];
    } else {
      var w := Without(es, j);
      HashEntriesPick(es[1..], j - 1);
      assert w[0] == es[0] && w[1..] == Without(es[1..], j - 1);
      XorSwap(EntryHash(es[0]), EntryHash(es[j]), HashEntries(w[1..]));
    }
  }

  lemma XorSwap(a: Uint64, b: Uint64, c: Uint64)
    ensures Xor64(a, Xor64(b, c)) == Xor64(b, Xor64(a, c))
  {
    XorAssociates(a, b, c);
    XorCommutes(a, b);
    XorAssociates(b, a, c);
  }

  /** The hash respects that equality. */
  lemma {:induction false} EquivHashesAlike(v: Value, w: Value)
    requires Equiv(v, w)
    ensures Hash(v) == Hash(w)
    decreases v, 0
  {
    match v {
      case Prim(_) =>
      case Dict(es) => EquivEntriesHashAlike(es, w.entries);
      case Arr(vs) => EquivElemsHashAlike(vs, w.elems);
    }
  }

  lemma {:induction false} EquivEntriesHashAlike(es: seq<Entry>, fs: seq<Entry>)
    requires EquivEntries(es, fs)
    ensures HashEntries(es) == HashEntries(fs)
    decreases es
  {
    if es != [] {
      var j: nat :| j < |fs| && fs[j].key == es[0].key
        && Equiv(es[0].value, fs[j].value) && EquivEntries(es[1..], Without(fs, j));
      EquivHashesAlike(es[0].value, fs[j].value);
      EquivEntriesHashAlike(es[1..], Without(fs, j));
      HashEntriesPick(fs, j);
    }
  }

  lemma {:induction false} EquivElemsHashAlike(vs: seq<Value>, ws: seq<Value>)
    requires EquivElems(vs, ws)
    ensures HashElems(vs) == HashElems(ws)
    decreases vs
  {
    if vs != [] {
      EquivHashesAlike(vs[0], ws[0]);
      EquivElemsHashAlike(vs[1..], ws[1..]);
    }
  }
}
