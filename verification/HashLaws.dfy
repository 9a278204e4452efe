/** What the hash is, said of each kind of object and of every way to put containers together. */
module HashLaws {
  import opened Words
  import opened Values
  import opened Hashes

  /** The polynomial of some bytes: 5381 * 33^n plus the sum of data[i] * 33^i, modulo 2^64. */
  function Polynomial(data: seq<Byte>): int {
    (5381 * Pow33(|data|) + PowerSum(data)) % TWO_TO_THE_64
  }

  /** The words that agree with an integer modulo 2^64: there is exactly one. */
  predicate WordOf(i: int, w: Uint64) {
    (w - i) % TWO_TO_THE_64 == 0
  }

  lemma WordIsUnique(i: int, w: Uint64, w': Uint64)
    requires WordOf(i, w) && WordOf(i, w')
    ensures w == w'
  {
    assert (w - i) - (w' - i) == w - w';
  }

  /** Scalars hash to their own word: 1 exactly for true, integers and dates modulo 2^64, unsigned
      integers and endpoints unchanged. Strings and data hash to the polynomial of their bytes, and
      all other leaves to 0. */
  lemma HashOfLeaf(p: Prim)
    ensures match p
      case Bool(b) => Hash(Prim(p)) == if b then 1 else 0
      case Int(i) => WordOf(i, Hash(Prim(p)))
      case Uint(u) => Hash(Prim(p)) == u
      case Date(t) => WordOf(t, Hash(Prim(p)))
      case Endpoint(port) => Hash(Prim(p)) == port
      case Str(s) => Hash(Prim(p)) == Polynomial(s)
      case Data(bytes) => Hash(Prim(p)) == Polynomial(bytes)
      case Null => Hash(Prim(p)) == 0
      case Fd(_) => Hash(Prim(p)) == 0
      case Double(_) => Hash(Prim(p)) == 0
      case Other(_) => Hash(Prim(p)) == 0
  {
    match p {
      case Str(s) => DataHashPolynomial(s);
      case Data(bytes) => DataHashPolynomial(bytes);
      case _ =>
    }
  }

  lemma {:induction false} HashEntriesConcat(es: seq<Entry>, fs: seq<Entry>)
    ensures HashEntries(es + fs) == Xor64(HashEntries(es), HashEntries(fs))
  {
    if es == [] {
      assert es + fs == fs;
      XorZero(HashEntries(fs));
    } else {
      assert (es + fs)[1..] == es[1..] + fs;
      HashEntriesConcat(es[1..], fs);
      XorAssociates(EntryHash(es[0]), HashEntries(es[1..]), HashEntries(fs));
    }
  }

  lemma {:induction false} HashElemsConcat(vs: seq<Value>, ws: seq<Value>)
    ensures HashElems(vs + ws) == Xor64(HashElems(vs), HashElems(ws))
  {
    if vs == [] {
      assert vs + ws == ws;
      XorZero(HashElems(ws));
    } else {
      assert (vs + ws)[1..] == vs[1..] + ws;
      HashElemsConcat(vs[1..], ws);
      XorAssociates(Hash(vs[0]), HashElems(vs[1..]), HashElems(ws));
    }
  }

  lemma OneEntry(key: CStr, v: Value)
    ensures EntryHash(Entry(key, v)) == Xor(Polynomial(key), Hash(v))
  {
    DataHashPolynomial(key);
  }

  /** A dictionary hashes to 0 when empty, with one entry to its key's polynomial combined with its
      value's hash, and in two parts to their hashes combined. */
  lemma HashOfDictionary(key: CStr, v: Value, es: seq<Entry>, fs: seq<Entry>)
    ensures Hash(Dict([])) == 0
    ensures Hash(Dict([Entry(key, v)])) == Xor(Polynomial(key), Hash(v))
    ensures Hash(Dict(es + fs)) == Xor(Hash(Dict(es)), Hash(Dict(fs)))
  {
    hide Xor, Polynomial, EntryHash;
    OneEntry(key, v);
    assert [Entry(key, v)][1..] == [];
    XorZero(EntryHash(Entry(key, v)));
    HashEntriesConcat(es, fs);
  }

  /** An array likewise, with its elements alone. */
  lemma HashOfArray(v: Value, vs: seq<Value>, ws: seq<Value>)
    ensures Hash(Arr([])) == 0
    ensures Hash(Arr([v])) == Hash(v)
    ensures Hash(Arr(vs + ws)) == Xor(Hash(Arr(vs)), Hash(Arr(ws)))
  {
    assert [v][1..] == [];
    XorZero(Hash(v));
    HashElemsConcat(vs, ws);
  }

  /** The bit of weight 2^k. */
  function Bit(n: nat, k: nat): nat {
    n / Pow2(k) % 2
  }

  lemma BitOfHalf(n: nat, k: nat)
    ensures Bit(n, k) == if k == 0 then n % 2 else Bit(n / 2, k - 1)
  {
    if k > 0 {
      HalveTwice(n, Pow2(k - 1));
    } else {
      assert Pow2(0) == 1;
    }
  }

  /** The combination is the exclusive or, bit by bit. */
  lemma {:induction false} XorBit(a: nat, b: nat, k: nat)
    ensures Bit(Xor(a, b), k) == if Bit(a, k) == Bit(b, k) then 0 else 1
    decreases k
  {
    hide Bit, Xor;
    BitOfHalf(a, k);
    BitOfHalf(b, k);
    BitOfHalf(Xor(a, b), k);
    XorOf(a, b, Xor(a, b));
    if k > 0 {
      XorBit(a / 2, b / 2, k - 1);
    }
  }
}
