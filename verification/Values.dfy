/** XPC objects as values. Strings are C strings: bytes without NUL. */
module Values {
  import opened Words

  type CStr = s: seq<Byte> | 0 !in s

  /** The types that are neither dictionary nor array. `File` is an open file description, which is
      what stays the same when a descriptor is duplicated. `Other` covers the remaining types. */
  datatype Prim =
    | Null
    | Bool(b: bool)
    | Int(i: Int64)
    | Uint(u: Uint64)
    | Date(time: Int64)
    | Str(str: CStr)
    | Data(bytes: seq<Byte>)
    | Fd(file: int)
    | Endpoint(port: Uint64)
    | Double(raw: Uint64)
    | Other(name: CStr)

  datatype Value = Prim(p: Prim) | Dict(entries: seq<Entry>) | Arr(elems: seq<Value>)

  datatype Entry = Entry(key: CStr, value: Value)

  predicate HasKey(es: seq<Entry>, key: CStr) {
    exists i :: 0 <= i < |es| && es[i].key == key
  }

  predicate UniqueKeys(es: seq<Entry>) {
    forall i, j :: 0 <= i < j < |es| ==> es[i].key != es[j].key
  }

  /** Every dictionary in the tree has pairwise distinct keys. */
  ghost predicate WellFormed(v: Value) {
    match v
    case Prim(_) => true
    case Dict(es) => UniqueKeys(es) && forall e <- es :: WellFormed(e.value)
    case Arr(vs) => forall x <- vs :: WellFormed(x)
  }

  /** No leaf of the tree has a type that p excludes. */
  ghost predicate AllPrims(v: Value, p: Prim -> bool) {
    match v
    case Prim(q) => p(q)
    case Dict(es) => forall e <- es :: AllPrims(e.value, p)
    case Arr(vs) => forall x <- vs :: AllPrims(x, p)
  }
}
