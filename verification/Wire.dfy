/** Objects as D-Bus messages: what the writer emits, what the reader makes of it, and that the trip
    gives back the object up to the types D-Bus has no place for. A message body is a sequence of
    tokens; an iterator is the part of it that is still ahead. */
module Wire {
  import opened Words
  import opened Values
  import opened Entries

  datatype Kind = ArrayKind | VariantKind | DictEntryKind

  datatype Token =
    | TBool(b: bool)
    | TInt64(i: Int64)
    | TUint64(u: Uint64)
    | TString(s: CStr)
    | TFd(file: int)
    | Open(kind: Kind, sig: string)
    | Close

  // ----- Writing

  /** The signature of the value an object is written as. */
  function TypeString(v: Value): string {
    match v
    case Prim(Bool(_)) => "b"
    case Prim(Int(_)) => "x"
    case Prim(Uint(_)) => "t"
    case Prim(Date(_)) => "x"
    case Prim(Str(_)) => "s"
    case Prim(Data(_)) => "ay"
    case Dict(_) => "a{sv}"
    case Arr(_) => "av"
    case Prim(Fd(_)) => "h"
    case _ => "b"
  }

  predicate NotData(p: Prim) { !p.Data? }

  ghost predicate DataFree(v: Value) { AllPrims(v, NotData) }

  function EmitPrim(p: Prim): Token
    requires NotData(p)
  {
    match p
    case Bool(b) => TBool(b)
    case Int(i) => TInt64(i)
    case Uint(u) => TUint64(u)
    case Date(t) => TInt64(t)
    case Str(s) => TString(s)
    case Fd(f) => TFd(f)
    case _ => TBool(false)
  }

  ghost function Emit(v: Value): (ts: seq<Token>)
    requires DataFree(v)
    ensures ts != [] && !ts[0].Close?
    decreases v, 0
  {
    match v
    case Prim(p) => [EmitPrim(p)]
    case Dict(es) => [Open(ArrayKind, "{sv}")] + EmitEntries(es) + [Close]
    case Arr(vs) => [Open(ArrayKind, "v")] + EmitElems(vs) + [Close]
  }

  ghost function EmitEntries(es: seq<Entry>): seq<Token>
    requires forall e <- es :: DataFree(e.value)
    decreases es
  {
    if es == [] then [] else EmitEntry(es[0]) + EmitEntries(es[1..])
  }

  ghost function EmitEntry(e: Entry): seq<Token>
    requires DataFree(e.value)
    decreases e
  {
    [Open(DictEntryKind, ""), TString(e.key)] + EmitVariant(e.value) + [Close]
  }

  ghost function EmitVariant(v: Value): seq<Token>
    requires DataFree(v)
    decreases v, 1
  {
    [Open(VariantKind, TypeString(v))] + Emit(v) + [Close]
  }

  ghost function EmitElems(vs: seq<Value>): seq<Token>
    requires forall x <- vs :: DataFree(x)
    decreases vs
  {
    if vs == [] then [] else EmitVariant(vs[0]) + EmitElems(vs[1..])
  }

  // ----- Reading

  /** What is left after the closing marker of the d-th enclosing container. */
  function SkipOut(ts: seq<Token>, d: nat): (rest: seq<Token>)
    ensures |rest| <= |ts|
  {
    if d == 0 || ts == [] then ts
    else SkipOut(ts[1..], if ts[0].Open? then d + 1 else if ts[0].Close? then d - 1 else d)
  }

  /** dbus_message_iter_next: step over one complete value; at the end of a container, stay. */
  function Skip(ts: seq<Token>): (rest: seq<Token>)
    ensures |rest| <= |ts|
    ensures ts != [] && !ts[0].Close? ==> |rest| < |ts|
  {
    if ts == [] || ts[0].Close? then ts
    else if ts[0].Open? then SkipOut(ts[1..], 1)
    else ts[1..]
  }

  predicate AtEnd(ts: seq<Token>) { ts == [] || ts[0].Close? }

  /** What reading comes to: an object, the NULL of an unexpected type, or a run that fails. Failures
      are an assertion, a NULL put into a container, and a byte array, which is read through a
      pointer that was never set. */
  datatype Read = Object(v: Value) | NoObject | Failure

  /** The object read at the start of ts. */
  function Decode(ts: seq<Token>): Read
    decreases |ts|, 1
  {
    if ts == [] then NoObject
    else match ts[0]
      case TBool(b) => Object(Prim(Bool(b)))
      case TInt64(i) => Object(Prim(Int(i)))
      case TUint64(u) => Object(Prim(Uint(u)))
      case TString(s) => Object(Prim(Str(s)))
      case TFd(f) => Object(Prim(Fd(f)))
      case Open(ArrayKind, sig) =>
        if sig == "" then NoObject
        else if sig[0] == '{' then
          var es := DecodeDict(ts[1..], []);
          if es.Some? then Object(Dict(es.value)) else Failure
        else if sig[0] == 'v' then
          var vs := DecodeArr(ts[1..], []);
          if vs.Some? then Object(Arr(vs.value)) else Failure
        else if sig[0] == 'y' then Failure
        else NoObject
      case _ => NoObject
  }

  /** A string key and the tokens of the value in the variant after it. */
  function EntryParts(ts: seq<Token>): (r: Option<(CStr, seq<Token>)>)
    ensures r.Some? ==> !AtEnd(ts) && |r.value.1| < |ts|
  {
    if |ts| >= 3 && ts[0].Open? && ts[1].TString? && ts[2].Open? && ts[2].kind == VariantKind
    then Some((ts[1].s, ts[3..])) else None
  }

  /** The entries up to the end of the container, or None if the run fails on the way. */
  function DecodeDict(ts: seq<Token>, es: seq<Entry>): Option<seq<Entry>>
    decreases |ts|, 0
  {
    if AtEnd(ts) then Some(es)
    else
      var parts := EntryParts(ts);
      if parts == None then None
      else
        var r := Decode(parts.value.1);
        if r.Object? then DecodeDict(Skip(ts), SetEntry(es, parts.value.0, r.v)) else None
  }

  function DecodeArr(ts: seq<Token>, vs: seq<Value>): Option<seq<Value>>
    decreases |ts|, 0
  {
    if AtEnd(ts) then Some(vs)
    else if !(ts[0].Open? && ts[0].kind == VariantKind) then None
    else
      var r := Decode(ts[1..]);
      if r.Object? then DecodeArr(Skip(ts), vs + [r.v]) else None
  }

  // ----- The trip

  /** D-Bus has no dates: they travel as integers. What has no type there travels as false. */
  function NormalisePrim(p: Prim): Prim {
    match p
    case Date(t) => Int(t)
    case Bool(_) => p
    case Int(_) => p
    case Uint(_) => p
    case Str(_) => p
    case Fd(_) => p
    case _ => Bool(false)
  }

  function Normalise(v: Value): Value
    decreases v, 0
  {
    match v
    case Prim(p) => Prim(NormalisePrim(p))
    case Dict(es) => Dict(NormaliseEntries(es))
    case Arr(vs) => Arr(NormaliseElems(vs))
  }

  function NormaliseEntries(es: seq<Entry>): (fs: seq<Entry>)
    ensures |fs| == |es| && forall i :: 0 <= i < |es| ==> fs[i].key == es[i].key
    decreases es
  {
    if es == [] then []
    else [es[0].(value := Normalise(es[0].value))] + NormaliseEntries(es[1..])
  }

  function NormaliseElems(vs: seq<Value>): (ws: seq<Value>)
    ensures |ws| == |vs|
    decreases vs
  {
    if vs == [] then [] else [Normalise(vs[0])] + NormaliseElems(vs[1..])
  }

  lemma SkipOutPast(t: Token, ts: seq<Token>, d: nat)
    requires d > 0
    ensures SkipOut([t] + ts, d) == SkipOut(ts, if t.Open? then d + 1 else if t.Close? then d - 1 else d)
  {
    assert ([t] + ts)[1..] == ts;
  }

  /** Stepping out of a container steps over any complete value in it. */
  lemma {:induction false} SkipOutEmit(v: Value, rest: seq<Token>, d: nat)
    requires DataFree(v) && d > 0
    ensures SkipOut(Emit(v) + rest, d) == SkipOut(rest, d)
    decreases v, 0
  {
    match v {
      case Prim(p) => SkipOutPast(EmitPrim(p), rest, d);
      case Dict(es) =>
        var inner := EmitEntries(es) + ([Close] + rest);
        assert Emit(v) + rest == [Open(ArrayKind, "{sv}")] + inner;
        SkipOutPast(Open(ArrayKind, "{sv}"), inner, d);
        SkipOutEntries(es, [Close] + rest, d + 1);
        SkipOutPast(Close, rest, d + 1);
      case Arr(vs) =>
        var inner := EmitElems(vs) + ([Close] + rest);
        assert Emit(v) + rest == [Open(ArrayKind, "v")] + inner;
        SkipOutPast(Open(ArrayKind, "v"), inner, d);
        SkipOutElems(vs, [Close] + rest, d + 1);
        SkipOutPast(Close, rest, d + 1);
    }
  }

  lemma {:induction false} SkipOutVariant(v: Value, rest: seq<Token>, d: nat)
    requires DataFree(v) && d > 0
    ensures SkipOut(EmitVariant(v) + rest, d) == SkipOut(rest, d)
    decreases v, 1
  {
    var open, inner := Open(VariantKind, TypeString(v)), Emit(v) + ([Close] + rest);
    assert EmitVariant(v) + rest == [open] + inner;
    SkipOutPast(open, inner, d);
    SkipOutEmit(v, [Close] + rest, d + 1);
    SkipOutPast(Close, rest, d + 1);
  }

  lemma {:induction false} SkipOutEntry(e: Entry, rest: seq<Token>, d: nat)
    requires DataFree(e.value) && d > 0
    ensures SkipOut(EmitEntry(e) + rest, d) == SkipOut(rest, d)
    decreases e
  {
    var open, key := Open(DictEntryKind, ""), TString(e.key);
    var inner := EmitVariant(e.value) + ([Close] + rest);
    assert EmitEntry(e) + rest == [open] + ([key] + inner);
    SkipOutPast(open, [key] + inner, d);
    SkipOutPast(key, inner, d + 1);
    SkipOutVariant(e.value, [Close] + rest, d + 1);
    SkipOutPast(Close, rest, d + 1);
  }

  lemma {:induction false} SkipOutEntries(es: seq<Entry>, rest: seq<Token>, d: nat)
    requires (forall e <- es :: DataFree(e.value)) && d > 0
    ensures SkipOut(EmitEntries(es) + rest, d) == SkipOut(rest, d)
    decreases es
  {
    if es == [] {
      assert EmitEntries(es) + rest == rest;
    } else {
      var tail := EmitEntries(es[1..]) + rest;
      assert EmitEntries(es) + rest == EmitEntry(es[0]) + tail;
      SkipOutEntry(es[0], tail, d);
      SkipOutEntries(es[1..], rest, d);
    }
  }

  lemma {:induction false} SkipOutElems(vs: seq<Value>, rest: seq<Token>, d: nat)
    requires (forall x <- vs :: DataFree(x)) && d > 0
    ensures SkipOut(EmitElems(vs) + rest, d) == SkipOut(rest, d)
    decreases vs
  {
    if vs == [] {
      assert EmitElems(vs) + rest == rest;
    } else {
      var tail := EmitElems(vs[1..]) + rest;
      assert EmitElems(vs) + rest == EmitVariant(vs[0]) + tail;
      SkipOutVariant(vs[0], tail, d);
      SkipOutElems(vs[1..], rest, d);
    }
  }
}
