/** The codec over message iterators: append_xpc writes into a message, and the deserialisers advance
    an iterator while filling containers. Both are proved against module `Wire`. */
module Codec {
  import opened Values
  import opened Entries
  import opened Wire
  import opened Containers

  /** A message being written. Nested appending iterators all write at its end. */
  class Message {
    var body: seq<Token>

    constructor ()
      ensures body == []
    {
      body := [];
    }

    method Append(t: Token)
      modifies this
      ensures body == old(body) + [t]
    {
      body := body + [t];
    }
  }

  method AppendXpc(v: Value, msg: Message)
    requires DataFree(v)
    modifies msg
    ensures msg.body == old(msg.body) + Emit(v)
    decreases v, 0
  {
    match v {
      case Prim(p) => msg.Append(EmitPrim(p));
      case Dict(es) => AppendDict(es, msg);
      case Arr(vs) => AppendArr(vs, msg);
    }
  }

  method AppendDict(es: seq<Entry>, msg: Message)
    requires forall e <- es :: DataFree(e.value)
    modifies msg
    ensures msg.body == old(msg.body) + [Open(ArrayKind, "{sv}")] + EmitEntries(es) + [Close]
    decreases es
  {
    msg.Append(Open(ArrayKind, "{sv}"));
    ghost var start := msg.body;
    for i := 0 to |es|
      invariant msg.body + EmitEntries(es[i..]) == start + EmitEntries(es)
    {
      ghost var before := msg.body;
      AppendEntry(es[i], msg);
      assert es[i..][0] == es[i] && es[i..][1..] == es[i + 1..];
      assert before + EmitEntry(es[i]) + EmitEntries(es[i + 1..]) == before + EmitEntries(es[i..]);
    }
    msg.Append(Close);
  }

  method AppendEntry(e: Entry, msg: Message)
    requires DataFree(e.value)
    modifies msg
    ensures msg.body == old(msg.body) + EmitEntry(e)
    decreases e
  {
    msg.Append(Open(DictEntryKind, ""));
    msg.Append(TString(e.key));
    AppendVariant(e.value, msg);
    msg.Append(Close);
  }

  method AppendVariant(v: Value, msg: Message)
    requires DataFree(v)
    modifies msg
    ensures msg.body == old(msg.body) + EmitVariant(v)
    decreases v, 1
  {
    msg.Append(Open(VariantKind, TypeString(v)));
    AppendXpc(v, msg);
    msg.Append(Close);
  }

  method AppendArr(vs: seq<Value>, msg: Message)
    requires forall x <- vs :: DataFree(x)
    modifies msg
    ensures msg.body == old(msg.body) + [Open(ArrayKind, "v")] + EmitElems(vs) + [Close]
    decreases vs
  {
    msg.Append(Open(ArrayKind, "v"));
    ghost var start := msg.body;
    for i := 0 to |vs|
      invariant msg.body + EmitElems(vs[i..]) == start + EmitElems(vs)
    {
      AppendVariant(vs[i], msg);
      assert vs[i..][0] == vs[i] && vs[i..][1..] == vs[i + 1..];
    }
    msg.Append(Close);
  }

  /** A reading iterator: the tokens still ahead of it. It ends where its container closes. */
  class Iter {
    var rest: seq<Token>

    constructor (rest: seq<Token>)
      ensures this.rest == rest
    {
      this.rest := rest;
    }

    /** dbus_message_iter_get_arg_type, with None for DBUS_TYPE_INVALID. */
    method Arg() returns (t: Option<Token>)
      ensures t == if AtEnd(rest) then None else Some(rest[0])
    {
      t := if rest == [] || rest[0].Close? then None else Some(rest[0]);
    }

    method Recurse() returns (sub: Iter)
      requires !AtEnd(rest)
      ensures fresh(sub) && sub.rest == rest[1..]
    {
      sub := new Iter(rest[1..]);
    }

    method Next()
      modifies this
      ensures rest == Skip(old(rest))
    {
      rest := Skip(rest);
    }
  }

  method DeserialiseObject(iter: Iter) returns (r: Read)
    ensures r == Decode(iter.rest)
    decreases |iter.rest|, 1
  {
    var arg := iter.Arg();
    if arg == None {
      return NoObject;
    }
    match arg.value {
      case TBool(b) => r := Object(Prim(Bool(b)));
      case TInt64(i) => r := Object(Prim(Int(i)));
      case TUint64(u) => r := Object(Prim(Uint(u)));
      case TString(s) => r := Object(Prim(Str(s)));
      case TFd(f) => r := Object(Prim(Fd(f)));
      case Open(ArrayKind, sig) =>
        if sig != "" && sig[0] == '{' {
          var sub := iter.Recurse();
          r := DeserialiseDict(sub);
        } else if sig != "" && sig[0] == 'v' {
          var sub := iter.Recurse();
          r := DeserialiseArr(sub);
        } else {
          r := if sig != "" && sig[0] == 'y' then Failure else NoObject;
        }
      case _ => r := NoObject;
    }
  }

  method DeserialiseDict(iter: Iter) returns (r: Read)
    modifies iter
    ensures var es := DecodeDict(old(iter.rest), []);
      r == if es.Some? then Object(Dict(es.value)) else Failure
    decreases |iter.rest|, 2
  {
    hide Skip, SetEntry, EntryParts, Decode, UniqueKeys, Dictionary.Valid;
    var dict := new Dictionary.Empty(0);
    var arg := iter.Arg();
    while arg != None
      invariant dict.Valid() && fresh(dict.Repr()) && |iter.rest| <= |old(iter.rest)|
      invariant DecodeDict(iter.rest, dict.Entries()) == DecodeDict(old(iter.rest), [])
      invariant arg == None <==> AtEnd(iter.rest)
      decreases |iter.rest|
    {
      var ok := ReadEntry(iter, dict);
      if !ok {
        return Failure;
      }
      arg := iter.Arg();
    }
    var es, _ := dict.Apply(_ => true);
    r := Object(Dict(es));
  }

  /** One entry: recurse for its key, step to its variant, recurse for its value, set it, step on. */
  method ReadEntry(iter: Iter, dict: Dictionary) returns (ok: bool)
    requires !AtEnd(iter.rest) && dict.Valid() && iter !in dict.Repr()
    modifies iter, dict.Repr()
    ensures dict.Valid() && fresh(dict.Repr() - old(dict.Repr()))
    ensures ok ==> |iter.rest| < |old(iter.rest)|
    ensures ok ==> DecodeDict(iter.rest, dict.Entries()) == old(DecodeDict(iter.rest, dict.Entries()))
    ensures !ok ==> old(DecodeDict(iter.rest, dict.Entries())) == None
    decreases |iter.rest|, 0
  {
    hide SetEntry, EntryParts, Decode, UniqueKeys;
    var key, sub2 := KeyAndValue(iter);
    if key == None {
      return false;
    }
    var v := DeserialiseObject(sub2);
    if !v.Object? {
      return false;
    }
    dict.SetValue(key.value, v.v);
    iter.Next();
    return true;
  }

  method KeyAndValue(iter: Iter) returns (key: Option<CStr>, sub2: Iter)
    requires !AtEnd(iter.rest)
    ensures key.Some? == EntryParts(iter.rest).Some?
    ensures key.Some? ==> (key.value, sub2.rest) == EntryParts(iter.rest).value
  {
    key, sub2 := None, iter;
    if !iter.rest[0].Open? {
      return;
    }
    var sub := iter.Recurse();
    var arg := sub.Arg();
    if arg == None || !arg.value.TString? {
      return;
    }
    sub.Next();
    var variant := sub.Arg();
    if variant == None || !variant.value.Open? || variant.value.kind != VariantKind {
      return;
    }
    key := Some(arg.value.s);
    sub2 := sub.Recurse();
  }

  method DeserialiseArr(iter: Iter) returns (r: Read)
    modifies iter
    ensures var vs := DecodeArr(old(iter.rest), []);
      r == if vs.Some? then Object(Arr(vs.value)) else Failure
    decreases |iter.rest|, 2
  {
    hide Skip, Decode, Array.Valid, Array.Linked;
    var arr := new Array.Empty();
    var arg := iter.Arg();
    while arg != None
      invariant arr.Valid() && fresh(arr.Repr()) && |iter.rest| <= |old(iter.rest)|
      invariant DecodeArr(iter.rest, arr.Elems()) == DecodeArr(old(iter.rest), [])
      invariant arg == None <==> AtEnd(iter.rest)
      decreases |iter.rest|
    {
      var ok := ReadElem(iter, arr);
      if !ok {
        return Failure;
      }
      arg := iter.Arg();
    }
    var vs, _ := arr.Apply((_, _) => true);
    r := Object(Arr(vs));
  }

  method ReadElem(iter: Iter, arr: Array) returns (ok: bool)
    requires !AtEnd(iter.rest) && arr.Valid() && iter !in arr.Repr()
    modifies iter, arr.Repr()
    ensures arr.Valid() && fresh(arr.Repr() - old(arr.Repr()))
    ensures ok ==> |iter.rest| < |old(iter.rest)|
    ensures ok ==> DecodeArr(iter.rest, arr.Elems()) == old(DecodeArr(iter.rest, arr.Elems()))
    ensures !ok ==> old(DecodeArr(iter.rest, arr.Elems())) == None
    decreases |iter.rest|, 0
  {
    hide Decode;
    if !(iter.rest[0].Open? && iter.rest[0].kind == VariantKind) {
      return false;
    }
    var sub := iter.Recurse();
    var v := DeserialiseObject(sub);
    if !v.Object? {
      return false;
    }
    arr.Append(v.v);
    iter.Next();
    return true;
  }
}
