/** The D-Bus type system (D-Bus Specification, "Type System"): signatures and what it means for
    tokens to be one complete value of a type. Everything the writer emits is well typed. */
module WireTypes {
  import opened Values
  import opened Entries
  import opened Wire

  /** Single complete types. A dictionary entry exists only as the element of an array, and has a
      basic key; `Map` is an array of such entries. */
  datatype Type = Basic(code: char) | Variant | ArrayOf(elem: Type) | Map(key: char, value: Type)

  predicate IsBasic(c: char) {
    c in {'y', 'b', 'n', 'q', 'i', 'u', 'x', 't', 'd', 's', 'o', 'g', 'h'}
  }

  predicate Proper(t: Type) {
    match t
    case Basic(c) => IsBasic(c)
    case Variant => true
    case ArrayOf(e) => Proper(e)
    case Map(k, v) => IsBasic(k) && Proper(v)
  }

  function Signature(t: Type): (s: string)
    ensures s != ""
    decreases t, 0
  {
    match t
    case Basic(c) => [c]
    case Variant => "v"
    case ArrayOf(e) => "a" + Signature(e)
    case Map(k, v) => "a" + EntrySignature(k, v)
  }

  function EntrySignature(k: char, v: Type): string
    decreases v, 1
  {
    "{" + [k] + Signature(v) + "}"
  }

  /** The single complete type at the start of a signature, and the rest. */
  function Parse(s: string): (r: Option<(Type, string)>)
    ensures r.Some? ==> |r.value.1| < |s| && Proper(r.value.0)
  {
    if s == "" then None
    else if IsBasic(s[0]) then Some((Basic(s[0]), s[1..]))
    else if s[0] == 'v' then Some((Variant, s[1..]))
    else if s[0] != 'a' then None
    else if |s| >= 3 && s[1] == '{' then
      var v := Parse(s[3..]);
      if IsBasic(s[2]) && v.Some? && v.value.1 != "" && v.value.1[0] == '}'
      then Some((Map(s[2], v.value.0), v.value.1[1..])) else None
    else
      var e := Parse(s[1..]);
      if e.Some? then Some((ArrayOf(e.value.0), e.value.1)) else None
  }

  /** Signatures are read back as the types they were printed from. */
  lemma {:induction false} ParseSignature(t: Type, rest: string)
    requires Proper(t)
    ensures Parse(Signature(t) + rest) == Some((t, rest))
  {
    var s := Signature(t) + rest;
    match t {
      case Basic(c) => assert s[1..] == rest;
      case Variant => assert s[1..] == rest;
      case ArrayOf(e) =>
        assert s[1..] == Signature(e) + rest;
        SignatureStart(e);
        ParseSignature(e, rest);
      case Map(k, v) =>
        MapSignature(k, v, rest);
        ParseSignature(v, "}" + rest);
        assert ("}" + rest)[1..] == rest;
    }
  }

  lemma MapSignature(k: char, v: Type, rest: string)
    ensures var s := Signature(Map(k, v)) + rest;
      |s| >= 3 && s[0] == 'a' && s[1] == '{' && s[2] == k && s[3..] == Signature(v) + ("}" + rest)
  {
    var s := Signature(Map(k, v)) + rest;
    assert Signature(Map(k, v)) == "a{" + [k] + Signature(v) + "}";
    assert |"a{" + [k]| == 3 && s == ("a{" + [k]) + (Signature(v) + ("}" + rest));
  }

  lemma SignatureStart(t: Type)
    requires Proper(t)
    ensures Signature(t)[0] != '{'
  {
  }

  function TokenCode(t: Token): char {
    match t
    case TBool(_) => 'b'
    case TInt64(_) => 'x'
    case TUint64(_) => 't'
    case TString(_) => 's'
    case TFd(_) => 'h'
    case Open(_, _) => '('
    case Close => ')'
  }

  /** What follows one complete value of type t at the start of ts, or None if there is none. */
  function Complete(ts: seq<Token>, t: Type): (rest: Option<seq<Token>>)
    requires Proper(t)
    ensures rest.Some? ==> |rest.value| < |ts|
    decreases |ts|, 1
  {
    if ts == [] then None
    else match t
      case Basic(c) => if TokenCode(ts[0]) == c then Some(ts[1..]) else None
      case Variant =>
        if !(ts[0].Open? && ts[0].kind == VariantKind) then None
        else
          var inner := Parse(ts[0].sig);
          if !(inner.Some? && inner.value.1 == "") then None
          else Closed(Complete(ts[1..], inner.value.0))
      case ArrayOf(e) =>
        if ts[0] == Open(ArrayKind, Signature(e)) then Closed(Many(ts[1..], e)) else None
      case Map(k, v) =>
        if ts[0] == Open(ArrayKind, EntrySignature(k, v)) then Closed(ManyEntries(ts[1..], k, v)) else None
  }

  function Closed(ts: Option<seq<Token>>): (rest: Option<seq<Token>>)
    ensures rest.Some? ==> ts.Some? && |rest.value| < |ts.value|
  {
    if ts.Some? && ts.value != [] && ts.value[0].Close? then Some(ts.value[1..]) else None
  }

  /** Any number of complete values, up to the end of the container. */
  function Many(ts: seq<Token>, t: Type): (rest: Option<seq<Token>>)
    requires Proper(t)
    ensures rest.Some? ==> |rest.value| <= |ts|
    decreases |ts|, 2
  {
    if AtEnd(ts) then Some(ts)
    else
      var one := Complete(ts, t);
      if one.Some? then Many(one.value, t) else None
  }

  function ManyEntries(ts: seq<Token>, k: char, v: Type): (rest: Option<seq<Token>>)
    requires IsBasic(k) && Proper(v)
    ensures rest.Some? ==> |rest.value| <= |ts|
    decreases |ts|, 0
  {
    if AtEnd(ts) then Some(ts)
    else if !(|ts| >= 2 && ts[0].Open? && ts[0].kind == DictEntryKind && TokenCode(ts[1]) == k) then None
    else
      var one := Closed(Complete(ts[2..], v));
      if one.Some? then ManyEntries(one.value, k, v) else None
  }

  /** The type an object is written as. */
  function TypeOf(v: Value): (t: Type)
    requires v.Prim? ==> NotData(v.p)
    ensures Proper(t) && Signature(t) == TypeString(v)
  {
    match v
    case Dict(_) =>
      assert Signature(Map('s', Variant)) == "a{sv}";
      Map('s', Variant)
    case Arr(_) =>
      assert Signature(ArrayOf(Variant)) == "av";
      ArrayOf(Variant)
    case Prim(p) => Basic(TokenCode(EmitPrim(p)))
  }

  /** What is emitted for an object is exactly one complete value of the object's signature; in
      particular every variant in it holds one complete value of the signature it declares. */
  lemma {:induction false} EmitIsTyped(v: Value, rest: seq<Token>)
    requires DataFree(v)
    ensures Complete(Emit(v) + rest, TypeOf(v)) == Some(rest)
    decreases v, 0
  {
    match v {
      case Prim(p) => assert ([EmitPrim(p)] + rest)[1..] == rest;
      case Dict(es) =>
        var body := EmitEntries(es) + ([Close] + rest);
        assert Emit(v) + rest == [Open(ArrayKind, "{sv}")] + body;
        assert (Emit(v) + rest)[1..] == body;
        EntriesAreTyped(es, [Close] + rest);
        assert EntrySignature('s', Variant) == "{sv}";
        assert ([Close] + rest)[1..] == rest;
      case Arr(vs) =>
        var body := EmitElems(vs) + ([Close] + rest);
        assert Emit(v) + rest == [Open(ArrayKind, "v")] + body;
        assert (Emit(v) + rest)[1..] == body;
        ElemsAreTyped(vs, [Close] + rest);
        assert ([Close] + rest)[1..] == rest;
    }
  }

  lemma {:induction false} VariantIsTyped(v: Value, rest: seq<Token>)
    requires DataFree(v)
    ensures Complete(EmitVariant(v) + rest, Variant) == Some(rest)
    decreases v, 1
  {
    var after := Emit(v) + ([Close] + rest);
    assert EmitVariant(v) + rest == [Open(VariantKind, TypeString(v))] + after;
    assert (EmitVariant(v) + rest)[1..] == after;
    ParseSignature(TypeOf(v), "");
    assert TypeString(v) + "" == TypeString(v);
    EmitIsTyped(v, [Close] + rest);
    assert ([Close] + rest)[1..] == rest;
  }

  lemma {:induction false} EntriesAreTyped(es: seq<Entry>, rest: seq<Token>)
    requires (forall e <- es :: DataFree(e.value)) && AtEnd(rest)
    ensures ManyEntries(EmitEntries(es) + rest, 's', Variant) == Some(rest)
    decreases es
  {
    if es == [] {
      assert EmitEntries(es) + rest == rest;
    } else {
      var e, tail := es[0], EmitEntries(es[1..]) + rest;
      assert EmitEntries(es) + rest == EmitEntry(e) + tail;
      VariantIsTyped(e.value, [Close] + tail);
      EntryIsTyped(e, tail);
      EntriesAreTyped(es[1..], rest);
    }
  }

  lemma EntryIsTyped(e: Entry, tail: seq<Token>)
    requires DataFree(e.value)
    requires Complete(EmitVariant(e.value) + ([Close] + tail), Variant) == Some([Close] + tail)
    ensures ManyEntries(EmitEntry(e) + tail, 's', Variant) == ManyEntries(tail, 's', Variant)
  {
    var after := EmitVariant(e.value) + ([Close] + tail);
    assert EmitEntry(e) + tail == [Open(DictEntryKind, ""), TString(e.key)] + after;
    assert (EmitEntry(e) + tail)[2..] == after;
    assert ([Close] + tail)[1..] == tail;
  }

  lemma {:induction false} ElemsAreTyped(vs: seq<Value>, rest: seq<Token>)
    requires (forall x <- vs :: DataFree(x)) && AtEnd(rest)
    ensures Many(EmitElems(vs) + rest, Variant) == Some(rest)
    decreases vs
  {
    if vs == [] {
      assert EmitElems(vs) + rest == rest;
    } else {
      var tail := EmitElems(vs[1..]) + rest;
      assert EmitElems(vs) + rest == EmitVariant(vs[0]) + tail;
      VariantIsTyped(vs[0], tail);
      assert EmitVariant(vs[0])[0].Open?;
      ElemsAreTyped(vs[1..], rest);
    }
  }
}
