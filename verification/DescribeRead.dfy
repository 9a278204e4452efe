/** A reader of descriptions. It recovers from the text alone what the library printed: types, payloads,
    keys and indices in order, and the nesting from the leading blanks. */
module DescribeRead {
  import opened Words
  import opened Values
  import opened Entries
  import opened Describe

  /** What a description shows of an object. Data, doubles and the remaining types show their name only. */
  datatype Shown =
    | ShownNull
    | ShownBool(b: bool)
    | ShownInt(i: int)
    | ShownUint(u: nat)
    | ShownDate(t: nat)
    | ShownString(s: seq<Byte>)
    | ShownFile(n: int)
    | ShownEndpoint(port: nat)
    | ShownName(name: seq<Byte>)
    | ShownDict(entries: seq<ShownEntry>)
    | ShownArray(elems: seq<Shown>)

  datatype ShownEntry = ShownEntry(key: seq<Byte>, shown: Shown)

  /** `number` gives the descriptor under which this process holds a file; dates show unsigned. */
  function View(v: Value, number: int -> int): Shown
    decreases v, 0
  {
    match v
    case Prim(Null) => ShownNull
    case Prim(Bool(b)) => ShownBool(b)
    case Prim(Int(i)) => ShownInt(i)
    case Prim(Uint(u)) => ShownUint(u)
    case Prim(Date(t)) => ShownDate(t % 0x1_0000_0000_0000_0000)
    case Prim(Str(s)) => ShownString(s)
    case Prim(Data(_)) => ShownName(Lit("data"))
    case Prim(Fd(f)) => ShownFile(number(f))
    case Prim(Endpoint(port)) => ShownEndpoint(port)
    case Prim(Double(_)) => ShownName(Lit("double"))
    case Prim(Other(name)) => ShownName(name)
    case Dict(es) => ShownDict(ViewEntries(es, number))
    case Arr(vs) => ShownArray(ViewElems(vs, number))
  }

  function ViewEntries(es: seq<Entry>, number: int -> int): seq<ShownEntry>
    decreases es
  {
    if es == [] then []
    else [ShownEntry(es[0].key, View(es[0].value, number))] + ViewEntries(es[1..], number)
  }

  function ViewElems(vs: seq<Value>, number: int -> int): seq<Shown>
    decreases vs
  {
    if vs == [] then [] else [View(vs[0], number)] + ViewElems(vs[1..], number)
  }

  // ----- Reading bytes

  function UpTo(ts: seq<Byte>, c: Byte): (n: nat)
    ensures n <= |ts| && c !in ts[..n] && (n < |ts| ==> ts[n] == c)
  {
    if ts == [] || ts[0] == c then 0 else 1 + UpTo(ts[1..], c)
  }

  lemma UpToFirst(t: seq<Byte>, c: Byte, rest: seq<Byte>)
    requires c !in t && rest != [] && rest[0] == c
    ensures UpTo(t + rest, c) == |t|
  {
    assert (t + rest)[|t|] == c;
  }

  function Strip(ts: seq<Byte>, start: seq<Byte>): (r: Option<seq<Byte>>)
    ensures r.Some? ==> |ts| == |start| + |r.value|
  {
    if start <= ts then Some(ts[|start|..]) else None
  }

  lemma StripStart(start: seq<Byte>, rest: seq<Byte>)
    ensures Strip(start + rest, start) == Some(rest)
  {
  }

  predicate IsDigit(c: Byte, base: nat) {
    48 <= c <= 57 || (base == 16 && 97 <= c <= 102)
  }

  function ReadNatural(t: seq<Byte>, base: nat): Option<nat> {
    if t != [] && (forall i :: 0 <= i < |t| ==> IsDigit(t[i], base)) && (t[0] != 48 || |t| == 1)
    then Some(Number(t, base)) else None
  }

  function ReadInteger(t: seq<Byte>): Option<int> {
    var negative := t != [] && t[0] == 45;
    var n := ReadNatural(if negative then t[1..] else t, 10);
    if n == None then None
    else
      var i: int := n.value;
      Some(if negative then -i else i)
  }

  lemma {:induction false} DigitsAreDigits(n: nat, base: nat)
    requires base == 10 || base == 16
    ensures forall i :: 0 <= i < |Digits(n, base)| ==> IsDigit(Digits(n, base)[i], base)
  {
    if n >= base {
      DigitsAreDigits(n / base, base);
    }
  }

  lemma NaturalReadBack(n: nat, base: nat)
    requires base == 10 || base == 16
    ensures ReadNatural(Digits(n, base), base) == Some(n)
  {
    DigitsAreDigits(n, base);
    DigitsReadBack(n, base);
  }

  lemma IntegerReadBack(i: int)
    ensures ReadInteger(Decimal(i)) == Some(i)
  {
    if i < 0 {
      NaturalReadBack(-i, 10);
      assert Decimal(i)[1..] == Digits(-i, 10);
    } else {
      NaturalReadBack(i, 10);
      DigitsAreDigits(i, 10);
    }
  }

  // ----- Reading leaves

  datatype Kind =
    | DictKind | ArrayKind | StringKind | BoolKind | IntKind | UintKind | DateKind
    | EndpointKind | FileKind | NullKind | NameOnly

  function KindOf(name: seq<Byte>): Kind {
    if name == Lit("dictionary") then DictKind
    else if name == Lit("array") then ArrayKind
    else if name == Lit("string") then StringKind
    else if name == Lit("bool") then BoolKind
    else if name == Lit("int64") then IntKind
    else if name == Lit("uint64") then UintKind
    else if name == Lit("date") then DateKind
    else if name == Lit("endpoint") then EndpointKind
    else if name == Lit("file descriptor") then FileKind
    else if name == Lit("null") then NullKind
    else NameOnly
  }

  function Bracketed(line: seq<Byte>): Option<seq<Byte>> {
    if |line| >= 2 && line[0] == 60 && line[|line| - 1] == 62 then Some(line[1..|line| - 1]) else None
  }

  /** The payload of a leaf, on the rest of its line. */
  function ReadPayload(name: seq<Byte>, line: seq<Byte>): Option<Shown> {
    match KindOf(name)
    case BoolKind =>
      if line == Lit("true") then Some(ShownBool(true))
      else if line == Lit("false") then Some(ShownBool(false)) else None
    case IntKind =>
      var t := Strip(line, Lit("0x"));
      var n := if t.Some? then ReadInteger(t.value) else None;
      if n.Some? then Some(ShownInt(n.value)) else None
    case UintKind =>
      var t := Strip(line, Lit("0x"));
      var n := if t.Some? then ReadNatural(t.value, 16) else None;
      if n.Some? then Some(ShownUint(n.value)) else None
    case DateKind =>
      var n := ReadNatural(line, 10);
      if n.Some? then Some(ShownDate(n.value)) else None
    case EndpointKind =>
      var t := Bracketed(line);
      var n := if t.Some? then ReadNatural(t.value, 16) else None;
      if n.Some? then Some(ShownEndpoint(n.value)) else None
    case FileKind =>
      var t := Bracketed(line);
      var n := if t.Some? then ReadInteger(t.value) else None;
      if n.Some? then Some(ShownFile(n.value)) else None
    case NullKind => if line == Lit("<null>") then Some(ShownNull) else None
    case _ => if line == Lit("<ERROR-TYPE!>") then Some(ShownName(name)) else None
  }

  // ----- Reading objects

  /** How far the lines at a level are indented. */
  function Width(level: nat): nat {
    if level == 0 then 1 else 4 * level
  }

  function Blanks(ts: seq<Byte>): (n: nat)
    ensures n <= |ts|
  {
    if ts == [] || ts[0] != 32 then 0 else 1 + Blanks(ts[1..])
  }

  /** The type in parentheses, then the rest of the object, and what follows it. */
  function ReadValue(ts: seq<Byte>, level: nat): (r: Option<(Shown, seq<Byte>)>)
    ensures r.Some? ==> |r.value.1| < |ts|
    decreases |ts|, 0
  {
    if ts == [] || ts[0] != 40 then None
    else
      var n := UpTo(ts[1..], 41);
      var body := Strip(ts[1..][n..], Lit(") "));
      if body == None then None else ReadBody(ts[1..][..n], body.value, level)
  }

  function ReadBody(name: seq<Byte>, ts: seq<Byte>, level: nat): (r: Option<(Shown, seq<Byte>)>)
    ensures r.Some? ==> |r.value.1| <= |ts|
    decreases |ts|, 1
  {
    match KindOf(name)
    case DictKind =>
      var lines := Strip(ts, Lit("\n"));
      if lines == None then None
      else
        var es := ReadEntries(lines.value, level);
        if es == None then None else Some((ShownDict(es.value.0), es.value.1))
    case ArrayKind =>
      var lines := Strip(ts, Lit("\n"));
      if lines == None then None
      else
        var vs := ReadElems(lines.value, level, 0);
        if vs == None then None else Some((ShownArray(vs.value.0), vs.value.1))
    case StringKind =>
      var text := Strip(ts, Lit("\""));
      if text == None then None
      else
        var n := UpTo(text.value, 34);
        var rest := Strip(text.value[n..], Lit("\"\n"));
        if rest == None then None else Some((ShownString(text.value[..n]), rest.value))
    case _ =>
      var n := UpTo(ts, 10);
      var payload := ReadPayload(name, ts[..n]);
      if payload == None || n == |ts| then None else Some((payload.value, ts[n + 1..]))
  }

  /** The lines of a dictionary at a level: as long as they are indented for it. */
  function ReadEntries(ts: seq<Byte>, level: nat): (r: Option<(seq<ShownEntry>, seq<Byte>)>)
    ensures r.Some? ==> |r.value.1| <= |ts|
    decreases |ts|, 2
  {
    if Blanks(ts) != Width(level) then Some(([], ts))
    else
      var text := Strip(ts[Width(level)..], Lit("\""));
      if text == None then None
      else
        var n := UpTo(text.value, 34);
        var after := Strip(text.value[n..], Lit("\": "));
        var v := if after.Some? then ReadValue(after.value, level + 1) else None;
        if v == None then None
        else
          var more := ReadEntries(v.value.1, level);
          if more == None then None
          else Some(([ShownEntry(text.value[..n], v.value.0)] + more.value.0, more.value.1))
  }

  /** The lines of an array, numbered from idx on. */
  function ReadElems(ts: seq<Byte>, level: nat, idx: nat): (r: Option<(seq<Shown>, seq<Byte>)>)
    ensures r.Some? ==> |r.value.1| <= |ts|
    decreases |ts|, 2
  {
    if Blanks(ts) != Width(level) then Some(([], ts))
    else
      var text := ts[Width(level)..];
      var n := UpTo(text, 58);
      var after := Strip(text[n..], Lit(": "));
      var v := if after.Some? && ReadInteger(text[..n]) == Some(idx) then ReadValue(after.value, level + 1) else None;
      if v == None then None
      else
        var more := ReadElems(v.value.1, level, idx + 1);
        if more == None then None else Some(([v.value.0] + more.value.0, more.value.1))
  }

  /** A whole description: of a null pointer, or of one object. */
  function ReadDescription(text: seq<Byte>): Option<Option<Shown>> {
    if text == Lit("<null value>\n") then Some(None)
    else
      var v := ReadValue(text, 0);
      if v.Some? && v.value.1 == [] then Some(Some(v.value.0)) else None
  }
}
