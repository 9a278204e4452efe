/** Descriptions in the library's own formats are read back as what was printed. */
module DescribeRoundTrip {
  import opened Words
  import opened Values
  import opened Entries
  import opened Describe
  import opened DescribeRead

  /** The texts a reader can find the ends of: no quote in keys and strings, and in the name of a type
      that shows nothing else, no closing parenthesis and no name of a type that does. */
  ghost predicate Readable(v: Value) {
    match v
    case Prim(Str(s)) => 34 !in s
    case Prim(Other(name)) => 41 !in name && KindOf(name) == NameOnly
    case Prim(_) => true
    case Dict(es) => forall e <- es :: 34 !in e.key && Readable(e.value)
    case Arr(vs) => forall x <- vs :: Readable(x)
  }

  lemma LitInjective(s: string, t: string)
    requires forall i :: 0 <= i < |s| ==> 0 < s[i] as int < 256
    requires forall i :: 0 <= i < |t| ==> 0 < t[i] as int < 256
    ensures Lit(s) == Lit(t) ==> s == t
  {
    if Lit(s) == Lit(t) {
      assert forall i :: 0 <= i < |s| ==> s[i] as int == Lit(s)[i] == t[i] as int;
    }
  }

  lemma NamesApart(s: string)
    requires forall i :: 0 <= i < |s| ==> 0 < s[i] as int < 256
    ensures s != "dictionary" ==> Lit(s) != Lit("dictionary")
    ensures s != "array" ==> Lit(s) != Lit("array")
    ensures s != "string" ==> Lit(s) != Lit("string")
    ensures s != "bool" ==> Lit(s) != Lit("bool")
    ensures s != "int64" ==> Lit(s) != Lit("int64")
    ensures s != "uint64" ==> Lit(s) != Lit("uint64")
    ensures s != "date" ==> Lit(s) != Lit("date")
    ensures s != "endpoint" ==> Lit(s) != Lit("endpoint")
    ensures s != "file descriptor" ==> Lit(s) != Lit("file descriptor")
    ensures s != "null" ==> Lit(s) != Lit("null")
  {
    hide Lit;
    LitInjective(s, "dictionary");
    LitInjective(s, "array");
    LitInjective(s, "string");
    LitInjective(s, "bool");
    LitInjective(s, "int64");
    LitInjective(s, "uint64");
    LitInjective(s, "date");
    LitInjective(s, "endpoint");
    LitInjective(s, "file descriptor");
    LitInjective(s, "null");
  }

  /** The names the library gives its types are told apart. */
  lemma KindOfLeaf(p: Prim)
    requires Readable(Prim(p))
    ensures KindOf(TypeName(Prim(p))) == match p
      case Null => NullKind
      case Bool(_) => BoolKind
      case Int(_) => IntKind
      case Uint(_) => UintKind
      case Date(_) => DateKind
      case Str(_) => StringKind
      case Fd(_) => FileKind
      case Endpoint(_) => EndpointKind
      case _ => NameOnly
  {
    hide Lit;
    match p {
      case Null => NamesApart("null");
      case Bool(_) => NamesApart("bool");
      case Int(_) => NamesApart("int64");
      case Uint(_) => NamesApart("uint64");
      case Date(_) => NamesApart("date");
      case Str(_) => NamesApart("string");
      case Data(_) => NamesApart("data");
      case Fd(_) => NamesApart("file descriptor");
      case Endpoint(_) => NamesApart("endpoint");
      case Double(_) => NamesApart("double");
      case Other(_) =>
    }
  }

  lemma KindOfContainers()
    ensures KindOf(Lit("dictionary")) == DictKind && KindOf(Lit("array")) == ArrayKind
  {
    hide Lit;
    NamesApart("array");
  }

  lemma NoSuchChar(s: string, c: Byte)
    requires forall i :: 0 <= i < |s| ==> 0 < s[i] as int < 256 && s[i] as int != c
    ensures c !in Lit(s)
  {
  }

  lemma NameEnds(v: Value)
    requires Readable(v)
    ensures 41 !in TypeName(v)
  {
    hide Lit;
    match v {
      case Dict(_) => NoSuchChar("dictionary", 41);
      case Arr(_) => NoSuchChar("array", 41);
      case Prim(Null) => NoSuchChar("null", 41);
      case Prim(Bool(_)) => NoSuchChar("bool", 41);
      case Prim(Int(_)) => NoSuchChar("int64", 41);
      case Prim(Uint(_)) => NoSuchChar("uint64", 41);
      case Prim(Date(_)) => NoSuchChar("date", 41);
      case Prim(Str(_)) => NoSuchChar("string", 41);
      case Prim(Data(_)) => NoSuchChar("data", 41);
      case Prim(Fd(_)) => NoSuchChar("file descriptor", 41);
      case Prim(Endpoint(_)) => NoSuchChar("endpoint", 41);
      case Prim(Double(_)) => NoSuchChar("double", 41);
      case Prim(Other(_)) =>
    }
  }

  lemma DigitsEnd(i: int, n: nat, base: nat)
    requires base == 10 || base == 16
    ensures 10 !in Decimal(i) && 58 !in Decimal(i) && 10 !in Digits(n, base)
  {
    DigitsAreDigits(n, base);
    DigitsAreDigits(if i < 0 then -i else i, 10);
  }

  lemma Hexadecimal(t: CStr)
    requires 10 !in t
    ensures Strip(Lit("0x") + t, Lit("0x")) == Some(t) && 10 !in Lit("0x") + t
    ensures Lit("0x") + t + Lit("\n") == Lit("0x") + t + [10]
  {
    StripStart(Lit("0x"), t);
    NoSuchChar("0x", 10);
  }

  lemma InBrackets(t: CStr)
    requires 10 !in t
    ensures Bracketed(Lit("<") + t + Lit(">")) == Some(t) && 10 !in Lit("<") + t + Lit(">")
    ensures Lit("<") + t + Lit(">\n") == Lit("<") + t + Lit(">") + [10]
  {
    var line := Lit("<") + t + Lit(">");
    assert line[1..|line| - 1] == t;
    assert Lit(">\n") == Lit(">") + [10];
  }

  /** The line of a leaf is its payload, which the reader finds, and the end of the line. */
  ghost predicate ReadsLine(p: Prim, number: int -> int, name: seq<Byte>, line: seq<Byte>) {
    && RenderPrim(p, number) == line + [10] && 10 !in line
    && ReadPayload(name, line) == Some(View(Prim(p), number))
  }

  lemma BoolLine(b: bool, name: seq<Byte>, number: int -> int) returns (line: seq<Byte>)
    requires KindOf(name) == BoolKind
    ensures ReadsLine(Bool(b), number, name, line)
  {
    hide KindOf, Strip, Bracketed, ReadNatural, ReadInteger, Digits, Decimal;
    line := if b then Lit("true") else Lit("false");
    NoSuchChar("true", 10);
    NoSuchChar("false", 10);
    LitInjective("true", "false");
  }

  lemma IntLine(i: Int64, name: seq<Byte>, number: int -> int) returns (line: seq<Byte>)
    requires KindOf(name) == IntKind
    ensures ReadsLine(Int(i), number, name, line)
  {
    hide KindOf, Strip, Bracketed, ReadNatural, ReadInteger, Digits, Decimal;
    line := Lit("0x") + Decimal(i);
    DigitsEnd(i, 0, 10);
    Hexadecimal(Decimal(i));
    IntegerReadBack(i);
  }

  lemma UintLine(u: Uint64, name: seq<Byte>, number: int -> int) returns (line: seq<Byte>)
    requires KindOf(name) == UintKind
    ensures ReadsLine(Uint(u), number, name, line)
  {
    hide KindOf, Strip, Bracketed, ReadNatural, ReadInteger, Digits, Decimal;
    line := Lit("0x") + Digits(u, 16);
    DigitsEnd(0, u, 16);
    Hexadecimal(Digits(u, 16));
    NaturalReadBack(u, 16);
  }

  lemma DateLine(t: Int64, name: seq<Byte>, number: int -> int) returns (line: seq<Byte>)
    requires KindOf(name) == DateKind
    ensures ReadsLine(Date(t), number, name, line)
  {
    hide KindOf, Strip, Bracketed, ReadNatural, ReadInteger, Digits, Decimal;
    line := Digits(AsUnsigned(t), 10);
    DigitsEnd(0, AsUnsigned(t), 10);
    NaturalReadBack(AsUnsigned(t), 10);
    assert AsUnsigned(t) == t % 0x1_0000_0000_0000_0000;
  }

  lemma EndpointLine(port: Uint64, name: seq<Byte>, number: int -> int) returns (line: seq<Byte>)
    requires KindOf(name) == EndpointKind
    ensures ReadsLine(Endpoint(port), number, name, line)
  {
    hide KindOf, Strip, Bracketed, ReadNatural, ReadInteger, Digits, Decimal;
    line := Lit("<") + Digits(port, 16) + Lit(">");
    DigitsEnd(0, port, 16);
    InBrackets(Digits(port, 16));
    NaturalReadBack(port, 16);
  }

  lemma FileLine(f: int, name: seq<Byte>, number: int -> int) returns (line: seq<Byte>)
    requires KindOf(name) == FileKind
    ensures ReadsLine(Fd(f), number, name, line)
  {
    hide KindOf, Strip, Bracketed, ReadNatural, ReadInteger, Digits, Decimal;
    line := Lit("<") + Decimal(number(f)) + Lit(">");
    DigitsEnd(number(f), 0, 10);
    InBrackets(Decimal(number(f)));
    IntegerReadBack(number(f));
  }

  lemma NullLine(name: seq<Byte>, number: int -> int) returns (line: seq<Byte>)
    requires KindOf(name) == NullKind
    ensures ReadsLine(Null, number, name, line)
  {
    hide KindOf, Strip, Bracketed, ReadNatural, ReadInteger, Digits, Decimal;
    line := Lit("<null>");
    NoSuchChar("<null>", 10);
    assert Lit("<null>\n") == line + [10];
  }

  lemma NameLine(p: Prim, name: seq<Byte>, number: int -> int) returns (line: seq<Byte>)
    requires KindOf(name) == NameOnly && (p.Data? || p.Double? || p.Other?) && View(Prim(p), number) == ShownName(name)
    ensures ReadsLine(p, number, name, line)
  {
    hide KindOf;
    line := Lit("<ERROR-TYPE!>");
    NoSuchChar("<ERROR-TYPE!>", 10);
    assert Lit("<ERROR-TYPE!>\n") == line + [10];
  }

  lemma LineReadBack(p: Prim, number: int -> int) returns (line: seq<Byte>)
    requires Readable(Prim(p)) && !p.Str?
    ensures ReadsLine(p, number, TypeName(Prim(p)), line)
  {
    hide KindOf, ReadsLine, Lit;
    KindOfLeaf(p);
    var name := TypeName(Prim(p));
    match p {
      case Bool(b) => line := BoolLine(b, name, number);
      case Int(i) => line := IntLine(i, name, number);
      case Uint(u) => line := UintLine(u, name, number);
      case Date(t) => line := DateLine(t, name, number);
      case Endpoint(port) => line := EndpointLine(port, name, number);
      case Fd(f) => line := FileLine(f, name, number);
      case Null => line := NullLine(name, number);
      case _ => line := NameLine(p, name, number);
    }
  }

  lemma TitleReadBack(v: Value, body: seq<Byte>, level: nat)
    requires Readable(v)
    ensures ReadValue(Title(v) + body, level) == ReadBody(TypeName(v), body, level)
  {
    hide ReadBody, TypeName, Readable, Strip, UpTo;
    var name := TypeName(v);
    var after: seq<Byte> := Lit(") ") + body;
    var ts := Title(v) + body;
    assert ts == Lit("(") + (name + after);
    assert ts[1..] == name + after;
    NameEnds(v);
    UpToFirst(name, 41, after);
    assert (name + after)[|name|..] == after && (name + after)[..|name|] == name;
    StripStart(Lit(") "), body);
  }

  lemma StringReadBack(s: CStr, rest: seq<Byte>, level: nat, number: int -> int)
    requires 34 !in s
    ensures ReadBody(Lit("string"), RenderPrim(Str(s), number) + rest, level) == Some((ShownString(s), rest))
  {
    hide KindOf, Strip, UpTo, ReadPayload;
    KindOfLeaf(Str(s));
    var after := Lit("\"\n") + rest;
    assert RenderPrim(Str(s), number) + rest == Lit("\"") + (s + after);
    StripStart(Lit("\""), s + after);
    UpToFirst(s, 34, after);
    assert (s + after)[|s|..] == after && (s + after)[..|s|] == s;
    StripStart(Lit("\"\n"), rest);
  }

  lemma LineBody(name: seq<Byte>, line: seq<Byte>, shown: Shown, rest: seq<Byte>, level: nat)
    requires !KindOf(name).DictKind? && !KindOf(name).ArrayKind? && !KindOf(name).StringKind?
    requires 10 !in line && ReadPayload(name, line) == Some(shown)
    ensures ReadBody(name, line + [10] + rest, level) == Some((shown, rest))
  {
    hide KindOf, Strip, UpTo, ReadPayload;
    var ts := line + ([10] + rest);
    assert line + [10] + rest == ts;
    UpToFirst(line, 10, [10] + rest);
    assert ts[..|line|] == line && ts[|line| + 1..] == rest;
  }

  lemma LeafReadBack(p: Prim, rest: seq<Byte>, level: nat, number: int -> int)
    requires Readable(Prim(p)) && !p.Str?
    ensures ReadBody(TypeName(Prim(p)), RenderPrim(p, number) + rest, level) == Some((View(Prim(p), number), rest))
  {
    hide KindOf, ReadPayload, RenderPrim, View, TypeName, ReadBody;
    KindOfLeaf(p);
    var line := LineReadBack(p, number);
    LineBody(TypeName(Prim(p)), line, View(Prim(p), number), rest, level);
  }

  // ----- Containers

  lemma {:induction false} BlanksOf(n: nat, rest: seq<Byte>)
    requires rest == [] || rest[0] != 32
    ensures Blanks(seq(n, _ => 32) + rest) == n
  {
    var ts := seq(n, _ => 32) + rest;
    if n > 0 {
      BlanksOf(n - 1, rest);
      assert ts[1..] == seq(n - 1, _ => 32) + rest;
    }
  }

  /** A line of a container starts with as many blanks as its level has. */
  lemma IndentReadBack(level: nat, text: seq<Byte>)
    requires text == [] || text[0] != 32
    ensures Blanks(Indent(level) + text) == Width(level) && (Indent(level) + text)[Width(level)..] == text
  {
    BlanksOf(Width(level), text);
    assert Indent(level) == seq(Width(level), _ => 32);
  }

  /** The label of an entry, and then its value and the other lines. */
  lemma EntryReadBack(key: CStr, level: nat, child: seq<Byte>, v: Shown, lines: seq<Byte>,
                      more: seq<ShownEntry>, rest: seq<Byte>)
    requires 34 !in key && ReadValue(child, level + 1) == Some((v, lines)) && ReadEntries(lines, level) == Some((more, rest))
    ensures Blanks(EntryLabel(key, level) + child) == Width(level)
    ensures ReadEntries(EntryLabel(key, level) + child, level) == Some(([ShownEntry(key, v)] + more, rest))
  {
    hide Blanks, Width, Indent, Strip, UpTo, ReadValue;
    var after := Lit("\": ") + child;
    var text := Lit("\"") + (key + after);
    assert EntryLabel(key, level) + child == Indent(level) + text;
    IndentReadBack(level, text);
    StripStart(Lit("\""), key + after);
    UpToFirst(key, 34, after);
    assert (key + after)[|key|..] == after && (key + after)[..|key|] == key;
    StripStart(Lit("\": "), child);
  }

  lemma ElemReadBack(idx: nat, level: nat, child: seq<Byte>, v: Shown, lines: seq<Byte>, more: seq<Shown>, rest: seq<Byte>)
    requires ReadValue(child, level + 1) == Some((v, lines)) && ReadElems(lines, level, idx + 1) == Some((more, rest))
    ensures Blanks(ElemLabel(idx, level) + child) == Width(level)
    ensures ReadElems(ElemLabel(idx, level) + child, level, idx) == Some(([v] + more, rest))
  {
    hide Blanks, Width, Indent, Strip, UpTo, ReadValue, ReadInteger, Digits, Decimal;
    var after := Lit(": ") + child;
    var text := Decimal(idx) + after;
    assert ElemLabel(idx, level) + child == Indent(level) + text;
    DecimalStarts(idx);
    IndentReadBack(level, text);
    DigitsEnd(idx, 0, 10);
    UpToFirst(Decimal(idx), 58, after);
    assert text[|Decimal(idx)|..] == after && text[..|Decimal(idx)|] == Decimal(idx);
    IntegerReadBack(idx);
    StripStart(Lit(": "), child);
  }

  lemma DecimalStarts(idx: nat)
    ensures Decimal(idx) != [] && Decimal(idx)[0] != 32
  {
    DigitsAreDigits(idx, 10);
  }

  /** What follows an object stands at a lower level than the lines of the object would. */
  predicate Ends(rest: seq<Byte>, level: nat) {
    Blanks(rest) < Width(level)
  }

  lemma ContainerText(es: seq<Entry>, vs: seq<Value>, level: nat, rest: seq<Byte>, f: Formats)
    requires f.title == Title && f.newline == Lit("\n")
    ensures Render(Dict(es), level, f) + rest == Title(Dict(es)) + (Lit("\n") + (RenderEntries(es, level, f) + rest))
    ensures Render(Arr(vs), level, f) + rest == Title(Arr(vs)) + (Lit("\n") + (RenderElems(vs, 0, level, f) + rest))
  {
    hide Title, Lit, RenderEntries, RenderElems;
  }

  lemma {:induction false} ValueReadBack(v: Value, level: nat, rest: seq<Byte>, number: int -> int)
    requires Readable(v) && Ends(rest, level)
    ensures ReadValue(Render(v, level, LibraryFormats(number)) + rest, level) == Some((View(v, number), rest))
    decreases v, 0
  {
    hide ReadValue, ReadBody, ReadEntries, ReadElems, Render, RenderEntries, RenderElems, Title, Lit, Ends;
    var f := LibraryFormats(number);
    match v {
      case Prim(p) => PrimReadBack(p, level, rest, number);
      case Dict(es) =>
        var lines := RenderEntries(es, level, f) + rest;
        ContainerText(es, [], level, rest, f);
        TitleReadBack(v, Lit("\n") + lines, level);
        EntriesReadBack(es, level, rest, number);
        DictBody(lines, level);
      case Arr(vs) =>
        var lines := RenderElems(vs, 0, level, f) + rest;
        ContainerText([], vs, level, rest, f);
        TitleReadBack(v, Lit("\n") + lines, level);
        ElemsReadBack(vs, 0, level, rest, number);
        ArrayBody(lines, level);
    }
  }

  lemma PrimReadBack(p: Prim, level: nat, rest: seq<Byte>, number: int -> int)
    requires Readable(Prim(p))
    ensures ReadValue(Render(Prim(p), level, LibraryFormats(number)) + rest, level) == Some((View(Prim(p), number), rest))
  {
    var body := RenderPrim(p, number) + rest;
    assert Render(Prim(p), level, LibraryFormats(number)) + rest == Title(Prim(p)) + body;
    hide ReadValue, ReadBody, RenderPrim, Title, Lit;
    TitleReadBack(Prim(p), body, level);
    if p.Str? {
      StringReadBack(p.str, rest, level, number);
    } else {
      LeafReadBack(p, rest, level, number);
    }
  }

  lemma DictBody(lines: seq<Byte>, level: nat)
    requires ReadEntries(lines, level).Some?
    ensures var es := ReadEntries(lines, level).value;
      ReadBody(Lit("dictionary"), Lit("\n") + lines, level) == Some((ShownDict(es.0), es.1))
  {
    hide KindOf, Strip, ReadEntries, UpTo;
    KindOfContainers();
    StripStart(Lit("\n"), lines);
  }

  lemma ArrayBody(lines: seq<Byte>, level: nat)
    requires ReadElems(lines, level, 0).Some?
    ensures var vs := ReadElems(lines, level, 0).value;
      ReadBody(Lit("array"), Lit("\n") + lines, level) == Some((ShownArray(vs.0), vs.1))
  {
    hide KindOf, Strip, ReadElems, UpTo;
    KindOfContainers();
    StripStart(Lit("\n"), lines);
  }

  lemma FirstEntry(es: seq<Entry>, level: nat, rest: seq<Byte>, number: int -> int)
    requires es != []
    ensures var f := LibraryFormats(number);
      RenderEntries(es, level, f) + rest == EntryLabel(es[0].key, level)
        + (Render(es[0].value, level + 1, f) + (RenderEntries(es[1..], level, f) + rest))
    ensures ViewEntries(es, number) == [ShownEntry(es[0].key, View(es[0].value, number))] + ViewEntries(es[1..], number)
  {
    hide EntryLabel, Render, View;
  }

  lemma FirstElem(vs: seq<Value>, idx: nat, level: nat, rest: seq<Byte>, number: int -> int)
    requires vs != []
    ensures var f := LibraryFormats(number);
      RenderElems(vs, idx, level, f) + rest == ElemLabel(idx, level)
        + (Render(vs[0], level + 1, f) + (RenderElems(vs[1..], idx + 1, level, f) + rest))
    ensures ViewElems(vs, number) == [View(vs[0], number)] + ViewElems(vs[1..], number)
  {
    hide ElemLabel, Render, View;
  }

  lemma NoLines(rest: seq<Byte>, level: nat, idx: nat, f: Formats)
    requires Ends(rest, level)
    ensures ReadEntries(RenderEntries([], level, f) + rest, level) == Some(([], rest))
    ensures ReadElems(RenderElems([], idx, level, f) + rest, level, idx) == Some(([], rest))
    ensures RenderEntries([], level, f) + rest == RenderElems([], idx, level, f) + rest == rest
  {
    assert RenderEntries([], level, f) + rest == rest == RenderElems([], idx, level, f) + rest;
  }

  lemma {:induction false} EntriesReadBack(es: seq<Entry>, level: nat, rest: seq<Byte>, number: int -> int)
    requires (forall e <- es :: 34 !in e.key && Readable(e.value)) && Ends(rest, level)
    ensures var ts := RenderEntries(es, level, LibraryFormats(number)) + rest;
      ReadEntries(ts, level) == Some((ViewEntries(es, number), rest)) && Ends(ts, level + 1)
    decreases es
  {
    hide ReadEntries, RenderEntries, Render, View, ReadValue, Blanks, EntryLabel, LibraryFormats, Readable;
    var f := LibraryFormats(number);
    if es == [] {
      NoLines(rest, level, 0, f);
    } else {
      var e, lines := es[0], RenderEntries(es[1..], level, f) + rest;
      var child := Render(e.value, level + 1, f) + lines;
      FirstEntry(es, level, rest, number);
      EntriesReadBack(es[1..], level, rest, number);
      ValueReadBack(e.value, level + 1, lines, number);
      EntryReadBack(e.key, level, child, View(e.value, number), lines, ViewEntries(es[1..], number), rest);
    }
  }

  lemma {:induction false} ElemsReadBack(vs: seq<Value>, idx: nat, level: nat, rest: seq<Byte>, number: int -> int)
    requires (forall x <- vs :: Readable(x)) && Ends(rest, level)
    ensures var ts := RenderElems(vs, idx, level, LibraryFormats(number)) + rest;
      ReadElems(ts, level, idx) == Some((ViewElems(vs, number), rest)) && Ends(ts, level + 1)
    decreases vs
  {
    hide ReadElems, RenderElems, Render, View, ReadValue, Blanks, ElemLabel, LibraryFormats, Readable;
    var f := LibraryFormats(number);
    if vs == [] {
      NoLines(rest, level, idx, f);
    } else {
      var lines := RenderElems(vs[1..], idx + 1, level, f) + rest;
      var child := Render(vs[0], level + 1, f) + lines;
      FirstElem(vs, idx, level, rest, number);
      ElemsReadBack(vs[1..], idx + 1, level, rest, number);
      ValueReadBack(vs[0], level + 1, lines, number);
      ElemReadBack(idx, level, child, View(vs[0], number), lines, ViewElems(vs[1..], number), rest);
    }
  }

  // ----- Descriptions

  /** A description is read back as what it shows: of a null pointer, or of an object of any depth. */
  lemma DescriptionReadBack(obj: Option<Value>, number: int -> int)
    requires obj.Some? ==> Readable(obj.value)
    ensures ReadDescription(RenderObject(obj, LibraryFormats(number)))
         == Some(if obj.Some? then Some(View(obj.value, number)) else None)
  {
    hide Render, View, ReadValue;
    if obj.Some? {
      var text := Render(obj.value, 0, LibraryFormats(number));
      assert text + [] == text;
      ValueReadBack(obj.value, 0, [], number);
      StartsWithTitle(obj.value, number);
    }
  }

  lemma StartsWithTitle(v: Value, number: int -> int)
    ensures var text := Render(v, 0, LibraryFormats(number)); text != [] && text[0] == 40
    ensures Render(v, 0, LibraryFormats(number)) != Lit("<null value>\n")
  {
    assert Title(v)[0] == 40;
  }

  /** The description of an object, or of a null pointer, in the library's own formats, which a reader
      can turn back into what the object is. */
  method LibraryDescription(obj: Option<Value>, number: int -> int) returns (result: CStr)
    ensures result == RenderObject(obj, LibraryFormats(number))
    ensures obj == None ==> ReadDescription(result) == Some(None)
    ensures obj.Some? && Readable(obj.value) ==> ReadDescription(result) == Some(Some(View(obj.value, number)))
  {
    result := CopyDescription(obj, LibraryFormats(number));
    if obj == None || Readable(obj.value) {
      DescriptionReadBack(obj, number);
    }
  }

  lemma StringLine(s: CStr, number: int -> int)
    ensures Render(Prim(Str(s)), 1, LibraryFormats(number)) == Lit("(string) \"") + s + Lit("\"\n")
  {
    assert Title(Prim(Str(s))) + Lit("\"") == Lit("(string) \"");
    Associate(Title(Prim(Str(s))), Lit("\""), s, Lit("\"\n"));
  }

  lemma Associate(a: seq<Byte>, b: seq<Byte>, c: seq<Byte>, d: seq<Byte>)
    ensures a + (b + c + d) == a + b + c + d
  {
  }

  lemma OneStringEntry(key: CStr, s: CStr, number: int -> int)
    ensures RenderEntries([Entry(key, Prim(Str(s)))], 0, LibraryFormats(number))
         == EntryLabel(key, 0) + (Lit("(string) \"") + s + Lit("\"\n"))
  {
    hide Lit, EntryLabel, Render;
    StringLine(s, number);
    assert [Entry(key, Prim(Str(s)))][1..] == [];
  }

  lemma TwoStringEntries(a: CStr, b: CStr, x: CStr, y: CStr, number: int -> int)
    ensures RenderEntries([Entry(a, Prim(Str(x))), Entry(b, Prim(Str(y)))], 0, LibraryFormats(number))
         == EntryLabel(a, 0) + (Lit("(string) \"") + x + Lit("\"\n"))
          + (EntryLabel(b, 0) + (Lit("(string) \"") + y + Lit("\"\n")))
  {
    hide Lit, EntryLabel, Render;
    StringLine(x, number);
    OneStringEntry(b, y, number);
    assert [Entry(a, Prim(Str(x))), Entry(b, Prim(Str(y)))][1..] == [Entry(b, Prim(Str(y)))];
  }

  lemma SameText(la: seq<Byte>, lb: seq<Byte>, t: seq<Byte>, x: seq<Byte>, y: seq<Byte>, n: seq<Byte>)
    ensures la + (t + (x + n + lb + t + y) + n) == la + (t + x + n) + (lb + (t + y + n))
  {
  }

  /** With a quote in a string the text no longer tells: one entry can be described like two. */
  lemma QuotesAreAmbiguous(a: CStr, b: CStr, x: CStr, y: CStr, number: int -> int)
    ensures var f := LibraryFormats(number);
      var s := x + Lit("\"\n") + EntryLabel(b, 0) + Lit("(string) \"") + y;
      var two := Dict([Entry(a, Prim(Str(x))), Entry(b, Prim(Str(y)))]);
      var one := Dict([Entry(a, Prim(Str(s)))]);
      one != two && Render(one, 0, f) == Render(two, 0, f)
  {
    hide Lit, EntryLabel, RenderEntries, TypeName;
    var s := x + Lit("\"\n") + EntryLabel(b, 0) + Lit("(string) \"") + y;
    OneStringEntry(a, s, number);
    TwoStringEntries(a, b, x, y, number);
    SameText(EntryLabel(a, 0), EntryLabel(b, 0), Lit("(string) \""), x, y, Lit("\"\n"));
    var one, two := [Entry(a, Prim(Str(s)))], [Entry(a, Prim(Str(x))), Entry(b, Prim(Str(y)))];
    SameTitle(one, two);
  }

  lemma SameTitle(es: seq<Entry>, fs: seq<Entry>)
    ensures Title(Dict(es)) == Title(Dict(fs))
  {
  }
}
