/** xpc_copy_description: the rendering of an object, and its printing into an extending buffer. */
module Describe {
  import opened Words
  import opened Values
  import opened Entries
  import opened BufferModel
  import opened BufferRuns
  import opened Sbufs

  // ----- Formatting

  function Lit(s: string): (t: CStr)
    requires forall i :: 0 <= i < |s| ==> 0 < s[i] as int < 256
    ensures |t| == |s|
  {
    seq(|s|, i requires 0 <= i < |s| => s[i] as int)
  }

  function Digit(d: nat): Byte
    requires d < 16
    ensures Digit(d) != 0
  {
    if d < 10 then 48 + d else 87 + d
  }

  function Digits(n: nat, base: nat): (t: CStr)
    requires base == 10 || base == 16
    ensures t != []
  {
    if n < base then [Digit(n)] else Digits(n / base, base) + [Digit(n % base)]
  }

  function DigitValue(c: Byte): nat {
    if 97 <= c then c - 87 else if 48 <= c then c - 48 else 0
  }

  /** The number that a text of digits denotes. */
  function Number(t: seq<Byte>, base: nat): nat {
    if t == [] then 0 else Number(t[..|t| - 1], base) * base + DigitValue(t[|t| - 1])
  }

  /** The printed digits denote the number, without a leading zero. */
  lemma {:induction false} DigitsReadBack(n: nat, base: nat)
    requires base == 10 || base == 16
    ensures Number(Digits(n, base), base) == n
    ensures n > 0 ==> Digits(n, base)[0] != 48
  {
    var t := Digits(n, base);
    if n < base {
      assert t[..0] == [];
    } else {
      DigitsReadBack(n / base, base);
      assert t[..|t| - 1] == Digits(n / base, base);
    }
  }

  function Decimal(i: int): CStr {
    if i < 0 then [45] + Digits(-i, 10) else Digits(i, 10)
  }

  /** `%*s` of one blank: the width is a minimum, so level 0 still has the blank. */
  function Indent(level: nat): CStr {
    seq(if level == 0 then 1 else level * 4, _ => 32)
  }

  // ----- Rendering

  function TypeName(v: Value): CStr {
    match v
    case Dict(_) => Lit("dictionary")
    case Arr(_) => Lit("array")
    case Prim(Null) => Lit("null")
    case Prim(Bool(_)) => Lit("bool")
    case Prim(Int(_)) => Lit("int64")
    case Prim(Uint(_)) => Lit("uint64")
    case Prim(Date(_)) => Lit("date")
    case Prim(Str(_)) => Lit("string")
    case Prim(Data(_)) => Lit("data")
    case Prim(Fd(_)) => Lit("file descriptor")
    case Prim(Endpoint(_)) => Lit("endpoint")
    case Prim(Double(_)) => Lit("double")
    case Prim(Other(name)) => name
  }

  /** The line of a leaf. `number` gives the descriptor under which this process holds a file. */
  function RenderPrim(p: Prim, number: int -> int): CStr {
    match p
    case Bool(b) => (if b then Lit("true") else Lit("false")) + Lit("\n")
    case Str(s) => Lit("\"") + s + Lit("\"\n")
    case Int(i) => Lit("0x") + Decimal(i) + Lit("\n")
    case Uint(u) => Lit("0x") + Digits(u, 16) + Lit("\n")
    case Date(t) => Digits(AsUnsigned(t), 10) + Lit("\n")
    case Endpoint(port) => Lit("<") + Digits(port, 16) + Lit(">\n")
    case Null => Lit("<null>\n")
    case Fd(f) => Lit("<") + Decimal(number(f)) + Lit(">\n")
    case _ => Lit("<ERROR-TYPE!>\n")
  }

  function Title(v: Value): CStr {
    Lit("(") + TypeName(v) + Lit(") ")
  }

  function EntryLabel(key: CStr, level: nat): CStr {
    Indent(level) + Lit("\"") + key + Lit("\": ")
  }

  function ElemLabel(idx: nat, level: nat): CStr {
    Indent(level) + Decimal(idx) + Lit(": ")
  }

  /** What the format strings make of their arguments. */
  datatype Formats = Formats(
    title: Value -> CStr, leaf: Prim -> CStr, entryLabel: (CStr, nat) -> CStr, elemLabel: (nat, nat) -> CStr,
    newline: CStr, nullObject: CStr)

  /** The format strings of the library. */
  function LibraryFormats(number: int -> int): Formats {
    Formats(Title, p => RenderPrim(p, number), EntryLabel, ElemLabel, Lit("\n"), Lit("<null value>\n"))
  }

  function Render(v: Value, level: nat, f: Formats): CStr
    decreases v, 0
  {
    f.title(v) +
    match v
    case Prim(p) => f.leaf(p)
    case Dict(es) => f.newline + RenderEntries(es, level, f)
    case Arr(vs) => f.newline + RenderElems(vs, 0, level, f)
  }

  function RenderEntries(es: seq<Entry>, level: nat, f: Formats): CStr
    decreases es
  {
    if es == [] then []
    else f.entryLabel(es[0].key, level) + Render(es[0].value, level + 1, f) + RenderEntries(es[1..], level, f)
  }

  function RenderElems(vs: seq<Value>, idx: nat, level: nat, f: Formats): CStr
    decreases vs
  {
    if vs == [] then []
    else f.elemLabel(idx, level) + Render(vs[0], level + 1, f) + RenderElems(vs[1..], idx + 1, level, f)
  }

  // ----- Printing

  /** A buffer no print can fail on. */
  ghost predicate Printable(sbuf: Sbuf)
    reads sbuf, sbuf.buf
  {
    sbuf.Valid() && sbuf.auto && sbuf.drain == NoDrain && sbuf.error == 0 && !sbuf.finished
  }

  ghost function Printed(sbuf: Sbuf): seq<Byte>
    requires Printable(sbuf)
    reads sbuf, sbuf.buf
  {
    sbuf.buf[..sbuf.len]
  }

  /** sbuf_printf, its result ignored: in such a buffer the whole text arrives. */
  method Print(sbuf: Sbuf, text: CStr)
    requires Printable(sbuf)
    modifies sbuf, sbuf.buf
    ensures Printable(sbuf) && (sbuf.buf == old(sbuf.buf) || fresh(sbuf.buf))
    ensures Printed(sbuf) == old(Printed(sbuf)) + text
  {
    PrintfWithoutDrain(sbuf.Model(), text);
    PrintfAccepts(sbuf.Model(), text);
    var _ := sbuf.Vprintf(text);
  }

  lemma Regroup(a: seq<Byte>, b: seq<Byte>, c: seq<Byte>, d: seq<Byte>)
    ensures a + b + c + d == a + (b + (c + d)) == a + (b + c + d)
  {
  }

  method DescribeLevel(v: Value, sbuf: Sbuf, level: nat, f: Formats)
    requires Printable(sbuf)
    modifies sbuf, sbuf.buf
    ensures Printable(sbuf) && (sbuf.buf == old(sbuf.buf) || fresh(sbuf.buf))
    ensures Printed(sbuf) == old(Printed(sbuf)) + Render(v, level, f)
    decreases v, 0
  {
    ghost var start := Printed(sbuf);
    Print(sbuf, f.title(v));
    match v {
      case Prim(p) => Print(sbuf, f.leaf(p));
      case Dict(es) =>
        Print(sbuf, f.newline);
        DescribeEntries(es, sbuf, level, f);
        Regroup(start, f.title(v), f.newline, RenderEntries(es, level, f));
      case Arr(vs) =>
        Print(sbuf, f.newline);
        DescribeElems(vs, sbuf, level, f);
        Regroup(start, f.title(v), f.newline, RenderElems(vs, 0, level, f));
    }
  }

  method DescribeEntries(es: seq<Entry>, sbuf: Sbuf, level: nat, f: Formats)
    requires Printable(sbuf)
    modifies sbuf, sbuf.buf
    ensures Printable(sbuf) && (sbuf.buf == old(sbuf.buf) || fresh(sbuf.buf))
    ensures Printed(sbuf) == old(Printed(sbuf)) + RenderEntries(es, level, f)
    decreases es
  {
    ghost var start := Printed(sbuf);
    assert es[0..] == es;
    for i := 0 to |es|
      invariant Printable(sbuf) && (sbuf.buf == old(sbuf.buf) || fresh(sbuf.buf))
      invariant Printed(sbuf) + RenderEntries(es[i..], level, f) == start + RenderEntries(es, level, f)
    {
      assert es[i..][0] == es[i] && es[i..][1..] == es[i + 1..];
      ghost var before := Printed(sbuf);
      Print(sbuf, f.entryLabel(es[i].key, level));
      DescribeLevel(es[i].value, sbuf, level + 1, f);
      Regroup(before, f.entryLabel(es[i].key, level), Render(es[i].value, level + 1, f), RenderEntries(es[i + 1..], level, f));
    }
  }

  method DescribeElems(vs: seq<Value>, sbuf: Sbuf, level: nat, f: Formats)
    requires Printable(sbuf)
    modifies sbuf, sbuf.buf
    ensures Printable(sbuf) && (sbuf.buf == old(sbuf.buf) || fresh(sbuf.buf))
    ensures Printed(sbuf) == old(Printed(sbuf)) + RenderElems(vs, 0, level, f)
    decreases vs
  {
    ghost var start := Printed(sbuf);
    assert vs[0..] == vs;
    for i := 0 to |vs|
      invariant Printable(sbuf) && (sbuf.buf == old(sbuf.buf) || fresh(sbuf.buf))
      invariant Printed(sbuf) + RenderElems(vs[i..], i, level, f) == start + RenderElems(vs, 0, level, f)
    {
      assert vs[i..][0] == vs[i] && vs[i..][1..] == vs[i + 1..];
      ghost var before := Printed(sbuf);
      Print(sbuf, f.elemLabel(i, level));
      DescribeLevel(vs[i], sbuf, level + 1, f);
      Regroup(before, f.elemLabel(i, level), Render(vs[i], level + 1, f), RenderElems(vs[i + 1..], i + 1, level, f));
    }
  }

  function RenderObject(obj: Option<Value>, f: Formats): CStr {
    match obj
    case None => f.nullObject
    case Some(v) => Render(v, 0, f)
  }

  /** The description of an object, or of a null pointer: the whole rendering, as a C string. */
  method CopyDescription(obj: Option<Value>, f: Formats) returns (result: CStr)
    ensures result == RenderObject(obj, f)
  {
    var sbuf := new Sbuf.Auto();
    match obj {
      case None => Print(sbuf, f.nullObject);
      case Some(v) => DescribeLevel(v, sbuf, 0, f);
    }
    var _ := sbuf.Finish();
    var data := sbuf.Data();
    CStringAt(data[..], RenderObject(obj, f));
    result := CString(data[..]);
  }

  /** The string duplicated from memory that holds some text and a NUL right after it is that text. */
  lemma {:induction false} CStringAt(mem: seq<Byte>, text: CStr)
    requires |text| < |mem| && mem[..|text|] == text && mem[|text|] == 0
    ensures 0 in mem && CString(mem) == text
    decreases |mem|
  {
    if text != [] {
      assert text[0] == mem[0];
      CStringAt(mem[1..], text[1..]);
    }
  }
}
