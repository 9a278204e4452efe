/** Nested sections: every end_section reports exactly what was emitted since its start_section. */
module BufferSections {
  import opened Words
  import opened BufferModel
  import opened BufferRuns

  /** A well-bracketed script of appends and padded sections. */
  datatype Item = Emit(op: Op) | Section(body: seq<Item>, pad: nat, c: Byte)

  /** Run a script. A section saves the outer count, runs its body and gives the saved count back. */
  function Exec(b: Buf, items: seq<Item>): (r: Buf)
    requires b.Valid() && b.sectLen >= 0
    ensures r.Valid() && r.sectLen >= 0 && r.inSection == b.inSection
    decreases items
  {
    if items == [] then b
    else Exec(ExecItem(b, items[0]), items[1..])
  }

  function ExecItem(b: Buf, item: Item): (r: Buf)
    requires b.Valid() && b.sectLen >= 0
    ensures r.Valid() && r.sectLen >= 0 && r.inSection == b.inSection
    decreases item
  {
    match item
    case Emit(op) =>
      ApplyAccepts(b, op);
      Apply(b, op)
    case Section(_, _, _) => ExecSection(b, item).0
  }

  /** A section and the length its end reports. */
  function ExecSection(b: Buf, item: Item): (r: (Buf, int))
    requires b.Valid() && b.sectLen >= 0 && item.Section?
    ensures r.0.Valid() && r.0.sectLen >= 0 && r.0.inSection == b.inSection
    decreases item, 0
  {
    var inner := Exec(StartSection(b), item.body);
    PutBytesAccepts(inner, seq(Padding(inner, item.pad), _ => item.c));
    EndSection(inner, SavedLength(b), item.pad, item.c)
  }

  lemma ApplyAccepts(b: Buf, op: Op)
    requires b.Valid()
    ensures Accepts(b, Apply(b, op), op.Bytes())
  {
    if op.Put? {
      PutBytesAccepts(b, op.bytes);
    } else {
      PrintfAccepts(b, op.text);
    }
  }

  /** Going from b to r accepted some bytes and an open section counted exactly those. */
  ghost predicate Counts(b: Buf, r: Buf) {
    && b.Stream() <= r.Stream()
    && r.sectLen == b.sectLen + (if b.inSection then |r.Stream()| - |b.Stream()| else 0)
    && (b.error != 0 ==> r.error != 0)
  }

  /** The end of a section added copies of its padding byte, fewer than the padding unit. */
  ghost predicate PaddedBy(inner: Buf, r: Buf, item: Item)
    requires item.Section?
  {
    var n := |r.Stream()| - |inner.Stream()|;
    && 0 <= n < PadUnit(item.pad)
    && r.Stream() == inner.Stream() + seq(n, _ => item.c)
  }

  function PadUnit(pad: nat): nat { if pad > 1 then pad else 1 }

  lemma {:induction false} ExecCounts(b: Buf, items: seq<Item>)
    requires b.Valid() && b.sectLen >= 0
    ensures Exec(b, items).error == 0 ==> Counts(b, Exec(b, items))
    ensures b.error != 0 ==> Exec(b, items).error != 0
    decreases items
  {
    if items != [] {
      var m := ExecItem(b, items[0]);
      match items[0] {
        case Emit(op) => ApplyAccepts(b, op);
        case Section(_, _, _) => SectionLength(b, items[0]);
      }
      ExecCounts(m, items[1..]);
    }
  }

  /** A section entered in any state, hence at any depth, whose run ends without error, reports the
      number of bytes that entered the stream between its start and its end, inner sections and
      padding included, drained or not. That number is a multiple of the padding, reached with the
      fewest padding bytes; it is added to the enclosing section, and when there is none no section
      is left open. */
  lemma {:induction false} SectionLength(b: Buf, item: Item)
    requires b.Valid() && b.sectLen >= 0 && item.Section?
    ensures var (r, len) := ExecSection(b, item);
      && (b.error != 0 ==> r.error != 0)
      && (r.error != 0 <==> len == -1)
      && (r.error == 0 ==>
        && Counts(b, r)
        && len == |r.Stream()| - |b.Stream()|
        && (item.pad > 1 ==> len % item.pad == 0)
        && PaddedBy(Exec(StartSection(b), item.body), r, item)
        && (!b.inSection ==> r.sectLen == 0 && !r.inSection))
    decreases item, 0
  {
    var s := StartSection(b);
    ExecCounts(s, item.body);
    var inner := Exec(s, item.body);
    var padding := seq(Padding(inner, item.pad), _ => item.c);
    PutBytesAccepts(inner, padding);
    if item.pad > 1 {
      RoundUpIsLeastMultiple(inner.sectLen, item.pad);
    }
    assert padding[..|padding|] == padding;
  }
}
