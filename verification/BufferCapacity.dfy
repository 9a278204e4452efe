/** The size of an extending buffer is decided by the largest length it ever had, however the bytes
    arrived and whatever was cut off again. */
module BufferCapacity {
  import opened Words
  import opened BufferModel
  import opened BufferRuns

  /** What a buffer from sbuf_new_auto can go through. */
  datatype Edit = Append(op: Op) | Seek(pos: int) | TrimEnd | Reset

  ghost predicate Extending(b: Buf) {
    b.Valid() && b.auto && b.drain == NoDrain && b.error == 0
  }

  function ApplyEdit(b: Buf, e: Edit): (r: Buf)
    requires b.Valid() && b.drain == NoDrain
    ensures r.Valid()
  {
    match e
    case Append(op) => Apply(b, op)
    case Seek(pos) => SetPos(b, pos)
    case TrimEnd => Trim(b)
    case Reset => Clear(b)
  }

  function Max(a: int, b: int): int { if a < b then b else a }

  /** The buffer after some edits, and the largest length it had before, between and after them. */
  ghost function RunEdits(b: Buf, edits: seq<Edit>): (Buf, nat)
    requires Extending(b)
    decreases |edits|
  {
    if edits == [] then (b, |b.stored|)
    else
      var m := ApplyEdit(b, edits[0]);
      EditKeepsExtending(b, edits[0]);
      var (r, high) := RunEdits(m, edits[1..]);
      (r, Max(|b.stored|, high))
  }

  /** The size fits a high-water mark that is not below the current length. */
  ghost predicate Fits(b: Buf, high: nat) {
    Extending(b) && |b.stored| <= high && b.size == ExtendSize(high + 1)
  }

  lemma PutByteFits(b: Buf, c: Byte, high: nat)
    requires Fits(b, high)
    ensures PutByte(b, c).stored == b.stored + [c]
    ensures Fits(PutByte(b, c), Max(high, |b.stored| + 1))
  {
    if b.Free() > 0 {
      ExtendSizeBetween(high + 1, Max(high, |b.stored| + 1) + 1);
    } else {
      ExtendSizeIsClosure(high + 1, b.size);
      assert b.size + 1 == |b.stored| + 2;
    }
  }

  lemma {:induction false} PutBytesFits(b: Buf, bytes: seq<Byte>, high: nat)
    requires Fits(b, high)
    ensures PutBytes(b, bytes).stored == b.stored + bytes
    ensures Fits(PutBytes(b, bytes), Max(high, |b.stored| + |bytes|))
    decreases |bytes|
  {
    if bytes != [] {
      PutByteFits(b, bytes[0], high);
      PutBytesFits(PutByte(b, bytes[0]), bytes[1..], Max(high, |b.stored| + 1));
      assert b.stored + [bytes[0]] + bytes[1..] == b.stored + bytes;
    }
  }

  lemma PrintfFits(b: Buf, text: seq<Byte>, high: nat)
    requires Fits(b, high)
    ensures Printf(b, text).stored == b.stored + text
    ensures Fits(Printf(b, text), Max(high, |b.stored| + |text|))
  {
    PrintfWithoutDrain(b, text);
    MakeRoomOutcome(b, text);
    var high' := Max(high, |b.stored| + |text|);
    if b.Free() >= |text| {
      ExtendSizeBetween(high + 1, high' + 1);
    } else {
      var e := Extend(b, |text| - b.Free());
      assert e.size == ExtendSize(|b.stored| + |text| + 1);
      assert MakeRoom(b, text) == MakeRoom(e, text) == e;
      assert high' == |b.stored| + |text| by {
        ExtendSizeIsClosure(high + 1, b.size);
      }
    }
  }

  lemma ApplyFits(b: Buf, op: Op, high: nat)
    requires Fits(b, high)
    ensures Apply(b, op).stored == b.stored + op.Bytes()
    ensures Fits(Apply(b, op), Max(high, |b.stored| + |op.Bytes()|))
  {
    if op.Put? {
      PutBytesFits(b, op.bytes, high);
    } else {
      PrintfFits(b, op.text, high);
    }
  }

  lemma EditFits(b: Buf, e: Edit, high: nat)
    requires Fits(b, high)
    ensures Fits(ApplyEdit(b, e), Max(high, |ApplyEdit(b, e).stored|))
  {
    if e.Append? {
      ApplyFits(b, e.op, high);
    }
  }

  lemma EditKeepsExtending(b: Buf, e: Edit)
    requires Extending(b)
    ensures Extending(ApplyEdit(b, e))
  {
    if e.Append? {
      if e.op.Put? {
        PutBytesAccepts(b, e.op.bytes);
        PutBytesNoError(b, e.op.bytes);
      } else {
        PrintfAccepts(b, e.op.text);
        PrintfWithoutDrain(b, e.op.text);
      }
    }
  }

  lemma {:induction false} PutBytesNoError(b: Buf, bytes: seq<Byte>)
    requires Extending(b)
    ensures PutBytes(b, bytes).error == 0
    decreases |bytes|
  {
    if bytes != [] {
      PutBytesNoError(PutByte(b, bytes[0]), bytes[1..]);
    }
  }

  lemma {:induction false} RunFits(b: Buf, edits: seq<Edit>, high: nat)
    requires Fits(b, high)
    ensures Fits(RunEdits(b, edits).0, Max(high, RunEdits(b, edits).1))
    decreases |edits|
  {
    if edits != [] {
      var m := ApplyEdit(b, edits[0]);
      EditKeepsExtending(b, edits[0]);
      EditFits(b, edits[0], high);
      assert |m.stored| <= RunEdits(m, edits[1..]).1;
      RunFits(m, edits[1..], Max(high, |m.stored|));
    }
  }

  /** For any edits of a fresh extending buffer: no error, and the size is the one rounded up from
      the high-water mark and its terminator. */
  lemma SizeIsHighWater(edits: seq<Edit>)
    ensures var (r, high) := RunEdits(NewAuto(), edits);
      r.error == 0 && r.size == ExtendSize(high + 1)
  {
    ExtendSizeBetween(0, 1) by {
      ExtendSizeIsLeastLegal(0);
    }
    RunFits(NewAuto(), edits, 0);
  }

  lemma {:induction false} AppendsFit(b: Buf, ops: seq<Op>, high: nat)
    requires Fits(b, high)
    ensures Run(b, ops).stored == b.stored + Requested(ops)
    ensures Fits(Run(b, ops), Max(high, |b.stored| + |Requested(ops)|))
    decreases |ops|
  {
    if ops != [] {
      var m, x, y := Apply(b, ops[0]), ops[0].Bytes(), Requested(ops[1..]);
      ApplyFits(b, ops[0], high);
      AppendsFit(m, ops[1..], Max(high, |b.stored| + |x|));
      assert b.stored + x + y == b.stored + (x + y);
    }
  }

  /** Two ways of appending the same bytes, whatever the pieces and whether formatted or not, leave
      the same contents in a buffer of the same size. */
  lemma ChunkingDoesNotMatter(ops: seq<Op>, ops': seq<Op>)
    requires Requested(ops) == Requested(ops')
    ensures Run(NewAuto(), ops).stored == Requested(ops) == Run(NewAuto(), ops').stored
    ensures Run(NewAuto(), ops).size == Run(NewAuto(), ops').size == ExtendSize(|Requested(ops)| + 1)
  {
    ExtendSizeBetween(0, 1) by {
      ExtendSizeIsLeastLegal(0);
    }
    AppendsFit(NewAuto(), ops, 0);
    AppendsFit(NewAuto(), ops', 0);
  }
}
