/** What holds over whole runs of buffer operations: no byte is lost, repeated or reordered; a fixed
    buffer truncates at its size; the size of an extending buffer forgets how the bytes arrived; and
    nested sections measure exactly what was emitted inside them. */
module BufferRuns {
  import opened Words
  import opened BufferModel

  /** Going from b to r accepted a prefix of the requested bytes, all of them unless r is in error,
      and an open section counted exactly the accepted bytes. */
  ghost predicate Accepts(b: Buf, r: Buf, requested: seq<Byte>)
    requires b.Valid()
  {
    var k := |r.Stream()| - |b.Stream()|;
    && r.Valid()
    && 0 <= k <= |requested|
    && r.Stream() == b.Stream() + requested[..k]
    && (r.error == 0 ==> k == |requested|)
    && (b.error != 0 ==> r == b)
    && r.inSection == b.inSection
    && r.sectLen == b.sectLen + (if b.inSection then k else 0)
    && r.drain.After(b.drain) && r.auto == b.auto && r.finished == b.finished
  }

  lemma AcceptsChain(b: Buf, m: Buf, r: Buf, x: seq<Byte>, y: seq<Byte>)
    requires b.Valid() && m.Valid() && Accepts(b, m, x) && Accepts(m, r, y)
    ensures Accepts(b, r, x + y)
  {
    var j, k := |m.Stream()| - |b.Stream()|, |r.Stream()| - |m.Stream()|;
    if m.error != 0 {
      assert (x + y)[..j] == x[..j];
    } else {
      assert x[..j] == x;
      assert b.Stream() + x + y[..k] == b.Stream() + (x + y)[..j + k];
    }
  }

  lemma StoreStream(b: Buf, bytes: seq<Byte>)
    ensures Store(b, bytes).Stream() == b.Stream() + bytes
  {
  }

  lemma StoreAccepts(b: Buf, bytes: seq<Byte>, n: nat)
    requires b.Valid() && n <= |bytes| && n <= b.Free()
    ensures Store(b, bytes[..n]).Stream() == b.Stream() + bytes[..n]
    ensures |Store(b, bytes[..n]).stored| == |b.stored| + n
  {
  }

  lemma PutByteAccepts(b: Buf, c: Byte)
    requires b.Valid()
    ensures Accepts(b, PutByte(b, c), [c])
  {
    hide DrainOnce, Taken;
    assert [c][..1] == [c] && [c][..0] == [];
    if b.error == 0 && b.Free() <= 0 && b.drain.Drain? {
      DrainKeeps(b);
      StoreStream(DrainOnce(b), [c]);
    } else {
      StoreStream(b, [c]);
    }
  }

  lemma {:induction false} PutBytesAccepts(b: Buf, bytes: seq<Byte>)
    requires b.Valid()
    ensures Accepts(b, PutBytes(b, bytes), bytes)
    decreases |bytes|
  {
    if bytes != [] {
      var m := PutByte(b, bytes[0]);
      PutByteAccepts(b, bytes[0]);
      PutBytesAccepts(m, bytes[1..]);
      AcceptsChain(b, m, PutBytes(b, bytes), [bytes[0]], bytes[1..]);
      assert [bytes[0]] + bytes[1..] == bytes;
    }
  }

  /** What the retry loop leaves: it stops short of room for the text only on a drain error or when
      the buffer can neither drain nor extend, and the size it grows to is the one that exactly fits. */
  lemma {:induction false} MakeRoomOutcome(b: Buf, text: seq<Byte>)
    requires b.Valid() && b.error == 0
    ensures var r := MakeRoom(b, text);
      && (r.Free() < |text| && r.error == 0 ==> !b.auto && (b.drain.Drain? ==> r.stored == []))
      && (r.size != b.size ==> b.auto && r.error == 0 && r.size == ExtendSize(|r.stored| + |text| + 1))
      && (r.error != 0 ==> b.drain.Drain? && r.Free() < |text|)
      && (b.drain == NoDrain ==> r.stored == b.stored && r.error == 0)
    decreases Shortfall(b, text)
  {
    hide DrainOnce, Taken, Drain.Received, Drain.After;
    if b.Free() >= |text| {
    } else if b.drain.Drain? && b.stored != [] {
      DrainKeeps(b);
      if DrainOnce(b).error == 0 {
        MakeRoomOutcome(DrainOnce(b), text);
      }
    } else if b.auto {
      MakeRoomOutcome(Extend(b, |text| - b.Free()), text);
    }
  }

  lemma DrainKeeps(b: Buf)
    requires b.Valid() && b.drain.Drain? && b.stored != [] && b.error == 0
    ensures var d := DrainOnce(b);
      d == b.(stored := d.stored, error := d.error, drain := d.drain) && d.drain.Drain?
    ensures DrainOnce(b).error != 0 ==> DrainOnce(b).Free() == b.Free()
  {
  }

  /** How often the retry loop extends the buffer. */
  function Extensions(b: Buf, text: seq<Byte>): nat
    requires b.Valid() && b.error == 0
    decreases Shortfall(b, text)
  {
    if b.Free() >= |text| then 0
    else if b.drain.Drain? && b.stored != [] then
      var d := DrainOnce(b);
      if d.error != 0 then 0 else Extensions(d, text)
    else if b.auto then 1 + Extensions(Extend(b, |text| - b.Free()), text)
    else 0
  }

  /** The retry loop extends the buffer at most once, exactly if its size has changed. */
  lemma {:induction false} ExtendsAtMostOnce(b: Buf, text: seq<Byte>)
    requires b.Valid() && b.error == 0
    ensures Extensions(b, text) == if MakeRoom(b, text).size == b.size then 0 else 1
    decreases Shortfall(b, text)
  {
    if b.Free() >= |text| {
    } else if b.drain.Drain? && b.stored != [] {
      if DrainOnce(b).error == 0 {
        ExtendsAtMostOnce(DrainOnce(b), text);
      }
    } else if b.auto {
      var e := Extend(b, |text| - b.Free());
      assert e.Free() >= |text|;
      assert Extensions(e, text) == 0 && MakeRoom(e, text) == e;
    }
  }

  lemma PrintfAccepts(b: Buf, text: seq<Byte>)
    requires b.Valid()
    ensures Accepts(b, Printf(b, text), text)
  {
    hide Taken, Drain.Received, MakeRoom;
    if b.error == 0 {
      var m := MakeRoom(b, text);
      MakeRoomOutcome(b, text);
      var n := if m.Free() < |text| then m.Free() else |text|;
      StoreAccepts(m, text, n);
      assert Settle(m, text).Stream() == b.Stream() + text[..n];
    }
  }

  /** Formatted output without a drain: all of the text if the buffer extends, otherwise the longest
      prefix that fits, with an error as soon as the buffer is full. */
  lemma PrintfWithoutDrain(b: Buf, text: seq<Byte>)
    requires b.Valid() && b.drain == NoDrain && b.error == 0
    ensures var r := Printf(b, text);
      var n := if b.auto || |text| <= b.Free() then |text| else b.Free();
      r.stored == b.stored + text[..n] && (r.error != 0 <==> !b.auto && |text| >= b.Free())
  {
    MakeRoomOutcome(b, text);
  }

  // ----- Runs of appends

  /** An append: bytes one at a time (putc, bcat, cat), or a formatted text. */
  datatype Op = Put(bytes: seq<Byte>) | Format(text: seq<Byte>) {
    function Bytes(): seq<Byte> { if Put? then bytes else text }
  }

  function Apply(b: Buf, op: Op): (r: Buf)
    requires b.Valid()
    ensures r.Valid() && r.drain.Drain? == b.drain.Drain?
  {
    match op
    case Put(bytes) => PutBytes(b, bytes)
    case Format(text) => Printf(b, text)
  }

  function Run(b: Buf, ops: seq<Op>): (r: Buf)
    requires b.Valid()
    ensures r.Valid() && r.drain.Drain? == b.drain.Drain?
    decreases |ops|
  {
    if ops == [] then b else Run(Apply(b, ops[0]), ops[1..])
  }

  function Requested(ops: seq<Op>): seq<Byte> {
    if ops == [] then [] else ops[0].Bytes() + Requested(ops[1..])
  }

  /** For every drain and every run of appends, what the drain has received followed by the buffered
      bytes is the old stream followed by a prefix of what was requested: all of it if there is no
      error. */
  lemma {:induction false} RunAccepts(b: Buf, ops: seq<Op>)
    requires b.Valid()
    ensures Accepts(b, Run(b, ops), Requested(ops))
    decreases |ops|
  {
    if ops != [] {
      var m := Apply(b, ops[0]);
      if ops[0].Put? {
        PutBytesAccepts(b, ops[0].bytes);
      } else {
        PrintfAccepts(b, ops[0].text);
      }
      RunAccepts(m, ops[1..]);
      AcceptsChain(b, m, Run(b, ops), ops[0].Bytes(), Requested(ops[1..]));
    }
  }

  /** If everything, finishing included, went well, a drained buffer ends empty, and the same drain has
      received exactly what was buffered and then requested, each byte once and in order. */
  lemma FinishedDrainGotEverything(b: Buf, ops: seq<Op>)
    requires b.Valid() && b.drain.Drain? && Finish(Run(b, ops)).error == 0
    ensures var f := Finish(Run(b, ops));
      f.stored == [] && f.drain.After(b.drain)
      && f.drain.Received() == b.drain.Received() + b.stored + Requested(ops)
  {
    RunAccepts(b, ops);
    var f := Finish(Run(b, ops));
    assert f.Stream() == Run(b, ops).Stream();
    assert f.Stream() == f.drain.Received();
    assert Requested(ops)[..|Requested(ops)|] == Requested(ops);
  }

  // ----- Fixed buffers

  /** Some formatted output ended with the buffer full: it asked for at least the room that was left. */
  predicate FormatFills(ops: seq<Op>, room: int) {
    ops != [] &&
    ((ops[0].Format? && |ops[0].text| >= room) || FormatFills(ops[1..], room - |ops[0].Bytes()|))
  }

  /** r is b with the longest prefix of the requested bytes that fits, in error exactly when more
      was requested or a formatted output filled the buffer. */
  ghost predicate Truncates(b: Buf, r: Buf, requested: seq<Byte>, fills: bool)
    requires b.Valid()
  {
    var n := if |requested| <= b.Free() then |requested| else b.Free();
    && r == b.(stored := r.stored, error := r.error, sectLen := r.sectLen)
    && r.stored == b.stored + requested[..n]
    && (r.error != 0 <==> |requested| > b.Free() || fills)
    && (r.error != 0 ==> r.error == ENOMEM && r.Free() == 0)
  }

  lemma {:induction false} PutBytesFixed(b: Buf, bytes: seq<Byte>)
    requires b.Valid() && b.drain == NoDrain && !b.auto && b.error == 0
    ensures Truncates(b, PutBytes(b, bytes), bytes, false)
    decreases |bytes|
  {
    if bytes != [] {
      var m := PutByte(b, bytes[0]);
      if m.error == 0 {
        PutBytesFixed(m, bytes[1..]);
        var n := if |bytes| <= b.Free() then |bytes| else b.Free();
        assert bytes[..n] == [bytes[0]] + bytes[1..][..n - 1];
      } else {
        ErrorSticks(m, bytes[1..]);
      }
    }
  }

  lemma {:induction false} ErrorFreezes(b: Buf, ops: seq<Op>)
    requires b.Valid() && b.error != 0
    ensures Run(b, ops) == b
    decreases |ops|
  {
    if ops != [] {
      if ops[0].Put? {
        ErrorSticks(b, ops[0].bytes);
      }
      ErrorFreezes(b, ops[1..]);
    }
  }

  lemma ApplyTruncates(b: Buf, op: Op)
    requires b.Valid() && b.drain == NoDrain && !b.auto && b.error == 0
    ensures Truncates(b, Apply(b, op), op.Bytes(), op.Format? && |op.text| >= b.Free())
  {
    if op.Put? {
      PutBytesFixed(b, op.bytes);
    } else {
      PrintfWithoutDrain(b, op.text);
      MakeRoomOutcome(b, op.text);
    }
  }

  lemma TruncatesChain(b: Buf, m: Buf, r: Buf, x: seq<Byte>, y: seq<Byte>, fills: bool, later: bool)
    requires b.Valid() && m.Valid() && Truncates(b, m, x, fills)
    requires if m.error == 0 then Truncates(m, r, y, later) else r == m
    requires m.error == 0 ==> !fills
    ensures Truncates(b, r, x + y, if m.error == 0 then later else fills || |x| > b.Free())
  {
    if m.error == 0 {
      var k := if |y| <= m.Free() then |y| else m.Free();
      assert m.Free() == b.Free() - |x|;
      assert (x + y)[..|x| + k] == x + y[..k];
      assert x[..|x|] == x;
    } else {
      assert |x| >= b.Free();
      assert (x + y)[..b.Free()] == x[..b.Free()];
    }
  }

  /** A fixed buffer without a drain keeps the longest prefix of the requested bytes that fits. It is
      in error exactly when more was requested than fits, or when a formatted output filled it. */
  lemma {:induction false} FixedBufferTruncates(b: Buf, ops: seq<Op>)
    requires b.Valid() && b.drain == NoDrain && !b.auto && b.error == 0
    ensures Truncates(b, Run(b, ops), Requested(ops), FormatFills(ops, b.Free()))
    decreases |ops|
  {
    if ops != [] {
      var m := Apply(b, ops[0]);
      ApplyTruncates(b, ops[0]);
      if m.error == 0 {
        FixedBufferTruncates(m, ops[1..]);
      } else {
        ErrorFreezes(m, ops[1..]);
      }
      TruncatesChain(b, m, Run(b, ops), ops[0].Bytes(), Requested(ops[1..]),
        ops[0].Format? && |ops[0].text| >= b.Free(), FormatFills(ops[1..], m.Free()));
    }
  }
}
