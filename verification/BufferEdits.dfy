/** What clearing, copying, truncating and trimming leave, and that sections never influence the
    bytes. */
module BufferEdits {
  import opened Words
  import opened BufferModel
  import opened BufferRuns
  import opened BufferCapacity

  // ----- Sections do not influence the buffer

  /** The buffer without its open section. */
  function Unsectioned(b: Buf): Buf {
    b.(inSection := false, sectLen := 0)
  }

  lemma PutByteUnsectioned(b: Buf, c: Byte)
    requires b.Valid()
    ensures Unsectioned(b).Valid() && Unsectioned(PutByte(b, c)) == PutByte(Unsectioned(b), c)
  {
  }

  lemma {:induction false} PutBytesUnsectioned(b: Buf, bytes: seq<Byte>)
    requires b.Valid()
    ensures Unsectioned(b).Valid() && Unsectioned(PutBytes(b, bytes)) == PutBytes(Unsectioned(b), bytes)
    decreases |bytes|
  {
    hide PutByte;
    PutByteUnsectioned(b, 0);
    if bytes != [] {
      PutByteUnsectioned(b, bytes[0]);
      PutBytesUnsectioned(PutByte(b, bytes[0]), bytes[1..]);
    }
  }

  lemma DrainUnsectioned(b: Buf)
    requires b.Valid() && b.drain.Drain? && b.stored != [] && b.error == 0
    ensures Unsectioned(DrainOnce(b)) == DrainOnce(Unsectioned(b))
    ensures DrainOnce(b).Valid() && (DrainOnce(b).error == 0 ==> |DrainOnce(b).stored| < |b.stored|)
    ensures DrainOnce(b).size == b.size
  {
  }

  lemma {:induction false} MakeRoomUnsectioned(b: Buf, text: seq<Byte>)
    requires b.Valid() && b.error == 0
    ensures Unsectioned(MakeRoom(b, text)) == MakeRoom(Unsectioned(b), text)
    decreases Shortfall(b, text)
  {
    hide DrainOnce;
    if b.Free() >= |text| {
    } else if b.drain.Drain? && b.stored != [] {
      DrainUnsectioned(b);
      if DrainOnce(b).error == 0 {
        MakeRoomUnsectioned(DrainOnce(b), text);
      }
    } else if b.auto {
      var e := Extend(b, |text| - b.Free());
      assert e.Free() >= |text| && MakeRoom(e, text) == e;
    }
  }

  lemma PrintfUnsectioned(b: Buf, text: seq<Byte>)
    requires b.Valid()
    ensures Unsectioned(b).Valid() && Unsectioned(Printf(b, text)) == Printf(Unsectioned(b), text)
  {
    hide MakeRoom;
    if b.error == 0 {
      MakeRoomUnsectioned(b, text);
    }
  }

  /** Whether a section is open and what it has counted changes nothing else about a run. */
  lemma {:induction false} SectionsAreInvisible(b: Buf, ops: seq<Op>)
    requires b.Valid()
    ensures Unsectioned(b).Valid() && Unsectioned(Run(b, ops)) == Run(Unsectioned(b), ops)
    decreases |ops|
  {
    hide PutBytes, Printf;
    PutBytesUnsectioned(b, []);
    if ops != [] {
      if ops[0].Put? {
        PutBytesUnsectioned(b, ops[0].bytes);
      } else {
        PrintfUnsectioned(b, ops[0].text);
      }
      SectionsAreInvisible(Apply(b, ops[0]), ops[1..]);
    }
  }

  // ----- Clearing

  /** A buffer of some size that has never been used. */
  function NewOver(size: int, auto: bool, drain: Drain): Buf {
    Buf([], size, 0, auto, drain, false, 0, false)
  }

  /** After a clear, whatever the buffer went through before, every run leaves what it leaves in a new
      buffer of that size with that drain; an open section counts the bytes from the clear on. */
  lemma ClearedIsNew(b: Buf, ops: seq<Op>)
    requires b.Valid()
    ensures var r, n := Run(Clear(b), ops), NewOver(b.size, b.auto, b.drain);
      && n.Valid() && Unsectioned(r) == Run(n, ops)
      && r.sectLen == if b.inSection then |r.Stream()| - |b.drain.Received()| else 0
  {
    hide Run;
    SectionsAreInvisible(Clear(b), ops);
    RunAccepts(Clear(b), ops);
  }

  lemma {:induction false} RunExtending(b: Buf, ops: seq<Op>)
    requires Extending(b)
    ensures Run(b, ops).error == 0 && Run(b, ops).stored == b.stored + Requested(ops)
    decreases |ops|
  {
    if ops != [] {
      EditKeepsExtending(b, Append(ops[0]));
      RunExtending(Apply(b, ops[0]), ops[1..]);
    }
    RunAccepts(b, ops);
    assert Requested(ops)[..|Requested(ops)|] == Requested(ops);
    assert b.Stream() == b.stored && Run(b, ops).Stream() == Run(b, ops).stored;
  }

  /** Without a drain: an extending buffer then holds exactly the requested bytes, and a fixed one the
      longest prefix that fits, with an error only if the new requests earned it. */
  lemma ClearedContents(b: Buf, ops: seq<Op>)
    requires b.Valid() && b.drain == NoDrain
    ensures var r, room := Run(Clear(b), ops), b.size - 1;
      && (b.auto ==> r.error == 0 && r.stored == Requested(ops))
      && (!b.auto ==> r.stored == Requested(ops)[..if |Requested(ops)| <= room then |Requested(ops)| else room])
      && (!b.auto ==> (r.error != 0 <==> |Requested(ops)| > room || FormatFills(ops, room)))
  {
    if b.auto {
      RunExtending(Clear(b), ops);
    } else {
      FixedBufferTruncates(Clear(b), ops);
    }
  }

  /** What copying bytes into a buffer leaves: those bytes, or as many as fit into a fixed buffer, with
      an error exactly if some do not; with a drain, what it received before and then the bytes. */
  ghost predicate Copied(b: Buf, bytes: seq<Byte>, r: Buf) {
    && (b.drain == NoDrain ==>
      && (b.auto || |bytes| < b.size ==> r.stored == bytes && r.error == 0)
      && (!b.auto && |bytes| >= b.size ==> b.size > 0 && r.stored == bytes[..b.size - 1] && r.error == ENOMEM))
    && (r.error == 0 ==> r.Stream() == b.drain.Received() + bytes)
  }

  lemma CopyContents(b: Buf, bytes: seq<Byte>)
    requires b.Valid()
    ensures Copied(b, bytes, PutBytes(Clear(b), bytes))
  {
    PutBytesAccepts(Clear(b), bytes);
    assert bytes[..|bytes|] == bytes;
    if b.drain == NoDrain {
      if b.auto {
        PutBytesNoError(Clear(b), bytes);
        assert PutBytes(Clear(b), bytes).Stream() == PutBytes(Clear(b), bytes).stored;
      } else {
        PutBytesFixed(Clear(b), bytes);
      }
    }
  }

  // ----- Truncating and trimming

  /** A position inside the string leaves the bytes before it; any other leaves the buffer alone. */
  lemma SetPosTruncates(b: Buf, pos: int)
    requires b.Valid()
    ensures var r := SetPos(b, pos);
      && r == b.(stored := r.stored) && r.stored <= b.stored
      && |r.stored| == if 0 <= pos <= |b.stored| then pos else |b.stored|
  {
  }

  /** The longest prefix that does not end in white space. */
  ghost predicate Trimmed(bytes: seq<Byte>, t: seq<Byte>) {
    && t <= bytes
    && (t != [] ==> !IsSpace(t[|t| - 1]))
    && forall i :: |t| <= i < |bytes| ==> IsSpace(bytes[i])
  }

  lemma TrimmedIsUnique(bytes: seq<Byte>, t: seq<Byte>, u: seq<Byte>)
    requires Trimmed(bytes, t) && Trimmed(bytes, u)
    ensures t == u
  {
  }

  lemma TrimTrims(b: Buf)
    requires b.Valid() && b.drain == NoDrain && b.error == 0
    ensures Trimmed(b.stored, Trim(b).stored)
    ensures Trim(b) == b.(stored := Trim(b).stored, sectLen := Trim(b).sectLen)
  {
    var n := TrimmedLength(b.stored);
    assert Trim(b).stored == b.stored[..n];
  }

  /** A section that is trimmed before its end reports the bytes that are left of it; trimming can cut
      into what stood before the section, and the count is then negative. */
  lemma TrimmedSection(b: Buf, ops: seq<Op>, c: Byte)
    requires b.Valid() && b.drain == NoDrain && Run(StartSection(b), ops).error == 0
    ensures var t := Trim(Run(StartSection(b), ops));
      && t.inSection && t.error == 0 && t.sectLen == |t.stored| - |b.stored|
      && (t.sectLen >= 0 ==> EndSection(t, SavedLength(b), 0, c).1 == |t.stored| - |b.stored|)
  {
    RunAccepts(StartSection(b), ops);
    TrimTrims(Run(StartSection(b), ops));
  }

  // ----- Draining

  /** The one call a byte may cause: it happens exactly when the buffer is full and has a drain, it
      offers all that is buffered, and the buffer is not extended; an error is the negated answer. */
  lemma PutByteDrains(b: Buf, c: Byte)
    requires b.Valid() && b.drain.Drain?
    ensures var r, full := PutByte(b, c), b.error == 0 && |b.stored| == b.size - 1;
      && r.drain.offers == b.drain.offers + (if full then [b.stored] else []) && r.size == b.size
      && (full ==> var n := b.drain.answer(b.drain.offers, b.stored);
           && r.error == (if n < 0 then -n else 0)
           && r.stored == if n < 0 then b.stored else b.stored[n..] + [c])
      && (!full ==> r.error == b.error && r.stored == b.stored + if b.error == 0 then [c] else [])
  {
  }

  /** The offer is what is left of the buffered bytes, and not nothing. */
  ghost predicate LeftOver(stored: seq<Byte>, offer: seq<Byte>) {
    0 < |offer| <= |stored| && offer == stored[|stored| - |offer|..]
  }

  /** The calls from b to r offer what was left each time, and an error is the negated last answer. */
  ghost predicate Asked(b: Buf, r: Buf) {
    && b.drain.Drain? && r.drain.After(b.drain)
    && (forall i :: |b.drain.offers| <= i < |r.drain.offers| ==> LeftOver(b.stored, r.drain.offers[i]))
    && (b.error == 0 && r.error != 0 ==>
      var last := |r.drain.offers| - 1;
      last >= |b.drain.offers| && r.drain.answer(r.drain.offers[..last], r.drain.offers[last]) == -r.error)
  }

  lemma DrainAsks(b: Buf)
    requires b.Valid() && b.drain.Drain? && b.stored != [] && b.error == 0
    ensures var d := DrainOnce(b);
      && Asked(b, d) && d.drain.offers == b.drain.offers + [b.stored]
      && |d.stored| <= |b.stored| && d.stored == b.stored[|b.stored| - |d.stored|..]
      && d == b.(stored := d.stored, error := d.error, drain := d.drain)
  {
  }

  lemma AskedOnce(b: Buf, d: Buf, r: Buf)
    requires Asked(b, d) && Asked(d, r) && d.error == 0 && d.drain.offers == b.drain.offers + [b.stored] && b.stored != []
    requires |d.stored| <= |b.stored| && d.stored == b.stored[|b.stored| - |d.stored|..]
    ensures Asked(b, r)
    ensures r.drain.Drain? && |r.drain.offers| > |b.drain.offers| && r.drain.offers[|b.drain.offers|] == b.stored
  {
    forall i | |b.drain.offers| <= i < |r.drain.offers|
      ensures LeftOver(b.stored, r.drain.offers[i])
    {
      if i == |b.drain.offers| {
        assert r.drain.offers[i] == b.stored;
      } else {
        var offer := r.drain.offers[i];
        assert LeftOver(d.stored, offer);
        assert d.stored[|d.stored| - |offer|..] == b.stored[|b.stored| - |offer|..];
      }
    }
  }

  /** Formatted output calls the drain only while the text does not fit, and until it does, and extends
      only when everything is drained. */
  lemma {:induction false} FormatDrains(b: Buf, text: seq<Byte>)
    requires b.Valid() && b.drain.Drain? && b.error == 0
    ensures var m := MakeRoom(b, text);
      && Asked(b, m)
      && (forall i :: |b.drain.offers| <= i < |m.drain.offers| ==> b.size - 1 - |m.drain.offers[i]| < |text|)
      && (m.size != b.size ==> m.stored == [])
      && (m.error == 0 && m.stored != [] ==> |text| <= m.Free())
    decreases Shortfall(b, text)
  {
    hide DrainOnce, Asked, LeftOver, Taken, Drain.Received, Drain.After, ExtendSize;
    if b.Free() >= |text| {
      NothingAsked(b, b);
    } else if b.stored != [] {
      var d := DrainOnce(b);
      DrainAsks(b);
      if d.error == 0 {
        FormatDrains(d, text);
        var m := MakeRoom(b, text);
        AskedOnce(b, d, m);
        forall i | |b.drain.offers| <= i < |m.drain.offers|
          ensures b.size - 1 - |m.drain.offers[i]| < |text|
        {
          assert i > |b.drain.offers| ==> |d.drain.offers| <= i;
        }
      }
    } else if b.auto {
      var e := Extend(b, |text| - b.Free());
      assert e.Free() >= |text| && MakeRoom(e, text) == e;
      NothingAsked(b, e);
    } else {
      NothingAsked(b, b);
    }
  }

  lemma NothingAsked(b: Buf, r: Buf)
    requires b.drain.Drain? && r.drain == b.drain && r.error == b.error
    ensures Asked(b, r)
  {
  }

  /** Formatted output ends in error exactly when the drain failed or the buffer is full for good. */
  lemma FormatError(b: Buf, text: seq<Byte>)
    requires b.Valid() && b.error == 0
    ensures var r := Printf(b, text);
      r.error == if !b.auto && |r.stored| == r.size - 1 then ENOMEM else MakeRoom(b, text).error
  {
    hide MakeRoom, Taken, Drain.Received;
  }

  /** Finishing calls the drain until nothing is left or it fails. */
  lemma FinishDrains(b: Buf)
    requires b.Valid() && b.drain.Drain?
    ensures Asked(b, Finish(b)) && Finish(b).finished
    ensures Finish(b).error == 0 <==> b.error == 0 && Finish(b).stored == []
  {
    DrainAllAsks(b);
  }

  lemma {:induction false} DrainAllAsks(b: Buf)
    requires b.Valid() && b.drain.Drain?
    ensures Asked(b, DrainAll(b))
    ensures DrainAll(b).error == 0 <==> b.error == 0 && DrainAll(b).stored == []
    decreases |b.stored| + (if b.error == 0 then 1 else 0)
  {
    hide DrainOnce, Asked, LeftOver;
    if b.stored == [] || b.error != 0 {
      NothingAsked(b, b);
    } else {
      var d := DrainOnce(b);
      DrainAsks(b);
      if d.error == 0 {
        DrainAllAsks(d);
        AskedOnce(b, d, DrainAll(b));
      }
    }
  }
}
