/** The string buffer as a value: what one operation does to the bytes it holds, the bytes it has
    drained, its size, its error and its open section. Class `Sbuf` is proved to follow these
    functions, and the properties of whole runs are proved about them. */
module BufferModel {
  import opened Words

  const ENOMEM: int := 12
  const MIN_EXTEND_SIZE: int := 16
  const MAX_EXTEND_SIZE: int := 4096
  const MAX_EXTEND_INCR: int := 4096

  type Answer = (seq<seq<Byte>>, seq<Byte>) -> int

  /** What a drain took of the bytes offered to it, call after call: the front of each offer, of the
      length it answered, and nothing of an offer it answered with an error. */
  function Taken(answer: Answer, offers: seq<seq<Byte>>): seq<Byte> {
    if offers == [] then []
    else
      var past, offered := offers[..|offers| - 1], offers[|offers| - 1];
      var n := answer(past, offered);
      Taken(answer, past) + if 0 < n <= |offered| then offered[..n] else []
  }

  /** A drain answers a call, which offers it some bytes after those offered in the past, with a
      negative error or with the number of bytes it took from the front. It remembers all offers. */
  datatype Drain = NoDrain | Drain(answer: Answer, offers: seq<seq<Byte>>) {
    ghost predicate Lawful() {
      Drain? ==> forall past: seq<seq<Byte>>, offered: seq<Byte> :: offered != [] ==>
        answer(past, offered) < 0 || 0 < answer(past, offered) <= |offered|
    }

    function Received(): seq<Byte> {
      if Drain? then Taken(answer, offers) else []
    }

    /** The drain's side of a call: what it answers, and what it has received when it returns. */
    function Call(offered: seq<Byte>): (r: (Drain, int))
      requires Drain? && Lawful() && offered != []
      ensures r.0.After(this) && r.0.Lawful() && r.1 == answer(offers, offered)
      ensures r.1 < 0 || 0 < r.1 <= |offered|
      ensures r.0.Received() == Received() + if r.1 < 0 then [] else offered[..r.1]
    {
      var called := this.(offers := offers + [offered]);
      assert called.offers[..|offers|] == offers;
      (called, answer(offers, offered))
    }

    /** The same drain, after some more calls or none. */
    ghost predicate After(before: Drain) {
      if before.NoDrain? then NoDrain?
      else Drain? && answer == before.answer && before.offers <= offers
    }
  }

  datatype Buf = Buf(
    stored: seq<Byte>, size: int, error: int, auto: bool,
    drain: Drain, inSection: bool, sectLen: int, finished: bool)
  {
    ghost predicate Valid() {
      && |stored| < size
      && error >= 0
      && drain.Lawful()
      && (drain.Drain? ==> size >= 2)
      && (!inSection ==> sectLen == 0)
    }

    /** What the drain has received, followed by what is still buffered. */
    function Stream(): seq<Byte> { drain.Received() + stored }

    /** Room left for bytes, keeping one place for the terminator. */
    function Free(): int { size - (|stored| + 1) }
  }

  // ----- Sizes

  /** The least of sz, 2*sz, 4*sz, ... that is not below n. */
  function DoubleUntil(sz: int, n: int): (r: int)
    requires sz > 0
    ensures r >= n && r >= sz
    decreases n - sz
  {
    if sz >= n then sz else DoubleUntil(2 * sz, n)
  }

  function ExtendSize(n: int): (r: int)
    ensures r >= n && r >= MIN_EXTEND_SIZE
  {
    if n < MAX_EXTEND_SIZE then DoubleUntil(MIN_EXTEND_SIZE, n)
    else
      RoundUpIsLeastMultiple(n, MAX_EXTEND_INCR);
      Pow2Adds(6, 6);
      RoundUp2IsRoundUp(n, 12);
      RoundUp2(n, MAX_EXTEND_INCR)
  }

  /** The sizes an extending buffer can have: powers of two from 16 up to a page, then whole pages. */
  ghost predicate LegalSize(m: int) {
    m in {16, 32, 64, 128, 256, 512, 1024, 2048} || (m > 0 && m % 4096 == 0)
  }

  lemma {:induction false} DoubleUntilLeast(sz: int, n: int)
    requires sz in {16, 32, 64, 128, 256, 512, 1024, 2048, 4096}
    requires n <= 4096
    ensures LegalSize(DoubleUntil(sz, n))
    ensures forall m :: LegalSize(m) && n <= m && sz <= m ==> DoubleUntil(sz, n) <= m
    decreases 4096 - sz
  {
    if sz < n {
      DoubleUntilLeast(2 * sz, n);
      assert forall m :: LegalSize(m) && sz < m ==> 2 * sz <= m;
    }
  }

  /** sbuf_extendsize picks the least legal size that is large enough. */
  lemma ExtendSizeIsLeastLegal(n: int)
    ensures LegalSize(ExtendSize(n)) && n <= ExtendSize(n)
    ensures forall m :: LegalSize(m) && n <= m ==> ExtendSize(n) <= m
  {
    if n < 4096 {
      DoubleUntilLeast(16, n);
      assert forall m :: LegalSize(m) ==> 16 <= m;
    } else {
      RoundUpIsLeastMultiple(n, 4096);
      Pow2Adds(6, 6);
      RoundUp2IsRoundUp(n, 12);
    }
  }

  /** So it is a closure operator on sizes: extensive, monotone and idempotent. */
  lemma ExtendSizeIsClosure(n: int, m: int)
    ensures n <= ExtendSize(n)
    ensures n <= m ==> ExtendSize(n) <= ExtendSize(m)
    ensures ExtendSize(ExtendSize(n)) == ExtendSize(n)
  {
    ExtendSizeIsLeastLegal(n);
    ExtendSizeIsLeastLegal(m);
    ExtendSizeIsLeastLegal(ExtendSize(n));
  }

  /** Anything between a request and the size it was rounded to rounds to the same size. */
  lemma ExtendSizeBetween(n: int, m: int)
    requires n <= m <= ExtendSize(n)
    ensures ExtendSize(m) == ExtendSize(n)
  {
    ExtendSizeIsClosure(n, m);
    ExtendSizeIsClosure(m, ExtendSize(n));
  }

  // ----- Operations

  function NewAuto(): (b: Buf)
    ensures b.Valid() && b.auto && b.drain == NoDrain
  {
    Buf([], ExtendSize(0), 0, true, NoDrain, false, 0, false)
  }

  function Extend(b: Buf, addlen: int): Buf {
    b.(size := ExtendSize(b.size + addlen))
  }

  /** One call of the drain: an error is recorded, otherwise a prefix leaves the buffer. */
  function DrainOnce(b: Buf): (r: Buf)
    requires b.Valid() && b.drain.Drain? && b.stored != [] && b.error == 0
    ensures r.Valid()
    ensures r.error == 0 ==> |r.stored| < |b.stored|
    ensures r.error != 0 ==> r.stored == b.stored
    ensures r.Stream() == b.Stream()
    ensures r.drain == b.drain.Call(b.stored).0
  {
    var (drain, n) := b.drain.Call(b.stored);
    if n < 0 then b.(drain := drain, error := -n)
    else
      assert b.drain.Received() + b.stored[..n] + b.stored[n..] == b.Stream();
      b.(drain := drain, stored := b.stored[n..])
  }

  /** Append to the buffered bytes, counting them in the open section if there is one. */
  function Store(b: Buf, bytes: seq<Byte>): Buf {
    b.(stored := b.stored + bytes, sectLen := b.sectLen + if b.inSection then |bytes| else 0)
  }

  /** Append one byte: drain or extend a full buffer, and do nothing once there is an error. */
  function PutByte(b: Buf, c: Byte): (r: Buf)
    requires b.Valid()
    ensures r.Valid() && r.inSection == b.inSection && r.drain.Drain? == b.drain.Drain?
  {
    if b.error != 0 then b
    else if b.Free() > 0 then Store(b, [c])
    else if b.drain.Drain? then
      var d := DrainOnce(b);
      if d.error != 0 then d else Store(d, [c])
    else if b.auto then Store(Extend(b, 1), [c])
    else b.(error := ENOMEM)
  }

  function PutBytes(b: Buf, bytes: seq<Byte>): (r: Buf)
    requires b.Valid()
    ensures r.Valid() && r.inSection == b.inSection && r.drain.Drain? == b.drain.Drain?
    decreases |bytes|
  {
    if bytes == [] then b else PutBytes(PutByte(b, bytes[0]), bytes[1..])
  }

  lemma {:induction false} ErrorSticks(b: Buf, bytes: seq<Byte>)
    requires b.Valid() && b.error != 0
    ensures PutBytes(b, bytes) == b
    decreases |bytes|
  {
    if bytes != [] {
      ErrorSticks(b, bytes[1..]);
    }
  }

  function Shortfall(b: Buf, text: seq<Byte>): nat {
    if b.Free() >= |text| then 0 else |text| - b.Free()
  }

  /** The buffer when the retry loop of formatted output ends: it drains while it can, then
      extends, until the text fits or neither works. */
  function MakeRoom(b: Buf, text: seq<Byte>): (r: Buf)
    requires b.Valid() && b.error == 0
    ensures r.Valid()
    ensures r.Stream() == b.Stream()
    ensures r.(stored := b.stored, drain := b.drain, size := b.size, error := 0) == b && r.drain.After(b.drain)
    decreases Shortfall(b, text)
  {
    if b.Free() >= |text| then b
    else if b.drain.Drain? && b.stored != [] then
      var d := DrainOnce(b);
      if d.error != 0 then d else MakeRoom(d, text)
    else if b.auto then MakeRoom(Extend(b, |text| - b.Free()), text)
    else b
  }

  /** The end of formatted output: take what fits. A buffer that cannot extend and is now full is
      in error, even when the text fitted exactly. */
  function Settle(b: Buf, text: seq<Byte>): (r: Buf)
    requires b.Valid()
    ensures r.Valid()
  {
    var n := if b.Free() < |text| then b.Free() else |text|;
    var s := Store(b, text[..n]);
    if !(|s.stored| < s.size - 1) && !s.auto then s.(error := ENOMEM) else s
  }

  function Printf(b: Buf, text: seq<Byte>): (r: Buf)
    requires b.Valid()
    ensures r.Valid() && r.drain.Drain? == b.drain.Drain?
  {
    if b.error != 0 then b else Settle(MakeRoom(b, text), text)
  }

  /** White space of the C locale. */
  predicate IsSpace(c: Byte) { c == 32 || 9 <= c <= 13 }

  /** The length without the longest run of white space at the end. */
  function TrimmedLength(bytes: seq<Byte>): (n: nat)
    ensures n <= |bytes|
    ensures forall i :: n <= i < |bytes| ==> IsSpace(bytes[i])
    ensures n > 0 ==> !IsSpace(bytes[n - 1])
  {
    if bytes != [] && IsSpace(bytes[|bytes| - 1]) then TrimmedLength(bytes[..|bytes| - 1]) else |bytes|
  }

  function Trim(b: Buf): (r: Buf)
    requires b.Valid() && b.drain == NoDrain
    ensures r.Valid()
  {
    if b.error != 0 then b
    else
      var n := TrimmedLength(b.stored);
      b.(stored := b.stored[..n], sectLen := b.sectLen - if b.inSection then |b.stored| - n else 0)
  }

  function SetPos(b: Buf, pos: int): (r: Buf)
    requires b.Valid()
    ensures r.Valid()
  {
    if pos < 0 || pos > |b.stored| then b else b.(stored := b.stored[..pos])
  }

  /** Clearing forgets the buffered bytes, the error and the section count, but not that a section is open. */
  function Clear(b: Buf): (r: Buf)
    requires b.Valid()
    ensures r.Valid()
  {
    b.(finished := false, error := 0, stored := [], sectLen := 0)
  }

  function DrainAll(b: Buf): (r: Buf)
    requires b.Valid() && b.drain.Drain?
    ensures r.Valid() && r.Stream() == b.Stream() && r.drain.After(b.drain)
    ensures r.error == 0 ==> b.error == 0 && r.stored == []
    decreases |b.stored| + (if b.error == 0 then 1 else 0)
  {
    if b.stored == [] || b.error != 0 then b else DrainAll(DrainOnce(b))
  }

  function Finish(b: Buf): (r: Buf)
    requires b.Valid()
    ensures r.Valid()
  {
    (if b.drain.Drain? then DrainAll(b) else b).(finished := true)
  }

  function StartSection(b: Buf): (r: Buf)
    requires b.Valid()
    ensures r.Valid()
  {
    b.(inSection := true, sectLen := 0)
  }

  /** What start_section hands to its caller, to be given back to end_section. */
  function SavedLength(b: Buf): int {
    if b.inSection then b.sectLen else -1
  }

  function Padding(b: Buf, pad: nat): (n: nat)
    requires b.sectLen >= 0
  {
    if pad > 1 then
      RoundUpIsLeastMultiple(b.sectLen, pad);
      RoundUp(b.sectLen, pad) - b.sectLen
    else 0
  }

  /** End the open section after padding it; the length is the padded one. */
  function EndSection(b: Buf, oldLen: int, pad: nat, c: Byte): (r: (Buf, int))
    requires b.Valid() && b.inSection && b.sectLen >= 0
    ensures r.0.Valid()
  {
    var p := PutBytes(b, seq(Padding(b, pad), _ => c));
    var len := p.sectLen;
    var e := if oldLen == -1 then p.(sectLen := 0, inSection := false) else p.(sectLen := len + oldLen);
    (e, if p.error != 0 then -1 else len)
  }
}
