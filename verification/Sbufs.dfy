/** The string buffer of libsbuf, updated in place. Every method is proved to take the model of the
    buffer (module `BufferModel`) exactly where the corresponding function takes it. */
module Sbufs {
  import opened Words
  import opened BufferModel
  import opened BufferEdits

  /** The C string at the start of some memory: the bytes before the first NUL. */
  function CString(mem: seq<Byte>): (s: seq<Byte>)
    requires 0 in mem
    ensures |s| < |mem| && mem[|s|] == 0 && 0 !in s && s == mem[..|s|]
  {
    if mem[0] == 0 then [] else [mem[0]] + CString(mem[1..])
  }

  method ExtendSizeLoop(size: int) returns (newsize: int)
    ensures newsize == ExtendSize(size)
  {
    if size < MAX_EXTEND_SIZE {
      newsize := MIN_EXTEND_SIZE;
      while newsize < size
        invariant newsize > 0 && DoubleUntil(newsize, size) == DoubleUntil(MIN_EXTEND_SIZE, size)
      {
        newsize := newsize * 2;
      }
    } else {
      newsize := RoundUp2(size, MAX_EXTEND_INCR);
    }
  }

  class Sbuf {
    var buf: array<Byte>
    var drain: Drain
    var error: int
    var size: int
    var len: int
    var auto: bool
    var finished: bool
    var inSection: bool
    var sectLen: int

    ghost predicate Valid()
      reads this, buf
    {
      && 0 <= len < size <= buf.Length
      && Model().Valid()
      && (finished ==> buf[len] == 0)
    }

    ghost function Model(): Buf
      reads this, buf
      requires 0 <= len <= buf.Length
    {
      Buf(buf[..len], size, error, auto, drain, inSection, sectLen, finished)
    }

    /** An extending buffer on the heap, as sbuf_new_auto makes it. */
    constructor Auto()
      ensures Valid() && fresh(buf) && Model() == NewAuto()
    {
      var n := ExtendSizeLoop(0);
      buf := new Byte[n](_ => 0);
      drain := NoDrain;
      size, len, error, sectLen := n, 0, 0, 0;
      auto, finished, inSection := true, false, false;
    }

    /** A buffer of a given size over the caller's memory. */
    constructor Over(memory: array<Byte>, length: int, autoextend: bool)
      requires 1 <= length <= memory.Length
      ensures Valid() && buf == memory
      ensures Model() == Buf([], length, 0, autoextend, NoDrain, false, 0, false)
    {
      buf := memory;
      drain := NoDrain;
      size, len, error, sectLen := length, 0, 0, 0;
      auto, finished, inSection := autoextend, false, false;
    }

    method SetDrain(f: Drain)
      requires Valid() && !finished && f.Lawful()
      requires f == drain || len == 0
      requires f.Drain? ==> size >= 2
      modifies this
      ensures Valid() && buf == old(buf) && Model() == old(Model()).(drain := f)
    {
      drain := f;
    }

    method Clear()
      requires Valid()
      modifies this
      ensures Valid() && buf == old(buf) && Model() == BufferModel.Clear(old(Model()))
      ensures len == 0 && error == 0 && !finished
    {
      finished, error, len, sectLen := false, 0, 0, 0;
    }

    method SetPos(pos: int) returns (r: int)
      requires Valid() && !finished
      modifies this
      ensures Valid() && buf == old(buf) && Model() == BufferModel.SetPos(old(Model()), pos)
      ensures r == if pos < 0 || pos > old(len) then -1 else 0
      ensures r == 0 ==> len == pos && buf[..len] == old(buf[..len])[..pos]
    {
      if pos < 0 || pos > len {
        return -1;
      }
      len := pos;
      assert buf[..len] == old(buf[..len])[..pos];
      return 0;
    }

    method Extend(addlen: int) returns (r: int)
      requires Valid() && addlen > 0
      modifies this
      ensures Valid() && (buf == old(buf) || fresh(buf))
      ensures r == if old(auto) then 0 else -1
      ensures Model() == if old(auto) then BufferModel.Extend(old(Model()), addlen) else old(Model())
      ensures r < 0 ==> buf == old(buf)
    {
      if !auto {
        return -1;
      }
      var newsize := ExtendSizeLoop(size + addlen);
      var newbuf := new Byte[newsize](_ => 0);
      forall i | 0 <= i < size {
        newbuf[i] := buf[i];
      }
      assert newbuf[..len] == buf[..len];
      buf, size := newbuf, newsize;
      return 0;
    }

    method DrainSome() returns (r: int)
      requires Valid() && drain.Drain? && len > 0 && error == 0 && !finished
      modifies this, buf
      ensures Valid() && buf == old(buf) && !finished && drain.Drain? && Model() == DrainOnce(old(Model()))
      ensures (drain, if r == 0 then old(len) - len else -r) == old(drain.Call(buf[..len]))
      ensures drain.Received() + buf[..len] == old(drain.Received() + buf[..len])
      ensures r == error
      ensures r != 0 ==> buf[..] == old(buf[..])
    {
      ghost var offered := buf[..len];
      var (called, n) := drain.Call(buf[..len]);
      drain := called;
      if n < 0 {
        error := -n;
        return error;
      }
      len := len - n;
      if len == 0 {
        return 0;
      }
      forall i | 0 <= i < len {
        buf[i] := buf[n + i];
      }
      assert buf[..len] == offered[n..];
      return 0;
    }

    /** The store at the end of the core append. */
    method StoreByte(c: Byte)
      requires Valid() && !finished && len + 1 < size
      modifies this, buf
      ensures Valid() && buf == old(buf) && Model() == Store(old(Model()), [c])
    {
      buf[len] := c;
      len := len + 1;
      if inSection {
        sectLen := sectLen + 1;
      }
      assert buf[..len] == old(buf[..len]) + [c];
    }

    method PutByte(c: int)
      requires Valid() && !finished
      modifies this, buf
      ensures Valid() && !finished && (buf == old(buf) || fresh(buf))
      ensures Model() == BufferModel.PutByte(old(Model()), c % 256)
    {
      if error != 0 {
        return;
      }
      if size - (len + 1) <= 0 {
        if drain.Drain? {
          var _ := DrainSome();
        } else {
          var e := Extend(1);
          if e < 0 {
            error := ENOMEM;
          }
        }
        if error != 0 {
          return;
        }
      }
      StoreByte(c % 256);
    }
  
    method Putc(c: int) returns (r: int)
      requires Valid() && !finished
      modifies this, buf
      ensures Valid() && (buf == old(buf) || fresh(buf))
      ensures Model() == BufferModel.PutByte(old(Model()), c % 256)
      ensures r == if error != 0 then -1 else 0
    {
      PutByte(c);
      r := if error != 0 then -1 else 0;
    }

    method Bcat(bytes: seq<Byte>) returns (r: int)
      requires Valid() && !finished
      modifies this, buf
      ensures Valid() && (buf == old(buf) || fresh(buf))
      ensures Model() == PutBytes(old(Model()), bytes)
      ensures r == if error != 0 then -1 else 0
    {
      hide BufferModel.PutByte;
      if error != 0 {
        ErrorSticks(Model(), bytes);
        return -1;
      }
      var i := 0;
      while i < |bytes|
        invariant 0 <= i <= |bytes|
        invariant Valid() && !finished && error == 0 && (buf == old(buf) || fresh(buf))
        invariant PutBytes(Model(), bytes[i..]) == PutBytes(old(Model()), bytes)
      {
        assert bytes[i..][0] == bytes[i] && bytes[i..][1..] == bytes[i + 1..];
        PutByte(bytes[i]);
        i := i + 1;
        if error != 0 {
          ErrorSticks(Model(), bytes[i..]);
          return -1;
        }
      }
      return 0;
    }

    method Bcpy(bytes: seq<Byte>) returns (r: int)
      requires Valid() && !finished
      modifies this, buf
      ensures Valid() && (buf == old(buf) || fresh(buf))
      ensures Model() == PutBytes(BufferModel.Clear(old(Model())), bytes)
      ensures Copied(old(Model()), bytes, Model())
      ensures drain == NoDrain && error == 0 ==> buf[..len] == bytes
      ensures r == if error != 0 then -1 else 0
    {
      CopyContents(Model(), bytes);
      Clear();
      r := Bcat(bytes);
    }

    method Cat(mem: seq<Byte>) returns (r: int)
      requires Valid() && !finished && 0 in mem
      modifies this, buf
      ensures Valid() && (buf == old(buf) || fresh(buf))
      ensures Model() == PutBytes(old(Model()), CString(mem))
      ensures r == if error != 0 then -1 else 0
    {
      hide BufferModel.PutByte;
      ghost var str := CString(mem);
      if error != 0 {
        ErrorSticks(Model(), str);
        return -1;
      }
      var i := 0;
      while mem[i] != 0
        invariant 0 <= i <= |str|
        invariant Valid() && !finished && error == 0 && (buf == old(buf) || fresh(buf))
        invariant PutBytes(Model(), str[i..]) == PutBytes(old(Model()), str)
        decreases |str| - i
      {
        assert str[i..][0] == mem[i] && str[i..][1..] == str[i + 1..];
        PutByte(mem[i]);
        i := i + 1;
        if error != 0 {
          ErrorSticks(Model(), str[i..]);
          return -1;
        }
      }
      assert i == |str|;
      return 0;
    }

    method Cpy(mem: seq<Byte>) returns (r: int)
      requires Valid() && !finished && 0 in mem
      modifies this, buf
      ensures Valid() && (buf == old(buf) || fresh(buf))
      ensures Model() == PutBytes(BufferModel.Clear(old(Model())), CString(mem))
      ensures Copied(old(Model()), CString(mem), Model())
      ensures drain == NoDrain && error == 0 ==> buf[..len] == CString(mem)
      ensures r == if error != 0 then -1 else 0
    {
      CopyContents(Model(), CString(mem));
      Clear();
      r := Cat(mem);
    }

    /** How much of a text the room in the buffer can take. */
    function Fitting(text: seq<Byte>): nat
      requires len < size
      reads this
    {
      if size - (len + 1) < |text| then size - (len + 1) else |text|
    }

    /** The formatter writes what fits after the string, and a terminator, whatever becomes of it. */
    method FormatAtEnd(text: seq<Byte>)
      requires Valid() && !finished
      modifies buf
      ensures Valid() && Model() == old(Model())
      ensures buf[len..len + Fitting(text)] == text[..Fitting(text)]
    {
      var n := Fitting(text);
      forall i | 0 <= i < n {
        buf[len + i] := text[i];
      }
      buf[len + n] := 0;
      assert buf[..len] == old(buf[..len]);
    }

    /** One more attempt at room for the text: drain, or else extend. On failure nothing moved. */
    method DrainOrExtend(text: seq<Byte>) returns (e: int)
      requires Valid() && !finished && error == 0 && Model().Free() < |text|
      modifies this, buf
      ensures Valid() && !finished && (buf == old(buf) || fresh(buf))
      ensures e == 0 ==> error == 0 && MakeRoom(Model(), text) == MakeRoom(old(Model()), text)
      ensures e == 0 ==> Shortfall(Model(), text) < Shortfall(old(Model()), text)
      ensures e != 0 ==> Model() == MakeRoom(old(Model()), text)
      ensures e != 0 ==> buf == old(buf) && buf[..] == old(buf[..]) && len == old(len) && size == old(size)
    {
      if drain.Drain? && len > 0 {
        e := DrainSome();
      } else {
        e := Extend(|text| - (size - (len + 1)));
      }
    }

    /** Format until the text fits, draining or extending in between; the last attempt stays in place. */
    method FormatRetry(text: seq<Byte>)
      requires Valid() && !finished && error == 0
      modifies this, buf
      ensures Valid() && !finished && (buf == old(buf) || fresh(buf))
      ensures Model() == MakeRoom(old(Model()), text)
      ensures buf[len..len + Fitting(text)] == text[..Fitting(text)]
    {
      while true
        invariant Valid() && !finished && error == 0 && (buf == old(buf) || fresh(buf))
        invariant MakeRoom(Model(), text) == MakeRoom(old(Model()), text)
        decreases Shortfall(Model(), text)
      {
        FormatAtEnd(text);
        if size - (len + 1) >= |text| {
          break;
        }
        var e := DrainOrExtend(text);
        if e != 0 {
          break;
        }
      }
    }

    /** Count the formatted bytes that fitted, and record an error if the buffer is now full for good. */
    method SettleFormatted(text: seq<Byte>)
      requires Valid() && !finished
      requires buf[len..len + Fitting(text)] == text[..Fitting(text)]
      modifies this
      ensures Valid() && !finished && buf == old(buf)
      ensures Model() == Settle(old(Model()), text)
    {
      var n := |text|;
      if size - (len + 1) < n {
        n := size - (len + 1);
      }
      len := len + n;
      assert buf[..len] == old(buf[..len]) + text[..n];
      if inSection {
        sectLen := sectLen + n;
      }
      if !(len < size - 1) && !auto {
        error := ENOMEM;
      }
    }

    method Vprintf(text: seq<Byte>) returns (r: int)
      requires Valid() && !finished
      modifies this, buf
      ensures Valid() && (buf == old(buf) || fresh(buf))
      ensures Model() == Printf(old(Model()), text)
      ensures r == if error != 0 then -1 else 0
    {
      if error != 0 {
        return -1;
      }
      FormatRetry(text);
      SettleFormatted(text);
      r := if error != 0 then -1 else 0;
    }

    method Trim() returns (r: int)
      requires Valid() && !finished && drain == NoDrain
      modifies this
      ensures Valid() && buf == old(buf) && Model() == BufferModel.Trim(old(Model()))
      ensures error == 0 ==> Trimmed(old(buf[..len]), buf[..len])
      ensures r == if error != 0 then -1 else 0
    {
      hide Drain.Lawful, Trimmed;
      if error != 0 {
        return -1;
      }
      ghost var was := Model();
      TrimTrims(was);
      while len > 0 && IsSpace(buf[len - 1])
        invariant 0 <= len <= |was.stored| && buf == old(buf) && buf[..len] == was.stored[..len]
        invariant TrimmedLength(was.stored[..len]) == TrimmedLength(was.stored)
        invariant sectLen == was.sectLen - if inSection then |was.stored| - len else 0
        invariant Model() == was.(stored := was.stored[..len], sectLen := sectLen) && !finished
      {
        assert was.stored[..len][..len - 1] == was.stored[..len - 1];
        len := len - 1;
        if inSection {
          sectLen := sectLen - 1;
        }
      }
      return 0;
    }

    method Finish() returns (r: int)
      requires Valid() && !finished
      modifies this, buf
      ensures Valid() && buf == old(buf) && Model() == BufferModel.Finish(old(Model()))
      ensures r == if error != 0 then -1 else 0
    {
      hide DrainOnce, Taken, Drain.Received, Drain.Call, Drain.After;
      if drain.Drain? {
        while len > 0 && error == 0
          invariant Valid() && !finished && buf == old(buf) && drain.Drain?
          invariant DrainAll(Model()) == DrainAll(old(Model()))
          decreases len, if error == 0 then 1 else 0
        {
          error := DrainSome();
        }
      }
      ghost var before := Model();
      buf[len] := 0;
      assert buf[..len] == before.stored;
      finished := true;
      r := if error != 0 then -1 else 0;
    }

    /** The data of a finished buffer: its bytes, with the terminator right after them. */
    method Data() returns (data: array<Byte>)
      requires Valid() && finished && drain == NoDrain
      ensures data == buf && len < data.Length && data[..len] == Model().stored && data[len] == 0
    {
      data := buf;
    }

    method Length() returns (n: int)
      requires Valid() && drain == NoDrain
      ensures n == if Model().error != 0 then -1 else |Model().stored|
    {
      n := if error != 0 then -1 else len;
    }

    method StartSection() returns (oldLen: int)
      requires Valid() && !finished
      modifies this
      ensures Valid() && buf == old(buf)
      ensures Model() == BufferModel.StartSection(old(Model()))
      ensures oldLen == SavedLength(old(Model()))
    {
      if !inSection {
        oldLen := -1;
        inSection := true;
      } else {
        oldLen := sectLen;
        sectLen := 0;
      }
    }

    /** The padding loop at the end of a section. */
    method Pad(pad: nat, c: int)
      requires Valid() && !finished && inSection && sectLen >= 0
      modifies this, buf
      ensures Valid() && !finished && (buf == old(buf) || fresh(buf))
      ensures Model() == PutBytes(old(Model()), seq(Padding(old(Model()), pad), _ => c % 256))
    {
      hide BufferModel.PutByte;
      ghost var padding := seq(Padding(Model(), pad), _ => c % 256);
      if pad > 1 {
        var n := RoundUp(sectLen, pad) - sectLen;
        while error == 0 && n > 0
          invariant 0 <= n <= |padding|
          invariant Valid() && !finished && (buf == old(buf) || fresh(buf))
          invariant PutBytes(Model(), padding[|padding| - n..]) == PutBytes(old(Model()), padding)
          decreases n
        {
          var rest := padding[|padding| - n..];
          assert rest[0] == c % 256 && rest[1..] == padding[|padding| - (n - 1)..];
          PutByte(c);
          n := n - 1;
        }
        if error != 0 {
          ErrorSticks(Model(), padding[|padding| - n..]);
        }
      }
    }

    method EndSection(oldLen: int, pad: nat, c: int) returns (r: int)
      requires Valid() && !finished && inSection && sectLen >= 0
      modifies this, buf
      ensures Valid() && (buf == old(buf) || fresh(buf))
      ensures (Model(), r) == BufferModel.EndSection(old(Model()), oldLen, pad, c % 256)
    {
      Pad(pad, c);
      var len := sectLen;
      if oldLen == -1 {
        sectLen := 0;
        inSection := false;
      } else {
        sectLen := sectLen + oldLen;
      }
      r := if error != 0 then -1 else len;
    }
  }
}
