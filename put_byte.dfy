/** The buffered byte writer of formats.c (PutByteContext): bytes go into
    a caller-supplied buffer, which is handed to the `write_packet`
    callback whenever it fills up or is flushed, and `put_seek` either
    moves inside the buffer or flushes and asks the `write_seek` callback
    to move the output.

    The callbacks are modelled by the calls they receive, in `log`; a NULL
    callback by a false `writePacket` / `writeSeek` flag. */
module PutByte {
  import opened Bytes

  const SEEK_SET: int := 0
  const SEEK_CUR: int := 1

  /** A call the writer makes to one of its callbacks. */
  datatype Call = WritePacket(data: seq<byte>) | WriteSeek(offset: int, whence: int)

  /** The state of a PutByteContext: the buffer's contents, `buf_ptr` as
      an index into it, the output position of the buffer's first byte,
      the callback calls so far and which callbacks are present. */
  datatype Writer = Writer(buf: seq<byte>, ptr: nat, pos: int, log: seq<Call>, writePacket: bool, writeSeek: bool)

  /** Between calls the buffer pointer is inside the buffer. */
  predicate Good(w: Writer)
  {
    w.ptr < |w.buf|
  }

  /** The bytes waiting in the buffer. */
  function Pending(w: Writer): seq<byte>
    requires w.ptr <= |w.buf|
  {
    w.buf[..w.ptr]
  }

  /** The position put_pos reports. */
  function Pos(w: Writer): int
  {
    w.pos + w.ptr
  }

  /** Everything handed to `write_packet`, in order. */
  function Emitted(log: seq<Call>): seq<byte>
  {
    if log == [] then []
    else
      var n := |log| - 1;
      Emitted(log[..n]) + (match log[n] case WritePacket(d) => d case WriteSeek(_, _) => [])
  }

  lemma EmittedSnoc(log: seq<Call>, c: Call)
    ensures Emitted(log + [c]) == Emitted(log) + (match c case WritePacket(d) => d case WriteSeek(_, _) => [])
  {
    assert (log + [c])[..|log|] == log;
  }

  // ---------------------------------------------------------------------
  // The operations on the state

  /** flush_buffer: the pending bytes go to `write_packet` (when there is
      one) and count towards the output position; the buffer is empty. */
  function Flushed(w: Writer): (r: Writer)
    requires w.ptr <= |w.buf|
    ensures Good(r) <==> 0 < |w.buf|
    ensures r.buf == w.buf && r.writePacket == w.writePacket && r.writeSeek == w.writeSeek
  {
    if w.ptr > 0 then
      w.(ptr := 0, pos := w.pos + w.ptr, log := if w.writePacket then w.log + [WritePacket(w.buf[..w.ptr])] else w.log)
    else w
  }

  /** put_byte: `b` (as an unsigned char) is stored at the buffer pointer,
      and a full buffer is flushed. */
  function PutByteSpec(w: Writer, b: int): (r: Writer)
    requires Good(w)
    ensures Good(r) && |r.buf| == |w.buf| && r.writePacket == w.writePacket && r.writeSeek == w.writeSeek
  {
    var w1 := w.(buf := w.buf[w.ptr := b % 256], ptr := w.ptr + 1);
    if w1.ptr >= |w1.buf| then Flushed(w1) else w1
  }

  /** A byte string written one byte at a time. */
  function PutBytes(w: Writer, data: seq<byte>): (r: Writer)
    requires Good(w)
    ensures Good(r) && |r.buf| == |w.buf| && r.writePacket == w.writePacket && r.writeSeek == w.writeSeek
    decreases |data|
  {
    if data == [] then w else PutBytes(PutByteSpec(w, data[0]), data[1..])
  }

  /** put_seek, with the out-of-buffer case corrected: the output is moved
      to the absolute target and the position follows it. Returns the new
      state and the target, or -1 for an unknown `whence` and for an
      out-of-buffer target without `write_seek`. */
  function Seek(w: Writer, offset: int, whence: int): (Writer, int)
    requires Good(w)
  {
    if whence != SEEK_CUR && whence != SEEK_SET then (w, -1)
    else
      var target := if whence == SEEK_CUR then offset + w.pos + w.ptr else offset;
      var rel := target - w.pos;
      if 0 <= rel < |w.buf| then (w.(ptr := rel), target)
      else if !w.writeSeek then (w, -1)
      else
        var f := Flushed(w);
        (f.(pos := target, log := f.log + [WriteSeek(target, SEEK_SET)]), target)
  }

  /** put_seek as written: outside the buffer the already absolute target
      is passed with the caller's `whence`, and the position is left at
      the end of the flushed bytes. */
  function SeekAsWritten(w: Writer, offset: int, whence: int): (Writer, int)
    requires Good(w)
  {
    if whence != SEEK_CUR && whence != SEEK_SET then (w, -1)
    else
      var target := if whence == SEEK_CUR then offset + w.pos + w.ptr else offset;
      var rel := target - w.pos;
      if 0 <= rel < |w.buf| then (w.(ptr := rel), target)
      else if !w.writeSeek then (w, -1)
      else
        var f := Flushed(w);
        (f.(log := f.log + [WriteSeek(target, whence)]), target)
  }

  // ---------------------------------------------------------------------
  // Properties of the writer

  /** Flushing hands exactly the pending bytes to `write_packet` and keeps
      the reported position. */
  lemma FlushEmits(w: Writer)
    requires w.ptr <= |w.buf|
    ensures var r := Flushed(w);
      Pos(r) == Pos(w) && Pending(r) == [] && w.log <= r.log &&
      (w.writePacket ==> Emitted(r.log) == Emitted(w.log) + Pending(w)) &&
      (!w.writePacket ==> r.log == w.log)
  {
    if w.ptr > 0 && w.writePacket {
      EmittedSnoc(w.log, WritePacket(w.buf[..w.ptr]));
    }
  }

  /** One put_byte: the byte is appended to what has been written (emitted
      or pending), the position moves on by one, and a packet is only ever
      a whole buffer. */
  lemma PutByteConserves(w: Writer, b: byte)
    requires Good(w)
    ensures var r := PutByteSpec(w, b);
      Pos(r) == Pos(w) + 1 && w.log <= r.log &&
      (w.writePacket ==> Emitted(r.log) + Pending(r) == Emitted(w.log) + Pending(w) + [b]) &&
      (forall i :: |w.log| <= i < |r.log| ==> r.log[i].WritePacket? && |r.log[i].data| == |w.buf|)
  {
    var w1 := w.(buf := w.buf[w.ptr := b], ptr := w.ptr + 1);
    assert b % 256 == b;
    assert Pending(w1) == Pending(w) + [b];
    if w1.ptr >= |w1.buf| {
      FlushEmits(w1);
      assert |w1.buf[..w1.ptr]| == |w.buf|;
      assert Flushed(w1).log == if w.writePacket then w.log + [WritePacket(w1.buf[..w1.ptr])] else w.log;
    } else {
      assert PutByteSpec(w, b) == w1;
    }
  }

  /** Writing a byte string appends it to what has been written, moves the
      position on by its length, and emits only whole buffers. */
  lemma {:induction false} PutBytesConserves(w: Writer, data: seq<byte>)
    requires Good(w)
    ensures var r := PutBytes(w, data);
      Pos(r) == Pos(w) + |data| && w.log <= r.log &&
      (w.writePacket ==> Emitted(r.log) + Pending(r) == Emitted(w.log) + Pending(w) + data) &&
      (forall i :: |w.log| <= i < |r.log| ==> r.log[i].WritePacket? && |r.log[i].data| == |w.buf|)
    decreases |data|
  {
    if data != [] {
      var w1 := PutByteSpec(w, data[0]);
      PutByteConserves(w, data[0]);
      PutBytesConserves(w1, data[1..]);
      assert [data[0]] + data[1..] == data;
    }
  }

  /** Writing `a` and then `b` is writing `a + b`. */
  lemma {:induction false} PutBytesAppend(w: Writer, a: seq<byte>, b: seq<byte>)
    requires Good(w)
    ensures PutBytes(w, a + b) == PutBytes(PutBytes(w, a), b)
    decreases |a|
  {
    if a == [] {
      assert a + b == b;
    } else {
      assert (a + b)[0] == a[0] && (a + b)[1..] == a[1..] + b;
      PutBytesAppend(PutByteSpec(w, a[0]), a[1..], b);
    }
  }

  /** The buffer after `chunk` is copied in at the pointer, before the
      full-buffer test. */
  function Copied(w: Writer, chunk: seq<byte>): (r: Writer)
    requires w.ptr + |chunk| <= |w.buf|
    ensures |r.buf| == |w.buf| && r.ptr == w.ptr + |chunk|
    ensures forall i :: 0 <= i < |chunk| ==> r.buf[w.ptr + i] == chunk[i]
    ensures forall i :: 0 <= i < |w.buf| && !(w.ptr <= i < r.ptr) ==> r.buf[i] == w.buf[i]
  {
    var r := w.(buf := w.buf[..w.ptr] + chunk + w.buf[w.ptr + |chunk|..], ptr := w.ptr + |chunk|);
    assert r.buf[w.ptr..r.ptr] == chunk;
    r
  }

  /** A piece that fits in the buffer can be copied at once (as put_buffer
      does) instead of byte by byte, flushing if it fills the buffer. */
  lemma {:induction false} PutChunk(w: Writer, chunk: seq<byte>)
    requires Good(w) && w.ptr + |chunk| <= |w.buf|
    ensures PutBytes(w, chunk) == (var c := Copied(w, chunk); if c.ptr == |c.buf| then Flushed(c) else c)
    decreases |chunk|
  {
    if chunk == [] {
      assert w.buf[..w.ptr] + chunk + w.buf[w.ptr..] == w.buf;
    } else if |chunk| == 1 {
      assert w.buf[w.ptr := chunk[0]] == Copied(w, chunk).buf;
    } else {
      var w1 := PutByteSpec(w, chunk[0]);
      CopiedStep(w, chunk);
      PutChunk(w1, chunk[1..]);
    }
  }

  /** Storing the first byte of a piece that does not fill the buffer and
      then copying the rest is copying the piece. */
  lemma CopiedStep(w: Writer, chunk: seq<byte>)
    requires Good(w) && 1 < |chunk| && w.ptr + |chunk| <= |w.buf|
    ensures Copied(PutByteSpec(w, chunk[0]), chunk[1..]) == Copied(w, chunk)
  {
    var w1 := w.(buf := w.buf[w.ptr := chunk[0]], ptr := w.ptr + 1);
    assert PutByteSpec(w, chunk[0]) == w1;
    CopiedAfterStore(w, chunk);
  }

  lemma CopiedAfterStore(w: Writer, chunk: seq<byte>)
    requires Good(w) && 1 < |chunk| && w.ptr + |chunk| <= |w.buf|
    ensures Copied(w.(buf := w.buf[w.ptr := chunk[0]], ptr := w.ptr + 1), chunk[1..]) == Copied(w, chunk)
  {
    var w1 := w.(buf := w.buf[w.ptr := chunk[0]], ptr := w.ptr + 1);
    var a := w1.buf[..w1.ptr] + chunk[1..] + w1.buf[w1.ptr + |chunk[1..]|..];
    var b := w.buf[..w.ptr] + chunk + w.buf[w.ptr + |chunk|..];
    forall i | 0 <= i < |b|
      ensures a[i] == b[i]
    {
      if i < w.ptr {
        assert a[i] == w1.buf[i];
      } else if i < w.ptr + |chunk| {
        assert b[i] == chunk[i - w.ptr];
      } else {
        assert a[i] == w1.buf[i];
      }
    }
    assert a == b;
    assert Copied(w1, chunk[1..]).buf == a && Copied(w, chunk).buf == b;
  }

  /** Writing one more byte. */
  lemma PutBytesSnoc(w: Writer, a: seq<byte>, b: int)
    requires Good(w) && 0 <= b
    ensures PutBytes(w, a + [b % 256]) == PutByteSpec(PutBytes(w, a), b)
  {
    var v := PutBytes(w, a);
    var x := b % 256;
    PutBytesAppend(w, a, [x]);
    assert [x][1..] == [];
    assert PutBytes(v, [x]) == PutByteSpec(v, x);
    assert x % 256 == b % 256;
  }

  /** Writing the bytes of `d` up to index `k` is writing those before it
      and then `v`, when `v` stands for byte `k`. */
  lemma PutDigit(w: Writer, d: seq<byte>, k: nat, v: int)
    requires Good(w) && k < |d| && 0 <= v && d[k] == v % 256
    ensures PutBytes(w, d[..k + 1]) == PutByteSpec(PutBytes(w, d[..k]), v)
  {
    assert d[..k] + [v % 256] == d[..k + 1];
    PutBytesSnoc(w, d[..k], v);
  }

  /** A successful seek leaves put_pos at the target; a failed one changes
      nothing. A target inside the buffer only moves the pointer; one
      outside it without `write_seek` fails. */
  lemma SeekThenPos(w: Writer, offset: int, whence: int)
    requires Good(w)
    ensures var (r, res) := Seek(w, offset, whence);
      Good(r) &&
      ((whence != SEEK_SET && whence != SEEK_CUR) ==> r == w && res == -1) &&
      (whence == SEEK_SET || whence == SEEK_CUR ==>
        var target := if whence == SEEK_CUR then offset + Pos(w) else offset;
        (0 <= target - w.pos < |w.buf| ==> r == w.(ptr := target - w.pos) && res == target) &&
        (!(0 <= target - w.pos < |w.buf|) && !w.writeSeek ==> r == w && res == -1) &&
        (!(0 <= target - w.pos < |w.buf|) && w.writeSeek ==> res == target)) &&
      (r != w || res != -1 ==> Pos(r) == res)
  {
  }

  /** A seek outside the buffer emits the pending bytes before the
      `write_seek` call. */
  lemma SeekFlushesFirst(w: Writer, offset: int, whence: int)
    requires Good(w) && w.writePacket
    ensures var (r, res) := Seek(w, offset, whence);
      w.log <= r.log &&
      (|r.log| > |w.log| ==>
        r.log[|r.log| - 1] == WriteSeek(res, SEEK_SET) && Emitted(r.log) == Emitted(w.log) + Pending(w))
  {
    var (r, res) := Seek(w, offset, whence);
    if |r.log| > |w.log| {
      var f := Flushed(w);
      FlushEmits(w);
      EmittedSnoc(f.log, WriteSeek(res, SEEK_SET));
    }
  }

  /** put_pos is a seek by 0 from the current position: it changes
      nothing. */
  lemma SeekZero(w: Writer)
    requires Good(w)
    ensures Seek(w, 0, SEEK_CUR) == (w, Pos(w))
  {
    assert w.(ptr := w.ptr) == w;
  }

  /** As written, a seek outside the buffer loses the position: with two
      bytes buffered at position 0 in a 4-byte buffer, seeking 10 bytes on
      flushes the 2 bytes and then asks `write_seek` for 12 bytes relative
      to the current output offset (ending at 14), while put_pos reports 2;
      the corrected seek asks for offset 12 from the start and reports 12. */
  lemma SeekAsWrittenLosesPosition()
    ensures var w := Writer([7, 8, 0, 0], 2, 0, [], true, true);
      SeekAsWritten(w, 10, SEEK_CUR) ==
        (Writer([7, 8, 0, 0], 0, 2, [WritePacket([7, 8]), WriteSeek(12, SEEK_CUR)], true, true), 12) &&
      Pos(SeekAsWritten(w, 10, SEEK_CUR).0) == 2 &&
      Seek(w, 10, SEEK_CUR) ==
        (Writer([7, 8, 0, 0], 0, 12, [WritePacket([7, 8]), WriteSeek(12, SEEK_SET)], true, true), 12) &&
      Pos(Seek(w, 10, SEEK_CUR).0) == 12
  {
    var w := Writer([7, 8, 0, 0], 2, 0, [], true, true);
    assert w.buf[..2] == [7, 8];
    var f := Writer([7, 8, 0, 0], 0, 2, [WritePacket([7, 8])], true, true);
    assert Flushed(w) == f;
    assert f.log + [WriteSeek(12, SEEK_CUR)] == [WritePacket([7, 8]), WriteSeek(12, SEEK_CUR)];
    assert f.log + [WriteSeek(12, SEEK_SET)] == [WritePacket([7, 8]), WriteSeek(12, SEEK_SET)];
    assert SeekAsWritten(w, 10, SEEK_CUR) == (f.(log := f.log + [WriteSeek(12, SEEK_CUR)]), 12);
    assert Seek(w, 10, SEEK_CUR) == (f.(pos := 12, log := f.log + [WriteSeek(12, SEEK_SET)]), 12);
  }

  // ---------------------------------------------------------------------
  // Multi-byte values

  /** The bytes put_le16 writes for `val`: its low 16 bits, least
      significant first. */
  function LE16Digits(val: nat): (r: seq<byte>)
    ensures |r| == 2 && LE16(r, 0) == val % 0x1_0000
  {
    [val % 0x100, (val / 0x100) % 0x100]
  }

  /** The bytes put_le32 writes for `val`, least significant first. */
  function LE32Digits(val: nat): (r: seq<byte>)
    requires val < 0x1_0000_0000
    ensures r == LE32Bytes(val)
  {
    DigitsAgree(val);
    [val % 0x100, (val / 0x100) % 0x100, (val / 0x1_0000) % 0x100, (val / 0x100_0000) % 0x100]
  }

  lemma DigitsAgree(n: nat)
    requires n < 0x1_0000_0000
    ensures (n % 0x1_0000) % 0x100 == n % 0x100
    ensures (n % 0x1_0000) / 0x100 == (n / 0x100) % 0x100
    ensures (n / 0x1_0000) / 0x100 == (n / 0x100_0000) % 0x100
  {
  }

  /** The bytes put_le64 writes for `val`: the low word, then the high
      word; reading both words back gives `val`. */
  function LE64Digits(val: nat): (r: seq<byte>)
    requires val < 0x1_0000_0000_0000_0000
    ensures |r| == 8 && LE32(r, 0) + 0x1_0000_0000 * LE32(r, 4) == val
  {
    var r := LE32Digits(val % 0x1_0000_0000) + LE32Digits(val / 0x1_0000_0000);
    assert r[..4] == LE32Bytes(val % 0x1_0000_0000) && r[4..] == LE32Bytes(val / 0x1_0000_0000);
    assert LE32(r, 0) == LE32(r[..4], 0) && LE32(r, 4) == LE32(r[4..], 0);
    r
  }

  /** The characters of a C string: everything before the first NUL. */
  function CString(tag: seq<byte>): (r: seq<byte>)
    ensures r <= tag && 0 !in r && (|r| < |tag| ==> tag[|r|] == 0)
  {
    if tag == [] || tag[0] == 0 then [] else [tag[0]] + CString(tag[1..])
  }

  // ---------------------------------------------------------------------
  // The context

  class PutByteContext {
    const buffer: array<byte>
    var bufPtr: nat
    var pos: int
    var log: seq<Call>
    const hasWritePacket: bool
    const hasWriteSeek: bool

    ghost predicate Valid()
      reads this
    {
      bufPtr < buffer.Length
    }

    /** The context as a Writer value. */
    ghost function State(): Writer
      reads this, buffer
    {
      Writer(buffer[..], bufPtr, pos, log, hasWritePacket, hasWriteSeek)
    }

    /** init_put_byte: writing into `buffer` from position 0. */
    constructor (buffer: array<byte>, writePacket: bool, writeSeek: bool)
      requires buffer.Length > 0
      ensures Valid() && this.buffer == buffer
      ensures State() == Writer(buffer[..], 0, 0, [], writePacket, writeSeek)
    {
      this.buffer := buffer;
      bufPtr := 0;
      pos := 0;
      log := [];
      hasWritePacket := writePacket;
      hasWriteSeek := writeSeek;
    }

    /** flush_buffer. */
    method Flush()
      requires bufPtr <= buffer.Length
      modifies this
      ensures State() == Flushed(old(State()))
    {
      if bufPtr > 0 {
        if hasWritePacket {
          log := log + [WritePacket(buffer[..bufPtr])];
        }
        pos := pos + bufPtr;
      }
      bufPtr := 0;
    }

    /** put_byte. */
    method PutByte(b: int)
      requires Valid()
      modifies this, buffer
      ensures Valid() && State() == PutByteSpec(old(State()), b)
    {
      buffer[bufPtr] := b % 256;
      bufPtr := bufPtr + 1;
      if bufPtr >= buffer.Length {
        Flush();
      }
    }

    /** put_buffer: the data is copied in pieces that fit in the rest of
        the buffer, flushing each time it fills. */
    method PutBuffer(data: seq<byte>)
      requires Valid()
      modifies this, buffer
      ensures Valid() && State() == PutBytes(old(State()), data)
    {
      ghost var w0 := State();
      var done := 0;
      while done < |data|
        invariant done <= |data| && Valid()
        invariant State() == PutBytes(w0, data[..done])
      {
        var len := Min(buffer.Length - bufPtr, |data| - done);
        ghost var w := State();
        ghost var chunk := data[done..done + len];
        CopyIn(data, done, len);
        if bufPtr >= buffer.Length {
          Flush();
        }
        PutChunk(w, chunk);
        PutBytesAppend(w0, data[..done], chunk);
        assert data[..done] + chunk == data[..done + len];
        done := done + len;
      }
      assert data[..done] == data;
    }

    /** The memcpy of put_buffer and the pointer update after it. */
    method CopyIn(data: seq<byte>, from: nat, len: nat)
      requires bufPtr + len <= buffer.Length && from + len <= |data|
      modifies this, buffer
      ensures State() == Copied(old(State()), data[from..from + len])
    {
      ghost var w := State();
      forall i | 0 <= i < len {
        buffer[bufPtr + i] := data[from + i];
      }
      assert buffer[..] == w.buf[..w.ptr] + data[from..from + len] + w.buf[w.ptr + len..];
      bufPtr := bufPtr + len;
    }

    /** put_flush_packet. */
    method PutFlushPacket()
      requires Valid()
      modifies this
      ensures Valid() && State() == Flushed(old(State()))
    {
      Flush();
    }

    /** put_seek (corrected outside the buffer). */
    method PutSeek(offset: int, whence: int) returns (r: int)
      requires Valid()
      modifies this
      ensures Valid() && (State(), r) == Seek(old(State()), offset, whence)
    {
      if whence != SEEK_CUR && whence != SEEK_SET {
        return -1;
      }
      var target := offset;
      if whence == SEEK_CUR {
        target := offset + pos + bufPtr;
      }
      var rel := target - pos;
      if 0 <= rel < buffer.Length {
        bufPtr := rel;
      } else {
        if !hasWriteSeek {
          return -1;
        }
        Flush();
        log := log + [WriteSeek(target, SEEK_SET)];
        pos := target;
      }
      return target;
    }

    /** put_pos: the output position of the next byte written. */
    method PutPos() returns (r: int)
      requires Valid()
      modifies this
      ensures Valid() && State() == old(State()) && r == Pos(State())
    {
      SeekZero(State());
      r := PutSeek(0, SEEK_CUR);
    }

    /** put_le32. */
    method PutLE32(val: nat)
      requires Valid() && val < 0x1_0000_0000
      modifies this, buffer
      ensures Valid() && State() == PutBytes(old(State()), LE32Bytes(val))
    {
      ghost var w0 := State();
      ghost var d := LE32Digits(val);
      assert d[..0] == [];
      PutByte(val);
      PutDigit(w0, d, 0, val);
      assert State() == PutBytes(w0, d[..1]);
      PutByte(val / 0x100);
      PutDigit(w0, d, 1, val / 0x100);
      assert State() == PutBytes(w0, d[..2]);
      PutByte(val / 0x1_0000);
      PutDigit(w0, d, 2, val / 0x1_0000);
      assert State() == PutBytes(w0, d[..3]);
      PutByte(val / 0x100_0000);
      PutDigit(w0, d, 3, val / 0x100_0000);
      assert State() == PutBytes(w0, d[..4]);
      assert d[..4] == d;
    }

    /** put_le64: the low 32 bits, then the high 32 bits. */
    method PutLE64(val: nat)
      requires Valid() && val < 0x1_0000_0000_0000_0000
      modifies this, buffer
      ensures Valid() && State() == PutBytes(old(State()), LE64Digits(val))
    {
      ghost var w0 := State();
      PutLE32(val % 0x1_0000_0000);
      PutLE32(val / 0x1_0000_0000);
      PutBytesAppend(w0, LE32Bytes(val % 0x1_0000_0000), LE32Bytes(val / 0x1_0000_0000));
    }

    /** put_le16. */
    method PutLE16(val: nat)
      requires Valid() && val < 0x1_0000_0000
      modifies this, buffer
      ensures Valid() && State() == PutBytes(old(State()), LE16Digits(val))
    {
      ghost var w0 := State();
      ghost var d := LE16Digits(val);
      assert d[..0] == [];
      PutByte(val);
      PutDigit(w0, d, 0, val);
      PutByte(val / 0x100);
      PutDigit(w0, d, 1, val / 0x100);
      assert d[..2] == d;
    }

    /** put_tag: the characters of `tag` up to its terminating NUL. */
    method PutTag(tag: seq<byte>)
      requires Valid()
      modifies this, buffer
      ensures Valid() && State() == PutBytes(old(State()), CString(tag))
    {
      ghost var w0 := State();
      var i := 0;
      while i < |tag| && tag[i] != 0
        invariant i <= |CString(tag)| && Valid()
        invariant State() == PutBytes(w0, CString(tag)[..i])
      {
        PutByte(tag[i]);
        assert CString(tag)[i] == tag[i];
        PutDigit(w0, CString(tag), i, tag[i]);
        i := i + 1;
      }
      assert CString(tag)[..i] == CString(tag);
    }
  }
}
