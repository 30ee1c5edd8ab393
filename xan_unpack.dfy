/** The LZ-style unpacker of the Wing Commander III video codec (xan_unpack).

    Each control byte falls into one of four families and yields a literal
    run (copied from the source), then possibly a back reference (copied
    byte by byte from earlier output, so it may overlap the bytes it is
    writing).  The destination holds `destLen` bytes plus 130 bytes of
    padding, because a step that starts below `destLen` may write past it. */
module XanUnpack {
  import opened Bytes

  datatype Family =
    | FamilyA   // control < 0x80
    | FamilyB   // 0x80 <= control < 0xC0
    | FamilyC   // 0xC0 <= control < 0xE0
    | LongRun   // 0xE0 <= control < 0xFC: literal run only, decoding goes on
    | FinalRun  // control >= 0xFC: literal run only, then decoding stops

  /** A decoded control: a literal run of `literal` bytes, a back reference
      of `length` bytes at distance `back` (both 0 for the run families),
      and the number of source bytes the control itself occupies. */
  datatype Control = Control(family: Family, literal: nat, back: nat, length: nat, used: nat)

  datatype Status =
    | Filled      // the destination reached destLen
    | Finished    // a final run (control >= 0xFC) was copied
    | Aborted     // a family C control would overflow the destination
    | SrcOverrun  // a read past the end of the source
    | BadBackRef  // a back reference reaching before the destination start

  datatype Outcome = Outcome(status: Status, out: seq<byte>)

  /** The control is well formed for its family. */
  predicate Encodable(c: Control)
  {
    match c.family
    case FamilyA => c.used == 2 && c.literal <= 3 && 1 <= c.back <= 0x400 && 3 <= c.length <= 10
    case FamilyB => c.used == 3 && c.literal <= 3 && 1 <= c.back <= 0x4000 && 4 <= c.length <= 67
    case FamilyC => c.used == 4 && c.literal <= 3 && 1 <= c.back <= 0x2_0000 && 5 <= c.length <= 0x404
    case LongRun => c.used == 1 && 4 <= c.literal <= 112 && c.literal % 4 == 0 && c.back == 0 && c.length == 0
    case FinalRun => c.used == 1 && c.literal <= 3 && c.back == 0 && c.length == 0
  }

  /** Decodes the control at `src[sp]`; None when its bytes run past the
      end of the source. */
  function ParseControl(src: seq<byte>, sp: nat): (r: Option<Control>)
    ensures r.Some? ==> sp + r.value.used <= |src| && Encodable(r.value)
  {
    if sp >= |src| then None
    else
      var op: int := src[sp];
      if op < 0x80 then
        if sp + 2 > |src| then None
        else
          // size = op & 3; back = ((op & 0x60) << 3) + next + 1; size2 = ((op & 0x1c) >> 2) + 3
          Some(Control(FamilyA, op % 4, (op / 32 % 4) * 256 + src[sp + 1] + 1, op / 4 % 8 + 3, 2))
      else if op < 0xC0 then
        if sp + 3 > |src| then None
        else
          // size = next >> 6 (peeked); back = (be16 & 0x3fff) + 1; size2 = (op & 0x3f) + 4
          Some(Control(FamilyB, src[sp + 1] / 64, BE16(src, sp + 1) % 0x4000 + 1, op % 64 + 4, 3))
      else if op < 0xE0 then
        if sp + 4 > |src| then None
        else
          // size = op & 3; back = ((op & 0x10) << 12) + be16 + 1; size2 = ((op & 0x0c) << 6) + next + 5
          Some(Control(FamilyC, op % 4, (op / 16 % 2) * 0x1_0000 + BE16(src, sp + 1) + 1,
                       (op / 4 % 4) * 256 + src[sp + 3] + 5, 4))
      else if op >= 0xFC then
        Some(Control(FinalRun, op % 4, 0, 0, 1))
      else
        // size = ((op & 0x1f) << 2) + 4
        Some(Control(LongRun, (op % 32) * 4 + 4, 0, 0, 1))
  }

  /** av_memcpy_backptr: appends `n` bytes to `out`, each one copied from
      `back` positions before it, so the copy may read bytes it has itself
      just written. */
  function BackCopy(out: seq<byte>, back: nat, n: nat): (r: seq<byte>)
    requires 1 <= back <= |out|
    ensures |r| == |out| + n
  {
    if n == 0 then out
    else
      var p := BackCopy(out, back, n - 1);
      p + [p[|p| - back]]
  }

  /** The result of one pass through the unpacking loop body: either the
      loop stops with an outcome, or it goes on from a new source position
      with a longer output. */
  datatype Step = Stop(outcome: Outcome) | Continue(sp: nat, out: seq<byte>)

  /** One pass of the loop body, from source position `sp` with output
      `out` shorter than `destLen`. */
  function UnpackStep(src: seq<byte>, sp: nat, out: seq<byte>, destLen: nat): (r: Step)
    requires |out| < destLen
    ensures r.Continue? ==> |out| + 3 <= |r.out| && (|r.out| <= |out| + 112 || |r.out| <= destLen)
    ensures r.Stop? ==> |out| <= |r.outcome.out| <= |out| + 3
  {
    match ParseControl(src, sp)
    case None => Stop(Outcome(SrcOverrun, out))
    case Some(c) => ApplyControl(src, sp, out, destLen, c)
  }

  /** The body of the loop once the control `c` at `src[sp]` is decoded. */
  function ApplyControl(src: seq<byte>, sp: nat, out: seq<byte>, destLen: nat, c: Control): (r: Step)
    requires |out| < destLen && Encodable(c)
    ensures r.Continue? ==> |out| + 3 <= |r.out| && (|r.out| <= |out| + 112 || |r.out| <= destLen)
    ensures r.Stop? ==> |out| <= |r.outcome.out| <= |out| + 3
  {
    if c.family == FamilyC && c.literal + c.length > destLen - |out| then Stop(Outcome(Aborted, out))
    else if sp + c.used + c.literal > |src| then Stop(Outcome(SrcOverrun, out))
    else
      var lit := out + src[sp + c.used .. sp + c.used + c.literal];
      var next := sp + c.used + c.literal;
      if c.family == FinalRun then Stop(Outcome(Finished, lit))
      else if c.family == LongRun then Continue(next, lit)
      else if c.back > |lit| then Stop(Outcome(BadBackRef, lit))
      else Continue(next, BackCopy(lit, c.back, c.length))
  }

  /** The unpacking loop from source position `sp` with output `out`. */
  function Unpack(src: seq<byte>, sp: nat, out: seq<byte>, destLen: nat): Outcome
    decreases destLen - |out|
  {
    if |out| >= destLen then Outcome(Filled, out)
    else match UnpackStep(src, sp, out, destLen)
      case Stop(o) => o
      case Continue(sp', out') => Unpack(src, sp', out', destLen)
  }

  /** av_memcpy_backptr on the destination array, one byte at a time. */
  method CopyBack(dest: array<byte>, at: nat, back: nat, n: nat)
    requires 1 <= back <= at && at + n <= dest.Length
    modifies dest
    ensures dest[..at + n] == BackCopy(old(dest[..at]), back, n)
    ensures forall i :: at + n <= i < dest.Length ==> dest[i] == old(dest[i])
  {
    ghost var orig := dest[..at];
    var k := 0;
    while k < n
      invariant k <= n
      invariant dest[..at + k] == BackCopy(orig, back, k)
      invariant forall i :: at + k <= i < dest.Length ==> dest[i] == old(dest[i])
    {
      ghost var before := dest[..at + k];
      dest[at + k] := dest[at + k - back];
      assert dest[..at + k] == before;
      assert dest[..at + k + 1] == before + [before[|before| - back]];
      k := k + 1;
    }
  }

  /** memcpy of a literal run from the source into the destination. */
  method CopyLiteral(dest: array<byte>, at: nat, src: seq<byte>, from: nat, n: nat)
    requires at + n <= dest.Length && from + n <= |src|
    modifies dest
    ensures dest[..at + n] == old(dest[..at]) + src[from..from + n]
    ensures forall i :: at + n <= i < dest.Length ==> dest[i] == old(dest[i])
  {
    forall k | 0 <= k < n {
      dest[at + k] := src[from + k];
    }
  }

  /** Unfolding the loop once. */
  lemma UnpackUnfold(src: seq<byte>, sp: nat, out: seq<byte>, destLen: nat)
    requires |out| < destLen
    ensures var step := UnpackStep(src, sp, out, destLen);
      Unpack(src, sp, out, destLen) == if step.Stop? then step.outcome else Unpack(src, step.sp, step.out, destLen)
  {
  }

  /** The loop body once the literal run `lit` of a decoded control is
      copied, with the source position `next` after it. */
  lemma ApplyControlCases(src: seq<byte>, sp: nat, out: seq<byte>, destLen: nat, c: Control,
                          lit: seq<byte>, next: nat)
    requires |out| < destLen && Encodable(c)
    requires !(c.family == FamilyC && c.literal + c.length > destLen - |out|)
    requires next == sp + c.used + c.literal && next <= |src|
    requires lit == out + src[sp + c.used .. next]
    ensures ApplyControl(src, sp, out, destLen, c) ==
              if c.family == FinalRun then Stop(Outcome(Finished, lit))
              else if c.family == LongRun then Continue(next, lit)
              else if c.back > |lit| then Stop(Outcome(BadBackRef, lit))
              else Continue(next, BackCopy(lit, c.back, c.length))
  {
  }

  /** One pass of the loop body on the destination array, once the
      control `c` at `src[sp]` is decoded: the literal run is copied from the
      source, then the back reference from earlier output. */
  method ApplyInto(dest: array<byte>, src: seq<byte>, sp: nat, written: nat, destLen: nat, c: Control)
    returns (stop: bool, status: Status, next: nat, written': nat)
    requires written < destLen && destLen + 130 <= dest.Length && Encodable(c)
    modifies dest
    ensures written' <= destLen + 111
    ensures var r := ApplyControl(src, sp, old(dest[..written]), destLen, c);
            if stop then r == Stop(Outcome(status, dest[..written']))
            else r == Continue(next, dest[..written'])
    ensures forall i :: written' <= i < dest.Length ==> dest[i] == old(dest[i])
  {
    ghost var out := dest[..written];
    if c.family == FamilyC && c.literal + c.length > destLen - written {
      return true, Aborted, sp, written;
    }
    if sp + c.used + c.literal > |src| {
      return true, SrcOverrun, sp, written;
    }
    var from := sp + c.used;
    next := from + c.literal;
    CopyLiteral(dest, written, src, from, c.literal);
    written' := written + c.literal;
    ghost var lit := dest[..written'];
    assert lit == out + src[from..next];
    ApplyControlCases(src, sp, out, destLen, c, lit, next);
    if c.family == FinalRun {
      return true, Finished, next, written';
    }
    if c.family == LongRun {
      return false, Filled, next, written';
    }
    if c.back > written' {
      return true, BadBackRef, next, written';
    }
    var at := written';
    written' := at + c.length;
    CopyBack(dest, at, c.back, c.length);
    assert dest[..written'] == BackCopy(lit, c.back, c.length);
    stop, status := false, Filled;
  }

  /** xan_unpack into `dest`, which holds `destLen` bytes and at least 130
      bytes of padding. */
  method UnpackInto(dest: array<byte>, src: seq<byte>, destLen: nat) returns (status: Status, written: nat)
    requires destLen + 130 <= dest.Length
    modifies dest
    ensures written <= destLen + 111
    ensures Unpack(src, 0, [], destLen) == Outcome(status, dest[..written])
    ensures forall i :: written <= i < dest.Length ==> dest[i] == old(dest[i])
  {
    written := 0;
    var sp: nat := 0;
    while written < destLen
      invariant written <= destLen + 111
      invariant Unpack(src, sp, dest[..written], destLen) == Unpack(src, 0, [], destLen)
      invariant forall i :: written <= i < dest.Length ==> dest[i] == old(dest[i])
      decreases destLen - written
    {
      ghost var out0 := dest[..written];
      var c := ParseControl(src, sp);
      UnpackUnfold(src, sp, out0, destLen);
      if c.None? {
        return SrcOverrun, written;
      }
      var stop, st, next, w := ApplyInto(dest, src, sp, written, destLen, c.value);
      if stop {
        return st, w;
      }
      sp, written := next, w;
    }
    return Filled, written;
  }

  /** Nothing is ever written at or beyond `destLen + 111`: every step starts
      below `destLen` and adds at most 128 bytes (family C checks its own
      room), so the 130 bytes of padding always suffice.  The output only
      ever grows. */
  lemma {:induction false} UnpackBounded(src: seq<byte>, sp: nat, out: seq<byte>, destLen: nat)
    requires |out| <= destLen + 111
    ensures var r := Unpack(src, sp, out, destLen); out <= r.out && |r.out| <= destLen + 111
    decreases destLen - |out|
  {
    if |out| < destLen {
      var step := UnpackStep(src, sp, out, destLen);
      StepExtends(src, sp, out, destLen);
      if step.Continue? {
        UnpackBounded(src, step.sp, step.out, destLen);
      }
    }
  }

  /** Every byte the copy appends equals the byte `back` positions before
      it, including bytes the copy itself appended. */
  lemma {:induction false} BackCopyAt(out: seq<byte>, back: nat, n: nat, k: nat)
    requires 1 <= back <= |out| && |out| <= k < |out| + n
    ensures BackCopy(out, back, n)[k] == BackCopy(out, back, n)[k - back]
  {
    var p := BackCopy(out, back, n - 1);
    if k < |p| {
      BackCopyAt(out, back, n - 1, k);
    }
  }

  /** The copy keeps the bytes it started from. */
  lemma {:induction false} BackCopyKeeps(out: seq<byte>, back: nat, n: nat)
    requires 1 <= back <= |out|
    ensures BackCopy(out, back, n)[..|out|] == out
  {
    if n > 0 {
      BackCopyKeeps(out, back, n - 1);
      var p := BackCopy(out, back, n - 1);
      assert (p + [p[|p| - back]])[..|out|] == p[..|out|];
    }
  }

  /** One pass of the loop body only appends to the output. */
  lemma StepExtends(src: seq<byte>, sp: nat, out: seq<byte>, destLen: nat)
    requires |out| < destLen
    ensures var r := UnpackStep(src, sp, out, destLen);
            (r.Continue? ==> out <= r.out) && (r.Stop? ==> out <= r.outcome.out)
  {
    match ParseControl(src, sp)
    case None =>
    case Some(c) =>
      if !(c.family == FamilyC && c.literal + c.length > destLen - |out|) && sp + c.used + c.literal <= |src| {
        var lit := out + src[sp + c.used .. sp + c.used + c.literal];
        assert out <= lit;
        if c.family != FinalRun && c.family != LongRun && c.back <= |lit| {
          BackCopyKeeps(lit, c.back, c.length);
        }
      }
  }

  /** A back reference at distance 1 repeats the preceding byte. */
  lemma {:induction false} BackCopyRepeats(out: seq<byte>, n: nat)
    requires |out| >= 1
    ensures BackCopy(out, 1, n) == out + seq(n, _ => out[|out| - 1])
  {
    var r := BackCopy(out, 1, n);
    var e := out + seq(n, _ => out[|out| - 1]);
    forall k | 0 <= k < |r| ensures r[k] == e[k] {
      if k >= |out| {
        RepeatsFrom(out, n, k);
      } else {
        BackCopyKeeps(out, 1, n);
        assert r[k] == r[..|out|][k];
      }
    }
  }

  lemma {:induction false} RepeatsFrom(out: seq<byte>, n: nat, k: nat)
    requires |out| >= 1 && |out| <= k < |out| + n
    ensures BackCopy(out, 1, n)[k] == out[|out| - 1]
    decreases k
  {
    var r := BackCopy(out, 1, n);
    BackCopyAt(out, 1, n, k);
    if k - 1 >= |out| {
      RepeatsFrom(out, n, k - 1);
    } else {
      BackCopyKeeps(out, 1, n);
      assert r[k - 1] == r[..|out|][k - 1];
    }
  }

  /** When the distance is at least the length the copy does not overlap
      itself and is an ordinary block copy. */
  lemma BackCopyDisjoint(out: seq<byte>, back: nat, n: nat)
    requires 1 <= back <= |out| && n <= back
    ensures BackCopy(out, back, n) == out + out[|out| - back .. |out| - back + n]
  {
    var r := BackCopy(out, back, n);
    BackCopyKeeps(out, back, n);
    forall k | 0 <= k < |r| ensures r[k] == (out + out[|out| - back .. |out| - back + n])[k] {
      if k >= |out| {
        BackCopyAt(out, back, n, k);
        assert r[k - back] == r[..|out|][k - back];
      } else {
        assert r[k] == r[..|out|][k];
      }
    }
  }

  /** A single 0xAA followed by a distance-1, length-5 reference yields six
      0xAA bytes. */
  lemma OverlapExample()
    ensures BackCopy([0xAA], 1, 5) == [0xAA, 0xAA, 0xAA, 0xAA, 0xAA, 0xAA]
  {
    BackCopyRepeats([0xAA], 5);
  }

  // ---------------------------------------------------------------------
  // An encoder for controls, the inverse of ParseControl.

  /** The control bytes that encode `c`. */
  function EncodeControl(c: Control): (r: seq<byte>)
    requires Encodable(c)
    ensures |r| == c.used
  {
    match c.family
    case FamilyA =>
      [(c.back - 1) / 256 * 32 + (c.length - 3) * 4 + c.literal, (c.back - 1) % 256]
    case FamilyB =>
      var w := c.literal * 0x4000 + (c.back - 1);
      [0x80 + (c.length - 4), w / 256, w % 256]
    case FamilyC =>
      var b := c.back - 1;
      var l := c.length - 5;
      [0xC0 + (b / 0x1_0000) * 16 + (l / 256) * 4 + c.literal, b % 0x1_0000 / 256, b % 256, l % 256]
    case LongRun => [0xE0 + (c.literal - 4) / 4]
    case FinalRun => [0xFC + c.literal]
  }

  /** Round trip: every well-formed control is read back from its encoding,
      whatever follows it. */
  lemma ParseEncoded(c: Control, rest: seq<byte>)
    requires Encodable(c)
    ensures ParseControl(EncodeControl(c) + rest, 0) == Some(c)
  {
    match c.family
    case FamilyA => ParseEncodedA(c, rest);
    case FamilyB => ParseEncodedB(c, rest);
    case FamilyC => ParseEncodedC(c, rest);
    case LongRun => ParseEncodedRun(c, rest);
    case FinalRun => ParseEncodedRun(c, rest);
  }

  lemma ParseEncodedRun(c: Control, rest: seq<byte>)
    requires Encodable(c) && (c.family == LongRun || c.family == FinalRun)
    ensures ParseControl(EncodeControl(c) + rest, 0) == Some(c)
  {
    var s := EncodeControl(c) + rest;
    if c.family == LongRun {
      var k := (c.literal - 4) / 4;
      assert c.literal == k * 4 + 4 && 0 <= k < 28;
      assert s[0] == 0xE0 + k;
      assert (0xE0 + k) % 32 == k;
    } else {
      assert s[0] == 0xFC + c.literal;
      assert (0xFC + c.literal) % 4 == c.literal;
    }
  }

  lemma ParseEncodedA(c: Control, rest: seq<byte>)
    requires Encodable(c) && c.family == FamilyA
    ensures ParseControl(EncodeControl(c) + rest, 0) == Some(c)
  {
    var s := EncodeControl(c) + rest;
    var hi, len := (c.back - 1) / 256, c.length - 3;
    var op := hi * 32 + len * 4 + c.literal;
    assert s[0] == op && s[1] == (c.back - 1) % 256;
    assert 0 <= hi < 4 && 0 <= len < 8;
    var q := hi * 8 + len;
    assert op == q * 4 + c.literal;
    assert op / 4 == q && op % 4 == c.literal;
    assert q % 8 == len;
    assert op / 32 == hi;
  }

  lemma ParseEncodedB(c: Control, rest: seq<byte>)
    requires Encodable(c) && c.family == FamilyB
    ensures ParseControl(EncodeControl(c) + rest, 0) == Some(c)
  {
    var s := EncodeControl(c) + rest;
    var w := c.literal * 0x4000 + (c.back - 1);
    assert s[0] == 0x80 + (c.length - 4) && s[1] == w / 256 && s[2] == w % 256;
    assert BE16(s, 1) == w;
    assert s[1] / 64 == c.literal;
    assert w % 0x4000 == c.back - 1;
  }

  lemma ParseEncodedC(c: Control, rest: seq<byte>)
    requires Encodable(c) && c.family == FamilyC
    ensures ParseControl(EncodeControl(c) + rest, 0) == Some(c)
  {
    var s := EncodeControl(c) + rest;
    var b := c.back - 1;
    var l := c.length - 5;
    var op := 0xC0 + (b / 0x1_0000) * 16 + (l / 256) * 4 + c.literal;
    FieldsC(b, l, c.literal);
    assert s[0] == op && s[1] == b % 0x1_0000 / 256 && s[2] == b % 256 && s[3] == l % 256;
    assert 0xC0 <= op < 0xE0 && |s| >= 4;
    var back := (op / 16 % 2) * 0x1_0000 + BE16(s, 1) + 1;
    assert BE16(s, 1) == s[1] as int * 256 + s[2] as int;
    assert back == c.back;
    assert ParseControl(s, 0) == Some(Control(FamilyC, op % 4, back, (op / 4 % 4) * 256 + s[3] + 5, 4));
  }

  /** The fields of a family-C control are read back from its bytes: the
      flag bits of the first byte, and the back distance and length split
      over it and the three bytes after it. */
  lemma FieldsC(b: int, l: int, lit: int)
    requires 0 <= b < 0x2_0000 && 0 <= l < 0x400 && 0 <= lit < 4
    ensures var op := 0xC0 + (b / 0x1_0000) * 16 + (l / 256) * 4 + lit;
      op % 4 == lit && op / 16 % 2 == b / 0x1_0000 && op / 4 % 4 == l / 256
    ensures (b / 0x1_0000) * 0x1_0000 + (b % 0x1_0000 / 256) * 256 + b % 256 == b
    ensures (l / 256) * 256 + l % 256 == l
  {
    var hb, hl := b / 0x1_0000, l / 256;
    assert 0 <= hb < 2 && 0 <= hl < 4;
    OpFieldsC(hb, hl, lit);
  }

  lemma OpFieldsC(hb: int, hl: int, lit: int)
    requires 0 <= hb < 2 && 0 <= hl < 4 && 0 <= lit < 4
    ensures var op := 0xC0 + hb * 16 + hl * 4 + lit;
      op % 4 == lit && op / 16 % 2 == hb && op / 4 % 4 == hl
  {
    var op := 0xC0 + hb * 16 + hl * 4 + lit;
    var q := 48 + hb * 4 + hl;
    assert op == q * 4 + lit && op / 4 == q;
    assert op == (12 + hb) * 16 + (hl * 4 + lit) && op / 16 == 12 + hb;
  }

  /** The length of the next long run when `len` bytes remain: 112 (the
      longest a run control can say), or else the largest multiple of four. */
  function RunLength(len: nat): (n: nat)
    requires len >= 4
    ensures 4 <= n <= len && n <= 112 && n % 4 == 0
  {
    if len >= 112 then 112 else len / 4 * 4
  }

  /** Encodes `data` as literal runs only: long runs while at least four
      bytes remain, then a final run of at most three. */
  function EncodeLiterals(data: seq<byte>): seq<byte>
    decreases |data|
  {
    if |data| >= 4 then
      var n := RunLength(|data|);
      [0xE0 + (n - 4) / 4] + data[..n] + EncodeLiterals(data[n..])
    else [0xFC + |data|] + data
  }

  /** A long-run control at the start of `s` copies its run and goes on. */
  lemma LongRunStep(s: seq<byte>, out: seq<byte>, destLen: nat, n: nat)
    requires |out| < destLen && 4 <= n <= 112 && n % 4 == 0 && 1 + n <= |s| && s[0] == 0xE0 + (n - 4) / 4
    ensures Unpack(s, 0, out, destLen) == Unpack(s, 1 + n, out + s[1..1 + n], destLen)
  {
    var c := Control(LongRun, n, 0, 0, 1);
    var next := 1 + n;
    var lit := out + s[1..next];
    assert ParseControl(s, 0) == Some(c);
    ApplyControlCases(s, 0, out, destLen, c, lit, next);
    assert UnpackStep(s, 0, out, destLen) == Continue(next, lit);
    UnpackUnfold(s, 0, out, destLen);
  }

  /** A final-run control at the start of `s` copies its run and stops. */
  lemma FinalRunStep(s: seq<byte>, out: seq<byte>, destLen: nat, n: nat)
    requires |out| < destLen && n <= 3 && 1 + n <= |s| && s[0] == 0xFC + n
    ensures Unpack(s, 0, out, destLen) == Outcome(Finished, out + s[1..1 + n])
  {
    var c := Control(FinalRun, n, 0, 0, 1);
    var next := 1 + n;
    var lit := out + s[1..next];
    assert ParseControl(s, 0) == Some(c);
    ApplyControlCases(s, 0, out, destLen, c, lit, next);
    assert UnpackStep(s, 0, out, destLen) == Stop(Outcome(Finished, lit));
    UnpackUnfold(s, 0, out, destLen);
  }

  /** Round trip for the run families: unpacking the literal encoding of
      `data` into a destination longer than `data` yields `data` and stops
      at the final run. */
  lemma {:induction false} LiteralsRoundTrip(data: seq<byte>, pre: seq<byte>, rest: seq<byte>, destLen: nat)
    requires |pre| + |data| < destLen
    ensures Unpack(EncodeLiterals(data) + rest, 0, pre, destLen) == Outcome(Finished, pre + data)
    decreases |data|
  {
    if |data| >= 4 {
      var n := RunLength(|data|);
      var more := data[n..];
      var out := pre + data[..n];
      LiteralsRoundTrip(more, out, rest, destLen);
      LongRunFirst(data, pre, rest, destLen, n);
    } else {
      FinalRunOnly(data, pre, rest, destLen);
    }
  }

  /** The literal encoding of fewer than four bytes is one final run. */
  lemma FinalRunOnly(data: seq<byte>, pre: seq<byte>, rest: seq<byte>, destLen: nat)
    requires |pre| + |data| < destLen && |data| < 4
    ensures Unpack(EncodeLiterals(data) + rest, 0, pre, destLen) == Outcome(Finished, pre + data)
  {
    var s := EncodeLiterals(data) + rest;
    var n := |data|;
    assert s == [0xFC + n] + data + rest;
    assert s[1..n + 1] == data;
    FinalRunStep(s, pre, destLen, n);
  }

  /** The literal encoding of four bytes or more starts with a long run,
      after which the encoding of the remaining bytes follows. */
  lemma LongRunFirst(data: seq<byte>, pre: seq<byte>, rest: seq<byte>, destLen: nat, n: nat)
    requires |pre| + |data| < destLen && |data| >= 4
    requires n == RunLength(|data|)
    requires Unpack(EncodeLiterals(data[n..]) + rest, 0, pre + data[..n], destLen)
             == Outcome(Finished, pre + data[..n] + data[n..])
    ensures Unpack(EncodeLiterals(data) + rest, 0, pre, destLen) == Outcome(Finished, pre + data)
  {
    var chunk, more := data[..n], data[n..];
    var enc, encMore := EncodeLiterals(data), EncodeLiterals(more);
    var s, tail := enc + rest, encMore + rest;
    var op: byte := 0xE0 + (n - 4) / 4;
    EncodeLiteralsHead(data);
    HeadParts(enc, rest, op, chunk, encMore, n);
    LongRunThen(s, pre, destLen, n);
    JoinAt(pre, data, n);
  }

  lemma JoinAt(pre: seq<byte>, data: seq<byte>, n: nat)
    requires n <= |data|
    ensures pre + data[..n] + data[n..] == pre + data
  {
    assert data == data[..n] + data[n..];
  }

  /** How the literal encoding of four bytes or more begins. */
  lemma EncodeLiteralsHead(data: seq<byte>)
    requires |data| >= 4
    ensures var n := RunLength(|data|);
            EncodeLiterals(data) == [0xE0 + (n - 4) / 4] + data[..n] + EncodeLiterals(data[n..])
  {
  }

  /** The parts of a run control followed by its run and then `tail`. */
  lemma HeadParts(enc: seq<byte>, rest: seq<byte>, op: byte, chunk: seq<byte>, tail: seq<byte>, n: nat)
    requires enc == [op] + chunk + tail && n == |chunk|
    ensures var s := enc + rest;
            s[0] == op && s[1..1 + n] == chunk && s[1 + n..] == tail + rest
  {
    var s := enc + rest;
    assert s == [op] + chunk + (tail + rest);
  }

  /** A long run at the start of `s` is copied, and unpacking goes on with
      what follows it. */
  lemma LongRunThen(s: seq<byte>, pre: seq<byte>, destLen: nat, n: nat)
    requires |pre| < destLen && 4 <= n <= 112 && n % 4 == 0
    requires 1 + n <= |s| && s[0] == 0xE0 + (n - 4) / 4
    ensures Unpack(s, 0, pre, destLen) == Unpack(s[1 + n..], 0, pre + s[1..1 + n], destLen)
  {
    var k := 1 + n;
    var out := pre + s[1..k];
    LongRunStep(s, pre, destLen, n);
    UnpackShift(s, k, out, destLen);
  }

  /** Unpacking from position `k` of `s` is unpacking the suffix `s[k..]`. */
  lemma {:induction false} UnpackShift(s: seq<byte>, k: nat, out: seq<byte>, destLen: nat)
    requires k <= |s|
    ensures Unpack(s, k, out, destLen) == Unpack(s[k..], 0, out, destLen)
    decreases destLen - |out|
  {
    if |out| < destLen {
      var a := UnpackStep(s, k, out, destLen);
      var b := UnpackStep(s[k..], 0, out, destLen);
      StepShift(s, k, out, destLen);
      if a.Continue? {
        UnpackShift(s, a.sp, a.out, destLen);
        UnpackShift(s[k..], b.sp, b.out, destLen);
        assert s[k..][b.sp..] == s[a.sp..];
      }
    }
  }

  lemma StepShift(s: seq<byte>, k: nat, out: seq<byte>, destLen: nat)
    requires k <= |s| && |out| < destLen
    ensures var a := UnpackStep(s, k, out, destLen);
            var b := UnpackStep(s[k..], 0, out, destLen);
            (a.Stop? <==> b.Stop?) && (a.Stop? ==> a == b) &&
            (a.Continue? ==> a.out == b.out && a.sp == k + b.sp)
  {
    ParseShift(s, k);
    var c := ParseControl(s, k);
    if c.Some? {
      var ctl := c.value;
      ApplyShift(s, k, out, destLen, ctl);
    }
  }

  lemma ApplyShift(s: seq<byte>, k: nat, out: seq<byte>, destLen: nat, c: Control)
    requires k <= |s| && |out| < destLen && Encodable(c)
    ensures var a := ApplyControl(s, k, out, destLen, c);
            var b := ApplyControl(s[k..], 0, out, destLen, c);
            (a.Stop? <==> b.Stop?) && (a.Stop? ==> a == b) &&
            (a.Continue? ==> a.out == b.out && a.sp == k + b.sp)
  {
    var t := s[k..];
    var lo, hi := k + c.used, k + c.used + c.literal;
    if hi <= |s| {
      var x, y := s[lo..hi], t[c.used .. c.used + c.literal];
      forall i | 0 <= i < c.literal
        ensures x[i] == y[i]
      {
        assert x[i] == s[lo + i] && y[i] == t[c.used + i];
      }
      assert x == y;
    }
  }

  lemma ParseShift(s: seq<byte>, k: nat)
    requires k <= |s|
    ensures ParseControl(s, k) == ParseControl(s[k..], 0)
  {
    if k + 3 <= |s| {
      assert BE16(s, k + 1) == BE16(s[k..], 1);
    }
  }
}
