/** The frame reconstruction loop of the Wing Commander III video codec
    (xan_wc3_decode_frame).

    Four streams drive it: the opcodes (the Huffman-decoded buffer), the
    size stream and the vector stream (both inside the packet), and the
    literal pixels (the unpacked buffer, or the packet itself).  Every
    opcode either toggles `flag` or describes a run of pixels painted at the
    raster position (`x`, `y`): literal pixels, an unchanged run copied from
    the previous frame, or a run copied from the previous frame displaced by
    a motion vector.  The loop stops when the pixel budget `total` reaches
    zero. */
module XanFrame {
  import opened Bytes
  import opened XanPixels
  import XanHuffman
  import XanUnpack

  /** How a frame decode ends. `Done` is the normal end; every other value
      names a read the decoder makes without bounds checking and that would
      fall outside its buffer. */
  datatype FrameStatus =
    | Done              // the pixel budget reached exactly zero
    | OpcodesExhausted  // an opcode read past the end of the opcode buffer
    | SizeOverrun       // a run size read past the end of the packet
    | VectorOverrun     // a motion vector read past the end of the packet
    | ImageOverrun      // a literal run read past the end of the pixel data
    | BadMotion         // a copy read outside the previous frame
    | NoPreviousFrame   // a copy with no previous frame to read from
    | NoSegments        // the packet is too short for its segment table
    | BadOpcodeSegment  // the Huffman decoder read outside the packet
    | BadImageSegment   // the unpacker read outside the packet or its output

  /** The decoder's loop variables: the four stream cursors, `flag`, the
      raster position and the pixel budget. */
  datatype Cursors = Cursors(op: nat, size: nat, vec: nat, image: nat,
                             flag: bool, x: nat, y: nat, total: int)

  /** What one opcode asks the loop to paint. */
  datatype Action =
    | NoRun
    | LiteralRun(size: nat)
    | CopyRun(size: nat, dx: int, dy: int)

  datatype Stepped = Stepped(act: Action, next: Cursors) | StepFailed(status: FrameStatus)

  /** The cursors at the start of a frame. */
  function Start(g: Geometry, sizeAt: nat, vecAt: nat): Cursors
  {
    Cursors(0, sizeAt, vecAt, 0, false, 0, 0, g.width * g.height)
  }

  /** sign_extend(v, 4): a 4-bit two's complement value. */
  function SignExtend4(v: nat): (r: int)
    requires v < 16
    ensures -8 <= r < 8
    ensures (r + 16) % 16 == v
  {
    if v < 8 then v else v - 16
  }

  /** The run size an opcode carries, and where the size stream continues:
      the opcode itself for 1-8, the opcode minus 10 for 12-18, one byte /
      a big-endian 16-bit / a big-endian 24-bit value from the size stream
      for 9 and 19 / 10 and 20 / 11 and 21, and 0 for every other opcode.
      `None` when the read falls past the end of the packet. */
  function RunSize(op: byte, pkt: seq<byte>, sp: nat): Option<(nat, nat)>
  {
    if 1 <= op <= 8 then Some((op as nat, sp))
    else if 12 <= op <= 18 then Some((op - 10, sp))
    else if op == 9 || op == 19 then
      if sp + 1 <= |pkt| then Some((pkt[sp] as nat, sp + 1)) else None
    else if op == 10 || op == 20 then
      if sp + 2 <= |pkt| then Some((BE16(pkt, sp), sp + 2)) else None
    else if op == 11 || op == 21 then
      if sp + 3 <= |pkt| then Some((BE24(pkt, sp), sp + 3)) else None
    else Some((0, sp))
  }

  /** One pass of the loop body: read an opcode, its size and (for motion
      opcodes) its vector, update `flag`, and move the raster position and
      the budget past the run. The action is painted at the position the
      cursors held before the step. */
  function StepCursors(g: Geometry, ops: seq<byte>, pkt: seq<byte>, c: Cursors): (r: Stepped)
    requires g.Valid() && c.x < g.width
    ensures r.Stepped? ==> r.next.op == c.op + 1 && r.next.x < g.width
  {
    if c.op >= |ops| then StepFailed(OpcodesExhausted)
    else
      var op := ops[c.op];
      if op == 0 then Stepped(NoRun, c.(op := c.op + 1, flag := !c.flag))
      else match RunSize(op, pkt, c.size)
        case None => StepFailed(SizeOverrun)
        case Some((n, sp)) =>
          var moved := c.(op := c.op + 1, size := sp, total := c.total - n,
                          y := c.y + (c.x + n) / g.width, x := (c.x + n) % g.width);
          if op < 12 then
            if !c.flag then Stepped(CopyRun(n, 0, 0), moved.(flag := true))
            else Stepped(LiteralRun(n), moved.(flag := false, image := c.image + n))
          else if c.vec >= |pkt| then StepFailed(VectorOverrun)
          else
            var v := pkt[c.vec];
            Stepped(CopyRun(n, SignExtend4(v / 16), SignExtend4(v % 16)), moved.(flag := false, vec := c.vec + 1))
  }

  datatype Painted = Painted(plane: seq<byte>) | PaintFailed(status: FrameStatus)

  /** The literal pixels available from offset `from` of the pixel data. */
  function PixelsFrom(image: seq<byte>, from: nat): seq<byte>
  {
    if from <= |image| then image[from..] else []
  }

  /** The plane after a literal run of `n` pixels at (`x`, `y`) taken from
      offset `from` of the literal pixels; it fails when the pixels run out
      before the run does. */
  function LiteralEffect(g: Geometry, plane: seq<byte>, image: seq<byte>, from: nat, x: nat, y: nat, n: nat): (r: Painted)
    ensures r.Painted? ==> |r.plane| == |plane|
  {
    var ts := Targets(g, Pos(y, x), n);
    var pixels := PixelsFrom(image, from);
    if |ts| <= |pixels| then Painted(Paint(plane, ts, pixels[..|ts|])) else PaintFailed(ImageOverrun)
  }

  /** The plane after a run of `n` pixels at (`x`, `y`) copied from the
      previous frame displaced by (`dx`, `dy`); it fails when there is no
      previous frame and the run paints something, or when a source lies
      outside the previous frame. */
  function CopyEffect(g: Geometry, plane: seq<byte>, prev: Option<seq<byte>>, x: nat, y: nat, n: nat, dx: int, dy: int): (r: Painted)
    requires g.Valid()
    ensures r.Painted? ==> |r.plane| == |plane|
  {
    var ts := Targets(g, Pos(y, x), n);
    match prev
    case None => if ts == [] then Painted(plane) else PaintFailed(NoPreviousFrame)
    case Some(p) =>
      var src := Sources(g, Pos(y, x), Pos(y + dy, x + dx), n);
      if src.Some? && AllIn(src.value, |p|) then Painted(Paint(plane, ts, Gather(p, src.value)))
      else PaintFailed(BadMotion)
  }

  /** The plane after painting the action at the cursors' position. */
  function RunEffect(g: Geometry, plane: seq<byte>, prev: Option<seq<byte>>, image: seq<byte>,
                     c: Cursors, act: Action): (r: Painted)
    requires g.Valid()
    ensures r.Painted? ==> |r.plane| == |plane|
  {
    match act
    case NoRun => Painted(plane)
    case LiteralRun(n) => LiteralEffect(g, plane, image, c.image, c.x, c.y, n)
    case CopyRun(n, dx, dy) => CopyEffect(g, plane, prev, c.x, c.y, n, dx, dy)
  }

  datatype FrameResult = FrameResult(status: FrameStatus, plane: seq<byte>, last: Cursors)

  /** The loop from cursors `c` on the plane `plane`: how it ends, the plane
      it leaves (meaningful when it ends with `Done`) and its last cursors. */
  function Frame(g: Geometry, ops: seq<byte>, pkt: seq<byte>, image: seq<byte>, prev: Option<seq<byte>>,
                 c: Cursors, plane: seq<byte>): FrameResult
    requires g.Valid() && c.x < g.width
    decreases |ops| - c.op
  {
    if c.total == 0 then FrameResult(Done, plane, c)
    else match StepCursors(g, ops, pkt, c)
      case StepFailed(e) => FrameResult(e, plane, c)
      case Stepped(act, c') =>
        match RunEffect(g, plane, prev, image, c, act)
        case PaintFailed(e) => FrameResult(e, plane, c)
        case Painted(p') => Frame(g, ops, pkt, image, prev, c', p')
  }

  // ---------------------------------------------------------------------
  // Properties of the loop

  /** The raster position and the budget always account for the whole
      frame: y*width + x + total == width*height. */
  predicate Accounts(g: Geometry, c: Cursors)
  {
    c.x < g.width && c.y * g.width + c.x + c.total == g.width * g.height
  }

  /** Every step keeps the accounting. */
  lemma StepAccounts(g: Geometry, ops: seq<byte>, pkt: seq<byte>, c: Cursors)
    requires g.Valid() && Accounts(g, c)
    ensures StepCursors(g, ops, pkt, c).Stepped? ==> Accounts(g, StepCursors(g, ops, pkt, c).next)
  {
    var r := StepCursors(g, ops, pkt, c);
    if r.Stepped? && ops[c.op] != 0 {
      var n := c.total - r.next.total;
      assert n >= 0;
      RasterMove(c.x, c.y, n, g.width);
    }
  }

  /** The budget never grows. */
  lemma StepShrinks(g: Geometry, ops: seq<byte>, pkt: seq<byte>, c: Cursors)
    requires g.Valid() && c.x < g.width
    ensures StepCursors(g, ops, pkt, c).Stepped? ==> StepCursors(g, ops, pkt, c).next.total <= c.total
  {
  }

  /** A decode that ends normally ends with the budget spent, the column at
      0 and the row at `height`: the runs cover the frame exactly. */
  lemma {:induction false} DoneCoversFrame(g: Geometry, ops: seq<byte>, pkt: seq<byte>, image: seq<byte>,
                                           prev: Option<seq<byte>>, c: Cursors, plane: seq<byte>)
    requires g.Valid() && Accounts(g, c)
    ensures var r := Frame(g, ops, pkt, image, prev, c, plane);
      r.status == Done ==> r.last.total == 0 && r.last.x == 0 && r.last.y == g.height
    decreases |ops| - c.op
  {
    var r := Frame(g, ops, pkt, image, prev, c, plane);
    if c.total == 0 {
      RowOfTotal(g, c);
    } else {
      var s := StepCursors(g, ops, pkt, c);
      if s.Stepped? {
        var e := RunEffect(g, plane, prev, image, c, s.act);
        if e.Painted? {
          StepAccounts(g, ops, pkt, c);
          var c' := s.next;
          var p' := e.plane;
          DoneCoversFrame(g, ops, pkt, image, prev, c', p');
        }
      }
    }
  }

  /** Moving `n` pixels on in raster order from (`x`, `y`) advances the
      linear position y*w + x by exactly `n`. */
  lemma RasterMove(x: nat, y: nat, n: nat, w: nat)
    requires 0 < w
    ensures (y + (x + n) / w) * w + (x + n) % w == y * w + x + n
  {
    var q := (x + n) / w;
    assert x + n == q * w + (x + n) % w;
    assert (y + q) * w == y * w + q * w;
  }

  lemma RowOfTotal(g: Geometry, c: Cursors)
    requires g.Valid() && Accounts(g, c) && c.total == 0
    ensures c.x == 0 && c.y == g.height
  {
    var w := g.width;
    var d := g.height - c.y;
    assert d * w == w * g.height - c.y * w;
    if d >= 1 {
      MulMono(1, d, w);
      assert false;
    } else if d <= -1 {
      MulMono(d, -1, w);
      assert false;
    }
  }

  /** The hazard of `while (total_pixels)`: once a run overshoots the
      budget, it is negative and can never return to zero, so the loop can
      only end by reading past one of its buffers. */
  lemma {:induction false} OvershootNeverDone(g: Geometry, ops: seq<byte>, pkt: seq<byte>, image: seq<byte>,
                                              prev: Option<seq<byte>>, c: Cursors, plane: seq<byte>)
    requires g.Valid() && c.x < g.width && c.total < 0
    ensures Frame(g, ops, pkt, image, prev, c, plane).status != Done
    decreases |ops| - c.op
  {
    var s := StepCursors(g, ops, pkt, c);
    if s.Stepped? {
      var e := RunEffect(g, plane, prev, image, c, s.act);
      if e.Painted? {
        StepShrinks(g, ops, pkt, c);
        var c' := s.next;
        var p' := e.plane;
        OvershootNeverDone(g, ops, pkt, image, prev, c', p');
      }
    }
  }

  /** Opcodes 22-255 fall through every size case: a motion copy of zero
      pixels that still consumes a vector byte and clears `flag`, leaving the
      position and budget as they were. */
  lemma HighOpcodeIsEmptyMotion(g: Geometry, ops: seq<byte>, pkt: seq<byte>, c: Cursors)
    requires g.Valid() && c.op < |ops| && ops[c.op] >= 22 && c.vec < |pkt| && c.x < g.width
    ensures var r := StepCursors(g, ops, pkt, c);
      r.Stepped? && r.act.CopyRun? && r.act.size == 0 &&
      r.next == c.(op := c.op + 1, vec := c.vec + 1, flag := false)
  {
  }

  /** Opcodes 1-11 toggle `flag`: when it becomes set the run is copied
      unchanged from the previous frame, otherwise it is a literal run and
      the pixel cursor moves past it. */
  lemma ShortOpcodeToggles(g: Geometry, ops: seq<byte>, pkt: seq<byte>, c: Cursors)
    requires g.Valid() && c.op < |ops| && 1 <= ops[c.op] < 12 && c.x < g.width
    ensures var r := StepCursors(g, ops, pkt, c);
      r.Stepped? ==>
        r.next.flag == !c.flag && r.next.vec == c.vec &&
        (if r.next.flag then r.act == CopyRun(c.total - r.next.total, 0, 0) && r.next.image == c.image
         else r.act == LiteralRun(c.total - r.next.total) && r.next.image == c.image + r.act.size)
  {
  }

  /** Opcode 0 only toggles `flag`. */
  lemma ZeroOpcodeToggles(g: Geometry, ops: seq<byte>, pkt: seq<byte>, c: Cursors)
    requires g.Valid() && c.op < |ops| && ops[c.op] == 0 && c.x < g.width
    ensures StepCursors(g, ops, pkt, c) == Stepped(NoRun, c.(op := c.op + 1, flag := !c.flag))
  {
  }

  /** A motion opcode's vector: the high nibble is dx, the low nibble dy,
      each sign-extended; the vector byte is recovered from them. */
  lemma MotionVector(g: Geometry, ops: seq<byte>, pkt: seq<byte>, c: Cursors)
    requires g.Valid() && c.op < |ops| && ops[c.op] >= 12 && c.x < g.width
    ensures var r := StepCursors(g, ops, pkt, c);
      r.Stepped? ==>
        (r.act.CopyRun? && -8 <= r.act.dx < 8 && -8 <= r.act.dy < 8 &&
         c.vec < |pkt| && pkt[c.vec] == ((r.act.dx + 16) % 16) * 16 + (r.act.dy + 16) % 16 &&
         r.next.vec == c.vec + 1 && !r.next.flag)
  {
  }

  // ---------------------------------------------------------------------
  // Run sizes: every size has a code

  /** The opcode and size-stream bytes an encoder would use for a run of
      `n` pixels, literal/unchanged (`motion == false`) or motion. */
  function EncodeRunSize(n: nat, motion: bool): (r: (byte, seq<byte>))
    requires 0 < n < 0x100_0000
  {
    if !motion && n <= 8 then (n, [])
    else if motion && 2 <= n <= 8 then (n + 10, [])
    else if n < 0x100 then (if motion then 19 else 9, [n])
    else if n < 0x1_0000 then (if motion then 20 else 10, [n / 0x100, n % 0x100])
    else (if motion then 21 else 11, [n / 0x1_0000, n / 0x100 % 0x100, n % 0x100])
  }

  /** Decoding the encoded size gives the size back, consumes exactly the
      size bytes written, and picks an opcode of the requested kind. */
  lemma RunSizeRoundTrip(n: nat, motion: bool, rest: seq<byte>)
    requires 0 < n < 0x100_0000
    ensures var (op, bytes) := EncodeRunSize(n, motion);
      op != 0 && (op >= 12) == motion && op < 22 &&
      RunSize(op, bytes + rest, 0) == Some((n, |bytes|))
  {
    var (op, bytes) := EncodeRunSize(n, motion);
    var s := bytes + rest;
    if op == 10 || op == 20 {
      assert s[0] == n / 0x100 && s[1] == n % 0x100;
    } else if op == 11 || op == 21 {
      assert s[0] == n / 0x1_0000 && s[1] == n / 0x100 % 0x100 && s[2] == n % 0x100;
      assert BE16(s, 0) == n / 0x100;
    }
  }

  /** Opcode 0 and opcodes 1-21 are the only ones carrying a size; every
      size an opcode carries is below 2^24. */
  lemma RunSizeBound(op: byte, pkt: seq<byte>, sp: nat)
    ensures RunSize(op, pkt, sp).Some? ==>
      var (n, sp') := RunSize(op, pkt, sp).value;
      n < 0x100_0000 && sp <= sp' <= sp + 3 && (op >= 22 ==> n == 0 && sp' == sp)
  {
  }

  /** The flag sequence 0, 0, 3, 12 in a 5-wide, one-row frame: after two toggles
      `flag` is clear again, so opcode 3 sets it and copies the three pixels
      unchanged from the previous frame (it is not a literal run); opcode 12
      then copies two pixels displaced by the vector byte's motion. */
  lemma FlagScenario(pkt: seq<byte>)
    requires |pkt| == 1 && pkt[0] == 0x00
    ensures var g := Geometry(5, 1, 5);
      var ops := [0, 0, 3, 12];
      var c0 := Start(g, 0, 0);
      var s1 := StepCursors(g, ops, pkt, c0);
      s1.Stepped? && s1.act == NoRun &&
      var s2 := StepCursors(g, ops, pkt, s1.next);
      s2.Stepped? && s2.act == NoRun && !s2.next.flag &&
      var s3 := StepCursors(g, ops, pkt, s2.next);
      s3.Stepped? && s3.act == CopyRun(3, 0, 0) && s3.next.x == 3 &&
      var s4 := StepCursors(g, ops, pkt, s3.next);
      s4.Stepped? && s4.act == CopyRun(2, 0, 0) && s4.next.total == 0 && s4.next.y == 1
  {
  }

  // ---------------------------------------------------------------------
  // The whole frame: segment table, opcode and pixel buffers, then the loop

  /** The four segment offsets at the head of the packet: Huffman-coded
      opcodes, run sizes, motion vectors and image data. */
  function SegmentOffsets(pkt: seq<byte>): (nat, nat, nat, nat)
    requires |pkt| >= 8
  {
    (LE16(pkt, 0), LE16(pkt, 2), LE16(pkt, 4), LE16(pkt, 6))
  }

  /** The packet from offset `off` on (empty when the offset lies beyond it). */
  function Tail(pkt: seq<byte>, off: nat): seq<byte>
  {
    if off <= |pkt| then pkt[off..] else []
  }

  /** The opcode buffer after Huffman decoding into it: the decoded opcodes
      over the buffer's earlier contents. `None` when the decoder read
      outside the packet. */
  function OpcodeBuffer(seg: seq<byte>, before: seq<byte>): Option<seq<byte>>
  {
    var d := XanHuffman.Decode(seg, |before|);
    XanHuffman.DecodeBounded(seg, |before|);
    if d.status == XanHuffman.Ended || d.status == XanHuffman.DestFull then Some(d.out + before[|d.out|..])
    else None
  }

  /** The literal pixel source: the unpacked buffer when the image segment
      starts with 2 (the unpacked bytes over the buffer's earlier contents),
      otherwise the rest of the segment itself. `None` when the segment is
      missing or the unpacker read outside its input or output. */
  function ImageSource(seg: seq<byte>, before: seq<byte>): Option<seq<byte>>
    requires |before| >= 130
  {
    if |seg| == 0 then None
    else if seg[0] == 2 then
      var u := XanUnpack.Unpack(seg[1..], 0, [], |before| - 130);
      XanUnpack.UnpackBounded(seg[1..], 0, [], |before| - 130);
      if u.status == XanUnpack.SrcOverrun || u.status == XanUnpack.BadBackRef then None
      else Some(u.out + before[|u.out|..])
    else Some(seg[1..])
  }

  /** xan_wc3_decode_frame on the packet `pkt`, with opcode buffer `ops0`
      and unpack buffer `img0` as they were, the plane `plane` and the
      previous frame `prev`. */
  function Wc3Frame(g: Geometry, pkt: seq<byte>, ops0: seq<byte>, img0: seq<byte>,
                    plane: seq<byte>, prev: Option<seq<byte>>): FrameResult
    requires g.Valid() && |img0| >= 130
  {
    if |pkt| < 8 then FrameResult(NoSegments, plane, Start(g, 0, 0))
    else
      var (huff, sizes, vecs, img) := SegmentOffsets(pkt);
      match OpcodeBuffer(Tail(pkt, huff), ops0)
      case None => FrameResult(BadOpcodeSegment, plane, Start(g, sizes, vecs))
      case Some(ops) =>
        match ImageSource(Tail(pkt, img), img0)
        case None => FrameResult(BadImageSegment, plane, Start(g, sizes, vecs))
        case Some(image) => Frame(g, ops, pkt, image, prev, Start(g, sizes, vecs), plane)
  }

  /** The previous frame's plane, if there is one. */
  function PrevPlane(prev: array?<byte>): Option<seq<byte>>
    reads prev
  {
    if prev == null then None else Some(prev[..])
  }

  // ---------------------------------------------------------------------
  // The decoder's loop

  /** xan_wc3_decode_frame: decodes the opcodes into `buffer1`, unpacks the
      image data into `buffer2` when the packet asks for it, then runs the
      opcode loop over `plane`. */
  method Wc3DecodeFrame(buffer1: array<byte>, buffer2: array<byte>, plane: array<byte>, prev: array?<byte>,
                        g: Geometry, pkt: seq<byte>) returns (status: FrameStatus)
    requires g.Valid() && plane.Length == g.FrameSize() && buffer2.Length >= 130
    requires buffer1 != buffer2 && buffer1 != plane && buffer2 != plane
    requires prev != null ==> prev.Length == g.FrameSize() && prev != plane && prev != buffer1 && prev != buffer2
    modifies buffer1, buffer2, plane
    ensures var r := Wc3Frame(g, pkt, old(buffer1[..]), old(buffer2[..]), old(plane[..]), old(PrevPlane(prev)));
      status == r.status && (status == Done ==> plane[..] == r.plane)
  {
    if |pkt| < 8 {
      return NoSegments;
    }
    var huff := LE16(pkt, 0);
    var sizes := LE16(pkt, 2);
    var vecs := LE16(pkt, 4);
    var img := LE16(pkt, 6);
    var opsOk := DecodeOpcodes(buffer1, Tail(pkt, huff));
    if !opsOk {
      return BadOpcodeSegment;
    }
    var image := FindImage(buffer2, Tail(pkt, img));
    if image.None? {
      return BadImageSegment;
    }
    status := DecodeRuns(plane, prev, g, buffer1[..], pkt, sizes, vecs, image.value);
  }

  /** The Huffman decoding step of xan_wc3_decode_frame: opcodes from the
      segment `seg` into `buffer1`. */
  method DecodeOpcodes(buffer1: array<byte>, seg: seq<byte>) returns (ok: bool)
    modifies buffer1
    ensures ok <==> OpcodeBuffer(seg, old(buffer1[..])).Some?
    ensures ok ==> buffer1[..] == OpcodeBuffer(seg, old(buffer1[..])).value
  {
    ghost var before := buffer1[..];
    var hs, decoded := XanHuffman.HuffmanDecode(buffer1, seg);
    ok := hs == XanHuffman.Ended || hs == XanHuffman.DestFull;
    assert buffer1[..] == buffer1[..decoded] + buffer1[decoded..];
  }

  /** Where the literal pixels of xan_wc3_decode_frame come from: the image
      segment `seg` is unpacked into `buffer2` when it starts with 2, and
      used directly otherwise. */
  method FindImage(buffer2: array<byte>, seg: seq<byte>) returns (image: Option<seq<byte>>)
    requires buffer2.Length >= 130
    modifies buffer2
    ensures image == ImageSource(seg, old(buffer2[..]))
  {
    if |seg| == 0 {
      return None;
    }
    if seg[0] == 2 {
      ghost var before := buffer2[..];
      var us, unpacked := XanUnpack.UnpackInto(buffer2, seg[1..], buffer2.Length - 130);
      if us == XanUnpack.SrcOverrun || us == XanUnpack.BadBackRef {
        return None;
      }
      assert buffer2[..] == buffer2[..unpacked] + before[unpacked..];
      return Some(buffer2[..]);
    }
    return Some(seg[1..]);
  }

  /** The opcode loop of xan_wc3_decode_frame over the opcode buffer `ops`,
      the packet `pkt` (which holds the size and vector streams from
      `sizeAt` and `vecAt`) and the literal pixels `image`. */
  method DecodeRuns(plane: array<byte>, prev: array?<byte>, g: Geometry, ops: seq<byte>, pkt: seq<byte>,
                    sizeAt: nat, vecAt: nat, image: seq<byte>) returns (status: FrameStatus)
    requires g.Valid() && plane.Length == g.FrameSize()
    requires prev != null ==> prev.Length == g.FrameSize() && prev != plane
    modifies plane
    ensures var r := Frame(g, ops, pkt, image, PrevPlane(prev), Start(g, sizeAt, vecAt), old(plane[..]));
      status == r.status && (status == Done ==> plane[..] == r.plane)
  {
    var c := Start(g, sizeAt, vecAt);
    while c.total != 0
      invariant c.x < g.width
      invariant Frame(g, ops, pkt, image, PrevPlane(prev), Start(g, sizeAt, vecAt), old(plane[..]))
             == Frame(g, ops, pkt, image, PrevPlane(prev), c, plane[..])
      decreases |ops| - c.op
    {
      var failed;
      failed, c := DecodeStep(plane, prev, g, ops, pkt, image, c);
      if failed.Some? {
        return failed.value;
      }
    }
    return Done;
  }

  /** One pass of the loop body from the loop variables `c`: read the
      opcode, its run size and its vector, then paint the run. Either the
      loop goes on from `c'`, or decoding fails the way `Frame` says. */
  method DecodeStep(plane: array<byte>, prev: array?<byte>, g: Geometry, ops: seq<byte>, pkt: seq<byte>,
                    image: seq<byte>, c: Cursors) returns (failed: Option<FrameStatus>, c': Cursors)
    requires g.Valid() && plane.Length == g.FrameSize() && c.x < g.width && c.total != 0
    requires prev != null ==> prev.Length == g.FrameSize() && prev != plane
    modifies plane
    ensures failed.None? ==>
      c'.x < g.width && c'.op == c.op + 1 &&
      Frame(g, ops, pkt, image, PrevPlane(prev), c, old(plane[..])) == Frame(g, ops, pkt, image, PrevPlane(prev), c', plane[..])
    ensures failed.Some? ==>
      failed.value != Done && Frame(g, ops, pkt, image, PrevPlane(prev), c, old(plane[..])).status == failed.value
  {
    var step := ReadStep(g, ops, pkt, c);
    if step.StepFailed? {
      return Some(step.status), c;
    }
    failed := PaintAction(plane, prev, g, image, c, step.act);
    c' := step.next;
  }

  /** The reading half of the loop body: the opcode, its run size, its
      vector for a motion opcode, the new `flag`, and the raster position
      and budget moved past the run. */
  method ReadStep(g: Geometry, ops: seq<byte>, pkt: seq<byte>, c: Cursors) returns (step: Stepped)
    requires g.Valid() && c.x < g.width
    ensures step == StepCursors(g, ops, pkt, c)
    ensures step.StepFailed? ==> step.status != Done
  {
    if c.op >= |ops| {
      return StepFailed(OpcodesExhausted);
    }
    var opcode := ops[c.op];
    var c' := c.(op := c.op + 1);
    if opcode == 0 {
      return Stepped(NoRun, c'.(flag := !c.flag));
    }
    var sized, size, sizeP := ReadRunSize(opcode, pkt, c.size);
    if !sized {
      return StepFailed(SizeOverrun);
    }
    var act: Action;
    if opcode < 12 {
      c' := c'.(flag := !c.flag);
      if c'.flag {
        act := CopyRun(size, 0, 0);
      } else {
        act := LiteralRun(size);
        c' := c'.(image := c.image + size);
      }
    } else {
      if c.vec >= |pkt| {
        return StepFailed(VectorOverrun);
      }
      var v := pkt[c.vec];
      c' := c'.(vec := c.vec + 1, flag := false);
      act := CopyRun(size, SignExtend4(v / 16), SignExtend4(v % 16));
    }
    c' := c'.(size := sizeP, total := c.total - size, y := c.y + (c.x + size) / g.width, x := (c.x + size) % g.width);
    step := Stepped(act, c');
  }

  /** The painting half of the loop body: the action at the cursors'
      position, with the outcome `RunEffect` describes. */
  method PaintAction(plane: array<byte>, prev: array?<byte>, g: Geometry, image: seq<byte>, c: Cursors, act: Action)
    returns (failed: Option<FrameStatus>)
    requires g.Valid() && plane.Length == g.FrameSize() && c.x < g.width
    requires prev != null ==> prev.Length == g.FrameSize() && prev != plane
    modifies plane
    ensures var r := RunEffect(g, old(plane[..]), PrevPlane(prev), image, c, act);
      if failed.None? then r == Painted(plane[..]) else r == PaintFailed(failed.value) && failed.value != Done
  {
    match act
    case NoRun =>
      failed := None;
    case LiteralRun(n) =>
      failed := PaintLiteral(plane, g, image, c.image, c.x, c.y, n);
    case CopyRun(n, dx, dy) =>
      failed := PaintCopy(plane, prev, g, c.x, c.y, n, dx, dy);
  }

  /** The size switch of the loop body: the run size of `opcode` and the
      position of the size stream after it. */
  method ReadRunSize(opcode: byte, pkt: seq<byte>, sizeP: nat) returns (ok: bool, size: nat, sizeP': nat)
    ensures RunSize(opcode, pkt, sizeP) == if ok then Some((size, sizeP')) else None
  {
    ok, size, sizeP' := true, 0, sizeP;
    if 1 <= opcode <= 8 {
      size := opcode;
    } else if 12 <= opcode <= 18 {
      size := opcode - 10;
    } else if opcode == 9 || opcode == 19 {
      if sizeP + 1 > |pkt| {
        return false, 0, sizeP;
      }
      size := pkt[sizeP];
      sizeP' := sizeP + 1;
    } else if opcode == 10 || opcode == 20 {
      if sizeP + 2 > |pkt| {
        return false, 0, sizeP;
      }
      size := BE16(pkt, sizeP);
      sizeP' := sizeP + 2;
    } else if opcode == 11 || opcode == 21 {
      if sizeP + 3 > |pkt| {
        return false, 0, sizeP;
      }
      size := BE24(pkt, sizeP);
      sizeP' := sizeP + 3;
    }
  }

  /** xan_wc3_output_pixel_run from offset `from` of the literal pixels,
      with the outcome `RunEffect` describes. */
  method PaintLiteral(plane: array<byte>, g: Geometry, image: seq<byte>, from: nat, x: nat, y: nat, n: nat)
    returns (failed: Option<FrameStatus>)
    requires g.Valid() && plane.Length == g.FrameSize() && x < g.width
    modifies plane
    ensures var r := LiteralEffect(g, old(plane[..]), image, from, x, y, n);
      if failed.None? then r == Painted(plane[..]) else r == PaintFailed(failed.value)
  {
    var ok := OutputPixelRun(plane, g, PixelsFrom(image, from), x, y, n);
    failed := if ok then None else Some(ImageOverrun);
  }

  /** xan_wc3_copy_pixel_run from the previous frame displaced by
      (`dx`, `dy`), with the outcome `RunEffect` describes; without a
      previous frame only a run that paints nothing succeeds. */
  method PaintCopy(plane: array<byte>, prev: array?<byte>, g: Geometry, x: nat, y: nat, n: nat, dx: int, dy: int)
    returns (failed: Option<FrameStatus>)
    requires g.Valid() && plane.Length == g.FrameSize() && x < g.width
    requires prev != null ==> prev.Length == g.FrameSize() && prev != plane
    modifies plane
    ensures var r := CopyEffect(g, old(plane[..]), PrevPlane(prev), x, y, n, dx, dy);
      if failed.None? then r == Painted(plane[..]) else r == PaintFailed(failed.value)
  {
    if prev == null {
      var paints := n > 0 && y * g.stride + x < g.FrameSize();
      assert paints <==> Targets(g, Pos(y, x), n) != [];
      failed := if paints then Some(NoPreviousFrame) else None;
    } else {
      var ok := CopyPixelRun(plane, prev, g, x, y, n, dx, dy);
      failed := if ok then None else Some(BadMotion);
    }
  }
}
