/** The Wing Commander III decoder's per-packet entry point: the chunk scan
    that collects palettes, the frame buffer set-up, the picture decoding
    and the swap that makes the new frame the reference for the next one. */
module XanDecode {
  import opened Bytes
  import opened XanPixels
  import opened XanFrame
  import opened XanPalette

  /** What one call reports. Every failure but the last is an
      AVERROR_INVALIDDATA return in the decoder; `NoPalette` is a packet
      that needs a palette before any was defined, and `BadFrame` a picture
      whose decoding reads outside its buffers (both undefined behaviour in
      the decoder). */
  datatype DecodeStatus = Decoded | BadChunk(chunkError: ScanStatus) | NoPalette | BadFrame(frameError: FrameStatus)

  /** The decoder's private context. `last` is the frame the next picture
      copies its motion blocks from; `buffer1` holds the opcodes and
      `buffer2` the unpacked picture data, with 130 bytes of slack. */
  class XanContext {
    const width: nat
    const height: nat
    const buffer1: array<byte>
    const buffer2: array<byte>
    var palettes: seq<Palette>
    var curPalette: nat
    var frameSize: nat
    var last: array?<byte>

    ghost predicate Valid()
      reads this
    {
      0 < width && 0 < height &&
      buffer1.Length == width * height && buffer2.Length == width * height + 130 && buffer1 != buffer2 &&
      PaletteSet(palettes, curPalette) &&
      (last != null ==> 0 < frameSize && last.Length == frameSize && last != buffer1 && last != buffer2)
    }

    /** xan_decode_init: the two scratch buffers for a `width` by `height`
        picture, no palettes and no frame yet. */
    constructor (width: nat, height: nat)
      requires 0 < width && 0 < height
      ensures Valid()
      ensures this.width == width && this.height == height
      ensures palettes == [] && curPalette == 0 && frameSize == 0 && last == null
      ensures fresh(buffer1) && fresh(buffer2)
    {
      this.width := width;
      this.height := height;
      buffer1 := new byte[width * height];
      buffer2 := new byte[width * height + 130];
      palettes := [];
      curPalette := 0;
      frameSize := 0;
      last := null;
    }

    /** The chunk loop of xan_decode_frame: reads tagged chunks until at
        most 8 bytes remain or a `VGA ` chunk header has been read, adding
        `PALT` palettes and following `SHOT` selections. Returns where the
        picture data starts. */
    method ScanChunks(pkt: seq<byte>) returns (status: ScanStatus, pos: nat)
      requires Valid()
      modifies this
      ensures var r := Scan(pkt, 0, old(palettes), old(curPalette), 0);
        status == r.status && pos == r.pos && palettes == r.palettes && curPalette == r.cur
      ensures Valid() && frameSize == old(frameSize) && last == old(last)
    {
      ScanKeepsPaletteSet(pkt, 0, palettes, curPalette, 0);
      pos := 0;
      var tag := 0;
      while |pkt| - pos > 8 && tag != VGA_TAG
        invariant pos <= |pkt|
        invariant Scan(pkt, pos, palettes, curPalette, tag) == Scan(pkt, 0, old(palettes), old(curPalette), 0)
        invariant frameSize == old(frameSize) && last == old(last)
        decreases |pkt| - pos
      {
        var stop, next;
        stop, next, tag := ReadChunk(pkt, pos);
        if stop.Some? {
          return stop.value, pos;
        }
        pos := next;
      }
      status := Complete;
    }

    /** One pass of the chunk loop, on the chunk header at `pos`: the error
        it returns, or where the next pass starts and the tag it read. */
    method ReadChunk(pkt: seq<byte>, pos: nat) returns (stop: Option<ScanStatus>, next: nat, tag: nat)
      requires pos + 8 < |pkt|
      modifies this
      ensures var s := ScanStep(pkt, pos, old(palettes), old(curPalette));
        match s
        case Stop(why) => stop == Some(why) && palettes == old(palettes) && curPalette == old(curPalette)
        case Continue(p, ps, c, t) => stop == None && next == p && palettes == ps && curPalette == c && tag == t
      ensures frameSize == old(frameSize) && last == old(last)
    {
      tag := LE32(pkt, pos);
      var size := ToInt32(BE32(pkt, pos + 4));
      if size < 0 {
        return Some(NegativeSize), pos, tag;
      }
      var at := pos + 8;
      size := Min(size, |pkt| - at);
      stop := None;
      if tag == PALT_TAG {
        if size < PALETTE_SIZE {
          return Some(ShortPalette), pos, tag;
        }
        if |palettes| >= PALETTES_MAX {
          return Some(TooManyPalettes), pos, tag;
        }
        var pal := ReadPalette(pkt, at);
        palettes := palettes + [pal];
        next := at + PALETTE_SIZE;
      } else if tag == SHOT_TAG {
        if size < 4 {
          return Some(ShortShot), pos, tag;
        }
        var newPal := LE32(pkt, at);
        if newPal < |palettes| {
          curPalette := newPal;
        }
        next := at + 4;
      } else if tag == VGA_TAG {
        next := at;
      } else {
        next := at + size;
      }
    }

    /** xan_decode_frame for a Wing Commander III packet `pkt`, decoding
        into `frame`, the buffer the caller provides (with row length
        `stride`). The frame's palette is returned beside it, and the byte
        count after the chunks is reported as consumed. */
    method DecodeFrame(pkt: seq<byte>, frame: array<byte>, stride: nat)
      returns (status: DecodeStatus, consumed: nat, palette: Palette)
      requires Valid()
      requires width <= stride && frame.Length == stride * height
      requires frameSize == 0 || frameSize == stride * height
      requires frame != buffer1 && frame != buffer2 && frame != last
      modifies this, buffer1, buffer2, frame
      ensures Valid()
      ensures var r := Scan(pkt, 0, old(palettes), old(curPalette), 0);
        palettes == r.palettes && curPalette == r.cur &&
        (r.status != Complete ==> status == BadChunk(r.status) && frameSize == old(frameSize) && last == old(last)) &&
        (r.status == Complete ==>
          frameSize == stride * height && consumed == |pkt| - r.pos &&
          (r.palettes == [] ==> status == NoPalette && last == old(last)) &&
          (r.palettes != [] ==> palette == r.palettes[r.cur] && last == frame))
      ensures var r := Scan(pkt, 0, old(palettes), old(curPalette), 0);
        r.status == Complete && r.palettes != [] ==>
          var f := Wc3Frame(Geometry(width, height, stride), pkt[r.pos..], old(buffer1[..]), old(buffer2[..]),
                            old(frame[..]), old(PrevPlane(last)));
          (status == Decoded <==> f.status == Done) &&
          (f.status != Done ==> status == BadFrame(f.status)) &&
          (f.status == Done ==> frame[..] == f.plane)
    {
      var scanned, pos := ScanChunks(pkt);
      if scanned != Complete {
        return BadChunk(scanned), 0, [];
      }
      consumed := |pkt| - pos;
      if frameSize == 0 {
        frameSize := stride * height;
      }
      MulMono(1, stride, height);
      if |palettes| == 0 {
        return NoPalette, consumed, [];
      }
      palette := palettes[curPalette];
      var g := Geometry(width, height, stride);
      var wc3 := Wc3DecodeFrame(buffer1, buffer2, frame, last, g, pkt[pos..]);
      status := if wc3 == Done then Decoded else BadFrame(wc3);
      last := frame;
    }
  }
}
