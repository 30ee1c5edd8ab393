/** The raw video codec of raw.c: the FourCC to pixel format table, the
    decoder that reassembles frames of a fixed byte length from packets of
    any size, and the encoder that packs the rows of a picture's planes
    into one buffer without their line padding. */
module RawVideo {
  import opened Bytes

  /** The pixel formats the codec tells apart; every other format is
      `OtherFormat`. */
  datatype PixelFormat = YUV420P | YUV422 | RGB24 | BGR24 | YUV422P | YUV444P | OtherFormat(id: nat)

  /** MKTAG: four characters packed least significant first. */
  function MkTag(a: char, b: char, c: char, d: char): nat
    requires a < 256 as char && b < 256 as char && c < 256 as char && d < 256 as char
  {
    a as nat + b as nat * 0x100 + c as nat * 0x1_0000 + d as nat * 0x100_0000
  }

  datatype PixelFormatTag = PixelFormatTag(pixFmt: PixelFormat, fourcc: nat)

  /** pixelFormatTags, without its terminating entry. */
  const PIXEL_FORMAT_TAGS: seq<PixelFormatTag> :=
    [PixelFormatTag(YUV422, MkTag('Y', '4', '2', '2')), PixelFormatTag(YUV420P, MkTag('I', '4', '2', '0'))]

  /** findPixelFormat: the format of the first entry with this FourCC,
      and YUV420P when there is none. */
  method FindPixelFormat(fourcc: nat) returns (fmt: PixelFormat)
    ensures (forall i :: 0 <= i < |PIXEL_FORMAT_TAGS| ==> PIXEL_FORMAT_TAGS[i].fourcc != fourcc) ==> fmt == YUV420P
    ensures forall i :: 0 <= i < |PIXEL_FORMAT_TAGS| && PIXEL_FORMAT_TAGS[i].fourcc == fourcc &&
                        (forall j :: 0 <= j < i ==> PIXEL_FORMAT_TAGS[j].fourcc != fourcc) ==>
                        fmt == PIXEL_FORMAT_TAGS[i].pixFmt
    ensures fmt == (if fourcc == MkTag('Y', '4', '2', '2') then YUV422 else YUV420P)
  {
    var tags := PIXEL_FORMAT_TAGS;
    assert tags[0].fourcc == 0x3232_3459 && tags[1].fourcc == 0x3032_3449;
    var i := 0;
    while i < |tags|
      invariant i <= |tags|
      invariant forall j :: 0 <= j < i ==> tags[j].fourcc != fourcc
    {
      if tags[i].fourcc == fourcc {
        return tags[i].pixFmt;
      }
      i := i + 1;
    }
    return YUV420P;
  }

  // ---------------------------------------------------------------------
  // Decoding: frames reassembled from packets

  /** What one raw_decode call does, on the bytes already collected
      (`pending`) and a packet: the bytes it consumes, the picture it
      outputs, and the bytes collected afterwards. */
  datatype Step = Step(consumed: nat, picture: Option<seq<byte>>, pending: seq<byte>)

  /** raw_decode on values: a packet of exactly one frame with nothing
      collected is the picture itself; a packet too short to complete the
      frame is collected; otherwise the frame is completed from the front
      of the packet. */
  function DecodeStep(pending: seq<byte>, length: nat, pkt: seq<byte>): (s: Step)
    requires |pending| < length || pending == []
    ensures s.consumed <= |pkt|
    ensures s.picture.None? ==> s.pending == pending + pkt[..s.consumed] && |s.pending| < length
    ensures s.picture.Some? ==> s.pending == [] && |s.picture.value| == length &&
                                s.picture.value == pending + pkt[..s.consumed]
  {
    if |pkt| == length && pending == [] then
      assert pkt[..|pkt|] == pkt;
      Step(|pkt|, Some(pkt), [])
    else
      var needed := length - |pending|;
      if |pkt| < needed then
        assert pkt[..|pkt|] == pkt;
        Step(|pkt|, None, pending + pkt)
      else Step(needed, Some(pending + pkt[..needed]), [])
  }

  /** Every non-empty packet is at least partly consumed. */
  lemma DecodeStepProgress(pending: seq<byte>, length: nat, pkt: seq<byte>)
    requires 0 < length && |pending| < length && pkt != []
    ensures DecodeStep(pending, length, pkt).consumed > 0
  {
  }

  /** A caller that resubmits the unconsumed rest of its data until all of
      it is consumed: the pictures output and the bytes left collected. */
  function Drive(pending: seq<byte>, length: nat, data: seq<byte>): (seq<seq<byte>>, seq<byte>)
    requires 0 < length && |pending| < length
    decreases |data|
  {
    if data == [] then ([], pending)
    else
      var s := DecodeStep(pending, length, data);
      DecodeStepProgress(pending, length, data);
      var (pictures, rest) := Drive(s.pending, length, data[s.consumed..]);
      (if s.picture.Some? then [s.picture.value] + pictures else pictures, rest)
  }

  function Concat(ss: seq<seq<byte>>): seq<byte>
  {
    if ss == [] then [] else ss[0] + Concat(ss[1..])
  }

  /** Whatever the packet sizes, the pictures are the stream cut into
      frames of `length` bytes, in order, and less than a frame remains
      collected. */
  lemma {:induction false} DriveFrames(pending: seq<byte>, length: nat, data: seq<byte>)
    requires 0 < length && |pending| < length
    ensures var d := Drive(pending, length, data);
      Concat(d.0) + d.1 == pending + data && |d.1| < length &&
      forall i :: 0 <= i < |d.0| ==> |d.0[i]| == length
    decreases |data|
  {
    if data != [] {
      var s := DecodeStep(pending, length, data);
      DecodeStepProgress(pending, length, data);
      var tail := data[s.consumed..];
      DriveFrames(s.pending, length, tail);
      var d := Drive(s.pending, length, tail);
      assert data == data[..s.consumed] + tail;
      var front := data[..s.consumed];
      if s.picture.Some? {
        var pic := s.picture.value;
        var c := Concat(d.0);
        ConcatCons(pic, d.0);
        assert Drive(pending, length, data) == ([pic] + d.0, d.1);
        Reassemble(pending, front, tail, pic, c, d.1);
      } else {
        assert Drive(pending, length, data) == (d.0, d.1);
        assert (pending + front) + tail == pending + (front + tail);
      }
    }
  }

  lemma Reassemble(pending: seq<byte>, front: seq<byte>, tail: seq<byte>, pic: seq<byte>, c: seq<byte>, rest: seq<byte>)
    requires pic == pending + front && c + rest == tail
    ensures (pic + c) + rest == pending + (front + tail)
  {
  }

  lemma ConcatCons(x: seq<byte>, xs: seq<seq<byte>>)
    ensures Concat([x] + xs) == x + Concat(xs)
    ensures forall i :: 0 < i < |xs| + 1 ==> ([x] + xs)[i] == xs[i - 1]
  {
    assert ([x] + xs)[1..] == xs;
  }

  /** The decoder's private context: one frame's worth of buffer and the
      number of bytes collected in it. */
  class RawVideoContext {
    const pixFmt: PixelFormat
    const buffer: array<byte>
    var p: nat

    ghost predicate Valid()
      reads this
    {
      p < buffer.Length || p == 0
    }

    /** The bytes collected so far. */
    ghost function Pending(): seq<byte>
      reads this, buffer
      requires Valid()
    {
      if p <= buffer.Length then buffer[..p] else []
    }

    /** raw_init: a non-zero codec tag chooses the pixel format, and the
        buffer holds one frame of `length` bytes (avpicture_get_size). */
    constructor (pixFmt: PixelFormat, codecTag: nat, length: nat)
      ensures Valid() && p == 0 && buffer.Length == length && fresh(buffer)
      ensures codecTag == 0 ==> this.pixFmt == pixFmt
      ensures codecTag != 0 ==> this.pixFmt == (if codecTag == MkTag('Y', '4', '2', '2') then YUV422 else YUV420P)
    {
      var fmt := pixFmt;
      if codecTag != 0 {
        fmt := FindPixelFormat(codecTag);
      }
      this.pixFmt := fmt;
      buffer := new byte[length];
      p := 0;
    }

    /** raw_decode: returns the bytes consumed and the picture output, if
        any (the packet itself on the early-out path, the context's buffer
        otherwise). */
    method Decode(pkt: seq<byte>) returns (consumed: nat, picture: Option<seq<byte>>)
      requires Valid()
      modifies this, buffer
      ensures Valid()
      ensures var s := DecodeStep(old(Pending()), buffer.Length, pkt);
        consumed == s.consumed && picture == s.picture && Pending() == s.pending
      ensures old(p) == 0 && |pkt| == buffer.Length ==> buffer[..] == old(buffer[..])
      ensures old(p) + |pkt| < buffer.Length ==>
        buffer[..] == old(buffer[..p]) + pkt + old(buffer[p + |pkt|..])
      ensures !(old(p) == 0 && |pkt| == buffer.Length) && buffer.Length <= old(p) + |pkt| ==>
        buffer[..] == old(buffer[..p]) + pkt[..buffer.Length - old(p)]
    {
      if |pkt| == buffer.Length && p == 0 {
        return |pkt|, Some(pkt);
      }
      var needed := buffer.Length - p;
      if |pkt| < needed {
        CopyIn(pkt, |pkt|);
        p := p + |pkt|;
        return |pkt|, None;
      }
      CopyIn(pkt, needed);
      assert buffer[..] == old(buffer[..p]) + pkt[..needed];
      p := 0;
      assert Pending() == [];
      return needed, Some(buffer[..]);
    }

    /** The memcpy of `n` packet bytes to the collect position. */
    method CopyIn(pkt: seq<byte>, n: nat)
      requires p + n <= buffer.Length && n <= |pkt|
      modifies buffer
      ensures buffer[..] == old(buffer[..p]) + pkt[..n] + old(buffer[p + n..])
    {
      forall i | 0 <= i < n {
        buffer[p + i] := pkt[i];
      }
      assert buffer[..] == old(buffer[..p]) + pkt[..n] + old(buffer[p + n..]);
    }
  }

  // ---------------------------------------------------------------------
  // Encoding: planes packed row by row

  /** Whether `h` rows of `w` bytes, the first at `start` and each `ls`
      bytes after the one before, lie inside `n` bytes. */
  predicate Fits(n: nat, start: nat, ls: nat, w: nat, h: nat)
    decreases h
  {
    h == 0 || (start + w <= n && Fits(n, start + ls, ls, w, h - 1))
  }

  /** The `h` rows of `w` bytes from `start` on, each `ls` bytes after the
      one before, without the padding between them. */
  function Rows(plane: seq<byte>, start: nat, ls: nat, w: nat, h: nat): seq<byte>
    requires Fits(|plane|, start, ls, w, h)
    decreases h
  {
    if h == 0 then [] else plane[start..start + w] + Rows(plane, start + ls, ls, w, h - 1)
  }

  /** `h` rows of `w` bytes take `w * h` bytes. */
  lemma {:induction false} RowsLength(plane: seq<byte>, start: nat, ls: nat, w: nat, h: nat)
    requires Fits(|plane|, start, ls, w, h)
    ensures |Rows(plane, start, ls, w, h)| == w * h
    decreases h
  {
    if h > 0 {
      RowsLength(plane, start + ls, ls, w, h - 1);
      assert w * h == w + w * (h - 1);
    }
  }

  /** Rows read after a prefix of the plane do not depend on it. */
  lemma {:induction false} RowsShift(a: seq<byte>, b: seq<byte>, start: nat, w: nat, h: nat)
    requires Fits(|b|, start, w, w, h)
    ensures Fits(|a + b|, |a| + start, w, w, h)
    ensures Rows(a + b, |a| + start, w, w, h) == Rows(b, start, w, w, h)
    decreases h
  {
    if h > 0 {
      RowsShift(a, b, start + w, w, h - 1);
      assert (a + b)[|a| + start..|a| + start + w] == b[start..start + w];
    }
  }

  /** Packing is idempotent: the packed rows of a plane, read back as a
      plane whose line size is its width, pack to themselves. */
  lemma {:induction false} RowsDense(plane: seq<byte>, start: nat, ls: nat, w: nat, h: nat)
    requires Fits(|plane|, start, ls, w, h)
    ensures var packed := Rows(plane, start, ls, w, h);
      Fits(|packed|, 0, w, w, h) && Rows(packed, 0, w, w, h) == packed
    decreases h
  {
    if h > 0 {
      var row := plane[start..start + w];
      var rest := Rows(plane, start + ls, ls, w, h - 1);
      RowsDense(plane, start + ls, ls, w, h - 1);
      RowsShift(row, rest, 0, w, h - 1);
      assert (row + rest)[0..w] == row;
    }
  }

  /** One plane of the output: which picture plane, and its size in
      bytes per row and rows. */
  datatype Plane = Plane(index: nat, width: nat, height: nat)

  /** A three-plane format whose chroma planes are `cw` by `ch`. */
  function Planar(w: nat, h: nat, cw: nat, ch: nat): seq<Plane>
  {
    [Plane(0, w, h), Plane(1, cw, ch), Plane(2, cw, ch)]
  }

  /** The planes raw_encode copies for a `w` by `h` picture, or `None`
      for a format it does not handle. */
  function Layout(fmt: PixelFormat, w: nat, h: nat): (r: Option<seq<Plane>>)
    ensures r.Some? ==> forall i :: 0 <= i < |r.value| ==> r.value[i].index < 3
  {
    match fmt
    case YUV420P => Some(Planar(w, h, w / 2, h / 2))
    case YUV422P => Some(Planar(w, h, w / 2, h))
    case YUV444P => Some(Planar(w, h, w, h))
    case YUV422 => Some([Plane(0, w * 2, h)])
    case RGB24 => Some([Plane(0, w * 3, h)])
    case BGR24 => Some([Plane(0, w * 3, h)])
    case OtherFormat(_) => None
  }

  /** Every plane of the layout lies inside its picture plane. */
  predicate PictureFits(planes: seq<seq<byte>>, linesizes: seq<nat>, layout: seq<Plane>)
  {
    forall i :: 0 <= i < |layout| ==>
      layout[i].index < |planes| && layout[i].index < |linesizes| &&
      Fits(|planes[layout[i].index]|, 0, linesizes[layout[i].index], layout[i].width, layout[i].height)
  }

  /** The packed picture: the rows of each plane of the layout, in order. */
  function Packed(planes: seq<seq<byte>>, linesizes: seq<nat>, layout: seq<Plane>): (r: seq<byte>)
    requires PictureFits(planes, linesizes, layout)
    ensures |r| == PackedSize(layout)
  {
    if layout == [] then []
    else
      var n := |layout| - 1;
      var q := layout[n];
      RowsLength(planes[q.index], 0, linesizes[q.index], q.width, q.height);
      Packed(planes, linesizes, layout[..n]) + Rows(planes[q.index], 0, linesizes[q.index], q.width, q.height)
  }

  /** The number of bytes the packed picture takes. */
  function PackedSize(layout: seq<Plane>): nat
  {
    if layout == [] then 0 else PackedSize(layout[..|layout| - 1]) + layout[|layout| - 1].width * layout[|layout| - 1].height
  }

  /** The packed sizes: the chroma planes of YUV420P are halved in both
      directions, those of YUV422P in width only; the packed formats have
      two or three bytes per pixel. */
  lemma PackedSizes(w: nat, h: nat)
    ensures PackedSize(Layout(YUV420P, w, h).value) == w * h + 2 * ((w / 2) * (h / 2))
    ensures PackedSize(Layout(YUV422P, w, h).value) == w * h + 2 * ((w / 2) * h)
    ensures PackedSize(Layout(YUV444P, w, h).value) == 3 * (w * h)
    ensures PackedSize(Layout(YUV422, w, h).value) == 2 * (w * h)
    ensures PackedSize(Layout(RGB24, w, h).value) == 3 * (w * h)
    ensures PackedSize(Layout(BGR24, w, h).value) == 3 * (w * h)
  {
    PlanarSize(w, h, w / 2, h / 2);
    PlanarSize(w, h, w / 2, h);
    PlanarSize(w, h, w, h);
    OneSize(Plane(0, w * 2, h));
    OneSize(Plane(0, w * 3, h));
  }

  lemma PlanarSize(w: nat, h: nat, cw: nat, ch: nat)
    ensures PackedSize(Planar(w, h, cw, ch)) == w * h + 2 * (cw * ch)
  {
    var p := Planar(w, h, cw, ch);
    OneSize(Plane(0, w, h));
    assert p[..2] == [Plane(0, w, h), Plane(1, cw, ch)];
    assert p[..2][..1] == [Plane(0, w, h)];
    assert PackedSize(p[..2]) == w * h + cw * ch;
    assert PackedSize(p) == PackedSize(p[..2]) + cw * ch;
  }

  lemma OneSize(q: Plane)
    ensures PackedSize([q]) == q.width * q.height
  {
    assert [q][..0] == [];
  }

  /** Copies `ph` rows of `pw` bytes from a plane to `frame` at `dest`,
      stepping `ls` bytes in the plane per row; returns the end. */
  method CopyPlane(frame: array<byte>, dest: nat, plane: seq<byte>, ls: nat, pw: nat, ph: nat) returns (end: nat)
    requires Fits(|plane|, 0, ls, pw, ph) && dest + |Rows(plane, 0, ls, pw, ph)| <= frame.Length
    modifies frame
    ensures end == dest + |Rows(plane, 0, ls, pw, ph)|
    ensures frame[..] == old(frame[..dest]) + Rows(plane, 0, ls, pw, ph) + old(frame[end..])
  {
    ghost var all := Rows(plane, 0, ls, pw, ph);
    end := dest;
    var src: nat := 0;
    for j := 0 to ph
      invariant dest <= end <= frame.Length && Fits(|plane|, src, ls, pw, ph - j)
      invariant all == frame[dest..end] + Rows(plane, src, ls, pw, ph - j)
      invariant forall k :: 0 <= k < frame.Length && !(dest <= k < end) ==> frame[k] == old(frame[k])
    {
      end, src := CopyRow(frame, dest, end, plane, src, ls, pw, ph - j);
    }
    Splice(frame[..], old(frame[..]), dest, end, all);
  }

  /** One pass of a row loop: the memcpy of the row at `src` to `end`, and
      both pointers moved on. */
  method CopyRow(frame: array<byte>, dest: nat, end: nat, plane: seq<byte>, src: nat, ls: nat, pw: nat, left: nat)
    returns (end': nat, src': nat)
    requires 0 < left && dest <= end <= frame.Length && Fits(|plane|, src, ls, pw, left)
    requires dest + |frame[dest..end] + Rows(plane, src, ls, pw, left)| <= frame.Length
    modifies frame
    ensures end' == end + pw <= frame.Length && src' == src + ls && Fits(|plane|, src', ls, pw, left - 1)
    ensures frame[dest..end'] + Rows(plane, src', ls, pw, left - 1) ==
            old(frame[dest..end]) + Rows(plane, src, ls, pw, left)
    ensures forall k :: 0 <= k < frame.Length && !(end <= k < end') ==> frame[k] == old(frame[k])
  {
    ghost var done := frame[dest..end];
    forall k | 0 <= k < pw {
      frame[end + k] := plane[src + k];
    }
    assert frame[dest..end] == done;
    assert frame[end..end + pw] == plane[src..src + pw];
    assert frame[dest..end + pw] == frame[dest..end] + frame[end..end + pw];
    end' := end + pw;
    src' := src + ls;
  }

  /** The three-plane cases of raw_encode: from the second plane on the
      width (and, for YUV420P, the height) is halved. */
  method EncodePlanar(frame: array<byte>, planes: seq<seq<byte>>, linesizes: seq<nat>,
                      w: nat, h: nat, halveW: bool, halveH: bool) returns (end: nat)
    requires |planes| >= 3 && |linesizes| >= 3
    requires var cw := if halveW then w / 2 else w;
      var ch := if halveH then h / 2 else h;
      PictureFits(planes, linesizes, Planar(w, h, cw, ch)) &&
      PackedSize(Planar(w, h, cw, ch)) <= frame.Length
    modifies frame
    ensures var layout := Planar(w, h, if halveW then w / 2 else w, if halveH then h / 2 else h);
      end == PackedSize(layout) && frame[..] == Packed(planes, linesizes, layout) + old(frame[end..])
  {
    ghost var layout := Planar(w, h, if halveW then w / 2 else w, if halveH then h / 2 else h);
    var pw, ph := w, h;
    end := 0;
    assert layout[..0] == [];
    FitsPrefix(planes, linesizes, layout, 0);
    for i := 0 to 3
      invariant i == 0 ==> pw == w && ph == h
      invariant i > 0 ==> pw == layout[i - 1].width && ph == layout[i - 1].height
      invariant PictureFits(planes, linesizes, layout[..i])
      invariant end == PackedSize(layout[..i]) <= PackedSize(layout)
      invariant frame[..end] == Packed(planes, linesizes, layout[..i])
      invariant forall k :: end <= k < frame.Length ==> frame[k] == old(frame[k])
    {
      if i == 1 {
        if halveW {
          pw := pw / 2;
        }
        if halveH {
          ph := ph / 2;
        }
      }
      assert layout[i] == Plane(i, pw, ph);
      end := AppendPlane(frame, planes, linesizes, layout, i, pw, ph, end);
    }
    assert layout[..3] == layout;
    Splice(frame[..], old(frame[..]), 0, end, frame[..end]);
    assert old(frame[..])[..0] == [];
  }

  /** A buffer that holds `mid` from `dest` to `end` and the bytes of
      `before` everywhere else is `mid` spliced into `before`. */
  lemma Splice(now: seq<byte>, before: seq<byte>, dest: nat, end: nat, mid: seq<byte>)
    requires dest <= end <= |now| == |before| && now[dest..end] == mid
    requires forall k :: 0 <= k < |now| && !(dest <= k < end) ==> now[k] == before[k]
    ensures now == before[..dest] + mid + before[end..]
  {
  }

  /** One pass of the plane loop: plane `i` of the layout is packed after
      the planes before it. */
  method AppendPlane(frame: array<byte>, planes: seq<seq<byte>>, linesizes: seq<nat>, ghost layout: seq<Plane>,
                     i: nat, pw: nat, ph: nat, end: nat) returns (next: nat)
    requires i < |layout| && layout[i] == Plane(i, pw, ph)
    requires PictureFits(planes, linesizes, layout) && PackedSize(layout) <= frame.Length
    requires end == PackedSize(layout[..i]) <= frame.Length && PictureFits(planes, linesizes, layout[..i])
    requires frame[..end] == Packed(planes, linesizes, layout[..i])
    modifies frame
    ensures next == PackedSize(layout[..i + 1]) <= PackedSize(layout) && PictureFits(planes, linesizes, layout[..i + 1])
    ensures end <= next && frame[..next] == Packed(planes, linesizes, layout[..i + 1])
    ensures forall k :: next <= k < frame.Length ==> frame[k] == old(frame[k])
  {
    assert layout[..i + 1][..i] == layout[..i];
    PrefixSize(layout, i + 1);
    FitsPrefix(planes, linesizes, layout, i + 1);
    PackedSnoc(planes, linesizes, layout, i);
    ghost var prefix := frame[..end];
    RowsLength(planes[i], 0, linesizes[i], pw, ph);
    next := CopyPlane(frame, end, planes[i], linesizes[i], pw, ph);
    assert frame[..next] == prefix + Rows(planes[i], 0, linesizes[i], pw, ph);
    assert frame[next..] == old(frame[next..]);
  }

  lemma FitsPrefix(planes: seq<seq<byte>>, linesizes: seq<nat>, layout: seq<Plane>, k: nat)
    requires PictureFits(planes, linesizes, layout) && k <= |layout|
    ensures PictureFits(planes, linesizes, layout[..k])
  {
    forall i | 0 <= i < k
      ensures layout[..k][i] == layout[i]
    {
    }
  }

  lemma PackedSnoc(planes: seq<seq<byte>>, linesizes: seq<nat>, layout: seq<Plane>, i: nat)
    requires i < |layout| && PictureFits(planes, linesizes, layout[..i + 1])
    ensures PictureFits(planes, linesizes, layout[..i])
    ensures var q := layout[i];
      q.index < |planes| && q.index < |linesizes| &&
      Fits(|planes[q.index]|, 0, linesizes[q.index], q.width, q.height) &&
      Packed(planes, linesizes, layout[..i + 1]) ==
      Packed(planes, linesizes, layout[..i]) + Rows(planes[q.index], 0, linesizes[q.index], q.width, q.height)
  {
    assert layout[..i + 1][..i] == layout[..i];
    assert layout[..i + 1][i] == layout[i];
    FitsPrefix(planes, linesizes, layout[..i + 1], i);
  }

  /** A prefix of a layout takes no more room than the layout. */
  lemma {:induction false} PrefixSize(layout: seq<Plane>, k: nat)
    requires k <= |layout|
    ensures PackedSize(layout[..k]) <= PackedSize(layout)
    decreases |layout|
  {
    if k < |layout| {
      var n := |layout| - 1;
      assert layout[..n][..k] == layout[..k];
      PrefixSize(layout[..n], k);
    } else {
      assert layout[..k] == layout;
    }
  }

  /** raw_encode: -1 when the picture (of `size` bytes, its
      avpicture_get_size) does not fit in `bufSize` or the format is not
      handled; otherwise the packed rows of every plane are written to the
      front of `frame` and `size` is returned. */
  method RawEncode(fmt: PixelFormat, w: nat, h: nat, planes: seq<seq<byte>>, linesizes: seq<nat>,
                   frame: array<byte>, bufSize: int, size: nat) returns (r: int)
    requires |planes| >= 3 && |linesizes| >= 3 && bufSize <= frame.Length
    requires Layout(fmt, w, h).Some? ==>
      PictureFits(planes, linesizes, Layout(fmt, w, h).value) && PackedSize(Layout(fmt, w, h).value) <= size
    modifies frame
    ensures (size > bufSize || Layout(fmt, w, h).None?) ==> r == -1 && frame[..] == old(frame[..])
    ensures size <= bufSize && Layout(fmt, w, h).Some? ==>
      var packed := Packed(planes, linesizes, Layout(fmt, w, h).value);
      r == size && frame[..] == packed + old(frame[|packed|..])
  {
    if size > bufSize {
      return -1;
    }
    var end;
    match fmt {
      case YUV420P =>
        end := EncodePlanar(frame, planes, linesizes, w, h, true, true);
      case YUV422P =>
        end := EncodePlanar(frame, planes, linesizes, w, h, true, false);
      case YUV444P =>
        end := EncodePlanar(frame, planes, linesizes, w, h, false, false);
      case YUV422 =>
        end := EncodePacked(frame, planes, linesizes, w * 2, h);
      case RGB24 =>
        end := EncodePacked(frame, planes, linesizes, w * 3, h);
      case BGR24 =>
        end := EncodePacked(frame, planes, linesizes, w * 3, h);
      case OtherFormat(_) =>
        return -1;
    }
    return size;
  }

  /** The one-plane cases of raw_encode: `h` rows of `rowBytes` bytes. */
  method EncodePacked(frame: array<byte>, planes: seq<seq<byte>>, linesizes: seq<nat>, rowBytes: nat, h: nat)
    returns (end: nat)
    requires PictureFits(planes, linesizes, [Plane(0, rowBytes, h)])
    requires PackedSize([Plane(0, rowBytes, h)]) <= frame.Length
    modifies frame
    ensures var layout := [Plane(0, rowBytes, h)];
      end == PackedSize(layout) && frame[..] == Packed(planes, linesizes, layout) + old(frame[end..])
  {
    ghost var layout := [Plane(0, rowBytes, h)];
    assert layout[0] == Plane(0, rowBytes, h) && layout[..0] == [];
    OneSize(Plane(0, rowBytes, h));
    RowsLength(planes[0], 0, linesizes[0], rowBytes, h);
    end := CopyPlane(frame, 0, planes[0], linesizes[0], rowBytes, h);
  }
}
