/** The two primitives with which a Wing Commander III frame is painted onto
    its palette-index plane: a run of literal pixels from the image-data
    stream, and a run copied from the previous frame, optionally displaced by
    a motion vector. Both walk the visible part of the plane in raster order,
    skipping the stride padding at the end of each row, and stop early at the
    end of the frame.

    Each run is specified pixel by pixel (`Targets`, `Sources`, `Paint`); the
    methods work row chunk by row chunk, the way the decoder does, and are
    proved to paint exactly what the pixel-level description says. */
module XanPixels {
  import opened Bytes

  /** The shape of a palette-index plane: `width` visible pixels per row,
      `height` rows, `stride` bytes from one row to the next. */
  datatype Geometry = Geometry(width: nat, height: nat, stride: nat)
  {
    predicate Valid() { 0 < width <= stride }

    /** The frame size the decoder bounds its writes by: stride times height. */
    function FrameSize(): nat { stride * height }
  }

  /** A cursor: a row and a column. Columns of a source cursor may lie left of
      the visible area (negative), since a motion vector may point there. */
  datatype Pos = Pos(row: int, col: int)

  /** Plane offset of a cursor. */
  function Index(g: Geometry, p: Pos): int { p.row * g.stride + p.col }

  /** The next pixel in raster order: one column on, or the start of the next
      row once the right edge of the visible area is reached. */
  function Next(g: Geometry, p: Pos): Pos
  {
    if p.col + 1 >= g.width then Pos(p.row + 1, 0) else Pos(p.row, p.col + 1)
  }

  /** Where a cursor ends up after a chunk of `c` pixels that does not cross
      the right edge (the chunk may end exactly on it). */
  function Advance(g: Geometry, p: Pos, c: nat): Pos
  {
    if p.col + c >= g.width then Pos(p.row + 1, 0) else Pos(p.row, p.col + c)
  }

  /** The plane offsets a run of `n` pixels starting at `t` paints, in order.
      The run stops when its cursor reaches the frame size. */
  function Targets(g: Geometry, t: Pos, n: nat): seq<int>
    decreases n
  {
    if n == 0 || Index(g, t) >= g.FrameSize() then []
    else [Index(g, t)] + Targets(g, Next(g, t), n - 1)
  }

  /** The offsets in the previous frame a copied run of `n` pixels reads,
      pixel for pixel alongside `Targets(g, t, n)`. A source cursor that
      starts exactly on the right edge moves to the start of the next row
      before anything is copied; one that starts beyond it makes the run's
      byte count negative, which is `None`. */
  function Sources(g: Geometry, t: Pos, s: Pos, n: nat): Option<seq<int>>
    requires g.Valid()
    decreases n, if s.col >= g.width then 1 else 0
  {
    if n == 0 || Index(g, t) >= g.FrameSize() then Some([])
    else if s.col > g.width then None
    else if s.col == g.width then Sources(g, t, Pos(s.row + 1, 0), n)
    else Prepend([Index(g, s)], Sources(g, Next(g, t), Next(g, s), n - 1))
  }

  function Prepend(a: seq<int>, o: Option<seq<int>>): Option<seq<int>>
  {
    match o
    case None => None
    case Some(r) => Some(a + r)
  }

  /** `c` consecutive offsets from `i`. */
  function Span(i: int, c: nat): (r: seq<int>)
    ensures |r| == c
    ensures forall k :: 0 <= k < c ==> r[k] == i + k
  {
    seq(c, k => i + k)
  }

  /** Every offset of `ss` addresses a byte of a plane of `len` bytes. */
  predicate AllIn(ss: seq<int>, len: nat)
  {
    forall k :: 0 <= k < |ss| ==> 0 <= ss[k] < len
  }

  /** The bytes of `f` at the offsets `ss`. */
  function Gather(f: seq<byte>, ss: seq<int>): (r: seq<byte>)
    requires AllIn(ss, |f|)
    ensures |r| == |ss|
    ensures forall k :: 0 <= k < |ss| ==> r[k] == f[ss[k]]
  {
    seq(|ss|, k requires 0 <= k < |ss| => f[ss[k]])
  }

  /** The plane `f` after writing `vs[k]` at offset `ts[k]`, in order. */
  function Paint(f: seq<byte>, ts: seq<int>, vs: seq<byte>): (r: seq<byte>)
    ensures |r| == |f|
    decreases |ts|
  {
    if ts == [] || vs == [] then f
    else
      var f' := if 0 <= ts[0] < |f| then f[ts[0] := vs[0]] else f;
      Paint(f', ts[1..], vs[1..])
  }

  predicate Increasing(ts: seq<int>)
  {
    forall j, k :: 0 <= j < k < |ts| ==> ts[j] < ts[k]
  }

  // ---------------------------------------------------------------------
  // Properties of the pixel-level description

  /** A cursor inside the frame has its whole visible row inside the frame. */
  lemma RowFits(g: Geometry, t: Pos)
    requires g.Valid() && 0 <= t.col < g.width
    requires Index(g, t) < g.FrameSize()
    ensures t.row < g.height
    ensures Index(g, t) + (g.width - t.col) <= g.FrameSize()
  {
    if t.row >= g.height {
      MulMono(g.height, t.row, g.stride);
      assert false;
    }
    MulMono(t.row, g.height - 1, g.stride);
    assert (g.height - 1) * g.stride == g.FrameSize() - g.stride;
  }

  /** A cursor on a row at or below `height` lies outside the frame. */
  lemma RowBeyond(g: Geometry, t: Pos)
    requires g.Valid() && 0 <= t.col && g.height <= t.row
    ensures Index(g, t) >= g.FrameSize()
  {
    MulMono(g.height, t.row, g.stride);
  }

  lemma MulMono(a: int, b: int, s: nat)
    requires a <= b
    ensures a * s <= b * s
  {
    assert b * s - a * s == (b - a) * s;
  }

  /** Offset arithmetic of `Next`: one on, plus the stride padding when the
      row wraps. */
  lemma NextIndex(g: Geometry, p: Pos)
    requires g.Valid() && p.col + 1 <= g.width
    ensures Index(g, Next(g, p)) == Index(g, p) + 1 + (if p.col + 1 == g.width then g.stride - g.width else 0)
  {
    if p.col + 1 == g.width {
      assert (p.row + 1) * g.stride == p.row * g.stride + g.stride;
    }
  }

  /** Offset arithmetic of `Advance`, the same for a whole chunk. */
  lemma AdvanceIndex(g: Geometry, p: Pos, c: nat)
    requires g.Valid() && p.col + c <= g.width
    ensures Index(g, Advance(g, p, c)) == Index(g, p) + c + (if p.col + c == g.width then g.stride - g.width else 0)
  {
    if p.col + c == g.width {
      assert (p.row + 1) * g.stride == p.row * g.stride + g.stride;
    }
  }

  /** Visible pixels from `t` (inclusive) to the end of the frame. */
  function Remaining(g: Geometry, t: Pos): int
  {
    if t.row >= g.height then 0 else (g.height - t.row) * g.width - t.col
  }

  /** A run paints `n` pixels when that many visible pixels remain before the
      end of the frame, and otherwise as many as remain. */
  lemma {:induction false} TargetsLength(g: Geometry, t: Pos, n: nat)
    requires g.Valid() && 0 <= t.col < g.width
    ensures |Targets(g, t, n)| == Min(n, Remaining(g, t))
    decreases n
  {
    if t.row >= g.height {
      RowBeyond(g, t);
      assert Targets(g, t, n) == [];
    } else {
      RemainingPositive(g, t);
      if n > 0 {
        RowFits2(g, t);
        var t' := Next(g, t);
        var m := n - 1;
        var rest := Targets(g, t', m);
        assert Targets(g, t, n) == [Index(g, t)] + rest;
        TargetsLength(g, t', m);
        NextRemaining(g, t);
      }
    }
  }

  lemma RemainingPositive(g: Geometry, t: Pos)
    requires g.Valid() && 0 <= t.col < g.width && t.row < g.height
    ensures Remaining(g, t) >= 1
  {
    MulMono(1, g.height - t.row, g.width);
  }

  lemma RowFits2(g: Geometry, t: Pos)
    requires g.Valid() && 0 <= t.col < g.width && t.row < g.height
    ensures Index(g, t) < g.FrameSize()
  {
    MulMono(t.row, g.height - 1, g.stride);
    assert (g.height - 1) * g.stride == g.FrameSize() - g.stride;
  }

  lemma NextRemaining(g: Geometry, t: Pos)
    requires g.Valid() && 0 <= t.col < g.width && t.row < g.height
    ensures Remaining(g, Next(g, t)) == Remaining(g, t) - 1
  {
    if t.col + 1 == g.width && t.row + 1 < g.height {
      assert (g.height - t.row) * g.width == (g.height - (t.row + 1)) * g.width + g.width;
    }
  }

  /** A run paints strictly increasing offsets, from its start up to (not
      including) the frame size. */
  lemma {:induction false} TargetsInFrame(g: Geometry, t: Pos, n: nat)
    requires g.Valid() && 0 <= t.col < g.width
    ensures Increasing(Targets(g, t, n))
    ensures forall k :: 0 <= k < |Targets(g, t, n)| ==> Index(g, t) <= Targets(g, t, n)[k] < g.FrameSize()
    decreases n
  {
    if n > 0 && Index(g, t) < g.FrameSize() {
      var t' := Next(g, t);
      var m := n - 1;
      TargetsInFrame(g, t', m);
      NextIndex(g, t);
    }
  }

  /** Painting changes exactly the targeted offsets, each to its own value. */
  lemma {:induction false} PaintEffect(f: seq<byte>, ts: seq<int>, vs: seq<byte>)
    requires |ts| == |vs| && Increasing(ts) && AllIn(ts, |f|)
    ensures forall k :: 0 <= k < |ts| ==> Paint(f, ts, vs)[ts[k]] == vs[k]
    ensures forall p :: 0 <= p < |f| && p !in ts ==> Paint(f, ts, vs)[p] == f[p]
    decreases |ts|
  {
    if ts != [] {
      var f' := f[ts[0] := vs[0]];
      var ts' := ts[1..];
      var vs' := vs[1..];
      PaintEffect(f', ts', vs');
      assert forall k :: 0 <= k < |ts'| ==> ts'[k] != ts[0];
    }
  }

  /** A copy without displacement reads each pixel from the offset it
      writes: the run is unchanged from the previous frame. */
  lemma {:induction false} ZeroMotionSources(g: Geometry, t: Pos, n: nat)
    requires g.Valid() && 0 <= t.col < g.width
    ensures Sources(g, t, t, n) == Some(Targets(g, t, n))
    decreases n
  {
    if n > 0 && Index(g, t) < g.FrameSize() {
      var t' := Next(g, t);
      var m := n - 1;
      ZeroMotionSources(g, t', m);
    }
  }

  /** A copy reads exactly one source offset per painted pixel; it fails only
      when it has a pixel to paint and its source column starts right of the
      visible area. */
  lemma {:induction false} SourcesShape(g: Geometry, t: Pos, s: Pos, n: nat)
    requires g.Valid() && 0 <= t.col < g.width
    ensures Sources(g, t, s, n).None? <==> (|Targets(g, t, n)| > 0 && s.col > g.width)
    ensures Sources(g, t, s, n).Some? ==> |Sources(g, t, s, n).value| == |Targets(g, t, n)|
    decreases n, if s.col >= g.width then 1 else 0
  {
    if n == 0 || Index(g, t) >= g.FrameSize() {
    } else if s.col > g.width {
    } else if s.col == g.width {
      var s' := Pos(s.row + 1, 0);
      SourcesShape(g, t, s', n);
    } else {
      var t' := Next(g, t);
      var s' := Next(g, s);
      var m := n - 1;
      SourcesShape(g, t', s', m);
    }
  }

  // ---------------------------------------------------------------------
  // Chunk-level facts the methods use

  lemma {:induction false} TargetsChunk(g: Geometry, t: Pos, n: nat, c: nat)
    requires g.Valid() && 0 <= t.col && 0 < c <= n && t.col + c <= g.width
    requires Index(g, t) + c <= g.FrameSize()
    ensures Targets(g, t, n) == Span(Index(g, t), c) + Targets(g, Advance(g, t, c), n - c)
    decreases c
  {
    var t' := Next(g, t);
    if c > 1 {
      var m := n - 1;
      var d := c - 1;
      NextIndex(g, t);
      TargetsChunk(g, t', m, d);
      assert Advance(g, t', d) == Advance(g, t, c);
      assert Span(Index(g, t), c) == [Index(g, t)] + Span(Index(g, t'), d);
    }
  }

  lemma {:induction false} SourcesChunk(g: Geometry, t: Pos, s: Pos, n: nat, c: nat)
    requires g.Valid() && 0 <= t.col && 0 < c <= n && t.col + c <= g.width && s.col + c <= g.width
    requires Index(g, t) + c <= g.FrameSize()
    ensures Sources(g, t, s, n) == Prepend(Span(Index(g, s), c), Sources(g, Advance(g, t, c), Advance(g, s, c), n - c))
    decreases c
  {
    var t' := Next(g, t);
    var s' := Next(g, s);
    var m := n - 1;
    var tail := Sources(g, t', s', m);
    assert Sources(g, t, s, n) == Prepend([Index(g, s)], tail);
    if c > 1 {
      var d := c - 1;
      NextIndex(g, t);
      NextIndex(g, s);
      SourcesChunk(g, t', s', m, d);
      assert Advance(g, t', d) == Advance(g, t, c);
      assert Advance(g, s', d) == Advance(g, s, c);
      PrependTwice([Index(g, s)], Span(Index(g, s'), d), Sources(g, Advance(g, t, c), Advance(g, s, c), n - c));
      assert Span(Index(g, s), c) == [Index(g, s)] + Span(Index(g, s'), d);
    } else {
      assert Span(Index(g, s), c) == [Index(g, s)];
    }
  }

  lemma PrependTwice(a: seq<int>, b: seq<int>, o: Option<seq<int>>)
    ensures Prepend(a, Prepend(b, o)) == Prepend(a + b, o)
  {
    if o.Some? {
      assert a + (b + o.value) == (a + b) + o.value;
    }
  }

  lemma {:induction false} PaintAppend(f: seq<byte>, a: seq<int>, b: seq<int>, va: seq<byte>, vb: seq<byte>)
    requires |a| == |va| && |b| == |vb|
    ensures Paint(f, a + b, va + vb) == Paint(Paint(f, a, va), b, vb)
    decreases |a|
  {
    if a != [] {
      var f' := if 0 <= a[0] < |f| then f[a[0] := va[0]] else f;
      var a' := a[1..];
      var va' := va[1..];
      var ab := a + b;
      var vab := va + vb;
      assert ab[0] == a[0] && vab[0] == va[0];
      assert ab[1..] == a' + b;
      assert vab[1..] == va' + vb;
      assert Paint(f, ab, vab) == Paint(f', a' + b, va' + vb);
      assert Paint(f, a, va) == Paint(f', a', va');
      PaintAppend(f', a', b, va', vb);
    } else {
      assert a + b == b && va + vb == vb;
    }
  }

  lemma {:induction false} PaintSpan(f: seq<byte>, i: nat, v: seq<byte>)
    requires i + |v| <= |f|
    ensures Paint(f, Span(i, |v|), v) == f[..i] + v + f[i + |v|..]
    decreases |v|
  {
    if v != [] {
      var f' := f[i := v[0]];
      var i' := i + 1;
      var v' := v[1..];
      assert Span(i, |v|)[1..] == Span(i', |v'|);
      PaintSpan(f', i', v');
      assert f'[..i'] + v' + f'[i' + |v'|..] == f[..i] + v + f[i + |v|..];
    }
  }

  lemma GatherAppend(f: seq<byte>, a: seq<int>, b: seq<int>)
    requires AllIn(a, |f|) && AllIn(b, |f|)
    ensures AllIn(a + b, |f|)
    ensures Gather(f, a + b) == Gather(f, a) + Gather(f, b)
  {
  }

  lemma GatherSpan(f: seq<byte>, i: nat, c: nat)
    requires i + c <= |f|
    ensures AllIn(Span(i, c), |f|)
    ensures Gather(f, Span(i, c)) == f[i..i + c]
  {
  }

  /** The loop state of `CopyPixelRun` so far: the offsets painted and read
      (`doneT`, `doneS`), followed by what the rest of the run from cursors
      `t`, `s` paints and reads, make up the whole run (`allT`, `allS`). */
  ghost predicate RunProgress(g: Geometry, t: Pos, s: Pos, n: nat, doneT: seq<int>, doneS: seq<int>,
                              allT: seq<int>, allS: Option<seq<int>>)
    requires g.Valid()
  {
    doneT + Targets(g, t, n) == allT && Prepend(doneS, Sources(g, t, s, n)) == allS
  }

  /** A source cursor on the right edge moves to the next row before
      anything is copied; the target cursor stays. */
  lemma WrapBookkeeping(g: Geometry, t: Pos, s: Pos, n: nat, doneT: seq<int>, doneS: seq<int>,
                        allT: seq<int>, allS: Option<seq<int>>)
    requires g.Valid() && 0 < n && Index(g, t) < g.FrameSize() && 0 <= t.col < g.width && s.col == g.width
    requires RunProgress(g, t, s, n, doneT, doneS, allT, allS)
    ensures RunProgress(g, Advance(g, t, 0), Advance(g, s, 0), n - 0, doneT, doneS, allT, allS)
  {
    assert Advance(g, t, 0) == t;
  }

  /** The span a row chunk paints, appended to what the run has already
      painted, leaves the rest of the run to do. */
  lemma TargetsBookkeeping(g: Geometry, t: Pos, n: nat, c: nat, done: seq<int>)
    requires g.Valid() && 0 <= t.col && 0 < c <= n && t.col + c <= g.width
    requires Index(g, t) + c <= g.FrameSize()
    ensures done + Targets(g, t, n) == (done + Span(Index(g, t), c)) + Targets(g, Advance(g, t, c), n - c)
  {
    TargetsChunk(g, t, n, c);
  }

  /** The spans a row chunk paints and reads, appended to what the run has
      already painted and read, leave the rest of the run to do. */
  lemma ChunkBookkeeping(g: Geometry, t: Pos, s: Pos, n: nat, c: nat, doneT: seq<int>, doneS: seq<int>,
                         allT: seq<int>, allS: Option<seq<int>>)
    requires g.Valid() && 0 <= t.col && 0 < c <= n && t.col + c <= g.width && s.col + c <= g.width
    requires Index(g, t) + c <= g.FrameSize()
    requires RunProgress(g, t, s, n, doneT, doneS, allT, allS)
    ensures Prepend(doneS, Prepend(Span(Index(g, s), c), Sources(g, Advance(g, t, c), Advance(g, s, c), n - c))) == allS
    ensures RunProgress(g, Advance(g, t, c), Advance(g, s, c), n - c,
                        doneT + Span(Index(g, t), c), doneS + Span(Index(g, s), c), allT, allS)
  {
    TargetsBookkeeping(g, t, n, c, doneT);
    SourcesChunk(g, t, s, n, c);
    var rest := Sources(g, Advance(g, t, c), Advance(g, s, c), n - c);
    PrependTwice(doneS, Span(Index(g, s), c), rest);
  }

  lemma PrependNil(o: Option<seq<int>>)
    ensures Prepend([], o) == o
  {
    if o.Some? {
      assert [] + o.value == o.value;
    }
  }

  lemma SpanOutside(done: seq<int>, i: int, c: nat, rest: Option<seq<int>>, len: nat)
    requires 0 < c && (i < 0 || i + c > len)
    ensures var o := Prepend(done, Prepend(Span(i, c), rest)); !(o.Some? && AllIn(o.value, len))
  {
    var o := Prepend(done, Prepend(Span(i, c), rest));
    if o.Some? {
      var v := o.value;
      assert v == done + Span(i, c) + rest.value;
      if i < 0 {
        assert v[|done|] == i;
      } else {
        assert v[|done| + c - 1] == i + c - 1;
      }
    }
  }

  // ---------------------------------------------------------------------
  // The runs as the decoder performs them

  /** memcpy of `data` into `dst` at offset `at`. */
  method Blit(dst: array<byte>, at: nat, data: seq<byte>)
    requires at + |data| <= dst.Length
    modifies dst
    ensures dst[..] == old(dst[..])[..at] + data + old(dst[..])[at + |data|..]
  {
    forall k | 0 <= k < |data| {
      dst[at + k] := data[k];
    }
  }

  /** Writes a run of `count` literal pixels, taken in order from `pixels`,
      starting at column `x` of row `y`. It succeeds exactly when `pixels`
      holds every pixel the run paints; it then paints `Targets` with the
      first pixels of `pixels`. */
  method OutputPixelRun(plane: array<byte>, g: Geometry, pixels: seq<byte>, x: nat, y: nat, count: nat)
    returns (ok: bool)
    requires g.Valid() && plane.Length == g.FrameSize() && x < g.width
    modifies plane
    ensures ok <==> |Targets(g, Pos(y, x), count)| <= |pixels|
    ensures ok ==> plane[..] == Paint(old(plane[..]), Targets(g, Pos(y, x), count), pixels[..|Targets(g, Pos(y, x), count)|])
  {
    var width := g.width;
    var index := y * g.stride + x;
    var curX := x;
    var left: nat := count;
    var used := 0;
    ghost var t := Pos(y, x);
    ghost var done: seq<int> := [];
    while left > 0 && index < g.FrameSize()
      invariant t.col == curX && 0 <= curX < width && 0 <= index == Index(g, t)
      invariant done + Targets(g, t, left) == Targets(g, Pos(y, x), count)
      invariant used == |done| <= |pixels|
      invariant plane[..] == Paint(old(plane[..]), done, pixels[..used])
      decreases left
    {
      var c := Min(left, width - curX);
      assert 0 < c <= left;
      RowFits(g, t);
      TargetsBookkeeping(g, t, left, c, done);
      if used + c > |pixels| {
        assert |Targets(g, Pos(y, x), count)| >= used + c;
        return false;
      }
      OutputChunk(plane, index, pixels, used, c, old(plane[..]), done);
      done := done + Span(index, c);
      left := left - c;
      used := used + c;
      index, curX := MoveOn(g, index, curX, c, t);
      t := Advance(g, t, c);
    }
    assert Targets(g, t, left) == [];
    assert done == Targets(g, Pos(y, x), count);
    return true;
  }

  /** Moves a cursor, kept as a plane offset and a column, past a chunk of
      `c` pixels; on reaching the right edge it skips the stride padding to
      the start of the next row. */
  method MoveOn(g: Geometry, index: int, col: int, c: nat, ghost p: Pos) returns (index': int, col': int)
    requires g.Valid() && index == Index(g, p) && col == p.col && col + c <= g.width
    ensures index' == Index(g, Advance(g, p, c)) && col' == Advance(g, p, c).col
    ensures index <= index'
  {
    AdvanceIndex(g, p, c);
    index' := index + c;
    col' := col + c;
    if col' >= g.width {
      index' := index' + (g.stride - g.width);
      col' := 0;
    }
  }

  /** One row chunk of `OutputPixelRun`: the memcpy of `c` pixels from
      offset `used` of `pixels` to offset `ti` of `plane`, and the painted
      plane extended by that chunk. */
  method OutputChunk(plane: array<byte>, ti: nat, pixels: seq<byte>, used: nat, c: nat,
                     ghost orig: seq<byte>, ghost done: seq<int>)
    requires ti + c <= plane.Length && used + c <= |pixels| && |done| == used
    requires plane[..] == Paint(orig, done, pixels[..used])
    modifies plane
    ensures plane[..] == Paint(orig, done + Span(ti, c), pixels[..used + c])
  {
    ghost var before := plane[..];
    var chunk := pixels[used..used + c];
    Blit(plane, ti, chunk);
    PaintSpan(before, ti, chunk);
    PaintAppend(orig, done, Span(ti, c), pixels[..used], chunk);
    assert pixels[..used] + chunk == pixels[..used + c];
  }

  /** Copies a run of `count` pixels from the previous frame `prev` to
      column `x` of row `y`, reading from the same place displaced by
      (`dx`, `dy`). It succeeds exactly when the run's sources are defined
      and all lie inside the previous frame; it then paints `Targets` with
      the bytes of `prev` at `Sources`. */
  method CopyPixelRun(plane: array<byte>, prev: array<byte>, g: Geometry, x: nat, y: nat, count: nat, dx: int, dy: int)
    returns (ok: bool)
    requires plane != prev && g.Valid() && x < g.width
    requires plane.Length == g.FrameSize() && prev.Length == g.FrameSize()
    modifies plane
    ensures var src := Sources(g, Pos(y, x), Pos(y + dy, x + dx), count);
      ok <==> src.Some? && AllIn(src.value, prev.Length)
    ensures var src := Sources(g, Pos(y, x), Pos(y + dy, x + dx), count);
      ok ==> src.Some? && AllIn(src.value, prev.Length) &&
             plane[..] == Paint(old(plane[..]), Targets(g, Pos(y, x), count), Gather(prev[..], src.value))
  {
    var width := g.width;
    var curIndex := y * g.stride + x;
    var curX := x;
    var prevIndex := (y + dy) * g.stride + x + dx;
    var prevX := x + dx;
    var left: nat := count;
    ghost var t := Pos(y, x);
    ghost var s := Pos(y + dy, x + dx);
    ghost var doneT: seq<int> := [];
    ghost var doneS: seq<int> := [];
    PrependNil(Sources(g, t, s, left));
    ghost var allT, allS := Targets(g, t, count), Sources(g, t, s, count);
    while left > 0 && curIndex < g.FrameSize()
      invariant t.col == curX && 0 <= curX < width && 0 <= curIndex == Index(g, t)
      invariant s.col == prevX && prevIndex == Index(g, s)
      invariant RunProgress(g, t, s, left, doneT, doneS, allT, allS)
      invariant |doneS| == |doneT| && AllIn(doneS, prev.Length)
      invariant plane[..] == Paint(old(plane[..]), doneT, Gather(prev[..], doneS))
      decreases left, if prevX >= width then 1 else 0
    {
      var failed;
      failed, curIndex, curX, prevIndex, prevX, left, t, s, doneT, doneS :=
        CopyRunStep(plane, prev, g, curIndex, curX, prevIndex, prevX, left, t, s, doneT, doneS, old(plane[..]), allT, allS);
      if failed {
        return false;
      }
    }
    assert Targets(g, t, left) == [];
    assert Sources(g, t, s, left) == Some([]);
    assert doneT == Targets(g, Pos(y, x), count);
    assert doneS + [] == doneS;
    return true;
  }

  /** One pass of the loop of `CopyPixelRun` from the target cursor
      (`ti`, `tx`), the source cursor (`si`, `sx`) and `left` pixels to go:
      it copies the longest chunk that stays on both rows and moves both
      cursors past it, wrapping either one at the right edge. It fails when
      the source cursor lies beyond the right edge or the chunk's sources
      leave the previous frame; either way the whole run's sources are not
      all inside the previous frame. */
  method CopyRunStep(plane: array<byte>, prev: array<byte>, g: Geometry, ti: int, tx: int, si: int, sx: int, left: nat,
                     ghost t: Pos, ghost s: Pos, ghost doneT: seq<int>, ghost doneS: seq<int>,
                     ghost orig: seq<byte>, ghost allT: seq<int>, ghost allS: Option<seq<int>>)
    returns (failed: bool, ti': int, tx': int, si': int, sx': int, left': nat,
             ghost t': Pos, ghost s': Pos, ghost doneT': seq<int>, ghost doneS': seq<int>)
    requires plane != prev && g.Valid() && plane.Length == g.FrameSize() && prev.Length == g.FrameSize()
    requires left > 0 && ti < g.FrameSize()
    requires t.col == tx && 0 <= tx < g.width && 0 <= ti == Index(g, t)
    requires s.col == sx && si == Index(g, s)
    requires RunProgress(g, t, s, left, doneT, doneS, allT, allS)
    requires |doneS| == |doneT| && AllIn(doneS, prev.Length)
    requires plane[..] == Paint(orig, doneT, Gather(prev[..], doneS))
    modifies plane
    ensures failed ==> !(allS.Some? && AllIn(allS.value, prev.Length))
    ensures !failed ==>
      t'.col == tx' && 0 <= tx' < g.width && 0 <= ti' == Index(g, t') &&
      s'.col == sx' && si' == Index(g, s') &&
      RunProgress(g, t', s', left', doneT', doneS', allT, allS) &&
      |doneS'| == |doneT'| && AllIn(doneS', prev.Length) &&
      plane[..] == Paint(orig, doneT', Gather(prev[..], doneS')) &&
      (left' < left || (left' == left && sx >= g.width && sx' < g.width))
  {
    failed := false;
    if sx > g.width {
      assert Sources(g, t, s, left) == None;
      return true, ti, tx, si, sx, left, t, s, doneT, doneS;
    }
    var c := Min(Min(left, g.width - tx), g.width - sx);
    assert 0 <= c <= left;
    doneT', doneS' := doneT, doneS;
    if c == 0 {
      WrapBookkeeping(g, t, s, left, doneT, doneS, allT, allS);
    } else {
      RowFits(g, t);
      ChunkBookkeeping(g, t, s, left, c, doneT, doneS, allT, allS);
      if si < 0 || si + c > prev.Length {
        ghost var rest := Sources(g, Advance(g, t, c), Advance(g, s, c), left - c);
        SpanOutside(doneS, si, c, rest, prev.Length);
        return true, ti, tx, si, sx, left, t, s, doneT, doneS;
      }
      CopyChunk(plane, prev, ti, si, c, orig, doneT, doneS);
      doneT' := doneT + Span(ti, c);
      doneS' := doneS + Span(si, c);
    }
    left' := left - c;
    ti', tx' := MoveOn(g, ti, tx, c, t);
    si', sx' := MoveOn(g, si, sx, c, s);
    t' := Advance(g, t, c);
    s' := Advance(g, s, c);
  }

  /** One row chunk of `CopyPixelRun`: the memcpy of `c` bytes from offset
      `si` of `prev` to offset `ti` of `plane`, and the painted plane
      extended by that chunk. */
  method CopyChunk(plane: array<byte>, prev: array<byte>, ti: nat, si: nat, c: nat,
                   ghost orig: seq<byte>, ghost doneT: seq<int>, ghost doneS: seq<int>)
    requires plane != prev && ti + c <= plane.Length && si + c <= prev.Length
    requires |doneS| == |doneT| && AllIn(doneS, prev.Length)
    requires plane[..] == Paint(orig, doneT, Gather(prev[..], doneS))
    modifies plane
    ensures AllIn(doneS + Span(si, c), prev.Length)
    ensures plane[..] == Paint(orig, doneT + Span(ti, c), Gather(prev[..], doneS + Span(si, c)))
  {
    ghost var before := plane[..];
    var chunk := prev[si..si + c];
    Blit(plane, ti, chunk);
    PaintSpan(before, ti, chunk);
    GatherSpan(prev[..], si, c);
    GatherAppend(prev[..], doneS, Span(si, c));
    PaintAppend(orig, doneT, Span(ti, c), Gather(prev[..], doneS), chunk);
  }
}
