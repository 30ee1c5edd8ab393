/** The palette side of the Xan decoder's packet handling: the gamma table,
    the packing of one gamma-corrected colour into a palette entry, and the
    scan over the tagged chunks (`PALT`, `SHOT`, `VGA `) that precede the
    picture data of a Wing Commander III packet. */
module XanPalette {
  import opened Bytes

  /** Colours per palette and bytes per `PALT` payload. */
  const PALETTE_COUNT: nat := 256
  const PALETTE_SIZE: nat := 768
  /** The most palettes a stream may define. */
  const PALETTES_MAX: nat := 256

  /** Chunk tags as `bytestream_get_le32` reads them (MKTAG of the four
      characters). */
  const VGA_TAG: nat := 0x2041_4756   // 'V' 'G' 'A' ' '
  const PALT_TAG: nat := 0x544C_4150  // 'P' 'A' 'L' 'T'
  const SHOT_TAG: nat := 0x544F_4853  // 'S' 'H' 'O' 'T'

  /** The game's gamma curve (gamma_lookup): the corrected value of a colour
      component. The 256 entries are split over four quarters of 64. */
  function Gamma(v: byte): byte
  {
    if v < 0x40 then Gamma0(v)
    else if v < 0x80 then Gamma1(v)
    else if v < 0xC0 then Gamma2(v)
    else Gamma3(v)
  }

  function Gamma0(v: byte): byte
    requires v < 0x40
  {
    match v
    case 0x00 => 0x00 case 0x01 => 0x09 case 0x02 => 0x10 case 0x03 => 0x16 case 0x04 => 0x1C case 0x05 => 0x21 case 0x06 => 0x27 case 0x07 => 0x2C
    case 0x08 => 0x31 case 0x09 => 0x35 case 0x0A => 0x3A case 0x0B => 0x3F case 0x0C => 0x43 case 0x0D => 0x48 case 0x0E => 0x4C case 0x0F => 0x50
    case 0x10 => 0x54 case 0x11 => 0x59 case 0x12 => 0x5D case 0x13 => 0x61 case 0x14 => 0x65 case 0x15 => 0x69 case 0x16 => 0x6D case 0x17 => 0x71
    case 0x18 => 0x75 case 0x19 => 0x79 case 0x1A => 0x7D case 0x1B => 0x80 case 0x1C => 0x84 case 0x1D => 0x88 case 0x1E => 0x8C case 0x1F => 0x8F
    case 0x20 => 0x93 case 0x21 => 0x97 case 0x22 => 0x9A case 0x23 => 0x9E case 0x24 => 0xA2 case 0x25 => 0xA5 case 0x26 => 0xA9 case 0x27 => 0xAC
    case 0x28 => 0xB0 case 0x29 => 0xB3 case 0x2A => 0xB7 case 0x2B => 0xBA case 0x2C => 0xBE case 0x2D => 0xC1 case 0x2E => 0xC5 case 0x2F => 0xC8
    case 0x30 => 0xCB case 0x31 => 0xCF case 0x32 => 0xD2 case 0x33 => 0xD5 case 0x34 => 0xD9 case 0x35 => 0xDC case 0x36 => 0xDF case 0x37 => 0xE3
    case 0x38 => 0xE6 case 0x39 => 0xE9 case 0x3A => 0xED case 0x3B => 0xF0 case 0x3C => 0xF3 case 0x3D => 0xF6 case 0x3E => 0xFA case _ /* 0x3F */ => 0xFD
  }

  function Gamma1(v: byte): byte
    requires 0x40 <= v < 0x80
  {
    match v
    case 0x40 => 0x03 case 0x41 => 0x0B case 0x42 => 0x12 case 0x43 => 0x18 case 0x44 => 0x1D case 0x45 => 0x23 case 0x46 => 0x28 case 0x47 => 0x2D
    case 0x48 => 0x32 case 0x49 => 0x36 case 0x4A => 0x3B case 0x4B => 0x40 case 0x4C => 0x44 case 0x4D => 0x49 case 0x4E => 0x4D case 0x4F => 0x51
    case 0x50 => 0x56 case 0x51 => 0x5A case 0x52 => 0x5E case 0x53 => 0x62 case 0x54 => 0x66 case 0x55 => 0x6A case 0x56 => 0x6E case 0x57 => 0x72
    case 0x58 => 0x76 case 0x59 => 0x7A case 0x5A => 0x7D case 0x5B => 0x81 case 0x5C => 0x85 case 0x5D => 0x89 case 0x5E => 0x8D case 0x5F => 0x90
    case 0x60 => 0x94 case 0x61 => 0x98 case 0x62 => 0x9B case 0x63 => 0x9F case 0x64 => 0xA2 case 0x65 => 0xA6 case 0x66 => 0xAA case 0x67 => 0xAD
    case 0x68 => 0xB1 case 0x69 => 0xB4 case 0x6A => 0xB8 case 0x6B => 0xBB case 0x6C => 0xBF case 0x6D => 0xC2 case 0x6E => 0xC5 case 0x6F => 0xC9
    case 0x70 => 0xCC case 0x71 => 0xD0 case 0x72 => 0xD3 case 0x73 => 0xD6 case 0x74 => 0xDA case 0x75 => 0xDD case 0x76 => 0xE0 case 0x77 => 0xE4
    case 0x78 => 0xE7 case 0x79 => 0xEA case 0x7A => 0xED case 0x7B => 0xF1 case 0x7C => 0xF4 case 0x7D => 0xF7 case 0x7E => 0xFA case _ /* 0x7F */ => 0xFD
  }

  function Gamma2(v: byte): byte
    requires 0x80 <= v < 0xC0
  {
    match v
    case 0x80 => 0x05 case 0x81 => 0x0D case 0x82 => 0x13 case 0x83 => 0x19 case 0x84 => 0x1F case 0x85 => 0x24 case 0x86 => 0x29 case 0x87 => 0x2E
    case 0x88 => 0x33 case 0x89 => 0x38 case 0x8A => 0x3C case 0x8B => 0x41 case 0x8C => 0x45 case 0x8D => 0x4A case 0x8E => 0x4E case 0x8F => 0x52
    case 0x90 => 0x57 case 0x91 => 0x5B case 0x92 => 0x5F case 0x93 => 0x63 case 0x94 => 0x67 case 0x95 => 0x6B case 0x96 => 0x6F case 0x97 => 0x73
    case 0x98 => 0x77 case 0x99 => 0x7B case 0x9A => 0x7E case 0x9B => 0x82 case 0x9C => 0x86 case 0x9D => 0x8A case 0x9E => 0x8D case 0x9F => 0x91
    case 0xA0 => 0x95 case 0xA1 => 0x99 case 0xA2 => 0x9C case 0xA3 => 0xA0 case 0xA4 => 0xA3 case 0xA5 => 0xA7 case 0xA6 => 0xAA case 0xA7 => 0xAE
    case 0xA8 => 0xB2 case 0xA9 => 0xB5 case 0xAA => 0xB9 case 0xAB => 0xBC case 0xAC => 0xBF case 0xAD => 0xC3 case 0xAE => 0xC6 case 0xAF => 0xCA
    case 0xB0 => 0xCD case 0xB1 => 0xD0 case 0xB2 => 0xD4 case 0xB3 => 0xD7 case 0xB4 => 0xDA case 0xB5 => 0xDE case 0xB6 => 0xE1 case 0xB7 => 0xE4
    case 0xB8 => 0xE8 case 0xB9 => 0xEB case 0xBA => 0xEE case 0xBB => 0xF1 case 0xBC => 0xF5 case 0xBD => 0xF8 case 0xBE => 0xFB case _ /* 0xBF */ => 0xFD
  }

  function Gamma3(v: byte): byte
    requires 0xC0 <= v
  {
    match v
    case 0xC0 => 0x07 case 0xC1 => 0x0E case 0xC2 => 0x15 case 0xC3 => 0x1A case 0xC4 => 0x20 case 0xC5 => 0x25 case 0xC6 => 0x2A case 0xC7 => 0x2F
    case 0xC8 => 0x34 case 0xC9 => 0x39 case 0xCA => 0x3D case 0xCB => 0x42 case 0xCC => 0x46 case 0xCD => 0x4B case 0xCE => 0x4F case 0xCF => 0x53
    case 0xD0 => 0x58 case 0xD1 => 0x5C case 0xD2 => 0x60 case 0xD3 => 0x64 case 0xD4 => 0x68 case 0xD5 => 0x6C case 0xD6 => 0x70 case 0xD7 => 0x74
    case 0xD8 => 0x78 case 0xD9 => 0x7C case 0xDA => 0x7F case 0xDB => 0x83 case 0xDC => 0x87 case 0xDD => 0x8B case 0xDE => 0x8E case 0xDF => 0x92
    case 0xE0 => 0x96 case 0xE1 => 0x99 case 0xE2 => 0x9D case 0xE3 => 0xA1 case 0xE4 => 0xA4 case 0xE5 => 0xA8 case 0xE6 => 0xAB case 0xE7 => 0xAF
    case 0xE8 => 0xB2 case 0xE9 => 0xB6 case 0xEA => 0xB9 case 0xEB => 0xBD case 0xEC => 0xC0 case 0xED => 0xC4 case 0xEE => 0xC7 case 0xEF => 0xCB
    case 0xF0 => 0xCE case 0xF1 => 0xD1 case 0xF2 => 0xD5 case 0xF3 => 0xD8 case 0xF4 => 0xDB case 0xF5 => 0xDF case 0xF6 => 0xE2 case 0xF7 => 0xE5
    case 0xF8 => 0xE9 case 0xF9 => 0xEC case 0xFA => 0xEF case 0xFB => 0xF2 case 0xFC => 0xF6 case 0xFD => 0xF9 case 0xFE => 0xFC case _ /* 0xFF */ => 0xFD
  }

  /** A palette: one packed `0xRRGGBB` entry per colour. */
  type Palette = seq<nat>

  /** `(r << 16) | (g << 8) | b`: the three components of a colour in one
      palette entry, each recoverable from it. */
  function PackRGB(r: byte, g: byte, b: byte): (p: nat)
    ensures p < 0x100_0000
    ensures p / 0x1_0000 == r && (p / 0x100) % 0x100 == g && p % 0x100 == b
  {
    var gb := g * 0x100 + b;
    assert gb / 0x100 == g && gb % 0x100 == b;
    var p := r * 0x1_0000 + gb;
    assert p / 0x100 == r * 0x100 + g;
    p
  }

  /** The palette entry for colour `k` of the component triples in `rgb`,
      each component passed through the gamma curve. */
  function Colour(rgb: seq<byte>, k: nat): nat
    requires 3 * k + 3 <= |rgb|
  {
    PackRGB(Gamma(rgb[3 * k]), Gamma(rgb[3 * k + 1]), Gamma(rgb[3 * k + 2]))
  }

  /** The palette a `PALT` payload of 768 bytes defines. */
  function GammaPalette(rgb: seq<byte>): (pal: Palette)
    requires |rgb| == PALETTE_SIZE
  {
    seq(PALETTE_COUNT, k requires 0 <= k < PALETTE_COUNT => Colour(rgb, k))
  }

  /** Each entry of a `PALT` palette holds the gamma-corrected red, green
      and blue components of its triple, recoverable from the entry. */
  lemma PaletteChannels(rgb: seq<byte>, k: nat)
    requires |rgb| == PALETTE_SIZE && k < PALETTE_COUNT
    ensures var e := GammaPalette(rgb)[k];
      e < 0x100_0000 &&
      e / 0x1_0000 == Gamma(rgb[3 * k]) && (e / 0x100) % 0x100 == Gamma(rgb[3 * k + 1]) &&
      e % 0x100 == Gamma(rgb[3 * k + 2])
  {
  }

  /** The loop of the `PALT` case: 256 component triples from `pkt` at
      `at`, each gamma-corrected and packed. */
  method ReadPalette(pkt: seq<byte>, at: nat) returns (pal: Palette)
    requires at + PALETTE_SIZE <= |pkt|
    ensures pal == GammaPalette(pkt[at..at + PALETTE_SIZE])
  {
    ghost var rgb := pkt[at..at + PALETTE_SIZE];
    ghost var full := GammaPalette(rgb);
    pal := [];
    var src := at;
    for i := 0 to PALETTE_COUNT
      invariant src == at + 3 * i
      invariant |pal| == i && forall k :: 0 <= k < i ==> pal[k] == full[k]
    {
      var r := Gamma(pkt[src]);
      var g := Gamma(pkt[src + 1]);
      var b := Gamma(pkt[src + 2]);
      assert full[i] == PackRGB(r, g, b) by {
        assert rgb[3 * i] == pkt[src] && rgb[3 * i + 1] == pkt[src + 1] && rgb[3 * i + 2] == pkt[src + 2];
      }
      src := src + 3;
      pal := pal + [PackRGB(r, g, b)];
    }
    assert pal == full;
  }

  // ---------------------------------------------------------------------
  // The chunk scan

  /** Why the scan rejected a packet (all AVERROR_INVALIDDATA in the
      decoder); `Complete` when it ran to its end. */
  datatype ScanStatus = Complete | ShortPalette | TooManyPalettes | ShortShot | NegativeSize

  /** One pass of the scan loop: the state it leaves for the next pass, or
      the error it returns. */
  datatype Step = Continue(pos: int, palettes: seq<Palette>, cur: nat, tag: nat) | Stop(status: ScanStatus)

  /** What the chunk with tag `tag`, whose (clamped) size is `size` and
      whose payload starts at `at`, does to the palette set `pals` and the
      selection `cur`. */
  function ChunkEffect(pkt: seq<byte>, tag: nat, at: nat, size: int, pals: seq<Palette>, cur: nat): Step
    requires at <= |pkt| && size <= |pkt| - at
  {
    if tag == PALT_TAG then
      if size < PALETTE_SIZE then Stop(ShortPalette)
      else if |pals| >= PALETTES_MAX then Stop(TooManyPalettes)
      else Continue(at + PALETTE_SIZE, pals + [GammaPalette(pkt[at..at + PALETTE_SIZE])], cur, tag)
    else if tag == SHOT_TAG then
      if size < 4 then Stop(ShortShot)
      else
        var n := LE32(pkt, at);
        Continue(at + 4, pals, if n < |pals| then n else cur, tag)
    else if tag == VGA_TAG then Continue(at, pals, cur, tag)
    else Continue(at + size, pals, cur, tag)
  }

  /** One pass of the scan loop as the decoder writes it: the big-endian
      size lands in a signed `int`, so a size of 2^31 or more is negative
      and the clamp to the remaining bytes leaves it negative. */
  function StepAsWritten(pkt: seq<byte>, pos: nat, pals: seq<Palette>, cur: nat): Step
    requires pos + 8 < |pkt|
  {
    var at := pos + 8;
    var size := ToInt32(BE32(pkt, pos + 4));
    ChunkEffect(pkt, LE32(pkt, pos), at, Min(size, |pkt| - at), pals, cur)
  }

  /** One pass of the scan loop with negative sizes rejected: every pass
      that goes on moves past the chunk header and stays in the packet. */
  function ScanStep(pkt: seq<byte>, pos: nat, pals: seq<Palette>, cur: nat): (r: Step)
    requires pos + 8 < |pkt|
    ensures r.Continue? ==> pos + 8 <= r.pos <= |pkt|
  {
    if ToInt32(BE32(pkt, pos + 4)) < 0 then Stop(NegativeSize)
    else StepAsWritten(pkt, pos, pals, cur)
  }

  /** Where a scan ends: its status, the position of the picture data,
      the palette set, the selected palette and the last tag read. */
  datatype ScanResult = ScanResult(status: ScanStatus, pos: nat, palettes: seq<Palette>, cur: nat, tag: nat)

  /** The scan loop from `pos`, after a chunk tagged `tag`: it goes on
      while more than 8 bytes remain and the last tag was not `VGA `. */
  function Scan(pkt: seq<byte>, pos: nat, pals: seq<Palette>, cur: nat, tag: nat): (r: ScanResult)
    requires pos <= |pkt|
    ensures pos <= r.pos <= |pkt|
    ensures r.status == Complete ==> |pkt| - r.pos <= 8 || r.tag == VGA_TAG
    decreases |pkt| - pos
  {
    if |pkt| - pos <= 8 || tag == VGA_TAG then ScanResult(Complete, pos, pals, cur, tag)
    else
      match ScanStep(pkt, pos, pals, cur)
      case Stop(s) => ScanResult(s, pos, pals, cur, tag)
      case Continue(p, ps, c, t) => Scan(pkt, p, ps, c, t)
  }

  /** A consistent palette set: at most 256 palettes of 256 colours each,
      and a selection that names one of them (or is the initial 0). */
  predicate PaletteSet(pals: seq<Palette>, cur: nat)
  {
    |pals| <= PALETTES_MAX && (forall p :: p in pals ==> |p| == PALETTE_COUNT) && (cur == 0 || cur < |pals|)
  }

  /** One chunk only appends a palette of 256 colours, never beyond 256
      palettes, and only selects an existing palette. */
  lemma ChunkKeepsPaletteSet(pkt: seq<byte>, tag: nat, at: nat, size: int, pals: seq<Palette>, cur: nat)
    requires at <= |pkt| && size <= |pkt| - at && PaletteSet(pals, cur)
    ensures var r := ChunkEffect(pkt, tag, at, size, pals, cur);
      r.Continue? ==> PaletteSet(r.palettes, r.cur) && pals <= r.palettes
  {
    if tag == PALT_TAG && size >= PALETTE_SIZE && |pals| < PALETTES_MAX {
      var np := GammaPalette(pkt[at..at + PALETTE_SIZE]);
      var ps := pals + [np];
      forall q | q in ps
        ensures |q| == PALETTE_COUNT
      {
        if q !in pals {
          assert q == np;
        }
      }
    }
  }

  /** The scan only appends palettes, never more than 256, and keeps the
      selection on an existing palette. */
  lemma {:induction false} ScanKeepsPaletteSet(pkt: seq<byte>, pos: nat, pals: seq<Palette>, cur: nat, tag: nat)
    requires pos <= |pkt| && PaletteSet(pals, cur)
    ensures var r := Scan(pkt, pos, pals, cur, tag);
      PaletteSet(r.palettes, r.cur) && pals <= r.palettes
    decreases |pkt| - pos
  {
    if |pkt| - pos > 8 && tag != VGA_TAG {
      var at := pos + 8;
      var size := Min(ToInt32(BE32(pkt, pos + 4)), |pkt| - at);
      ChunkKeepsPaletteSet(pkt, LE32(pkt, pos), at, size, pals, cur);
      match ScanStep(pkt, pos, pals, cur)
      case Stop(s) =>
      case Continue(p, ps, c, t) =>
        ScanKeepsPaletteSet(pkt, p, ps, c, t);
    }
  }

  // ---------------------------------------------------------------------
  // Writing chunks: the inverse of the scan

  /** A chunk a packet may carry before its picture data. */
  datatype Chunk = PaletteChunk(rgb: seq<byte>) | ShotChunk(index: nat) | OtherChunk(tag: nat, body: seq<byte>)

  predicate WellFormed(c: Chunk)
  {
    match c
    case PaletteChunk(rgb) => |rgb| == PALETTE_SIZE
    case ShotChunk(n) => n < 0x1_0000_0000
    case OtherChunk(t, body) =>
      t < 0x1_0000_0000 && t != PALT_TAG && t != SHOT_TAG && t != VGA_TAG && |body| < 0x8000_0000
  }

  /** The four bytes `bytestream_get_be32` reads back as `n`. */
  function BE32Bytes(n: nat): (r: seq<byte>)
    requires n < 0x1_0000_0000
    ensures |r| == 4 && BE32(r, 0) == n
  {
    var top := n / 0x1_0000;
    var r := [top / 0x100, top % 0x100, (n / 0x100) % 0x100, n % 0x100];
    assert BE16(r, 0) == top;
    assert BE24(r, 0) == n / 0x100;
    r
  }

  /** A chunk as it appears in a packet: tag, big-endian size, payload. */
  function EncodeChunk(c: Chunk): (r: seq<byte>)
    requires WellFormed(c)
  {
    match c
    case PaletteChunk(rgb) => LE32Bytes(PALT_TAG) + BE32Bytes(PALETTE_SIZE) + rgb
    case ShotChunk(n) => LE32Bytes(SHOT_TAG) + BE32Bytes(4) + LE32Bytes(n)
    case OtherChunk(t, body) => LE32Bytes(t) + BE32Bytes(|body|) + body
  }

  function Encode(cs: seq<Chunk>): seq<byte>
    requires forall c :: c in cs ==> WellFormed(c)
  {
    if cs == [] then [] else EncodeChunk(cs[0]) + Encode(cs[1..])
  }

  /** The header of the `VGA ` chunk that ends the scan. */
  function VgaHeader(size: nat): seq<byte>
    requires size < 0x8000_0000
  {
    LE32Bytes(VGA_TAG) + BE32Bytes(size)
  }

  /** How many palettes the chunks define. */
  function PaletteChunks(cs: seq<Chunk>): nat
  {
    if cs == [] then 0 else (if cs[0].PaletteChunk? then 1 else 0) + PaletteChunks(cs[1..])
  }

  /** The meaning of one chunk, independent of any byte layout: a palette
      chunk appends its gamma-corrected palette and a shot chunk selects an
      existing palette. */
  function ApplyChunk(c: Chunk, pals: seq<Palette>, cur: nat): (seq<Palette>, nat)
    requires WellFormed(c)
  {
    match c
    case PaletteChunk(rgb) => (pals + [GammaPalette(rgb)], cur)
    case ShotChunk(n) => (pals, if n < |pals| then n else cur)
    case OtherChunk(_, _) => (pals, cur)
  }

  /** The meaning of a run of chunks, one after the other. */
  function Apply(cs: seq<Chunk>, pals: seq<Palette>, cur: nat): (seq<Palette>, nat)
    requires forall c :: c in cs ==> WellFormed(c)
  {
    if cs == [] then (pals, cur)
    else
      assert WellFormed(cs[0]) by { assert cs[0] in cs; }
      var (ps, c) := ApplyChunk(cs[0], pals, cur);
      Apply(cs[1..], ps, c)
  }

  /** Reading a little-endian word that sits at `pos`. */
  lemma ReadLE32(pkt: seq<byte>, pos: nat, n: nat)
    requires n < 0x1_0000_0000 && pos + 4 <= |pkt| && pkt[pos..pos + 4] == LE32Bytes(n)
    ensures LE32(pkt, pos) == n
  {
    var w := LE32Bytes(n);
    assert pkt[pos] == w[0] && pkt[pos + 1] == w[1] && pkt[pos + 2] == w[2] && pkt[pos + 3] == w[3];
  }

  /** Reading a big-endian word that sits at `pos`. */
  lemma ReadBE32(pkt: seq<byte>, pos: nat, n: nat)
    requires n < 0x1_0000_0000 && pos + 4 <= |pkt| && pkt[pos..pos + 4] == BE32Bytes(n)
    ensures BE32(pkt, pos) == n
  {
    var w := BE32Bytes(n);
    assert pkt[pos] == w[0] && pkt[pos + 1] == w[1] && pkt[pos + 2] == w[2] && pkt[pos + 3] == w[3];
  }

  /** The parts of a chunk that starts at `pos`. */
  lemma ChunkParts(pkt: seq<byte>, pos: nat, chunk: seq<byte>, tag: seq<byte>, size: seq<byte>, body: seq<byte>,
                   rest: seq<byte>)
    requires |tag| == 4 && |size| == 4 && chunk == tag + size + body
    requires pos <= |pkt| && pkt[pos..] == chunk + rest
    ensures pos + 8 + |body| + |rest| == |pkt|
    ensures pkt[pos..pos + 4] == tag && pkt[pos + 4..pos + 8] == size
    ensures pkt[pos + 8..pos + 8 + |body|] == body && pkt[pos + 8 + |body|..] == rest
  {
    var s := pkt[pos..];
    assert |s| == |pkt| - pos;
    assert pkt[pos..pos + 4] == s[..4];
    assert pkt[pos + 4..pos + 8] == s[4..8];
    assert pkt[pos + 8..pos + 8 + |body|] == s[8..8 + |body|];
    assert pkt[pos + 8 + |body|..] == s[8 + |body|..];
  }

  /** The first chunk of an encoded run, split from the rest. */
  lemma EncodeFirst(cs: seq<Chunk>, tail: seq<byte>)
    requires cs != [] && forall c :: c in cs ==> WellFormed(c)
    ensures WellFormed(cs[0]) && (forall c :: c in cs[1..] ==> WellFormed(c))
    ensures Encode(cs) + tail == EncodeChunk(cs[0]) + (Encode(cs[1..]) + tail)
  {
    assert cs[0] in cs;
    forall c | c in cs[1..]
      ensures WellFormed(c)
    {
      assert c in cs;
    }
  }

  /** The scan reads back what `Encode` wrote: a packet made of well-formed
      chunks, a `VGA ` header and at least one byte of picture data leaves
      the scan complete at the picture data, with the palettes and the
      selection the chunks mean. */
  lemma ScanEncoded(cs: seq<Chunk>, pals: seq<Palette>, cur: nat, vgaSize: nat, picture: seq<byte>)
    requires forall c :: c in cs ==> WellFormed(c)
    requires |pals| + PaletteChunks(cs) <= PALETTES_MAX && vgaSize < 0x8000_0000 && |picture| > 0
    ensures var pkt := Encode(cs) + (VgaHeader(vgaSize) + picture);
      var (ps, c) := Apply(cs, pals, cur);
      Scan(pkt, 0, pals, cur, 0) == ScanResult(Complete, |pkt| - |picture|, ps, c, VGA_TAG)
  {
    var pkt := Encode(cs) + (VgaHeader(vgaSize) + picture);
    assert pkt[0..] == pkt;
    ScanEncodedAt(pkt, 0, cs, pals, cur, 0, vgaSize, picture);
  }

  lemma {:induction false} ScanEncodedAt(pkt: seq<byte>, pos: nat, cs: seq<Chunk>, pals: seq<Palette>, cur: nat,
                                         tag: nat, vgaSize: nat, picture: seq<byte>)
    requires forall c :: c in cs ==> WellFormed(c)
    requires |pals| + PaletteChunks(cs) <= PALETTES_MAX && vgaSize < 0x8000_0000 && |picture| > 0
    requires tag != VGA_TAG && pos <= |pkt| && pkt[pos..] == Encode(cs) + (VgaHeader(vgaSize) + picture)
    ensures var (ps, c) := Apply(cs, pals, cur);
      Scan(pkt, pos, pals, cur, tag) == ScanResult(Complete, |pkt| - |picture|, ps, c, VGA_TAG)
    decreases |cs|
  {
    if cs == [] {
      ScanAtVga(pkt, pos, pals, cur, tag, vgaSize, picture);
    } else {
      var c := cs[0];
      var rest := cs[1..];
      var after := Encode(rest) + (VgaHeader(vgaSize) + picture);
      EncodeFirst(cs, VgaHeader(vgaSize) + picture);
      assert pkt[pos..] == EncodeChunk(c) + after;
      StepOverChunk(pkt, pos, c, after, pals, cur);
      var step := ScanStep(pkt, pos, pals, cur);
      assert Scan(pkt, pos, pals, cur, tag) == Scan(pkt, step.pos, step.palettes, step.cur, step.tag);
      ScanEncodedAt(pkt, step.pos, rest, step.palettes, step.cur, step.tag, vgaSize, picture);
    }
  }

  /** The scan stops right after the `VGA ` header. */
  lemma ScanAtVga(pkt: seq<byte>, pos: nat, pals: seq<Palette>, cur: nat, tag: nat, vgaSize: nat, picture: seq<byte>)
    requires vgaSize < 0x8000_0000 && |picture| > 0
    requires tag != VGA_TAG && pos <= |pkt| && pkt[pos..] == VgaHeader(vgaSize) + picture
    ensures Scan(pkt, pos, pals, cur, tag) == ScanResult(Complete, |pkt| - |picture|, pals, cur, VGA_TAG)
  {
    var vga := LE32Bytes(VGA_TAG);
    var sz := BE32Bytes(vgaSize);
    assert pkt[pos..] == VgaHeader(vgaSize) + [] + picture;
    ChunkParts(pkt, pos, VgaHeader(vgaSize) + [], vga, sz, [], picture);
    ReadLE32(pkt, pos, VGA_TAG);
    ReadBE32(pkt, pos + 4, vgaSize);
    assert ScanStep(pkt, pos, pals, cur) == Continue(pos + 8, pals, cur, VGA_TAG);
  }

  /** One pass of the scan over an encoded chunk followed by more than 8
      bytes: it moves past the chunk and has the chunk's meaning. */
  lemma StepOverChunk(pkt: seq<byte>, pos: nat, c: Chunk, after: seq<byte>, pals: seq<Palette>, cur: nat)
    requires WellFormed(c) && (c.PaletteChunk? ==> |pals| < PALETTES_MAX) && |after| > 8
    requires pos <= |pkt| && pkt[pos..] == EncodeChunk(c) + after
    ensures pos + 8 < |pkt| && pos + |EncodeChunk(c)| <= |pkt|
    ensures var r := ScanStep(pkt, pos, pals, cur);
      r.Continue? && r.pos == pos + |EncodeChunk(c)| && r.tag != VGA_TAG &&
      (r.palettes, r.cur) == ApplyChunk(c, pals, cur) &&
      pkt[r.pos..] == after
  {
    match c
    case PaletteChunk(rgb) =>
      ChunkParts(pkt, pos, EncodeChunk(c), LE32Bytes(PALT_TAG), BE32Bytes(PALETTE_SIZE), rgb, after);
      ReadLE32(pkt, pos, PALT_TAG);
      ReadBE32(pkt, pos + 4, PALETTE_SIZE);
    case ShotChunk(n) =>
      ChunkParts(pkt, pos, EncodeChunk(c), LE32Bytes(SHOT_TAG), BE32Bytes(4), LE32Bytes(n), after);
      ReadLE32(pkt, pos, SHOT_TAG);
      ReadBE32(pkt, pos + 4, 4);
      ReadLE32(pkt, pos + 8, n);
    case OtherChunk(other, body) =>
      ChunkParts(pkt, pos, EncodeChunk(c), LE32Bytes(other), BE32Bytes(|body|), body, after);
      ReadLE32(pkt, pos, other);
      ReadBE32(pkt, pos + 4, |body|);
  }

  /** A chunk whose size field reads 0xFFFFFFF8 (-8 as a signed `int`)
      sends the scan as written back to the same chunk header, so the loop
      never ends; the scan with negative sizes rejected stops there. */
  lemma NegativeSizeRevisitsChunk(pals: seq<Palette>, cur: nat)
    ensures var pkt: seq<byte> := [0x4A, 0x55, 0x4E, 0x4B, 0xFF, 0xFF, 0xFF, 0xF8, 0, 0, 0, 0];
      StepAsWritten(pkt, 0, pals, cur) == Continue(0, pals, cur, 0x4B4E_554A) &&
      ScanStep(pkt, 0, pals, cur) == Stop(NegativeSize)
  {
    var pkt: seq<byte> := [0x4A, 0x55, 0x4E, 0x4B, 0xFF, 0xFF, 0xFF, 0xF8, 0, 0, 0, 0];
    assert LE32(pkt, 0) == 0x4B4E_554A;
    assert BE32(pkt, 4) == 0xFFFF_FFF8;
  }
}
