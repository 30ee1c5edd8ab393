# Xan video decoder, raw video codec and output helpers of an early FFmpeg

This project is a Dafny model of three parts of an early FFmpeg tree.

- **The Wing Commander III "Xan" video decoder** (`libavcodec/xan.c`):
  - the tree-table opcode decoder;
  - the LZ-style unpacker;
  - the two pixel-run painters;
  - the opcode-driven frame reconstruction loop;
  - the tagged chunk scan that collects gamma-corrected palettes and selects one;
  - the per-packet entry point that swaps the new frame in as the reference for the next one.
- **The format and output helpers of `formats.c`**:
  - the `strstart` prefix test;
  - the format and encoder registries;
  - the scoring search of `guess_format`;
  - the buffered byte writer `PutByteContext`, with its flush accounting, seek and little-endian writers.
- **The raw video codec** (`libavcodec/raw.c`):
  - the fourcc lookup;
  - the frame accumulation of `raw_decode`;
  - the plane packing of `raw_encode`.

## How the model is built

Code that changes state step by step stays imperative. The model keeps
the buffers as `array<byte>`, keeps the contexts as classes, and keeps the
loops as loops.

Each such method is proved against a specification function on values. Two
examples:

- `DecodeFrame` is tied to `Scan` and `Wc3Frame`.
- `PutBuffer` is tied to `PutBytes`.

The properties the source promises are proved as lemmas about those
functions.

Every read the Xan decoder makes from its packet streams without a bounds
check becomes an explicit failure status rather than a requirement on the
caller. Examples are `OutOfBits`, `SrcOverrun`, `SizeOverrun` and
`BadMotion`. `raw_encode` is different: its unchecked reads of the input
planes become the requirement `PictureFits`, together with the picture
fitting the declared `size`.

A C string is modelled as the characters before its NUL, and a NULL pointer
as `None`. The `write_packet` and `write_seek` callbacks are recorded as a
log of the calls they receive.

Files:

- `bytes.dfy`: the byte type, `Option`, and big- and little-endian reads and writes.
- `xan_huffman.dfy`, `xan_unpack.dfy`, `xan_pixels.dfy`, `xan_frame.dfy`, `xan_palette.dfy`, `xan_decoder.dfy`: the Xan decoder.
- `formats_registry.dfy`: `strstart`, the registries and `guess_format`.
- `put_byte.dfy`: `PutByteContext`.
- `raw_codec.dfy`: the raw video codec.

## Model

| member | source | states |
|---|---|---|
| XanHuffman.Root | libavcodec/xan.c:99-102 | the root node `N + 0x16` is held in an unsigned char: for N > 0xE9 it wraps below the stop value |
| XanHuffman.HuffmanDecode | libavcodec/xan.c:96-120 | the loop writes exactly the symbols `Decode` gives, stops at the stop node, a full destination, or an out-of-segment read, and leaves the rest of the destination untouched |
| XanHuffman.DecodeBounded | libavcodec/xan.c:108-117 | at most `dest_len` bytes come out, and every one is a symbol below 0x16 |
| XanHuffman.RunAppends | libavcodec/xan.c:108-117 | each pass only appends symbols below 0x16 to what was already written, within the capacity |
| XanHuffman.CodewordEmits | libavcodec/xan.c:108-116 | following a codeword's bits from a node to a symbol emits that symbol and restarts at the root after exactly that many bits |
| XanHuffman.StopCodewordEnds | libavcodec/xan.c:108-119 | a path to the value 0x16 ends decoding with nothing more emitted |
| XanHuffman.EncodedSymbolsDecode | libavcodec/xan.c:96-120 | a bitstream made of the codewords of a symbol string, followed by a stop codeword, decodes to exactly that string |
| XanHuffman.EmptyTableDecodesNothing | libavcodec/xan.c:99-108 | N = 0 makes the root the stop value: nothing is decoded |
| XanHuffman.WrappedRootIndexesBeforeTable | libavcodec/xan.c:100-109 | with the wrapped root (N >= 0xEA) a 0 bit indexes before the table, which the model reports as `BadIndex` |
| XanHuffman.OneEntryTableExample | libavcodec/xan.c:96-120 | a concrete one-entry table decodes `[1, 2, 1]` and stops when the destination is full |
| XanUnpack.ParseControl | libavcodec/xan.c:134-166 | a control byte is decoded into its family, literal length, back distance and back length, using no more bytes than the source has |
| XanUnpack.ParseEncoded | libavcodec/xan.c:136-166 | round trip: every encodable control, written out and followed by anything, parses back to itself in all four families |
| XanUnpack.BackCopy | libavcodec/xan.c:162-163 | the back-reference copy extends the output by exactly its length |
| XanUnpack.BackCopyAt | libavcodec/xan.c:162 | each copied byte equals the byte `back` positions before it, including bytes the copy itself wrote |
| XanUnpack.BackCopyRepeats | libavcodec/xan.c:162 | `back = 1` repeats the preceding byte n times |
| XanUnpack.BackCopyDisjoint | libavcodec/xan.c:162 | a copy no longer than its distance is a plain copy of earlier output |
| XanUnpack.OverlapExample | libavcodec/xan.c:162 | a concrete overlapping copy that replicates one byte |
| XanUnpack.BackCopyKeeps | libavcodec/xan.c:162 | the copy never changes bytes already written |
| XanUnpack.UnpackStep | libavcodec/xan.c:133-171 | each step writes at least 3 bytes when it continues, and at most 3 when it stops |
| XanUnpack.ApplyControlCases | libavcodec/xan.c:158-170 | the final run finishes after its literal, a long run only copies literals, a family C control that does not fit aborts before writing, and a back reference before the start fails |
| XanUnpack.StepExtends | libavcodec/xan.c:133-171 | a step only ever appends to the output |
| XanUnpack.UnpackBounded | libavcodec/xan.c:125-173 | starting below `dest_len`, nothing is ever written at or beyond `dest_len + 111`, inside the 130-byte padding |
| XanUnpack.UnpackInto | libavcodec/xan.c:127-173 | the in-place loop writes exactly what `Unpack` produces, within `dest_len + 111`, and leaves the padding beyond that untouched |
| XanUnpack.ApplyInto | libavcodec/xan.c:136-170 | one pass of the loop on the destination array does what `ApplyControl` says |
| XanUnpack.CopyBack | libavcodec/xan.c:162 | the byte-by-byte copy in place equals `BackCopy` |
| XanUnpack.CopyLiteral | libavcodec/xan.c:161 | the literal memcpy appends the source bytes |
| XanUnpack.RunLength | libavcodec/xan.c:166 | a literal-only run holds a multiple of 4 bytes, from 4 to 112 |
| XanUnpack.LongRunStep | libavcodec/xan.c:164-168 | a long run copies its literal bytes and continues after them |
| XanUnpack.FinalRunStep | libavcodec/xan.c:165-170 | a final run (op >= 0xFC) copies op & 3 bytes and finishes |
| XanUnpack.LiteralsRoundTrip | libavcodec/xan.c:164-171 | any byte string encoded as literal runs unpacks back to itself |
| XanUnpack.UnpackShift | libavcodec/xan.c:133-134 | unpacking from an offset is unpacking the suffix |
| XanPixels.TargetsInFrame | libavcodec/xan.c:188-202 | a run's writes are strictly increasing, start at `y*stride+x`, and never reach `frame_size` |
| XanPixels.TargetsLength | libavcodec/xan.c:190-197 | a run writes `min(count, pixels left in the frame)` pixels: at most `pixel_count` |
| XanPixels.AdvanceIndex | libavcodec/xan.c:194-201 | at a row end the index skips the `stride - width` padding |
| XanPixels.SourcesShape | libavcodec/xan.c:219-241 | the previous-frame cursor wraps on its own. A source past the row end fails, and otherwise there is one source per target |
| XanPixels.ZeroMotionSources | libavcodec/xan.c:219-222 | without motion every pixel is copied from the same place in the previous frame |
| XanPixels.PaintEffect | libavcodec/xan.c:192 | painting sets exactly the targeted pixels and keeps every other one |
| XanPixels.OutputPixelRun | libavcodec/xan.c:175-203 | the chunked loop paints the run's pixels at the targets, and succeeds exactly when the pixel data is long enough |
| XanPixels.CopyPixelRun | libavcodec/xan.c:205-243 | the chunked loop, with chunks of `min(remaining, width-curx, width-prevx)`, copies the sources onto the targets, and succeeds exactly when every source is inside the previous frame |
| XanPixels.CopyRunStep | libavcodec/xan.c:223-242 | one pass copies a chunk that stays on both rows and keeps the painted and read offsets a prefix of the whole run's, or fails only when the run's sources leave the previous frame; each pass shortens the run or wraps the source cursor |
| XanFrame.SignExtend4 | libavcodec/xan.c:342-343 | a nibble becomes a value in -8..7 congruent to it mod 16 |
| XanFrame.StepCursors | libavcodec/xan.c:282-355 | each loop pass consumes one opcode and keeps `x < width` |
| XanFrame.StepAccounts | libavcodec/xan.c:353-355 | invariant: `y*width + x + total == width*height` and `x < width` after every run |
| XanFrame.RasterMove | libavcodec/xan.c:354-355 | the coordinate update moves the raster position by exactly `size` |
| XanFrame.DoneCoversFrame | libavcodec/xan.c:279-356 | a decode that ends normally ends with `total == 0`, `x == 0` and `y == height` |
| XanFrame.OvershootNeverDone | libavcodec/xan.c:280-355 | once `total_pixels` skips past 0 the loop can never end normally |
| XanFrame.HighOpcodeIsEmptyMotion | libavcodec/xan.c:283-350 | opcodes 22-255 give size 0 and take the motion branch: a vector byte is consumed and `flag` is cleared |
| XanFrame.ShortOpcodeToggles | libavcodec/xan.c:330-339 | opcodes 1-11 toggle `flag`: when it is set, a zero-motion copy; when clear, a literal run that advances the literal cursor by `size` |
| XanFrame.ZeroOpcodeToggles | libavcodec/xan.c:287-289 | opcode 0 only toggles `flag` |
| XanFrame.MotionVector | libavcodec/xan.c:340-349 | opcodes >= 12 take dx from the high nibble and dy from the low nibble, each sign-extended, consume one vector byte, and clear `flag` |
| XanFrame.RunSizeRoundTrip | libavcodec/xan.c:283-327 | every run size below 2^24 encodes to an opcode (and size bytes) that the dispatch decodes back to it |
| XanFrame.RunSizeBound | libavcodec/xan.c:283-327 | a run size is below 2^24 and uses at most 3 size bytes; opcodes >= 22 give 0 and read none |
| XanFrame.FlagScenario | libavcodec/xan.c:285-350 | a concrete opcode sequence: two toggles, then opcode 3 is a zero-motion copy |
| XanFrame.Wc3DecodeFrame | libavcodec/xan.c:245-357 | the whole frame decode on the scratch buffers and the plane reports the status `Wc3Frame` gives, and paints its plane when it succeeds |
| XanFrame.DecodeOpcodes | libavcodec/xan.c:271 | the opcode buffer holds the Huffman decoder's output |
| XanFrame.FindImage | libavcodec/xan.c:273-276 | the literal pixels are unpacked into buffer2 when the segment starts with 2, and otherwise read from the packet |
| XanFrame.DecodeRuns | libavcodec/xan.c:279-356 | the opcode loop computes what `Frame` specifies |
| XanFrame.DecodeStep | libavcodec/xan.c:280-355 | one pass keeps the rest of the decode as specified, or fails with the status `Frame` gives |
| XanFrame.ReadStep | libavcodec/xan.c:282-355 | reading an opcode, its size and its vector and moving the cursors equals `StepCursors`; a failed read never reports `Done` |
| XanFrame.PaintAction | libavcodec/xan.c:330-349 | painting the step's action yields the plane `RunEffect` gives, or its failure status |
| XanFrame.ReadRunSize | libavcodec/xan.c:283-328 | the size dispatch equals `RunSize` |
| XanFrame.PaintLiteral | libavcodec/xan.c:336-338 | a literal run paints what `LiteralEffect` says |
| XanFrame.PaintCopy | libavcodec/xan.c:330-347 | a copy run paints what `CopyEffect` says |
| XanPalette.PackRGB | libavcodec/xan.c:428-431 | an entry is `r<<16 \| g<<8 \| b`, and each channel can be read back |
| XanPalette.PaletteChannels | libavcodec/xan.c:427-432 | entry k holds the gamma-corrected channels of triple k |
| XanPalette.ReadPalette | libavcodec/xan.c:427-432 | the loop builds the 256 gamma-corrected entries from exactly 768 bytes |
| XanPalette.ScanStep | libavcodec/xan.c:413-449 | one chunk: continues at least past its 8-byte header and never beyond the packet |
| XanPalette.Scan | libavcodec/xan.c:408-450 | a complete scan stops with at most 8 bytes left or after a `VGA ` header |
| XanPalette.ChunkKeepsPaletteSet | libavcodec/xan.c:417-443 | a chunk only appends palettes of 256 entries, never more than 256 palettes, and keeps `cur_palette` a valid index (0 while there is none) |
| XanPalette.ScanKeepsPaletteSet | libavcodec/xan.c:408-450 | the scan only appends palettes, never more than 256, and keeps `cur_palette` a valid index (0 while there is none) |
| XanPalette.ScanEncoded | libavcodec/xan.c:408-451 | round trip: a packet built from `PALT`/`SHOT`/other chunks and a `VGA ` header scans to the palettes and selection those chunks describe, and stops right after the header |
| XanPalette.StepOverChunk | libavcodec/xan.c:413-449 | one well-formed chunk is consumed exactly: `PALT` appends one palette, `SHOT` selects an index below the count, and any other tag is skipped by its size |
| XanPalette.NegativeSizeRevisitsChunk | libavcodec/xan.c:411-447 | as written, a size of 0xFFFFFFF8 moves the scan back to the same header; the corrected scan rejects it |
| XanDecode.XanContext.constructor | libavcodec/xan.c:73-94 | the two scratch buffers of width*height and width*height+130 bytes, no palettes, no frame |
| XanDecode.XanContext.ScanChunks | libavcodec/xan.c:405-451 | the chunk loop leaves the palettes, the selection and the data start as `Scan` gives them |
| XanDecode.XanContext.ReadChunk | libavcodec/xan.c:413-449 | one pass of the chunk loop does what `ScanStep` says |
| XanDecode.XanContext.DecodeFrame | libavcodec/xan.c:397-492 | `frame_size` is set on the first call only, the palette returned is `palettes[cur_palette]`, the bytes left after the scan are reported, the frame is painted as `Wc3Frame` says, and it becomes the reference frame |
| Formats.StrStart | formats.c:81-95 | returns true exactly when `val` is a prefix of `str`; then `*ptr` is the rest of `str`, and otherwise it is untouched |
| Formats.Extension | formats.c:50-52 | `None` exactly when the name has no '.'; otherwise the text after the last '.' |
| Formats.ExtensionOf | formats.c:50-52 | the extension of "base.ext" is "ext" |
| Formats.LastDot | formats.c:50 | strrchr: the last '.' or none |
| Formats.TokensJoin | formats.c:54-66 | round trip: splitting a list joined from comma-free entries gives the entries back |
| Formats.MatchExtension | formats.c:53-67 | the copy loop finds a hit exactly when some entry equals the extension, ignoring case |
| Formats.MatchFrom | formats.c:55-66 | the list from one entry on matches when that entry does or the rest does |
| Formats.CopyEntry | formats.c:55-58 | the inner copy loop takes the characters up to the next ',' or the end |
| Formats.ScoreFormat | formats.c:45-68 | the score is 100 for the name, plus 10 for the MIME type, plus 5 for a matching extension |
| Formats.ScoreOrder | formats.c:45-48 | a name match always outscores a format without one |
| Formats.Registry.GuessFormat | formats.c:33-77 | `None` exactly when every score is 0; otherwise the earliest format with the strictly highest score |
| Formats.Registry.RegisterFormat | formats.c:24-31 | the format is appended at the tail and the list before it is kept |
| Formats.Registry.RegisterEncoder | formats.c:179-186 | the encoder is appended at the tail and the list before it is kept |
| Formats.Registry.FindEncoder | formats.c:225-235 | the first encoder with the id, or `None` exactly when there is none |
| PutByte.PutByteContext.constructor | formats.c:260-275 | the pointer at the buffer start, position 0, the given callbacks |
| PutByte.Flushed | formats.c:278-286 | after a flush the buffer is empty and the context stays well formed |
| PutByte.FlushEmits | formats.c:278-286 | the pending bytes go to `write_packet` (only if there are any), and `pos` grows by their count |
| PutByte.PutByteContext.Flush | formats.c:278-286 | the method does what `Flushed` says |
| PutByte.PutByteSpec | formats.c:288-293 | after `put_byte`, `buffer <= buf_ptr < buf_end` |
| PutByte.PutByteConserves | formats.c:288-293 | emitted bytes followed by pending bytes grow by exactly the byte put; the position grows by 1; packets are whole buffers |
| PutByte.PutByteContext.PutByte | formats.c:288-293 | stores `b` as an unsigned char and flushes a full buffer, as `PutByteSpec` says |
| PutByte.PutBytesConserves | formats.c:288-312 | emitted bytes followed by pending bytes are everything ever put, in order; the position advances by the length |
| PutByte.PutBytesAppend | formats.c:295-312 | writing a then b is writing a + b |
| PutByte.PutChunk | formats.c:299-307 | one memcpy of a piece that fits, followed by the full-buffer test, equals putting its bytes one at a time |
| PutByte.Copied | formats.c:303-304 | the piece lands at the pointer and the rest of the buffer is unchanged |
| PutByte.PutByteContext.PutBuffer | formats.c:295-312 | the chunked loop writes the data exactly as putting its bytes one at a time does |
| PutByte.PutByteContext.CopyIn | formats.c:303-304 | memcpy plus pointer advance equals `Copied` |
| PutByte.PutByteContext.PutFlushPacket | formats.c:314-317 | flushes as `Flushed` says and leaves the context well formed |
| PutByte.SeekThenPos | formats.c:320-340 | a bad `whence` returns -1 and changes nothing; a target inside the buffer only moves the pointer (no flush, no callback, `pos` kept); one outside it without `write_seek` returns -1 and changes nothing, and with it returns the target; a successful seek leaves `put_pos` at the target |
| PutByte.SeekFlushesFirst | formats.c:333-338 | outside the buffer the pending bytes are emitted before the `write_seek` call |
| PutByte.SeekAsWrittenLosesPosition | formats.c:333-339 | as written, an out-of-buffer seek passes the absolute target with SEEK_CUR and leaves `pos` behind; the corrected seek does not |
| PutByte.PutByteContext.PutSeek | formats.c:320-340 | the method does what the corrected `Seek` says: inside the window it only moves the pointer, and outside it fails without `write_seek` or flushes first |
| PutByte.SeekZero | formats.c:342-345 | `put_pos` is a seek by 0 that changes nothing and returns the position |
| PutByte.PutByteContext.PutPos | formats.c:342-345 | returns `pos + buf_ptr - buffer` and changes nothing |
| PutByte.LE16Digits | formats.c:361-365 | the two bytes read back as the low 16 bits, least significant first |
| PutByte.PutByteContext.PutLE16 | formats.c:361-365 | writes `LE16Digits(val)` |
| PutByte.LE32Digits | formats.c:347-353 | the four bytes are the little-endian encoding of `val` |
| PutByte.PutByteContext.PutLE32 | formats.c:347-353 | writes the little-endian encoding of `val` |
| PutByte.LE64Digits | formats.c:355-359 | low word then high word: reading both back gives `val` |
| PutByte.PutByteContext.PutLE64 | formats.c:355-359 | writes `LE64Digits(val)` |
| PutByte.CString | formats.c:367-372 | the characters of the tag before its first NUL |
| PutByte.PutByteContext.PutTag | formats.c:367-372 | writes exactly the tag's characters before its NUL |
| RawVideo.FindPixelFormat | libavcodec/raw.c:33-48 | the first table entry with the fourcc, or YUV420P when there is none: YUV422 for `Y422`, and YUV420P otherwise |
| RawVideo.RawVideoContext.constructor | libavcodec/raw.c:58-75 | a codec tag replaces the pixel format by its lookup; the buffer holds one frame; `p` is at its start |
| RawVideo.DecodeStep | libavcodec/raw.c:77-106 | nothing is lost: with no picture, the pending bytes grow by the consumed bytes; with a picture, it is exactly one frame of pending plus consumed bytes, and nothing stays pending |
| RawVideo.DecodeStepProgress | libavcodec/raw.c:93-105 | a non-empty packet is always at least partly consumed |
| RawVideo.DriveFrames | libavcodec/raw.c:77-106 | feeding a byte stream in packets gives whole frames which, followed by what is pending, are the stream itself |
| RawVideo.RawVideoContext.Decode | libavcodec/raw.c:77-106 | the fast path returns the packet uncopied; a short packet is appended at `p`; otherwise `bytesNeeded` bytes complete the frame and `p` resets; `p` stays inside the buffer |
| RawVideo.RowsLength | libavcodec/raw.c:142-146 | packing h rows of w bytes gives w*h bytes |
| RawVideo.RowsDense | libavcodec/raw.c:142-146 | packing removes stride padding: the packed rows, read with stride w, are themselves |
| RawVideo.Layout | libavcodec/raw.c:134-191 | every handled format names planes 0..2 only |
| RawVideo.Packed | libavcodec/raw.c:134-191 | the packed picture is as long as the layout's total size |
| RawVideo.PackedSizes | libavcodec/raw.c:134-188 | YUV420P halves chroma width and height; YUV422P halves chroma width only; YUV444P has three full planes; YUV422 has rows of 2w bytes; RGB24/BGR24 have rows of 3w bytes |
| RawVideo.CopyPlane | libavcodec/raw.c:141-146 | the row loop writes the plane's packed rows at `dest` and keeps everything else |
| RawVideo.EncodePlanar | libavcodec/raw.c:135-171 | the three-plane loop (halving from the second plane on) writes the packed picture at the start of the frame |
| RawVideo.EncodePacked | libavcodec/raw.c:172-188 | the one-plane loop writes the packed rows |
| RawVideo.RawEncode | libavcodec/raw.c:117-194 | returns -1 and writes nothing when `size > buf_size` or the format is not handled; otherwise writes the packed picture and returns `size` |

## Left out

- `av_log` calls: they have no effect on the results.
- `av_malloc`, `av_realloc` and `av_freep`, together with their ENOMEM returns: buffers are fresh arrays and palettes a growing sequence.
- `get_buffer` / `release_buffer`: the caller passes the frame's plane. The frame swap is the `last` field becoming that plane.
- XanDecode.XanContext.DecodeFrame: requires every call's stride*height to equal the first call's `frame_size`. The decoder accepts another linesize from `get_buffer` and keeps the stale bound for painting.
- XanDecode.XanContext.DecodeFrame: returns `NoPalette` when no palette has been read. The decoder instead copies the palette from its NULL `palettes` pointer.
- `xan_decode_end`, the `AVCodec` structs and the WC4 decoder (an empty stub and the `palctrl` branch): not modelled.
- The bit reader past the end of its segment: the model reports `OutOfBits`, where the decoder reads whatever memory follows.
- XanDecode.XanContext.DecodeFrame: when painting fails, the plane's content is not specified. Such input makes the decoder read out of bounds, and the model stops there.
- The `opaque` callback argument and what the callbacks do with their data: only the calls themselves are recorded.
- The linked `next` fields of the registries: the lists are sequences in registration order. The new element's `next = NULL` is the element being last.
- `avencoder_open`, `avencoder_encode`, `avencoder_close` and `avencoder_string`: function-pointer dispatch and `snprintf` formatting, not modelled.
- The `raw_write_*` wrappers and the `AVFormat` initialisers: not modelled.
- Formats.MatchExtension: an entry of 32 or more characters overflows the fixed `ext1[32]` copy buffer, so entries shorter than 32 characters are required.
- `avpicture_get_size` and `avpicture_fill`: foreign. The frame length, the `size` returned by `raw_encode` and the plane layout are parameters.
- `raw_close`, and the `av_malloc` failure in `raw_init`: not modelled.
- RawVideo.RawVideoContext.Decode: the picture is returned as a value. In the decoder it is the context buffer (or the packet), which the next call overwrites from its start, so a caller holding the previous picture sees it change.
- Negative line sizes are not modelled: line sizes are natural numbers.
- `libavcodec/mpeg12data.h`, `libavfilter/parseutils.h` and `libavformat/rtp_asf.c`: not part of this model.

## Findings

| source | as written | input that shows it | evidently intended | confidence | as-written member | corrected member |
|---|---|---|---|---|---|---|
| libavcodec/xan.c:411-447 | the chunk size is read into a signed `int`, so a length of 2^31 or more is negative. `FFMIN` keeps it, and `buf += size` moves the scan backwards | a chunk header with tag `JUNK` and size bytes `FF FF FF F8`: the scan returns to the same header forever | sizes are unsigned lengths, or a negative size is rejected as invalid data | not executed | XanPalette.NegativeSizeRevisitsChunk | XanPalette.ScanStep |
| formats.c:333-339 | outside the buffer, `put_seek` calls `write_seek` with the absolute target but the caller's `whence`, and never sets `pos`. After that, `put_pos` is wrong | a 4-byte buffer holding 2 bytes at position 0, then `put_seek(s, 10, SEEK_CUR)`: `write_seek(12, SEEK_CUR)` is called and `put_pos` then reports 2 | `write_seek(target, SEEK_SET)` and `pos = target`, so `put_pos` reports 12 | not executed | PutByte.SeekAsWrittenLosesPosition | PutByte.PutByteContext.PutSeek |
