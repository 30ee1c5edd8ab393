/** The opcode stream decoder of the Wing Commander III video codec
    (xan_huffman_decode).

    A segment starts with a byte N; the next 2N bytes form a flat table of
    node values, and the bitstream follows right after them, read least
    significant bit first.  From node value `v` and bit `b` the decoder moves
    to `seg[1 + v - 0x17 + b*N]`.  A value below 0x16 is an emitted symbol
    (and decoding restarts at the root `N + 0x16`, wrapped to 8 bits);
    the value 0x16 ends decoding without emitting anything. */
module XanHuffman {
  import opened Bytes

  /** The node value that ends decoding. */
  const STOP: byte := 0x16

  datatype Status =
    | Ended      // the node value 0x16 was reached
    | DestFull   // a symbol was decoded but the destination was full
    | NoTable    // the segment is empty: there is no table size byte
    | BadIndex   // a transition indexes outside the segment
    | OutOfBits  // the bitstream ran past the end of the segment

  datatype Outcome = Outcome(status: Status, out: seq<byte>)

  /** The root node: `N + 0x16` held in an `unsigned char`, so it wraps. */
  function Root(n: byte): (r: byte)
    ensures n <= 0xE9 ==> r == n + 0x16
    ensures n > 0xE9 ==> r < STOP
  {
    (n + 0x16) % 256
  }

  /** Bit `j` of the byte `x`, counting from the least significant. */
  function BitOf(x: nat, j: nat): bool
  {
    if j == 0 then x % 2 == 1 else BitOf(x / 2, j - 1)
  }

  /** Number of bits the segment holds after its table. */
  function BitCount(seg: seq<byte>): nat
    requires |seg| > 0
  {
    var n: int := seg[0];
    if 1 + 2 * n <= |seg| then 8 * (|seg| - 1 - 2 * n) else 0
  }

  /** Bit `k` of the stream that starts at `seg[1 + 2N]`, least significant
      bit of each byte first. */
  function Bit(seg: seq<byte>, k: nat): bool
    requires |seg| > 0 && k < BitCount(seg)
  {
    BitOf(seg[1 + 2 * seg[0] + k / 8], k % 8)
  }

  /** Index in the segment of the successor of node `val` under bit `b`. */
  function Successor(seg: seq<byte>, val: byte, b: bool): int
    requires |seg| > 0
  {
    1 + val - 0x17 + (if b then seg[0] else 0)
  }

  /** The decoding loop from node `val` at bit `pos`, having produced `out`
      into a destination of `cap` bytes. */
  function Run(seg: seq<byte>, val: byte, pos: nat, out: seq<byte>, cap: nat): Outcome
    requires |seg| > 0
    decreases BitCount(seg) - pos
  {
    if val == STOP then Outcome(Ended, out)
    else if pos >= BitCount(seg) then Outcome(OutOfBits, out)
    else
      var i := Successor(seg, val, Bit(seg, pos));
      if i < 0 || i >= |seg| then Outcome(BadIndex, out)
      else if seg[i] < STOP then
        if |out| >= cap then Outcome(DestFull, out)
        else Run(seg, Root(seg[0]), pos + 1, out + [seg[i]], cap)
      else Run(seg, seg[i], pos + 1, out, cap)
  }

  /** What xan_huffman_decode produces from segment `seg` into a
      destination of `cap` bytes. */
  function Decode(seg: seq<byte>, cap: nat): Outcome
  {
    if |seg| == 0 then Outcome(NoTable, []) else Run(seg, Root(seg[0]), 0, [], cap)
  }

  /** xan_huffman_decode, writing the opcodes into `dest` in place. */
  method HuffmanDecode(dest: array<byte>, seg: seq<byte>) returns (status: Status, written: nat)
    modifies dest
    ensures written <= dest.Length
    ensures Decode(seg, dest.Length) == Outcome(status, dest[..written])
    ensures dest[written..] == old(dest[written..])
  {
    if |seg| == 0 {
      return NoTable, 0;
    }
    var n := seg[0];
    var ival := Root(n);
    var val: byte := ival;
    var pos := 0;
    written := 0;
    while val != STOP
      invariant written <= dest.Length && pos <= BitCount(seg)
      invariant Run(seg, val, pos, dest[..written], dest.Length) == Decode(seg, dest.Length)
      invariant dest[written..] == old(dest[written..])
      decreases BitCount(seg) - pos
    {
      if pos >= BitCount(seg) {
        return OutOfBits, written;
      }
      var i := Successor(seg, val, Bit(seg, pos));
      if i < 0 || i >= |seg| {
        return BadIndex, written;
      }
      val := seg[i];
      pos := pos + 1;
      if val < STOP {
        if written >= dest.Length {
          return DestFull, written;
        }
        ghost var before := dest[..written];
        dest[written] := val;
        assert dest[..written + 1] == before + [val];
        written := written + 1;
        val := ival;
      }
    }
    return Ended, written;
  }

  /** Decoding only ever appends symbols below 0x16 and never more than the
      destination holds. */
  lemma {:induction false} RunAppends(seg: seq<byte>, val: byte, pos: nat, out: seq<byte>, cap: nat)
    requires |seg| > 0 && |out| <= cap
    ensures var r := Run(seg, val, pos, out, cap);
      |r.out| <= cap && out <= r.out &&
      (forall k :: |out| <= k < |r.out| ==> r.out[k] < STOP)
    decreases BitCount(seg) - pos
  {
    if val != STOP && pos < BitCount(seg) {
      var i := Successor(seg, val, Bit(seg, pos));
      if 0 <= i < |seg| {
        if seg[i] < STOP {
          if |out| < cap {
            RunAppends(seg, Root(seg[0]), pos + 1, out + [seg[i]], cap);
          }
        } else {
          RunAppends(seg, seg[i], pos + 1, out, cap);
        }
      }
    }
  }

  /** At most `cap` opcodes are produced, and every one of them is below 0x16. */
  lemma DecodeBounded(seg: seq<byte>, cap: nat)
    ensures var r := Decode(seg, cap);
      |r.out| <= cap && forall k :: 0 <= k < |r.out| ==> r.out[k] < STOP
  {
    if |seg| > 0 {
      RunAppends(seg, Root(seg[0]), 0, [], cap);
    }
  }

  /** The stream holds `bits` from bit `pos` on. */
  ghost predicate StreamHolds(seg: seq<byte>, pos: nat, bits: seq<bool>)
    requires |seg| > 0
    decreases |bits|
  {
    |bits| == 0 || (pos < BitCount(seg) && Bit(seg, pos) == bits[0] && StreamHolds(seg, pos + 1, bits[1..]))
  }

  /** A run of stream bits splits at any point. */
  lemma {:induction false} BitsAtSplit(seg: seq<byte>, pos: nat, a: seq<bool>, b: seq<bool>)
    requires |seg| > 0 && StreamHolds(seg, pos, a + b)
    ensures StreamHolds(seg, pos, a) && StreamHolds(seg, pos + |a|, b)
    decreases |a|
  {
    if |a| > 0 {
      assert (a + b)[1..] == a[1..] + b;
      BitsAtSplit(seg, pos + 1, a[1..], b);
    } else {
      assert a + b == b;
    }
  }

  /** `path` leads from node `val` through inner nodes (values above 0x16)
      to the node value `s` (a symbol below 0x16, or the stop value 0x16):
      the encoder's codeword for `s`. */
  ghost predicate Codeword(seg: seq<byte>, val: byte, path: seq<bool>, s: byte)
    requires |seg| > 0
    decreases |path|
  {
    && val != STOP
    && |path| >= 1
    && var i := Successor(seg, val, path[0]);
    && 0 <= i < |seg|
    && if |path| == 1 then seg[i] == s && s <= STOP
       else seg[i] > STOP && Codeword(seg, seg[i], path[1..], s)
  }

  /** One step of the loop, from an inner node whose successor under the
      next bit lies inside the segment. */
  lemma RunNode(seg: seq<byte>, val: byte, pos: nat, out: seq<byte>, cap: nat, b: bool)
    requires |seg| > 0 && val != STOP && pos < BitCount(seg) && Bit(seg, pos) == b
    requires 0 <= Successor(seg, val, b) < |seg|
    ensures var v := seg[Successor(seg, val, b)];
            && (v >= STOP ==> Run(seg, val, pos, out, cap) == Run(seg, v, pos + 1, out, cap))
            && (v < STOP && |out| < cap ==>
                  Run(seg, val, pos, out, cap) == Run(seg, Root(seg[0]), pos + 1, out + [v], cap))
  {
  }

  /** The first bit of a stream run, and the run after it. */
  lemma BitsAtHead(seg: seq<byte>, pos: nat, path: seq<bool>)
    requires |seg| > 0 && |path| >= 1 && StreamHolds(seg, pos, path)
    ensures pos < BitCount(seg) && Bit(seg, pos) == path[0]
    ensures StreamHolds(seg, pos + 1, path[1..])
  {
  }

  /** Reading a codeword of a symbol from the stream emits exactly that
      symbol and restarts at the root. */
  lemma {:induction false} CodewordEmits(seg: seq<byte>, val: byte, path: seq<bool>, s: byte,
                                         pos: nat, out: seq<byte>, cap: nat)
    requires |seg| > 0 && Codeword(seg, val, path, s) && s < STOP && |out| < cap
    requires StreamHolds(seg, pos, path)
    ensures Run(seg, val, pos, out, cap) == Run(seg, Root(seg[0]), pos + |path|, out + [s], cap)
    decreases |path|
  {
    var b := path[0];
    BitsAtHead(seg, pos, path);
    RunNode(seg, val, pos, out, cap, b);
    if |path| > 1 {
      var next, more, pos' := seg[Successor(seg, val, b)], path[1..], pos + 1;
      CodewordEmits(seg, next, more, s, pos', out, cap);
    }
  }

  /** Reading the codeword of the stop value ends decoding, emitting nothing. */
  lemma {:induction false} StopCodewordEnds(seg: seq<byte>, val: byte, path: seq<bool>,
                                            pos: nat, out: seq<byte>, cap: nat)
    requires |seg| > 0 && Codeword(seg, val, path, STOP)
    requires StreamHolds(seg, pos, path)
    ensures Run(seg, val, pos, out, cap) == Outcome(Ended, out)
    decreases |path|
  {
    var b := path[0];
    BitsAtHead(seg, pos, path);
    RunNode(seg, val, pos, out, cap, b);
    if |path| > 1 {
      var next, more, pos' := seg[Successor(seg, val, b)], path[1..], pos + 1;
      StopCodewordEnds(seg, next, more, pos', out, cap);
    }
  }

  function Concat(words: seq<seq<bool>>): (r: seq<bool>)
  {
    if words == [] then [] else words[0] + Concat(words[1..])
  }

  /** Each of `words` is the codeword of the symbol at the same place in
      `syms`. */
  ghost predicate CodesSymbols(seg: seq<byte>, words: seq<seq<bool>>, syms: seq<byte>)
    requires |seg| > 0
  {
    |words| == |syms| &&
    forall k :: 0 <= k < |words| ==> syms[k] < STOP && Codeword(seg, Root(seg[0]), words[k], syms[k])
  }

  /** Round trip: when the bitstream holds the codewords of `syms` followed
      by the codeword of the stop value, decoding yields exactly `syms`. */
  lemma {:induction false} EncodedSymbolsDecode(seg: seq<byte>, words: seq<seq<bool>>, syms: seq<byte>,
                                                stop: seq<bool>, pos: nat, out: seq<byte>, cap: nat)
    requires |seg| > 0 && CodesSymbols(seg, words, syms) && |out| + |syms| <= cap
    requires Codeword(seg, Root(seg[0]), stop, STOP)
    requires StreamHolds(seg, pos, Concat(words) + stop)
    ensures Run(seg, Root(seg[0]), pos, out, cap) == Outcome(Ended, out + syms)
    decreases |words|
  {
    var root := Root(seg[0]);
    if words == [] {
      assert Concat(words) + stop == stop;
      StopCodewordEnds(seg, root, stop, pos, out, cap);
      assert out + syms == out;
    } else {
      var w, s0 := words[0], syms[0];
      var moreWords, moreSyms := words[1..], syms[1..];
      var pos', out' := pos + |w|, out + [s0];
      SplitFirstWord(seg, words, syms, stop, pos);
      CodewordEmits(seg, root, w, s0, pos, out, cap);
      EncodedSymbolsDecode(seg, moreWords, moreSyms, stop, pos', out', cap);
      AppendFirst(out, syms);
    }
  }

  lemma AppendFirst(out: seq<byte>, syms: seq<byte>)
    requires |syms| > 0
    ensures out + [syms[0]] + syms[1..] == out + syms
  {
    assert syms == [syms[0]] + syms[1..];
  }

  /** The stream facts for the first codeword and for the rest. */
  lemma SplitFirstWord(seg: seq<byte>, words: seq<seq<bool>>, syms: seq<byte>, stop: seq<bool>, pos: nat)
    requires |seg| > 0 && CodesSymbols(seg, words, syms) && |words| > 0
    requires StreamHolds(seg, pos, Concat(words) + stop)
    ensures syms[0] < STOP && Codeword(seg, Root(seg[0]), words[0], syms[0])
    ensures StreamHolds(seg, pos, words[0])
    ensures StreamHolds(seg, pos + |words[0]|, Concat(words[1..]) + stop)
    ensures CodesSymbols(seg, words[1..], syms[1..])
  {
    var w := words[0];
    var rest := Concat(words[1..]) + stop;
    assert Concat(words) + stop == w + rest;
    BitsAtSplit(seg, pos, w, rest);
    forall k | 0 <= k < |words| - 1
      ensures syms[1..][k] < STOP && Codeword(seg, Root(seg[0]), words[1..][k], syms[1..][k])
    {
      assert words[1..][k] == words[k + 1] && syms[1..][k] == syms[k + 1];
    }
  }

  /** With an empty table (N = 0) the root is already the stop value: the
      loop body never runs and no bit is read. */
  lemma EmptyTableDecodesNothing(seg: seq<byte>, cap: nat)
    requires |seg| > 0 && seg[0] == 0
    ensures Decode(seg, cap) == Outcome(Ended, [])
  {
  }

  /** A table size of 0xEA or more wraps the root below 0x16, so a first bit
      of 0 indexes before the start of the segment. */
  lemma WrappedRootIndexesBeforeTable(seg: seq<byte>, cap: nat)
    requires |seg| > 0 && seg[0] >= 0xEA && BitCount(seg) > 0 && !Bit(seg, 0)
    ensures Decode(seg, cap) == Outcome(BadIndex, [])
  {
  }

  /** A one-entry table (N = 1) mapping bit 0 to opcode 1 and bit 1 to
      opcode 2; the stream byte 0x02 reads as bits 0, 1, 0, 0, ... so three
      opcodes fill a three-byte destination and the fourth finds it full. */
  lemma OneEntryTableExample()
    ensures Decode([1, 1, 2, 2], 3) == Outcome(DestFull, [1, 2, 1])
  {
    var seg: seq<byte> := [1, 1, 2, 2];
    assert BitCount(seg) == 8;
    assert !Bit(seg, 0) && Bit(seg, 1) && !Bit(seg, 2) && !Bit(seg, 3);
    assert Run(seg, 0x17, 3, [1, 2, 1], 3) == Outcome(DestFull, [1, 2, 1]);
    assert Run(seg, 0x17, 2, [1, 2], 3) == Outcome(DestFull, [1, 2, 1]);
    assert Run(seg, 0x17, 1, [1], 3) == Outcome(DestFull, [1, 2, 1]);
  }
}
