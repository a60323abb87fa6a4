/**
 * The compressor and decompressor as evidently intended, with the four defects of the
 * source repaired: every leaf is recognised by having no children (so byte 0 is coded),
 * a lone leaf gets the one-bit code 0, the unpacker reads each byte in the order the
 * packer wrote it and skips the padding, and the decoder emits the leaf it ends on.
 * Compressing and then decompressing gives back the input.
 */
module Corrected {
  import opened Types
  import opened HuffmanTree
  import opened Frequency
  import opened TreeBuilder
  import opened CodeGen
  import opened Encoder
  import opened Decoder
  import opened Pipeline

  /** The code map: the path codes, except that a lone leaf gets the code 0. */
  function FixedCodes(root: Tree): map<Byte, Bits>
  {
    if root.Leaf? then map[root.symbol := [false]] else PathCodes(root, [])
  }

  /** The low `n` bits of `b`, most significant first: the order the packer wrote them in. */
  function MsbBits(b: nat, n: nat): Bits
  {
    seq(n, j requires 0 <= j < n => Bit(b, n - 1 - j))
  }

  /**
   * The bits of the payload: eight bits per byte, most significant first, except that
   * the last byte holds only `padding` bits (all eight when `padding` is 0).
   */
  function FixedUnpack(bytes: seq<Byte>, padding: nat): Bits
    decreases |bytes|
  {
    if bytes == [] then []
    else if |bytes| == 1 then MsbBits(bytes[0], if padding == 0 then 8 else padding)
    else MsbBits(bytes[0], 8) + FixedUnpack(bytes[1..], padding)
  }

  /** A chunk's value, read back most significant bit first, is the chunk. */
  lemma MsbBitsOfChunk(chunk: Bits)
    ensures MsbBits(ChunkValue(chunk), |chunk|) == chunk
  {
    ChunkValueBits(chunk);
  }

  /** The final byte of a string of 1 to 8 bits holds all of them. */
  lemma PaddingWidth(n: nat)
    requires 0 < n <= 8
    ensures (if n % 8 == 0 then 8 else n % 8) == n
  {
  }

  /** Eight more bits leave the padding value unchanged. */
  lemma PaddingShift(n: nat)
    ensures (n + 8) % 8 == n % 8
  {
  }

  /** A bit string of at most eight bits packs into one byte that unpacks back to it. */
  lemma FixedUnpackShort(bits: Bits)
    requires 0 < |bits| <= 8
    ensures FixedUnpack(Packed(bits), |bits| % 8) == bits
  {
    var n := |bits|;
    assert bits[..n] == bits && bits[n..] == [];
    var v := ChunkValue(bits);
    assert Packed(bits) == [v];
    PaddingWidth(n);
    assert FixedUnpack([v], n % 8) == MsbBits(v, n);
    MsbBitsOfChunk(bits);
  }

  /** Unpacking what was packed, with the recorded padding value, gives back the bit string. */
  lemma {:induction false} FixedUnpackPacked(bits: Bits)
    ensures FixedUnpack(Packed(bits), |bits| % 8) == bits
    decreases |bits|
  {
    if 0 < |bits| <= 8 {
      FixedUnpackShort(bits);
    } else if |bits| > 8 {
      FixedUnpackPacked(bits[8..]);
      FixedUnpackStep(bits);
    }
  }

  /** The inductive step of `FixedUnpackPacked`: a full first chunk unpacks ahead of the rest. */
  lemma FixedUnpackStep(bits: Bits)
    requires |bits| > 8
    requires FixedUnpack(Packed(bits[8..]), |bits[8..]| % 8) == bits[8..]
    ensures FixedUnpack(Packed(bits), |bits| % 8) == bits
  {
    var chunk, rest := bits[..8], bits[8..];
    PackedLength(rest);
    MsbBitsOfChunk(chunk);
    ChunkValueByte(chunk);
    var c: Byte := ChunkValue(chunk);
    assert Packed(bits) == [c] + Packed(rest);
    PaddingShift(|rest|);
    assert |bits| == |rest| + 8;
    FixedUnpackCons(c, Packed(rest), |rest| % 8);
    assert bits == chunk + rest;
  }

  /** A byte that is not the last one unpacks to all eight of its bits. */
  lemma FixedUnpackCons(b: Byte, bytes: seq<Byte>, padding: nat)
    requires bytes != []
    ensures FixedUnpack([b] + bytes, padding) == MsbBits(b, 8) + FixedUnpack(bytes, padding)
  {
    assert ([b] + bytes)[1..] == bytes;
  }

  /**
   * The decoder's walk, completed: under a lone-leaf root each bit is one occurrence of
   * its symbol; otherwise the leaf the walk ends on is emitted as well.
   */
  function FixedDecode(root: Tree, bits: Bits): Result<seq<Byte>>
  {
    if root.Leaf? then Ok(seq(|bits|, _ => root.symbol))
    else match Run(root, Start(root), bits)
      case Err(f) => Err(f)
      case Ok(w) =>
        if w.cursor.Some? && w.cursor.value.Leaf? then Ok(w.out + [w.cursor.value.symbol]) else Ok(w.out)
  }

  /** Compression with the repaired codes; the empty input compresses to nothing. */
  function FixedCompress(data: seq<Byte>): Compressed
  {
    var freqs := Histogram(data);
    if |freqs| == 0 then Compressed(map[], 0, [])
    else
      var bits := Encoded(data, FixedCodes(HuffmanTreeOf(freqs)));
      Compressed(freqs, |bits| % 8, Packed(bits))
  }

  /** Decompression with the repaired unpacker and decoder; an empty map stands for the empty input. */
  function FixedDecompress(c: Compressed): Result<seq<Byte>>
  {
    if |c.freqs| == 0 then Ok([])
    else
      var root := HuffmanTreeOf(c.freqs);
      FixedDecode(root, FixedUnpack(c.payload, c.padding))
  }

  /** With one-bit codes, the encoding has one bit per byte. */
  lemma {:induction false} EncodedUnitCodes(data: seq<Byte>, codes: map<Byte, Bits>)
    requires forall i :: 0 <= i < |data| ==> |CodeOf(codes, data[i])| == 1
    ensures |Encoded(data, codes)| == |data|
    decreases |data|
  {
    if data != [] {
      EncodedUnitCodes(data[..|data| - 1], codes);
    }
  }

  /** The bytes of the input are the keys of its counts, and so the symbols of its tree. */
  lemma InputSymbols(data: seq<Byte>)
    requires |Histogram(data)| > 0
    ensures forall s :: s in data ==> s in Symbols(HuffmanTreeOf(Histogram(data)))
  {
    HuffmanTreeSymbols(Histogram(data));
  }

  /** Under a lone-leaf root every byte is its symbol, and each comes back from its one bit. */
  lemma LoneLeafDecode(root: Tree, data: seq<Byte>)
    requires root.Leaf? && forall s :: s in data ==> s in Symbols(root)
    ensures FixedDecode(root, Encoded(data, FixedCodes(root))) == Ok(data)
  {
    forall i | 0 <= i < |data| ensures data[i] == root.symbol {
      assert data[i] in data;
    }
    EncodedUnitCodes(data, FixedCodes(root));
    assert seq(|data|, _ => root.symbol) == data;
  }

  /**
   * Under a merged root the walk over the codes of non-empty `data` leaves the last
   * byte's leaf under the cursor, and it is emitted.
   */
  lemma MergedRootDecode(root: Tree, data: seq<Byte>)
    requires root.Merged? && |data| > 0 && forall s :: s in data ==> s in Symbols(root)
    ensures FixedDecode(root, Encoded(data, FixedCodes(root))) == Ok(data)
  {
    var codes := PathCodes(root, []);
    PathCodesDomain(root, []);
    forall s | s in data ensures s in codes && ReachesLeaf(root, codes[s], s) {
      RootCodeReachesLeaf(root, s);
    }
    RunOverCodes(root, codes, data);
    var n := |data|;
    assert data[n - 1] in data;
    assert data[..n - 1] + [data[n - 1]] == data;
  }

  /** Compression followed by decompression gives back every input, the empty one included. */
  lemma RoundTrip(data: seq<Byte>)
    ensures FixedDecompress(FixedCompress(data)) == Ok(data)
  {
    var freqs := Histogram(data);
    CompressFailsOnlyOnEmpty(data);
    if |freqs| > 0 {
      var root := HuffmanTreeOf(freqs);
      var bits := Encoded(data, FixedCodes(root));
      FixedUnpackPacked(bits);
      InputSymbols(data);
      if root.Leaf? {
        LoneLeafDecode(root, data);
      } else {
        MergedRootDecode(root, data);
      }
    }
  }

  /** The repaired codes are prefix-free, and every symbol of the tree, byte 0 included, has one. */
  lemma FixedCodesPrefixFree(root: Tree)
    ensures FixedCodes(root).Keys == Symbols(root)
    ensures forall s :: s in FixedCodes(root) ==> |FixedCodes(root)[s]| > 0
    ensures forall s1, s2 :: s1 in FixedCodes(root) && s2 in FixedCodes(root) && s1 != s2
              ==> !(FixedCodes(root)[s1] <= FixedCodes(root)[s2])
  {
    if root.Merged? {
      PathCodesDomain(root, []);
      forall s | s in FixedCodes(root) ensures |FixedCodes(root)[s]| > 0 {
        MergedRootCodesNonEmpty(root, s);
      }
      forall s1, s2 | s1 in FixedCodes(root) && s2 in FixedCodes(root) && s1 != s2
        ensures !(FixedCodes(root)[s1] <= FixedCodes(root)[s2])
      {
        PathCodesPrefixFree(root, s1, s2);
      }
    }
  }
}
