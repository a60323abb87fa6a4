/**
 * `compressFile` and `decompressFile` as written (huffman.cpp:59-154), without the file
 * streams. The frequency map goes from one to the other directly instead of through
 * the header text, and the trailing-padding pass (huffman.cpp:133-147) is not part of
 * this model.
 */
module Pipeline {
  import opened Types
  import opened HuffmanTree
  import opened Frequency
  import opened TreeBuilder
  import opened CodeGen
  import opened Encoder
  import opened Decoder

  /** What compression produces: the frequency map, the padding value and the packed bytes. */
  datatype Compressed = Compressed(freqs: map<Byte, nat>, padding: Byte, payload: seq<Byte>)

  /**
   * `compressFile`: count, build the tree, generate the codes from the empty code,
   * concatenate them in input order and pack. An empty input leaves the map empty and
   * `buildHuffmanTree` reads the top of an empty queue.
   */
  function Compress(data: seq<Byte>): Result<Compressed>
  {
    var freqs := Histogram(data);
    if |freqs| == 0 then Err(TopOfEmptyQueue)
    else
      var bits := Encoded(data, Codes(HuffmanTreeOf(freqs), []));
      Ok(Compressed(freqs, |bits| % 8, Packed(bits)))
  }

  /**
   * `decompressFile`: rebuild the tree from the map, then walk it over the payload's
   * bits, bit 0 of each byte first. The padding value is only read by the trailing pass.
   */
  function Decompress(c: Compressed): Result<seq<Byte>>
  {
    if |c.freqs| == 0 then Err(TopOfEmptyQueue)
    else
      var root := HuffmanTreeOf(c.freqs);
      match Run(root, Start(root), Unpack(c.payload))
      case Err(f) => Err(f)
      case Ok(w) => Ok(w.out)
  }

  /** The steps of `compressFile` run one after the other. */
  method CompressData(data: seq<Byte>) returns (r: Result<Compressed>)
    ensures r == Compress(data)
  {
    var freqs := CountFrequencies(data);
    if |freqs| == 0 {
      return Err(TopOfEmptyQueue);
    }
    var root := BuildTree(freqs);
    var codes := Codes(root, []);
    var bits := EncodeBits(data, codes);
    var padding, payload := PackBits(bits);
    r := Ok(Compressed(freqs, padding, payload));
  }

  /** The steps of `decompressFile` run one after the other. */
  method DecompressData(c: Compressed) returns (r: Result<seq<Byte>>)
    ensures r == Decompress(c)
  {
    if |c.freqs| == 0 {
      return Err(TopOfEmptyQueue);
    }
    var root := BuildTree(c.freqs);
    var w := DecodeBytes(root, c.payload);
    match w
    case Err(f) => r := Err(f);
    case Ok(walker) => r := Ok(walker.out);
  }

  /** Byte 0 has no code, so wherever it occurs in the input it adds nothing to the encoded bits. */
  lemma ZeroByteEncodesToNothing(t: Tree, before: seq<Byte>, after: seq<Byte>)
    ensures Encoded(before + [0] + after, Codes(t, [])) == Encoded(before + after, Codes(t, []))
  {
    var codes := Codes(t, []);
    CodesSkipZero(t, []);
    assert CodeOf(codes, 0) == [];
    EncodedSnoc(before, 0, codes);
    EncodedAppend(before + [0], after, codes);
    EncodedAppend(before, after, codes);
  }

  /** A byte string made of one repeated byte. */
  predicate Repeats(data: seq<Byte>, s: Byte)
  {
    forall i :: 0 <= i < |data| ==> data[i] == s
  }

  /** The counts of a byte string made of one repeated byte. */
  lemma RepeatsHistogram(data: seq<Byte>, s: Byte)
    requires |data| > 0 && Repeats(data, s)
    ensures Histogram(data) == map[s := |data|]
  {
    assert data[0] in data;
    assert forall b :: b in data ==> b == s;
    assert multiset(data)[s] == |data| by {
      assert multiset(data) == multiset{} + multiset(data);
      RepeatsCount(data, s);
    }
  }

  /** A byte string made of one repeated byte holds that byte as often as it is long. */
  lemma {:induction false} RepeatsCount(data: seq<Byte>, s: Byte)
    requires Repeats(data, s)
    ensures multiset(data)[s] == |data|
    decreases |data|
  {
    if data != [] {
      RepeatsCount(data[1..], s);
      assert data == [data[0]] + data[1..];
    }
  }

  /** Bytes whose codes are all empty encode to no bits. */
  lemma {:induction false} EncodedEmptyCodes(data: seq<Byte>, codes: map<Byte, Bits>)
    requires forall i :: 0 <= i < |data| ==> CodeOf(codes, data[i]) == []
    ensures Encoded(data, codes) == []
    decreases |data|
  {
    if data != [] {
      EncodedEmptyCodes(data[..|data| - 1], codes);
    }
  }

  /**
   * A single distinct byte makes the root a leaf, whose code is empty: nothing is
   * encoded and decompression yields nothing at all, whatever the input's length.
   */
  lemma SingleSymbolDecodesEmpty(data: seq<Byte>, s: Byte)
    requires |data| > 0 && Repeats(data, s)
    ensures Compress(data) == Ok(Compressed(map[s := |data|], 0, []))
    ensures Decompress(Compress(data).value) == Ok([])
  {
    RepeatsHistogram(data, s);
    LoneEntryTree(s, |data|);
    var codes := Codes(Leaf(s, |data|), []);
    EncodedEmptyCodes(data, codes);
  }

  /** Compression fails exactly on the empty input, whose map is empty. */
  lemma CompressFailsOnlyOnEmpty(data: seq<Byte>)
    ensures Compress(data).Err? <==> data == []
  {
    if data != [] {
      assert data[0] in Histogram(data);
    }
  }

  /** The counts of the input [1, 2]. */
  lemma TwoSymbolCounts()
    ensures Histogram([1, 2]) == map[1 := 1, 2 := 1]
  {
    var d: seq<Byte> := [1, 2];
    assert multiset(d)[1] == 1 && multiset(d)[2] == 1;
  }

  /** The two-leaf tree built for the counts of [1, 2]: byte 1 on the left, byte 2 on the right. */
  lemma TwoSymbolTree()
    ensures HuffmanTreeOf(map[1 := 1, 2 := 1]) == Merged(2, Leaf(1, 1), Leaf(2, 1))
  {
    var freqs: map<Byte, nat> := map[1 := 1, 2 := 1];
    assert InitialQueue(freqs) == [Leaf(1, 1), Leaf(2, 1)] by {
      QueueFromSkip(freqs, 0, 1);
      QueueFromSkip(freqs, 3, 256);
      assert QueueFrom(freqs, 2) == [Leaf(2, 1)];
    }
    TwoLeafMerge(Leaf(1, 1), Leaf(2, 1));
  }

  /** Two nodes of equal frequency merge with the one inserted first on the left. */
  lemma TwoLeafMerge(a: Tree, b: Tree)
    requires a.freq <= b.freq
    ensures MergeAll([a, b]) == Merged(a.freq + b.freq, a, b)
  {
    var q := [a, b];
    assert MinIndex(q) == 0;
    assert RemoveAt(q, 0) == [b];
    assert MergeStep(q) == [Merged(a.freq + b.freq, a, b)];
  }

  /** The codes of the two-leaf tree are 0 and 1. */
  lemma TwoSymbolBits()
    ensures Encoded([1, 2], Codes(Merged(2, Leaf(1, 1), Leaf(2, 1)), [])) == [false, true]
  {
    var codes := Codes(Merged(2, Leaf(1, 1), Leaf(2, 1)), []);
    var none: Bits := [];
    assert none + [false] == [false] && none + [true] == [true];
    assert codes == map[1 := [false], 2 := [true]];
    var d: seq<Byte> := [1, 2];
    var d1: seq<Byte> := [1];
    assert d[..1] == d1 && d1[..0] == [];
    assert Encoded(d1, codes) == [false];
  }

  /** The bits 01 pack into the byte 1. */
  lemma TwoSymbolPacked()
    ensures Packed([false, true]) == [1]
  {
    var bits: Bits := [false, true];
    assert bits[..2] == bits && bits[2..] == [];
    assert bits[..1] == [false] && [false][..0] == [];
    assert ChunkValue(bits) == 1;
  }

  /** The byte 1, read least significant bit first. */
  lemma UnpackOne()
    ensures Unpack([1]) == [true, false, false, false, false, false, false, false]
  {
    forall i | 1 <= i < 8 ensures !Bit(1, i) { ZeroBits(i - 1); }
    assert [1][1..] == [];
  }

  /**
   * With the cursor at a left-hand leaf just below the root, every 0 bit emits that
   * leaf's symbol and comes back down to it.
   */
  lemma {:induction false} LeftLeafRepeats(root: Tree, out: seq<Byte>, n: nat)
    requires root.Merged? && root.left.Leaf?
    ensures Run(root, Walker(out, Some(root.left)), seq(n, _ => false))
         == Ok(Walker(out + seq(n, _ => root.left.symbol), Some(root.left)))
    decreases n
  {
    if n > 0 {
      var s := root.left.symbol;
      assert seq(n, _ => false)[1..] == seq(n - 1, _ => false);
      LeftLeafRepeats(root, out + [s], n - 1);
      assert out + [s] + seq(n - 1, _ => s) == out + seq(n, _ => s);
    } else {
      assert out + seq(n, _ => root.left.symbol) == out;
    }
  }

  /** The first two bits, 10, reach the leaf of byte 2, then emit it and reach the leaf of byte 1. */
  lemma TwoSymbolHead()
    ensures Run(Merged(2, Leaf(1, 1), Leaf(2, 1)), Start(Merged(2, Leaf(1, 1), Leaf(2, 1))), [true, false])
         == Ok(Walker([2], Some(Leaf(1, 1))))
  {
    var root := Merged(2, Leaf(1, 1), Leaf(2, 1));
    var head: Bits := [true, false];
    var empty: seq<Byte> := [];
    assert empty + [2] == [2];
    assert head[1..] == [false] && [false][1..] == [];
    assert Step(root, Start(root), true) == Ok(Walker([], Some(Leaf(2, 1))));
    assert Step(root, Walker([], Some(Leaf(2, 1))), false) == Ok(Walker([2], Some(Leaf(1, 1))));
  }

  /**
   * The walk over 10000000 on the two-leaf tree: the 1 reaches the leaf of byte 2, and
   * every following 0 emits the leaf just reached and goes back down to the leaf of byte 1.
   */
  lemma TwoSymbolWalk()
    ensures Run(Merged(2, Leaf(1, 1), Leaf(2, 1)), Start(Merged(2, Leaf(1, 1), Leaf(2, 1))), [true, false, false, false, false, false, false, false])
         == Ok(Walker([2, 1, 1, 1, 1, 1, 1], Some(Leaf(1, 1))))
  {
    var root := Merged(2, Leaf(1, 1), Leaf(2, 1));
    var w := Walker([2], Some(Leaf(1, 1)));
    var zeros: Bits := [false, false, false, false, false, false];
    assert zeros == seq(6, _ => false);
    var head: Bits := [true, false];
    TwoSymbolHead();
    RunConcat(root, Start(root), head, zeros);
    assert head + zeros == [true, false, false, false, false, false, false, false];
    LeftLeafRepeats(root, [2], 6);
    var ones: seq<Byte> := [1, 1, 1, 1, 1, 1];
    assert ones == seq(6, _ => root.left.symbol);
    assert Run(root, w, zeros) == Ok(Walker([2] + ones, Some(Leaf(1, 1))));
    assert [2] + ones == [2, 1, 1, 1, 1, 1, 1];
  }

  /**
   * The input [1, 2] compresses to the bits 01, packed right-aligned into the byte 1;
   * read back least significant bit first they are 10000000, which decode to
   * [2, 1, 1, 1, 1, 1, 1].
   */
  lemma TwoSymbolsGarbled()
    ensures Compress([1, 2]) == Ok(Compressed(map[1 := 1, 2 := 1], 2, [1]))
    ensures Decompress(Compressed(map[1 := 1, 2 := 1], 2, [1])) == Ok([2, 1, 1, 1, 1, 1, 1])
  {
    TwoSymbolCounts();
    TwoSymbolTree();
    TwoSymbolBits();
    TwoSymbolPacked();
    UnpackOne();
    TwoSymbolWalk();
  }

  /**
   * Packing then unpacking a full chunk reverses it: the packer puts the first character
   * in bit 7, the unpacker reads bit 0 first.
   */
  lemma UnpackReversesChunk(chunk: Bits)
    requires |chunk| == 8
    ensures Unpack(Packed(chunk)) == seq(8, i requires 0 <= i < 8 => chunk[7 - i])
  {
    assert chunk[..8] == chunk && chunk[8..] == [];
    var v := Packed(chunk)[0];
    ChunkValueBits(chunk);
    assert Unpack(Packed(chunk)) == LsbBits(v);
  }
}
