/**
 * Encoding and packing in `compressFile`: the codes are concatenated in input order
 * (huffman.cpp:81-84), and the bit string is cut into 8-character chunks, each turned
 * into one byte by `std::bitset<8>(string)` (huffman.cpp:87-92).
 */
module Encoder {
  import opened Types
  import opened Frequency

  /**
   * `huffmanCodes[ch]`: `std::map::operator[]` yields an empty string for a byte that
   * has no code.
   */
  function CodeOf(codes: map<Byte, Bits>, ch: Byte): Bits
  {
    if ch in codes then codes[ch] else []
  }

  /** The bit string `compressedData` holds once every byte of `data` has been read. */
  function Encoded(data: seq<Byte>, codes: map<Byte, Bits>): Bits
    decreases |data|
  {
    if data == [] then [] else Encoded(data[..|data| - 1], codes) + CodeOf(codes, data[|data| - 1])
  }

  /** Encoding one more byte appends its code. */
  lemma EncodedSnoc(data: seq<Byte>, ch: Byte, codes: map<Byte, Bits>)
    ensures Encoded(data + [ch], codes) == Encoded(data, codes) + CodeOf(codes, ch)
  {
    assert (data + [ch])[..|data|] == data;
  }

  /** Encoding a concatenation encodes each part in turn. */
  lemma {:induction false} EncodedAppend(a: seq<Byte>, b: seq<Byte>, codes: map<Byte, Bits>)
    ensures Encoded(a + b, codes) == Encoded(a, codes) + Encoded(b, codes)
    decreases |b|
  {
    if b == [] {
      assert a + b == a;
    } else {
      var init := b[..|b| - 1];
      EncodedAppend(a, init, codes);
      EncodedAppendStep(a, b, codes, Encoded(a + init, codes));
    }
  }

  /** The inductive step of `EncodedAppend`: both sides end in the code of the last byte of `b`. */
  lemma EncodedAppendStep(a: seq<Byte>, b: seq<Byte>, codes: map<Byte, Bits>, e: Bits)
    requires b != []
    requires e == Encoded(a + b[..|b| - 1], codes) == Encoded(a, codes) + Encoded(b[..|b| - 1], codes)
    ensures Encoded(a + b, codes) == Encoded(a, codes) + Encoded(b, codes)
  {
    var init, x := b[..|b| - 1], b[|b| - 1];
    SnocAssoc(a, b);
    EncodedSnoc(a + init, x, codes);
    var c := CodeOf(codes, x);
    assert Encoded(b, codes) == Encoded(init, codes) + c;
    ConcatAssoc(Encoded(a, codes), Encoded(init, codes), c);
  }

  /** Splitting off the last byte of `b` splits off the last byte of `a + b`. */
  lemma SnocAssoc(a: seq<Byte>, b: seq<Byte>)
    requires b != []
    ensures a + b == (a + b[..|b| - 1]) + [b[|b| - 1]]
  {
    assert b == b[..|b| - 1] + [b[|b| - 1]];
  }

  /** Concatenation of bit strings is associative. */
  lemma ConcatAssoc(x: Bits, y: Bits, z: Bits)
    ensures (x + y) + z == x + (y + z)
  {
  }

  /**
   * The encoding loop: `compressedData += huffmanCodes[ch]` for every byte read, in
   * input order.
   */
  method EncodeBits(data: seq<Byte>, codes: map<Byte, Bits>) returns (bits: Bits)
    ensures bits == Encoded(data, codes)
  {
    bits := [];
    var i := 0;
    while i < |data|
      invariant 0 <= i <= |data|
      invariant bits == Encoded(data[..i], codes)
    {
      EncodedSnoc(data[..i], data[i], codes);
      assert data[..i + 1] == data[..i] + [data[i]];
      bits := bits + CodeOf(codes, data[i]);
      i := i + 1;
    }
    assert data[..i] == data;
  }

  /** The sum of count times code length over the bytes `b`, `b + 1`, ..., 255. */
  function CostFrom(freqs: map<Byte, nat>, codes: map<Byte, Bits>, b: nat): nat
    decreases 256 - b
  {
    if b >= 256 then 0 else CountOf(freqs, b) * |CodeOf(codes, b)| + CostFrom(freqs, codes, b + 1)
  }

  /** The weighted code length: the sum over all bytes of its count times its code's length. */
  function Cost(freqs: map<Byte, nat>, codes: map<Byte, Bits>): nat
  {
    CostFrom(freqs, codes, 0)
  }

  /** One more occurrence of `ch` adds the length of its code to every suffix sum that contains it. */
  lemma {:induction false} CostFromBump(freqs: map<Byte, nat>, codes: map<Byte, Bits>, ch: Byte, b: nat)
    ensures CostFrom(freqs[ch := CountOf(freqs, ch) + 1], codes, b)
         == CostFrom(freqs, codes, b) + (if b <= ch then |CodeOf(codes, ch)| else 0)
    decreases 256 - b
  {
    if b < 256 {
      CostFromBump(freqs, codes, ch, b + 1);
      var c := CountOf(freqs, b);
      var k := |CodeOf(codes, b)|;
      assert (c + 1) * k == c * k + k;
    }
  }

  /** The empty map has weighted length 0. */
  lemma {:induction false} CostZero(codes: map<Byte, Bits>, b: nat)
    ensures CostFrom(map[], codes, b) == 0
    decreases 256 - b
  {
    if b < 256 { CostZero(codes, b + 1); }
  }

  /** One more occurrence of `ch` adds the length of its code to the weighted code length. */
  lemma CostBump(freqs: map<Byte, nat>, codes: map<Byte, Bits>, ch: Byte)
    ensures Cost(freqs[ch := CountOf(freqs, ch) + 1], codes) == Cost(freqs, codes) + |CodeOf(codes, ch)|
  {
    CostFromBump(freqs, codes, ch, 0);
  }

  /**
   * The encoded bit string is as long as the sum, over the bytes, of each byte's count
   * times the length of its code.
   */
  lemma {:induction false} EncodedLength(data: seq<Byte>, codes: map<Byte, Bits>)
    ensures |Encoded(data, codes)| == Cost(Histogram(data), codes)
    decreases |data|
  {
    if data == [] {
      assert Histogram(data) == map[];
      CostZero(codes, 0);
    } else {
      EncodedLength(data[..|data| - 1], codes);
      HistogramLast(data);
      EncodedLengthStep(data, codes, Histogram(data[..|data| - 1]), Histogram(data));
    }
  }

  /** The inductive step of `EncodedLength`, stated over the two histograms as plain maps. */
  lemma EncodedLengthStep(data: seq<Byte>, codes: map<Byte, Bits>, h: map<Byte, nat>, h': map<Byte, nat>)
    requires data != []
    requires |Encoded(data[..|data| - 1], codes)| == Cost(h, codes)
    requires h' == h[data[|data| - 1] := CountOf(h, data[|data| - 1]) + 1]
    ensures |Encoded(data, codes)| == Cost(h', codes)
  {
    var ch := data[|data| - 1];
    CostBump(h, codes, ch);
    assert Encoded(data, codes) == Encoded(data[..|data| - 1], codes) + CodeOf(codes, ch);
  }

  /**
   * The value `std::bitset<8>(chunk).to_ulong()` gives a chunk of at most eight '0'/'1'
   * characters: the chunk read as a binary number, its last character being bit 0.
   */
  function ChunkValue(chunk: Bits): nat
    decreases |chunk|
  {
    if chunk == [] then 0
    else 2 * ChunkValue(chunk[..|chunk| - 1]) + (if chunk[|chunk| - 1] then 1 else 0)
  }

  /**
   * Reading a chunk as a binary number: character `j` is bit `|chunk| - 1 - j`, and
   * every bit from `|chunk|` upwards is 0, so the value is below 2^|chunk|.
   */
  lemma {:induction false} ChunkValueBits(chunk: Bits)
    ensures ChunkValue(chunk) < Pow2(|chunk|)
    ensures forall j :: 0 <= j < |chunk| ==> Bit(ChunkValue(chunk), |chunk| - 1 - j) == chunk[j]
    ensures forall i :: |chunk| <= i ==> !Bit(ChunkValue(chunk), i)
    decreases |chunk|
  {
    if chunk != [] {
      var n := |chunk|;
      var init := chunk[..n - 1];
      var v := ChunkValue(chunk);
      var w := ChunkValue(init);
      ChunkValueBits(init);
      assert v / 2 == w && v % 2 == (if chunk[n - 1] then 1 else 0);
      forall j | 0 <= j < n ensures Bit(v, n - 1 - j) == chunk[j] {
        if j < n - 1 {
          assert Bit(v, n - 1 - j) == Bit(w, n - 2 - j);
          assert init[j] == chunk[j];
        }
      }
      forall i | n <= i ensures !Bit(v, i) {
        assert Bit(v, i) == Bit(w, i - 1);
      }
    } else {
      forall i | 0 <= i ensures !Bit(0, i) {
        ZeroBits(i);
      }
    }
  }

  /** Every bit of 0 is clear. */
  lemma {:induction false} ZeroBits(i: nat)
    ensures !Bit(0, i)
  {
    if i > 0 { ZeroBits(i - 1); }
  }

  /** The smaller of two numbers. */
  function Min(a: nat, b: nat): nat
  {
    if a <= b then a else b
  }

  /**
   * The bytes the packing loop writes: one byte per chunk `compressedData.substr(i, 8)`,
   * for `i` = 0, 8, 16, ... below the length.
   */
  function Packed(bits: Bits): seq<Byte>
    decreases |bits|
  {
    if bits == [] then []
    else
      var n := Min(8, |bits|);
      ChunkValueByte(bits[..n]);
      [ChunkValue(bits[..n]) as Byte] + Packed(bits[n..])
  }

  /** A chunk of at most eight characters makes one byte. */
  lemma ChunkValueByte(chunk: Bits)
    requires |chunk| <= 8
    ensures ChunkValue(chunk) < 256
  {
    ChunkValueBits(chunk);
    PowMonotone(|chunk|, 8);
  }

  /** The packed bytes of the bits from `i` on: the chunk at `i`, then the bytes of the rest. */
  lemma PackedFrom(bits: Bits, i: nat)
    requires i < |bits|
    ensures ChunkValue(bits[i..Min(i + 8, |bits|)]) < 256
    ensures Packed(bits[i..]) == [ChunkValue(bits[i..Min(i + 8, |bits|)]) as Byte] + Packed(bits[Min(i + 8, |bits|)..])
  {
    var n, hi := Min(8, |bits| - i), Min(i + 8, |bits|);
    assert hi == i + n;
    var rest := bits[i..];
    assert rest[..n] == bits[i..hi];
    assert rest[n..] == bits[hi..];
    ChunkValueByte(bits[i..hi]);
  }

  /** 2^a <= 2^b when a <= b. */
  lemma {:induction false} PowMonotone(a: nat, b: nat)
    requires a <= b
    ensures Pow2(a) <= Pow2(b)
    decreases b
  {
    if a < b { PowMonotone(a, b - 1); }
  }

  /** The packed bytes from byte `k` on are the packed bits from bit `8k` on. */
  lemma {:induction false} PackedDrop(bits: Bits, k: nat)
    requires 8 * k <= |bits|
    ensures k <= |Packed(bits)| && Packed(bits)[k..] == Packed(bits[8 * k..])
    decreases k
  {
    if k == 0 {
      assert bits[0..] == bits;
    } else {
      var rest := bits[8..];
      var p := Packed(bits);
      assert Min(8, |bits|) == 8;
      ChunkValueByte(bits[..8]);
      assert p == [ChunkValue(bits[..8]) as Byte] + Packed(rest);
      PackedDrop(rest, k - 1);
      assert rest[8 * (k - 1)..] == bits[8 * k..];
      assert p[k..] == Packed(rest)[k - 1..];
    }
  }

  /** Byte `k` of the packed output is chunk `k` of the bit string, read as a binary number. */
  lemma PackedAt(bits: Bits, k: nat)
    requires 8 * k < |bits|
    ensures k < |Packed(bits)|
    ensures Packed(bits)[k] == ChunkValue(bits[8 * k .. Min(8 * k + 8, |bits|)])
  {
    var lo, hi := 8 * k, Min(8 * k + 8, |bits|);
    PackedDrop(bits, k);
    PackedFrom(bits, lo);
    var p, t := Packed(bits), Packed(bits[lo..]);
    assert t[0] == ChunkValue(bits[lo..hi]);
    assert p[k] == p[k..][0];
  }

  /** A bit string of length L packs into ceil(L / 8) bytes. */
  lemma {:induction false} PackedLength(bits: Bits)
    ensures |Packed(bits)| == (|bits| + 7) / 8
    decreases |bits|
  {
    if bits != [] {
      PackedLength(bits[Min(8, |bits|)..]);
    }
  }

  /**
   * The layout of the packed bytes: character `8k + j` of a full chunk is bit `7 - j`
   * of byte `k` (the first character is the most significant bit); a short final chunk
   * of `r` characters is right-aligned, its character `j` being bit `r - 1 - j` and the
   * bits from `r` upwards being 0.
   */
  lemma PackedLayout(bits: Bits, k: nat, j: nat)
    requires 8 * k + j < |bits| && j < 8
    ensures k < |Packed(bits)|
    ensures var r := Min(8, |bits| - 8 * k);
            Bit(Packed(bits)[k], r - 1 - j) == bits[8 * k + j]
  {
    PackedAt(bits, k);
    var chunk := bits[8 * k .. Min(8 * k + 8, |bits|)];
    var r := Min(8, |bits| - 8 * k);
    assert |chunk| == r && chunk[j] == bits[8 * k + j];
    ChunkBitAt(chunk, j);
  }

  /** Character `j` of a chunk is bit `|chunk| - 1 - j` of its value. */
  lemma ChunkBitAt(chunk: Bits, j: nat)
    requires j < |chunk|
    ensures Bit(ChunkValue(chunk), |chunk| - 1 - j) == chunk[j]
  {
    ChunkValueBits(chunk);
  }

  /** The high bits of a short final chunk are 0. */
  lemma PackedHighBitsClear(bits: Bits, k: nat, i: nat)
    requires 8 * k < |bits| && |bits| - 8 * k <= i
    ensures k < |Packed(bits)|
    ensures !Bit(Packed(bits)[k], i)
  {
    PackedAt(bits, k);
    ChunkValueBits(bits[8 * k .. Min(8 * k + 8, |bits|)]);
  }

  /**
   * The packing step: the padding value `compressedData.length() % 8` and the loop that
   * writes one byte per 8-character chunk (huffman.cpp:87-92).
   */
  method PackBits(bits: Bits) returns (padding: Byte, payload: seq<Byte>)
    ensures padding == |bits| % 8
    ensures payload == Packed(bits)
  {
    padding := |bits| % 8;
    payload := [];
    var i := 0;
    while i < |bits|
      invariant i % 8 == 0
      invariant payload + Packed(bits[Min(i, |bits|)..]) == Packed(bits)
      decreases |bits| - i
    {
      assert Min(i, |bits|) == i;
      var hi := Min(i + 8, |bits|);
      PackedFrom(bits, i);
      ghost var tail := Packed(bits[hi..]);
      ghost var before := payload;
      payload := payload + [ChunkValue(bits[i..hi]) as Byte];
      assert payload + tail == before + ([ChunkValue(bits[i..hi]) as Byte] + tail);
      i := i + 8;
    }
    assert bits[Min(i, |bits|)..] == [];
  }
}
