/**
 * Decoding in `decompressFile` (huffman.cpp:116-131): every payload byte is read into a
 * `std::bitset<8>`, its bits are taken in index order 0..7, and a cursor walks the tree.
 */
module Decoder {
  import opened Types
  import opened HuffmanTree
  import opened Encoder

  /** The bits `byte[0]`, ..., `byte[7]` of `std::bitset<8> byte(ch)`, least significant first. */
  function LsbBits(b: Byte): (bits: Bits)
    ensures |bits| == 8
  {
    seq(8, i requires 0 <= i < 8 => Bit(b, i))
  }

  /** The bits the decoding loop consumes, byte after byte. */
  function Unpack(bytes: seq<Byte>): Bits
    decreases |bytes|
  {
    if bytes == [] then [] else LsbBits(bytes[0]) + Unpack(bytes[1..])
  }

  /** The decoder's state: the output so far and `currentNode` (`None` is a null pointer). */
  datatype Walker = Walker(out: seq<Byte>, cursor: Option<Tree>)

  /** The state before the first byte: nothing decoded, the cursor at the root. */
  function Start(root: Tree): Walker
  {
    Walker([], Some(root))
  }

  /**
   * One pass of the inner loop body (huffman.cpp:121-129). A null cursor is
   * dereferenced by the leaf test; a cursor at a leaf emits the leaf's symbol and
   * returns to the root; then the cursor moves to the left child on a 0 bit and the
   * right child on a 1 bit.
   */
  function Step(root: Tree, w: Walker, bit: bool): Result<Walker>
  {
    match w.cursor
    case None => Err(NullDereference)
    case Some(n) =>
      if n.Leaf? then Ok(Walker(w.out + [Data(n)], Child(root, bit)))
      else Ok(Walker(w.out, Child(n, bit)))
  }

  /** The decoder run over a bit string, stopping at the first fault. */
  function Run(root: Tree, w: Walker, bits: Bits): Result<Walker>
    decreases |bits|
  {
    if bits == [] then Ok(w)
    else match Step(root, w, bits[0])
      case Err(f) => Err(f)
      case Ok(w') => Run(root, w', bits[1..])
  }

  /** Running over `a + b` is running over `a`, then over `b` from where `a` left off. */
  lemma {:induction false} RunConcat(root: Tree, w: Walker, a: Bits, b: Bits)
    ensures Run(root, w, a + b) == match Run(root, w, a)
      case Err(f) => Err(f)
      case Ok(w') => Run(root, w', b)
    decreases |a|
  {
    if a == [] {
      assert a + b == b;
    } else {
      assert (a + b)[0] == a[0];
      assert (a + b)[1..] == a[1..] + b;
      match Step(root, w, a[0])
      case Err(_) =>
      case Ok(w') => RunConcat(root, w', a[1..], b);
    }
  }

  /**
   * Along a path that stays in the tree the cursor only descends: nothing is emitted
   * and the cursor ends at the node the path leads to.
   */
  lemma {:induction false} DescendAlong(root: Tree, n: Tree, out: seq<Byte>, path: Bits)
    requires Follow(n, path).Some?
    ensures Run(root, Walker(out, Some(n)), path) == Ok(Walker(out, Follow(n, path)))
    decreases |path|
  {
    if path != [] {
      DescendAlong(root, Child(n, path[0]).value, out, path[1..]);
    }
  }

  /**
   * From a leaf, the first bit of the next code emits the leaf's symbol and starts again
   * from the root; the rest of the code descends.
   */
  lemma EmitAndDescend(root: Tree, leaf: Tree, out: seq<Byte>, path: Bits)
    requires leaf.Leaf? && path != [] && Follow(root, path).Some?
    ensures Run(root, Walker(out, Some(leaf)), path) == Ok(Walker(out + [leaf.symbol], Follow(root, path)))
  {
    var c := Child(root, path[0]).value;
    DescendAlong(root, c, out + [leaf.symbol], path[1..]);
  }

  /**
   * Decoding the concatenated codes of non-empty `data`, under a merged root whose codes
   * lead to their symbols' leaves, emits every symbol but the last one, in order: the
   * leaf test runs before a bit is consumed, so the last symbol's leaf is reached but
   * its emission waits for one more bit.
   */
  lemma {:induction false} RunOverCodes(root: Tree, codes: map<Byte, Bits>, data: seq<Byte>)
    requires root.Merged? && |data| > 0
    requires forall s :: s in data ==> s in codes && ReachesLeaf(root, codes[s], s)
    ensures Run(root, Start(root), Encoded(data, codes))
         == Ok(Walker(data[..|data| - 1], Follow(root, codes[data[|data| - 1]])))
    decreases |data|
  {
    var n := |data|;
    var init, x := data[..n - 1], data[n - 1];
    assert x in data;
    assert Encoded(data, codes) == Encoded(init, codes) + codes[x];
    if n == 1 {
      assert Encoded(init, codes) + codes[x] == codes[x];
      DescendAlong(root, root, [], codes[x]);
    } else {
      forall s | s in init ensures s in codes && ReachesLeaf(root, codes[s], s) {
        assert s in data;
      }
      RunOverCodes(root, codes, init);
      var y := init[n - 2];
      var leaf := Follow(root, codes[y]).value;
      RunConcat(root, Start(root), Encoded(init, codes), codes[x]);
      assert codes[x] != [];
      EmitAndDescend(root, leaf, init[..n - 2], codes[x]);
      assert init[..n - 2] + [y] == init;
    }
  }

  /** The unpacked bits of `bytes` from byte `k` on: byte `k`'s bits, then the rest. */
  lemma UnpackFrom(bytes: seq<Byte>, k: nat)
    requires k < |bytes|
    ensures Unpack(bytes[k..]) == LsbBits(bytes[k]) + Unpack(bytes[k + 1..])
  {
    assert bytes[k..][1..] == bytes[k + 1..];
  }

  /** Consuming the first bit of a non-empty bit string is one step. */
  lemma RunFirst(root: Tree, w: Walker, bits: Bits, rest: Bits, i: nat)
    requires i < |bits|
    ensures Run(root, w, bits[i..] + rest) == match Step(root, w, bits[i])
      case Err(f) => Err(f)
      case Ok(w') => Run(root, w', bits[i + 1..] + rest)
  {
    assert (bits[i..] + rest)[1..] == bits[i + 1..] + rest;
  }

  /**
   * The decoding loop over the payload bytes, bit 0 of each byte first
   * (huffman.cpp:116-131). Dereferencing a null cursor is reported as a fault.
   */
  method DecodeBytes(root: Tree, payload: seq<Byte>) returns (r: Result<Walker>)
    ensures r == Run(root, Start(root), Unpack(payload))
  {
    var cursor: Option<Tree> := Some(root);
    var out: seq<Byte> := [];
    var k := 0;
    while k < |payload|
      invariant 0 <= k <= |payload|
      invariant Run(root, Start(root), Unpack(payload)) == Run(root, Walker(out, cursor), Unpack(payload[k..]))
    {
      var byte := payload[k];
      UnpackFrom(payload, k);
      var i := 0;
      assert LsbBits(byte)[0..] == LsbBits(byte);
      while i < 8
        invariant 0 <= i <= 8
        invariant Run(root, Start(root), Unpack(payload))
               == Run(root, Walker(out, cursor), LsbBits(byte)[i..] + Unpack(payload[k + 1..]))
      {
        ghost var w := Walker(out, cursor);
        RunFirst(root, w, LsbBits(byte), Unpack(payload[k + 1..]), i);
        if cursor.None? {
          return Err(NullDereference);
        }
        var node := cursor.value;
        if node.Leaf? {
          out := out + [Data(node)];
          node := root;
        }
        cursor := Child(node, Bit(byte, i));
        assert Step(root, w, LsbBits(byte)[i]) == Ok(Walker(out, cursor));
        i := i + 1;
      }
      assert LsbBits(byte)[8..] + Unpack(payload[k + 1..]) == Unpack(payload[k + 1..]);
      k := k + 1;
    }
    assert payload[k..] == [];
    r := Ok(Walker(out, cursor));
  }
}
