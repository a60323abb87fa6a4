/**
 * Code generation: `generateHuffmanCodes` (huffman.cpp:46-57), started from the root
 * with the empty code (huffman.cpp:71). The code map the source fills through its
 * out-parameter is the function's result.
 */
module CodeGen {
  import opened Types
  import opened HuffmanTree

  /**
   * `generateHuffmanCodes` as written: a node counts as a leaf when its `data` is not
   * '\0'. A leaf holding byte 0 fails that test, recurses into its two null children
   * and records nothing; a merged node (whose `data` is '\0') recurses with '0' for
   * the left child and '1' for the right one.
   */
  function Codes(t: Tree, code: Bits): map<Byte, Bits>
  {
    if Data(t) != 0 then map[Data(t) := code]
    else match t
      case Leaf(_, _) => map[]
      case Merged(_, l, r) => Codes(l, code + [false]) + Codes(r, code + [true])
  }

  /** The code map with leaves recognised by having no children: every leaf gets its path. */
  function PathCodes(t: Tree, code: Bits): map<Byte, Bits>
  {
    match t
    case Leaf(s, _) => map[s := code]
    case Merged(_, l, r) => PathCodes(l, code + [false]) + PathCodes(r, code + [true])
  }

  /** Taking `bit` at a merged node and then `rest` is following `rest` from that child. */
  lemma FollowCons(t: Tree, bit: bool, rest: Bits)
    requires t.Merged?
    ensures Follow(t, [bit] + rest) == Follow(if bit then t.right else t.left, rest)
  {
    assert ([bit] + rest)[1..] == rest;
  }

  /**
   * The code recorded for `s` extends the seed `code`, and the bits it adds lead from
   * `t` to the leaf holding `s`: a '0' goes left, a '1' goes right.
   */
  lemma {:induction false} PathCodeReachesLeaf(t: Tree, code: Bits, s: Byte)
    requires s in PathCodes(t, code)
    ensures code <= PathCodes(t, code)[s]
    ensures ReachesLeaf(t, PathCodes(t, code)[s][|code|..], s)
  {
    match t
    case Leaf(_, _) =>
      assert PathCodes(t, code)[s][|code|..] == [];
    case Merged(_, l, r) =>
      var c := PathCodes(t, code)[s];
      var bit := s in PathCodes(r, code + [true]);
      var child := if bit then r else l;
      PathCodeReachesLeaf(child, code + [bit], s);
      assert c == PathCodes(child, code + [bit])[s];
      assert c[|code|..] == [bit] + c[|code| + 1..];
      FollowCons(t, bit, c[|code| + 1..]);
  }

  /** Exactly the tree's symbols receive a code. */
  lemma {:induction false} PathCodesDomain(t: Tree, code: Bits)
    ensures PathCodes(t, code).Keys == Symbols(t)
  {
    match t
    case Leaf(_, _) =>
    case Merged(_, l, r) =>
      PathCodesDomain(l, code + [false]);
      PathCodesDomain(r, code + [true]);
  }

  /** From the root, a symbol's code is a path from the root to its leaf. */
  lemma RootCodeReachesLeaf(t: Tree, s: Byte)
    requires s in PathCodes(t, [])
    ensures ReachesLeaf(t, PathCodes(t, [])[s], s)
  {
    PathCodeReachesLeaf(t, [], s);
    assert PathCodes(t, [])[s][0..] == PathCodes(t, [])[s];
  }

  /** The codes are prefix-free: no symbol's code is a prefix of another symbol's code. */
  lemma PathCodesPrefixFree(t: Tree, s1: Byte, s2: Byte)
    requires s1 in PathCodes(t, []) && s2 in PathCodes(t, []) && s1 != s2
    ensures !(PathCodes(t, [])[s1] <= PathCodes(t, [])[s2])
  {
    var m := PathCodes(t, []);
    RootCodeReachesLeaf(t, s1);
    RootCodeReachesLeaf(t, s2);
    if m[s1] <= m[s2] {
      LeafPathIsMaximal(t, m[s1], m[s2]);
      assert false;
    }
  }

  /** Below a merged root every code is at least one bit long. */
  lemma MergedRootCodesNonEmpty(t: Tree, s: Byte)
    requires t.Merged? && s in PathCodes(t, [])
    ensures |PathCodes(t, [])[s]| > 0
  {
    RootCodeReachesLeaf(t, s);
  }

  /** The source's map is the path map with byte 0 taken out: byte 0 never receives a code. */
  lemma {:induction false} CodesSkipZero(t: Tree, code: Bits)
    ensures Codes(t, code) == PathCodes(t, code) - {0}
  {
    match t
    case Leaf(_, _) =>
    case Merged(_, l, r) =>
      CodesSkipZero(l, code + [false]);
      CodesSkipZero(r, code + [true]);
      var a, b := PathCodes(l, code + [false]), PathCodes(r, code + [true]);
      assert (a + b) - {0} == (a - {0}) + (b - {0});
  }

  /**
   * What the source's code map holds: the tree's symbols other than byte 0, each with
   * its root-to-leaf path, and no code a prefix of another.
   */
  lemma CodesAsWritten(t: Tree)
    ensures Codes(t, []).Keys == Symbols(t) - {0}
    ensures forall s :: s in Codes(t, []) ==> ReachesLeaf(t, Codes(t, [])[s], s)
    ensures forall s1, s2 :: s1 in Codes(t, []) && s2 in Codes(t, []) && s1 != s2 ==> !(Codes(t, [])[s1] <= Codes(t, [])[s2])
  {
    CodesSkipZero(t, []);
    PathCodesDomain(t, []);
    forall s | s in Codes(t, []) ensures ReachesLeaf(t, Codes(t, [])[s], s) {
      RootCodeReachesLeaf(t, s);
    }
    forall s1, s2 | s1 in Codes(t, []) && s2 in Codes(t, []) && s1 != s2
      ensures !(Codes(t, [])[s1] <= Codes(t, [])[s2])
    {
      PathCodesPrefixFree(t, s1, s2);
    }
  }
}
