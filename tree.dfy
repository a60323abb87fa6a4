/** The Huffman tree (`HuffmanNode`, huffman.cpp:7-14) as an algebraic datatype. */
module HuffmanTree {
  import opened Types

  /**
   * A leaf is a node built by `new HuffmanNode(entry.first, entry.second)`: it carries
   * a symbol and two null children. A merged node is built with data '\0' and the two
   * nodes taken off the queue as its children.
   */
  datatype Tree =
    | Leaf(symbol: Byte, freq: nat)
    | Merged(freq: nat, left: Tree, right: Tree)

  /** The node's `data` field: a merged node stores '\0'. */
  function Data(t: Tree): Byte
  {
    if t.Leaf? then t.symbol else 0
  }

  /** The child pointer taken on `bit` ('0' is left, '1' is right); `None` is a null pointer. */
  function Child(t: Tree, bit: bool): Option<Tree>
  {
    match t
    case Leaf(_, _) => None
    case Merged(_, l, r) => Some(if bit then r else l)
  }

  /** The node reached from `t` along `path`, or `None` once a null child is taken. */
  function Follow(t: Tree, path: Bits): Option<Tree>
    decreases |path|
  {
    if path == [] then Some(t)
    else match Child(t, path[0])
      case None => None
      case Some(c) => Follow(c, path[1..])
  }

  /** `path` leads from `t` to a leaf holding `s`. */
  predicate ReachesLeaf(t: Tree, path: Bits, s: Byte)
  {
    var n := Follow(t, path);
    n.Some? && n.value.Leaf? && n.value.symbol == s
  }

  /** Every merged node's frequency is the sum of its children's (huffman.cpp:36). */
  predicate WellFormed(t: Tree)
  {
    match t
    case Leaf(_, _) => true
    case Merged(f, l, r) => f == l.freq + r.freq && WellFormed(l) && WellFormed(r)
  }

  /** The leaves of `t`, left to right. */
  function Leaves(t: Tree): (ls: seq<Tree>)
    ensures |ls| > 0
  {
    match t
    case Leaf(_, _) => [t]
    case Merged(_, l, r) => Leaves(l) + Leaves(r)
  }

  /** The symbols held by the leaves of `t`. */
  function Symbols(t: Tree): set<Byte>
  {
    match t
    case Leaf(s, _) => {s}
    case Merged(_, l, r) => Symbols(l) + Symbols(r)
  }

  /** The number of merged (internal) nodes of `t`. */
  function MergedCount(t: Tree): nat
  {
    match t
    case Leaf(_, _) => 0
    case Merged(_, l, r) => 1 + MergedCount(l) + MergedCount(r)
  }

  /** A binary tree with n leaves has n - 1 internal nodes: one per merge. */
  lemma {:induction false} MergedCountIsLeavesMinusOne(t: Tree)
    ensures MergedCount(t) == |Leaves(t)| - 1
  {
    match t
    case Leaf(_, _) =>
    case Merged(_, l, r) =>
      MergedCountIsLeavesMinusOne(l);
      MergedCountIsLeavesMinusOne(r);
  }

  /** Every node `Leaves` lists is a leaf. */
  lemma {:induction false} LeavesAreLeaves(t: Tree)
    ensures forall x :: x in Leaves(t) ==> x.Leaf?
  {
    match t
    case Leaf(_, _) =>
    case Merged(_, l, r) =>
      LeavesAreLeaves(l);
      LeavesAreLeaves(r);
  }

  /** A symbol is held by a leaf exactly when it is one of the tree's symbols. */
  lemma {:induction false} SymbolsOfLeaves(t: Tree, s: Byte)
    ensures s in Symbols(t) <==> exists f :: Leaf(s, f) in Leaves(t)
  {
    match t
    case Leaf(s', f') =>
      if s == s' { assert Leaf(s, f') in Leaves(t); }
    case Merged(_, l, r) =>
      SymbolsOfLeaves(l, s);
      SymbolsOfLeaves(r, s);
      if s in Symbols(t) {
        if s in Symbols(l) {
          var f :| Leaf(s, f) in Leaves(l);
          assert Leaf(s, f) in Leaves(t);
        } else {
          var f :| Leaf(s, f) in Leaves(r);
          assert Leaf(s, f) in Leaves(t);
        }
      }
  }

  /** Following a path further than a leaf falls off the tree: a leaf's path is no proper prefix of another path. */
  lemma {:induction false} LeafPathIsMaximal(t: Tree, u: Bits, v: Bits)
    requires Follow(t, u).Some? && Follow(t, u).value.Leaf?
    requires u <= v && Follow(t, v).Some?
    ensures u == v
    decreases |u|
  {
    if u != [] {
      assert v[0] == u[0];
      var c := Child(t, u[0]).value;
      assert u[1..] <= v[1..];
      LeafPathIsMaximal(c, u[1..], v[1..]);
      assert u == [u[0]] + u[1..] && v == [v[0]] + v[1..];
    }
  }
}
