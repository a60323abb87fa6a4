/**
 * Tree construction: `CompareNodes` and `buildHuffmanTree` (huffman.cpp:16-44).
 *
 * `std::priority_queue` does not say which of two nodes of equal frequency it hands
 * out first. The model fixes one rule: the lowest frequency first and, among equal
 * frequencies, the node inserted earliest. The queue is a sequence in insertion
 * order, the leaves are inserted in ascending byte order (the iteration order of the
 * frequency map) and every merged node is appended at the end.
 */
module TreeBuilder {
  import opened Types
  import opened HuffmanTree
  import opened Frequency
  import opened Bags

  /** The leaves pushed for the map entries with key `b` or above, in key order (huffman.cpp:25-27). */
  function QueueFrom(freqs: map<Byte, nat>, b: nat): seq<Tree>
    decreases 256 - b
  {
    if b >= 256 then []
    else (if b in freqs then [Leaf(b, freqs[b])] else []) + QueueFrom(freqs, b + 1)
  }

  /** The keys of `freqs` from `b` upwards. */
  ghost function KeysFrom(freqs: map<Byte, nat>, b: nat): set<Byte>
  {
    set k | k in freqs && b <= k
  }

  /** The pushed leaves are exactly the entries with key `b` or above, each once. */
  lemma {:induction false} QueueFromFacts(freqs: map<Byte, nat>, b: nat)
    ensures forall x :: x in QueueFrom(freqs, b) <==> x.Leaf? && b <= x.symbol && x.symbol in freqs && x.freq == freqs[x.symbol]
    ensures |QueueFrom(freqs, b)| == |KeysFrom(freqs, b)|
    decreases 256 - b
  {
    if b >= 256 {
      assert KeysFrom(freqs, b) == {};
    } else {
      QueueFromFacts(freqs, b + 1);
      var key: set<Byte> := if b in freqs then {b as Byte} else {};
      assert KeysFrom(freqs, b) == key + KeysFrom(freqs, b + 1);
      assert key !! KeysFrom(freqs, b + 1);
    }
  }

  /** The leaves are pushed in strictly ascending key order, the iteration order of the map. */
  lemma {:induction false} QueueFromAscending(freqs: map<Byte, nat>, b: nat)
    ensures forall i, j :: 0 <= i < j < |QueueFrom(freqs, b)| ==> Data(QueueFrom(freqs, b)[i]) < Data(QueueFrom(freqs, b)[j])
    decreases 256 - b
  {
    if b < 256 {
      var rest := QueueFrom(freqs, b + 1);
      QueueFromAscending(freqs, b + 1);
      QueueFromFacts(freqs, b + 1);
      if b in freqs {
        var q := QueueFrom(freqs, b);
        assert q == [Leaf(b, freqs[b])] + rest;
        forall i, j | 0 <= i < j < |q|
          ensures Data(q[i]) < Data(q[j])
        {
          assert q[j] == rest[j - 1] && q[j] in rest;
          if i > 0 { assert q[i] == rest[i - 1]; }
        }
      }
    }
  }

  /** The queue right after the pushes of huffman.cpp:25-27: one leaf per map entry. */
  function InitialQueue(freqs: map<Byte, nat>): seq<Tree>
  {
    QueueFrom(freqs, 0)
  }

  /** One leaf per map entry, and nothing else. */
  lemma InitialQueueFacts(freqs: map<Byte, nat>)
    ensures |InitialQueue(freqs)| == |freqs|
    ensures forall x :: x in InitialQueue(freqs) <==> x.Leaf? && x.symbol in freqs && x.freq == freqs[x.symbol]
  {
    QueueFromFacts(freqs, 0);
    assert KeysFrom(freqs, 0) == freqs.Keys;
  }

  /**
   * The position `pq.top()` reads under the model's tie-break, searching from position
   * `k`: a node of least frequency (`CompareNodes` orders by `freq` alone), the earliest
   * such.
   */
  function MinFrom(q: seq<Tree>, k: nat): (i: nat)
    requires k < |q|
    ensures k <= i < |q|
    ensures forall j :: k <= j < |q| ==> q[i].freq <= q[j].freq
    ensures forall j :: k <= j < i ==> q[i].freq < q[j].freq
    decreases |q| - k
  {
    if k == |q| - 1 then k
    else
      var m := MinFrom(q, k + 1);
      if q[m].freq < q[k].freq then m else k
  }

  /** The position of the node `pq.top()` returns. */
  function MinIndex(q: seq<Tree>): nat
    requires |q| > 0
  {
    MinFrom(q, 0)
  }

  /** The queue after `pq.pop()` took out position `i`. */
  function RemoveAt(q: seq<Tree>, i: nat): seq<Tree>
    requires i < |q|
  {
    q[..i] + q[i + 1..]
  }

  /** `pq.top()` followed by `pq.pop()`: the node handed out and the queue left behind. */
  function PopMin(q: seq<Tree>): (r: (Tree, seq<Tree>))
    requires |q| > 0
    ensures |r.1| == |q| - 1
  {
    var i := MinIndex(q);
    (q[i], RemoveAt(q, i))
  }

  /** The popped node has least frequency, and the rest of the queue is what remains. */
  lemma PopMinParts(q: seq<Tree>)
    requires |q| > 0
    ensures forall x :: x in q ==> PopMin(q).0.freq <= x.freq
    ensures multiset(PopMin(q).1) + multiset{PopMin(q).0} == multiset(q)
    ensures forall x :: x in PopMin(q).1 ==> x in q
  {
    var i := MinIndex(q);
    assert q == q[..i] + [q[i]] + q[i + 1..];
  }

  /**
   * One iteration of the `while (pq.size() > 1)` loop: pop the top as `left`, pop the
   * next top as `right`, push their merge (huffman.cpp:29-41).
   */
  function MergeStep(q: seq<Tree>): (q': seq<Tree>)
    requires |q| >= 2
    ensures |q'| == |q| - 1
  {
    var (left, q1) := PopMin(q);
    var (right, q2) := PopMin(q1);
    q2 + [Merged(left.freq + right.freq, left, right)]
  }

  /**
   * Each iteration takes out the two nodes of least frequency, `left` no heavier than
   * `right`, keeps every other node, and pushes one merged node that holds them.
   */
  lemma MergeStepTakesTwoSmallest(q: seq<Tree>)
    requires |q| >= 2
    ensures var q' := MergeStep(q);
            var m := q'[|q'| - 1];
            && m.Merged?
            && m.freq == m.left.freq + m.right.freq
            && m.left.freq <= m.right.freq
            && (forall x :: x in q ==> m.left.freq <= x.freq)
            && (forall x :: x in q'[..|q'| - 1] ==> m.right.freq <= x.freq)
            && multiset(q'[..|q'| - 1]) + multiset{m.left, m.right} == multiset(q)
  {
    var (left, q1) := PopMin(q);
    var (right, q2) := PopMin(q1);
    PopMinParts(q);
    PopMinParts(q1);
    var m := Merged(left.freq + right.freq, left, right);
    assert MergeStep(q) == q2 + [m];
    assert (q2 + [m])[..|q2|] == q2;
  }

  /** A merge step is the two pops followed by the push of their merge. */
  lemma MergeStepOf(q: seq<Tree>, left: Tree, q1: seq<Tree>, right: Tree, q2: seq<Tree>)
    requires |q| >= 2
    requires PopMin(q) == (left, q1) && PopMin(q1) == (right, q2)
    ensures MergeStep(q) == q2 + [Merged(left.freq + right.freq, left, right)]
  {
  }

  /** The loop run to the end: the node left in the queue once it holds a single node. */
  function MergeAll(q: seq<Tree>): Tree
    requires |q| > 0
    decreases |q|
  {
    if |q| == 1 then q[0] else MergeAll(MergeStep(q))
  }

  /** The root `buildHuffmanTree` returns for a non-empty frequency map. */
  function HuffmanTreeOf(freqs: map<Byte, nat>): Tree
    requires |freqs| > 0
  {
    InitialQueueFacts(freqs);
    MergeAll(InitialQueue(freqs))
  }

  /** A node's frequency. */
  function FreqOf(t: Tree): nat
  {
    t.freq
  }

  /** A node's leaves, as a bag. */
  function LeafBagOf(t: Tree): multiset<Tree>
  {
    multiset(Leaves(t))
  }

  /** The sum of the frequencies of a bag of nodes. */
  ghost function FreqSum(b: multiset<Tree>): nat
  {
    SumOf(b, FreqOf)
  }

  /** The leaves of a bag of nodes. */
  ghost function LeafBag(b: multiset<Tree>): multiset<Tree>
  {
    UnionOf(b, LeafBagOf)
  }

  /** The queue after a merge step: the other nodes plus the merged one, which holds the two taken out. */
  lemma MergeStepSplit(q: seq<Tree>) returns (rest: multiset<Tree>, m: Tree)
    requires |q| >= 2
    ensures m.Merged? && m.freq == m.left.freq + m.right.freq
    ensures multiset(MergeStep(q)) == rest + multiset{m}
    ensures multiset(q) == rest + multiset{m.left} + multiset{m.right}
  {
    var q' := MergeStep(q);
    var n := |q'| - 1;
    m := q'[n];
    MergeStepTakesTwoSmallest(q);
    rest := multiset(q'[..n]);
    assert q' == q'[..n] + [m];
  }

  /** A merge step keeps the total frequency of the queue. */
  lemma MergeStepKeepsFreq(q: seq<Tree>)
    requires |q| >= 2
    ensures FreqSum(multiset(MergeStep(q))) == FreqSum(multiset(q))
  {
    var rest, m := MergeStepSplit(q);
    SumOfAdd(rest, FreqOf, m);
    SumOfAdd(rest, FreqOf, m.left);
    SumOfAdd(rest + multiset{m.left}, FreqOf, m.right);
  }

  /** A merge step keeps the leaves of the queue. */
  lemma MergeStepKeepsLeaves(q: seq<Tree>)
    requires |q| >= 2
    ensures LeafBag(multiset(MergeStep(q))) == LeafBag(multiset(q))
  {
    var rest, m := MergeStepSplit(q);
    UnionOfAdd(rest, LeafBagOf, m);
    UnionOfAdd(rest, LeafBagOf, m.left);
    UnionOfAdd(rest + multiset{m.left}, LeafBagOf, m.right);
    assert LeafBagOf(m) == LeafBagOf(m.left) + LeafBagOf(m.right);
  }

  /** The root's frequency is the sum of the frequencies in the queue it was built from. */
  lemma {:induction false} MergeAllFreq(q: seq<Tree>)
    requires |q| > 0
    ensures MergeAll(q).freq == FreqSum(multiset(q))
    decreases |q|
  {
    if |q| == 1 {
      assert multiset(q) == multiset{} + multiset{q[0]};
      SumOfAdd(multiset{}, FreqOf, q[0]);
    } else {
      MergeStepKeepsFreq(q);
      MergeAllFreq(MergeStep(q));
    }
  }

  /** The root's leaves are exactly the leaves of the queue's nodes. */
  lemma {:induction false} MergeAllLeaves(q: seq<Tree>)
    requires |q| > 0
    ensures multiset(Leaves(MergeAll(q))) == LeafBag(multiset(q))
    decreases |q|
  {
    if |q| == 1 {
      assert multiset(q) == multiset{} + multiset{q[0]};
      UnionOfAdd(multiset{}, LeafBagOf, q[0]);
    } else {
      MergeStepKeepsLeaves(q);
      MergeAllLeaves(MergeStep(q));
    }
  }

  /** Merging well-formed nodes gives a well-formed tree: each merged frequency is its children's sum. */
  lemma {:induction false} MergeAllWellFormed(q: seq<Tree>)
    requires |q| > 0
    requires forall x :: x in q ==> WellFormed(x)
    ensures WellFormed(MergeAll(q))
    decreases |q|
  {
    if |q| > 1 {
      var q' := MergeStep(q);
      var n := |q'| - 1;
      var m := q'[n];
      MergeStepTakesTwoSmallest(q);
      assert m.left in multiset(q) && m.right in multiset(q);
      forall x | x in q' ensures WellFormed(x) {
        if x != m {
          assert x in q'[..n] by { assert q' == q'[..n] + [m]; }
          assert x in multiset(q);
        }
      }
      MergeAllWellFormed(q');
    }
  }

  /** The pushed leaves from key `b` upwards, split into the first one (if any) and the rest. */
  lemma QueueFromUnfold(freqs: map<Byte, nat>, b: nat)
    requires b < 256
    ensures b in freqs ==> multiset(QueueFrom(freqs, b)) == multiset(QueueFrom(freqs, b + 1)) + multiset{Leaf(b, freqs[b])}
    ensures b !in freqs ==> QueueFrom(freqs, b) == QueueFrom(freqs, b + 1)
  {
    if b in freqs {
      assert QueueFrom(freqs, b) == [Leaf(b, freqs[b])] + QueueFrom(freqs, b + 1);
    }
  }

  /** The pushed leaves carry the map's counts: their frequencies sum to the map's total. */
  lemma {:induction false} QueueFromFreqSum(freqs: map<Byte, nat>, b: nat)
    ensures FreqSum(multiset(QueueFrom(freqs, b))) == TotalFrom(freqs, b)
    decreases 256 - b
  {
    if b >= 256 {
      assert multiset(QueueFrom(freqs, b)) == multiset{};
    } else {
      QueueFromFreqSum(freqs, b + 1);
      QueueFromUnfold(freqs, b);
      if b in freqs {
        SumOfAdd(multiset(QueueFrom(freqs, b + 1)), FreqOf, Leaf(b, freqs[b]));
      }
    }
  }

  /** The pushed nodes are leaves: their leaves are themselves. */
  lemma {:induction false} QueueFromLeafBag(freqs: map<Byte, nat>, b: nat)
    ensures LeafBag(multiset(QueueFrom(freqs, b))) == multiset(QueueFrom(freqs, b))
    decreases 256 - b
  {
    if b >= 256 {
      assert multiset(QueueFrom(freqs, b)) == multiset{};
    } else {
      QueueFromLeafBag(freqs, b + 1);
      QueueFromUnfold(freqs, b);
      if b in freqs {
        var x := Leaf(b, freqs[b]);
        UnionOfAdd(multiset(QueueFrom(freqs, b + 1)), LeafBagOf, x);
        assert LeafBagOf(x) == multiset{x};
      }
    }
  }

  /** The leaves of the built tree are exactly the leaves first pushed, one per map entry. */
  lemma HuffmanTreeLeaves(freqs: map<Byte, nat>)
    requires |freqs| > 0
    ensures multiset(Leaves(HuffmanTreeOf(freqs))) == multiset(InitialQueue(freqs))
    ensures |Leaves(HuffmanTreeOf(freqs))| == |freqs|
  {
    var q := InitialQueue(freqs);
    InitialQueueFacts(freqs);
    MergeAllLeaves(q);
    QueueFromLeafBag(freqs, 0);
    assert |multiset(Leaves(HuffmanTreeOf(freqs)))| == |Leaves(HuffmanTreeOf(freqs))|;
  }

  /** Every merged node of the built tree carries its children's summed frequency. */
  lemma HuffmanTreeWellFormed(freqs: map<Byte, nat>)
    requires |freqs| > 0
    ensures WellFormed(HuffmanTreeOf(freqs))
  {
    InitialQueueFacts(freqs);
    MergeAllWellFormed(InitialQueue(freqs));
  }

  /** The root carries the sum of all the map's counts. */
  lemma HuffmanTreeFreq(freqs: map<Byte, nat>)
    requires |freqs| > 0
    ensures HuffmanTreeOf(freqs).freq == Total(freqs)
  {
    InitialQueueFacts(freqs);
    MergeAllFreq(InitialQueue(freqs));
    QueueFromFreqSum(freqs, 0);
  }

  /** The leaves of the built tree are exactly the map's entries. */
  lemma HuffmanTreeLeafEntries(freqs: map<Byte, nat>)
    requires |freqs| > 0
    ensures forall x :: x in Leaves(HuffmanTreeOf(freqs)) <==> x.Leaf? && x.symbol in freqs && x.freq == freqs[x.symbol]
  {
    var q := InitialQueue(freqs);
    InitialQueueFacts(freqs);
    HuffmanTreeLeaves(freqs);
    var ls := Leaves(HuffmanTreeOf(freqs));
    forall x ensures x in ls <==> x in q {
      assert x in ls <==> x in multiset(ls);
      assert x in q <==> x in multiset(q);
    }
  }

  /** One merged node per loop iteration: n entries give n - 1 merged nodes. */
  lemma HuffmanTreeMergedCount(freqs: map<Byte, nat>)
    requires |freqs| > 0
    ensures MergedCount(HuffmanTreeOf(freqs)) == |freqs| - 1
  {
    HuffmanTreeLeaves(freqs);
    MergedCountIsLeavesMinusOne(HuffmanTreeOf(freqs));
  }

  /** The symbols of the built tree are the map's keys. */
  lemma HuffmanTreeSymbols(freqs: map<Byte, nat>)
    requires |freqs| > 0
    ensures Symbols(HuffmanTreeOf(freqs)) == freqs.Keys
  {
    var root := HuffmanTreeOf(freqs);
    HuffmanTreeLeafEntries(freqs);
    forall s ensures s in Symbols(root) <==> s in freqs {
      SymbolsOfLeaves(root, s);
      if s in freqs { assert Leaf(s, freqs[s]) in Leaves(root); }
    }
  }

  /** No leaf is pushed for the keys in `[b, c)` when the map has none there. */
  lemma {:induction false} QueueFromSkip(freqs: map<Byte, nat>, b: nat, c: nat)
    requires b <= c <= 256
    requires forall k :: k in freqs ==> !(b <= k < c)
    ensures QueueFrom(freqs, b) == QueueFrom(freqs, c)
    decreases c - b
  {
    if b < c {
      QueueFromSkip(freqs, b + 1, c);
    }
  }

  /** A map with one entry gives a tree that is a single leaf: the loop never runs. */
  lemma LoneEntryTree(s: Byte, f: nat)
    ensures HuffmanTreeOf(map[s := f]) == Leaf(s, f)
  {
    var freqs := map[s := f];
    InitialQueueFacts(freqs);
    var q := InitialQueue(freqs);
    assert q[0] in q;
  }

  /**
   * `buildHuffmanTree`: push one leaf per map entry, then merge the two nodes of least
   * frequency until one node is left and return it. An empty map is outside its
   * contract: `pq.top()` on an empty queue is undefined (huffman.cpp:43).
   */
  method BuildTree(freqs: map<Byte, nat>) returns (root: Tree)
    requires |freqs| > 0
    ensures root == HuffmanTreeOf(freqs)
    ensures WellFormed(root) && root.freq == Total(freqs)
    ensures forall x :: x in Leaves(root) <==> x.Leaf? && x.symbol in freqs && x.freq == freqs[x.symbol]
    ensures |Leaves(root)| == |freqs| && MergedCount(root) == |freqs| - 1
  {
    var pq := InitialQueue(freqs);
    InitialQueueFacts(freqs);
    while |pq| > 1
      invariant |pq| > 0
      invariant MergeAll(pq) == HuffmanTreeOf(freqs)
      decreases |pq|
    {
      ghost var q0 := pq;
      var i := MinIndex(pq);
      var left := pq[i];
      pq := RemoveAt(pq, i);
      assert (left, pq) == PopMin(q0);
      ghost var q1 := pq;
      var j := MinIndex(pq);
      var right := pq[j];
      pq := RemoveAt(pq, j);
      assert (right, pq) == PopMin(q1);
      var merged := Merged(left.freq + right.freq, left, right);
      MergeStepOf(q0, left, q1, right, pq);
      pq := pq + [merged];
    }
    root := pq[0];
    HuffmanTreeWellFormed(freqs);
    HuffmanTreeFreq(freqs);
    HuffmanTreeLeafEntries(freqs);
    HuffmanTreeLeaves(freqs);
    HuffmanTreeMergedCount(freqs);
  }
}
