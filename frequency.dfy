/** Frequency counting: the `freqMap[ch]++` loop of `compressFile` (huffman.cpp:63-67). */
module Frequency {
  import opened Types

  /** The occurrence count of every byte that occurs in `data`. */
  function Histogram(data: seq<Byte>): map<Byte, nat>
  {
    map b | b in data :: multiset(data)[b]
  }

  /** `freqs[b]` with `std::map::operator[]`'s default of 0 for an absent key. */
  function CountOf(freqs: map<Byte, nat>, b: Byte): nat
  {
    if b in freqs then freqs[b] else 0
  }

  /** The sum of the counts of the symbols `b`, `b + 1`, ..., 255. */
  function TotalFrom(freqs: map<Byte, nat>, b: nat): nat
    decreases 256 - b
  {
    if b >= 256 then 0 else CountOf(freqs, b) + TotalFrom(freqs, b + 1)
  }

  /** The sum of all counts of a frequency map. */
  function Total(freqs: map<Byte, nat>): nat
  {
    TotalFrom(freqs, 0)
  }

  /** Counting one more byte updates exactly that byte's entry. */
  lemma HistogramSnoc(data: seq<Byte>, ch: Byte)
    ensures Histogram(data + [ch]) == Histogram(data)[ch := CountOf(Histogram(data), ch) + 1]
  {
    var d := data + [ch];
    assert multiset(d) == multiset(data) + multiset{ch};
    assert ch in d by { assert d[|data|] == ch; }
  }

  /** The histogram of a non-empty input is that of all but its last byte, with the last byte counted once more. */
  lemma HistogramLast(data: seq<Byte>)
    requires data != []
    ensures Histogram(data) == Histogram(data[..|data| - 1])[data[|data| - 1] := CountOf(Histogram(data[..|data| - 1]), data[|data| - 1]) + 1]
  {
    var init, ch := data[..|data| - 1], data[|data| - 1];
    assert data == init + [ch];
    HistogramSnoc(init, ch);
  }

  /** Raising one count by one raises the sum of every suffix that contains it by one. */
  lemma {:induction false} TotalFromBump(freqs: map<Byte, nat>, ch: Byte, b: nat)
    ensures TotalFrom(freqs[ch := CountOf(freqs, ch) + 1], b)
         == TotalFrom(freqs, b) + (if b <= ch then 1 else 0)
    decreases 256 - b
  {
    if b < 256 {
      TotalFromBump(freqs, ch, b + 1);
    }
  }

  /** The counts sum to the input length (huffman.cpp:63-67). */
  lemma {:induction false} HistogramTotal(data: seq<Byte>)
    ensures Total(Histogram(data)) == |data|
    decreases |data|
  {
    if data == [] {
      TotalZero(Histogram(data), 0);
    } else {
      HistogramTotal(data[..|data| - 1]);
      HistogramLast(data);
      TotalStep(Histogram(data[..|data| - 1]), Histogram(data), data[|data| - 1]);
    }
  }

  /** Counting one more occurrence of `ch` raises the sum of the counts by one. */
  lemma TotalStep(h: map<Byte, nat>, h': map<Byte, nat>, ch: Byte)
    requires h' == h[ch := CountOf(h, ch) + 1]
    ensures Total(h') == Total(h) + 1
  {
    TotalFromBump(h, ch, 0);
  }

  /** The empty map sums to 0. */
  lemma {:induction false} TotalZero(freqs: map<Byte, nat>, b: nat)
    requires freqs == map[]
    ensures TotalFrom(freqs, b) == 0
    decreases 256 - b
  {
    if b < 256 { TotalZero(freqs, b + 1); }
  }

  /**
   * The counting loop: `freqMap[ch]++` for every byte read. Every byte that occurs
   * gets exactly its number of occurrences, no other byte gets an entry, and the
   * counts sum to the input length.
   */
  method CountFrequencies(data: seq<Byte>) returns (freqs: map<Byte, nat>)
    ensures freqs == Histogram(data)
    ensures forall b :: b in freqs <==> b in data
    ensures forall b :: b in freqs ==> freqs[b] == multiset(data)[b] > 0
    ensures Total(freqs) == |data|
  {
    freqs := map[];
    var i := 0;
    while i < |data|
      invariant 0 <= i <= |data|
      invariant freqs == Histogram(data[..i])
    {
      var ch := data[i];
      HistogramSnoc(data[..i], ch);
      assert data[..i + 1] == data[..i] + [ch];
      freqs := freqs[ch := CountOf(freqs, ch) + 1];
      i := i + 1;
    }
    assert data[..i] == data;
    HistogramTotal(data);
  }
}
