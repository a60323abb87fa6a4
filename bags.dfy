/**
 * Sums and unions over bags (multisets), used to follow what a priority queue holds
 * independently of the order its nodes are kept in.
 */
module Bags {
  /** Some element of a non-empty bag. */
  ghost function Pick<T>(b: multiset<T>): (x: T)
    requires b != multiset{}
    ensures x in b
  {
    var x :| x in b; x
  }

  /** The sum of `f` over the bag. */
  ghost function SumOf<T>(b: multiset<T>, f: T -> nat): nat
    decreases |b|
  {
    if b == multiset{} then 0 else f(Pick(b)) + SumOf(b - multiset{Pick(b)}, f)
  }

  /** The union of `f` over the bag. */
  ghost function UnionOf<T, U>(b: multiset<T>, f: T -> multiset<U>): multiset<U>
    decreases |b|
  {
    if b == multiset{} then multiset{} else f(Pick(b)) + UnionOf(b - multiset{Pick(b)}, f)
  }

  lemma RemoveBoth<T>(b: multiset<T>, x: T, y: T)
    ensures b - multiset{x} - multiset{y} == b - multiset{y} - multiset{x}
  {
  }

  lemma SwapFront<U>(a: multiset<U>, b: multiset<U>, c: multiset<U>)
    ensures a + (b + c) == b + (a + c)
  {
  }

  /** The sum does not depend on which element is taken out first. */
  lemma {:induction false} SumOfRemove<T>(b: multiset<T>, f: T -> nat, y: T)
    requires y in b
    ensures SumOf(b, f) == f(y) + SumOf(b - multiset{y}, f)
    decreases |b|
  {
    var x := Pick(b);
    if x != y {
      var rx, ry := b - multiset{x}, b - multiset{y};
      assert y in rx && x in ry;
      SumOfRemove(rx, f, y);
      SumOfRemove(ry, f, x);
      RemoveBoth(b, x, y);
    }
  }

  /** The union does not depend on which element is taken out first. */
  lemma {:induction false} UnionOfRemove<T, U>(b: multiset<T>, f: T -> multiset<U>, y: T)
    requires y in b
    ensures UnionOf(b, f) == f(y) + UnionOf(b - multiset{y}, f)
    decreases |b|
  {
    var x := Pick(b);
    if x != y {
      var rx, ry := b - multiset{x}, b - multiset{y};
      assert y in rx && x in ry;
      UnionOfRemove(rx, f, y);
      UnionOfRemove(ry, f, x);
      var rest := rx - multiset{y};
      RemoveBoth(b, x, y);
      var fx, fy, g := f(x), f(y), UnionOf(rest, f);
      assert UnionOf(b, f) == fx + UnionOf(rx, f);
      SwapFront(fx, fy, g);
    }
  }

  /** Adding an element adds its value to the sum. */
  lemma SumOfAdd<T>(b: multiset<T>, f: T -> nat, y: T)
    ensures SumOf(b + multiset{y}, f) == SumOf(b, f) + f(y)
  {
    SumOfRemove(b + multiset{y}, f, y);
    assert b + multiset{y} - multiset{y} == b;
  }

  /** Adding an element adds its part to the union. */
  lemma UnionOfAdd<T, U>(b: multiset<T>, f: T -> multiset<U>, y: T)
    ensures UnionOf(b + multiset{y}, f) == UnionOf(b, f) + f(y)
  {
    UnionOfRemove(b + multiset{y}, f, y);
    assert b + multiset{y} - multiset{y} == b;
  }
}
