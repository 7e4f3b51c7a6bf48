/** Cart lines and the arithmetic over sequences of them that the cart and the
    packages share: the two per-package ceilings, weight and price totals, and
    the flattening of a list of packages into the items they hold. */
module Items {

  /** The per-package ceilings: 5000 grams and $250.00, the price written in cents. */
  const WEIGHT_CAP: nat := 5000
  const PRICE_CAP: nat := 25000

  /** One cart line: a name, a weight in grams and a price in cents. */
  datatype Item = Item(name: string, weight: nat, price: nat)

  function SumWeight(s: seq<Item>): nat
  {
    if s == [] then 0 else s[0].weight + SumWeight(s[1..])
  }

  function SumPrice(s: seq<Item>): nat
  {
    if s == [] then 0 else s[0].price + SumPrice(s[1..])
  }

  /** The items of `s` would fit in one package. */
  predicate FitsCaps(s: seq<Item>)
  {
    SumWeight(s) <= WEIGHT_CAP && SumPrice(s) <= PRICE_CAP
  }

  /** Both totals distribute over concatenation. */
  lemma {:induction false} SumConcat(a: seq<Item>, b: seq<Item>)
    ensures SumWeight(a + b) == SumWeight(a) + SumWeight(b)
    ensures SumPrice(a + b) == SumPrice(a) + SumPrice(b)
  {
    if a == [] {
      assert a + b == b;
    } else {
      assert (a + b)[1..] == a[1..] + b;
      SumConcat(a[1..], b);
    }
  }

  /** A sub-multiset of items weighs and costs no more than the whole. */
  lemma {:induction false} SubMultisetSums(a: seq<Item>, b: seq<Item>)
    requires multiset(a) <= multiset(b)
    ensures SumWeight(a) <= SumWeight(b)
    ensures SumPrice(a) <= SumPrice(b)
  {
    if a != [] {
      var x := a[0];
      assert x in multiset(a);
      var k := TakeOut(b, x);
      var rest := b[..k] + b[k + 1..];
      assert a == [x] + a[1..];
      assert multiset(a[1..]) <= multiset(rest);
      SubMultisetSums(a[1..], rest);
      SumConcat(b[..k] + [x], b[k + 1..]);
      SumConcat(b[..k], [x]);
      SumConcat(b[..k], b[k + 1..]);
    }
  }

  /** Reordering items changes neither total. */
  lemma PermutationSums(a: seq<Item>, b: seq<Item>)
    requires multiset(a) == multiset(b)
    ensures SumWeight(a) == SumWeight(b)
    ensures SumPrice(a) == SumPrice(b)
  {
    SubMultisetSums(a, b);
    SubMultisetSums(b, a);
  }

  /** An element of `b` sits at some index `k`; taking it out there leaves
      the rest of `b`. */
  lemma TakeOut<T>(b: seq<T>, x: T) returns (k: nat)
    requires x in multiset(b)
    ensures k < |b| && b[k] == x
    ensures b == b[..k] + [x] + b[k + 1..]
    ensures multiset(b[..k] + b[k + 1..]) == multiset(b) - multiset{x}
  {
    var i :| 0 <= i < |b| && b[i] == x;
    k := i;
    assert b == b[..k] + [x] + b[k + 1..];
  }

  /** Swapping two neighbours reorders a sequence without changing what it
      holds; both insertion sorts are made of such swaps. */
  lemma SwapNeighbours<T>(s: seq<T>, j: nat)
    requires 0 < j < |s|
    ensures multiset(s[j - 1 := s[j]][j := s[j - 1]]) == multiset(s)
  {
    assert s[j - 1 := s[j]][j := s[j - 1]] == s[..j - 1] + [s[j], s[j - 1]] + s[j + 1..];
    assert s == s[..j - 1] + [s[j - 1], s[j]] + s[j + 1..];
  }

  /** The items of a list of packages, package after package. */
  function Flatten(c: seq<seq<Item>>): seq<Item>
  {
    if c == [] then [] else c[0] + Flatten(c[1..])
  }

  /** Flattening distributes over concatenation. */
  lemma {:induction false} FlattenConcat(a: seq<seq<Item>>, b: seq<seq<Item>>)
    ensures Flatten(a + b) == Flatten(a) + Flatten(b)
  {
    if a == [] {
      assert a + b == b;
    } else {
      assert (a + b)[1..] == a[1..] + b;
      FlattenConcat(a[1..], b);
    }
  }

  /** What a list of packages holds is what one of them holds plus what the
      others hold. */
  lemma {:induction false} FlattenRemoveAt(c: seq<seq<Item>>, k: nat)
    requires k < |c|
    ensures multiset(Flatten(c)) == multiset(c[k]) + multiset(Flatten(c[..k] + c[k + 1..]))
  {
    var before, after := c[..k], c[k + 1..];
    assert c == before + [c[k]] + after;
    FlattenConcat(before + [c[k]], after);
    FlattenConcat(before, [c[k]]);
    FlattenConcat(before, after);
    assert Flatten([c[k]]) == c[k] + Flatten([]);
    assert Flatten(c) == Flatten(before) + c[k] + Flatten(after);
    assert Flatten(before + after) == Flatten(before) + Flatten(after);
  }

  /** Appending one item to one package adds exactly that item to what the
      packages hold together. */
  lemma {:induction false} FlattenAppendAt(c: seq<seq<Item>>, k: nat, x: Item)
    requires k < |c|
    ensures multiset(Flatten(c[k := c[k] + [x]])) == multiset(Flatten(c)) + multiset{x}
  {
    var d := c[k := c[k] + [x]];
    if k == 0 {
      assert d[1..] == c[1..];
      assert Flatten(d) == c[0] + [x] + Flatten(c[1..]);
    } else {
      assert d[1..] == c[1..][k - 1 := c[k] + [x]];
      FlattenAppendAt(c[1..], k - 1, x);
      assert Flatten(d) == c[0] + Flatten(d[1..]);
    }
  }

  /** Packages that each respect the ceilings hold, together, at most their
      number times each ceiling. */
  lemma {:induction false} FlattenWithinCaps(c: seq<seq<Item>>)
    requires forall i :: 0 <= i < |c| ==> FitsCaps(c[i])
    ensures SumWeight(Flatten(c)) <= |c| * WEIGHT_CAP
    ensures SumPrice(Flatten(c)) <= |c| * PRICE_CAP
  {
    if c != [] {
      assert FitsCaps(c[0]);
      FlattenWithinCaps(c[1..]);
      SumConcat(c[0], Flatten(c[1..]));
    }
  }

  /** The items of `s` whose flag in `keep` is set, in their order in `s`. */
  function Select(s: seq<Item>, keep: seq<bool>): seq<Item>
    requires |keep| == |s|
  {
    if s == [] then []
    else Select(s[..|s| - 1], keep[..|s| - 1]) + if keep[|s| - 1] then [s[|s| - 1]] else []
  }

  /** Deciding on one more item of `s` extends the selection by at most that item. */
  lemma SelectStep(s: seq<Item>, keep: seq<bool>, n: nat, b: bool)
    requires n < |s| && |keep| == n
    ensures Select(s[..n + 1], keep + [b]) == Select(s[..n], keep) + if b then [s[n]] else []
  {
    assert s[..n + 1][..n] == s[..n];
    assert (keep + [b])[..n] == keep;
  }

  /** A selection holds no item more often than the sequence it is taken from. */
  lemma {:induction false} SelectSubMultiset(s: seq<Item>, keep: seq<bool>)
    requires |keep| == |s|
    ensures multiset(Select(s, keep)) <= multiset(s)
  {
    if s != [] {
      var n := |s| - 1;
      SelectSubMultiset(s[..n], keep[..n]);
      assert s == s[..n] + [s[n]];
    }
  }

  /** Packages that are all empty hold nothing together. */
  lemma {:induction false} FlattenOfEmpties(c: seq<seq<Item>>)
    requires forall i :: 0 <= i < |c| ==> c[i] == []
    ensures Flatten(c) == []
  {
    if c != [] {
      FlattenOfEmpties(c[1..]);
    }
  }

}
