/** The shopping cart that feeds the packer: an ordered list of items with an
    admission ceiling, totals, and an in-place sort by a caller's comparator. */
module Carts {
  import opened Items

  /** A usort-style comparator: negative or zero when the first argument may
      come first, positive when it must come after the second. */
  type Comparator = (Item, Item) -> int

  /** The comparator orders every pair and chains transitively, so a sequence
      ordered by it exists for every multiset of items. */
  ghost predicate IsTotalPreorder(cmp: Comparator)
  {
    && (forall a: Item, b: Item :: cmp(a, b) <= 0 || cmp(b, a) <= 0)
    && (forall a: Item, b: Item, c: Item :: cmp(a, b) <= 0 && cmp(b, c) <= 0 ==> cmp(a, c) <= 0)
  }

  /** No item is placed after one the comparator wants behind it. */
  ghost predicate SortedBy(s: seq<Item>, cmp: Comparator)
  {
    forall i, j :: 0 <= i < j < |s| ==> cmp(s[i], s[j]) <= 0
  }

  /** The cart admits an item of at most 5000 grams and at most $250.00. */
  predicate Admissible(weight: nat, price: nat)
  {
    weight <= WEIGHT_CAP && price <= PRICE_CAP
  }

  ghost predicate AllAdmissible(s: seq<Item>)
  {
    forall i :: 0 <= i < |s| ==> Admissible(s[i].weight, s[i].price)
  }

  /** `t[..i + 1]` is ordered except for the element at `j`, which is ordered
      before everything after it. */
  ghost predicate SortedAround(t: seq<Item>, i: nat, j: nat, cmp: Comparator)
    requires j <= i < |t|
  {
    && (forall a, b :: 0 <= a < b <= i && a != j && b != j ==> cmp(t[a], t[b]) <= 0)
    && (forall b :: j < b <= i ==> cmp(t[j], t[b]) <= 0)
  }

  /** Swapping the element at `j` with a neighbour it should precede moves
      the out-of-place slot one step down and keeps the rest in order. */
  lemma SwapKeepsSortedAround(u: seq<Item>, i: nat, j: nat, cmp: Comparator)
    requires 0 < j <= i < |u| && IsTotalPreorder(cmp)
    requires SortedAround(u, i, j, cmp) && cmp(u[j - 1], u[j]) > 0
    ensures SortedAround(u[j - 1 := u[j]][j := u[j - 1]], i, j - 1, cmp)
  {
    var t := u[j - 1 := u[j]][j := u[j - 1]];
    assert cmp(u[j], u[j - 1]) <= 0;
    forall a, b | 0 <= a < b <= i && a != j - 1 && b != j - 1
      ensures cmp(t[a], t[b]) <= 0
    {
      if a == j {
        assert t[a] == u[j - 1] && t[b] == u[b];
      } else if b == j {
        assert t[a] == u[a] && t[b] == u[j - 1];
      } else {
        assert t[a] == u[a] && t[b] == u[b];
      }
    }
    forall b | j - 1 < b <= i
      ensures cmp(t[j - 1], t[b]) <= 0
    {
      assert t[j - 1] == u[j];
      if b > j {
        assert t[b] == u[b];
      }
    }
  }

  /** Once the element at `j` is not after its neighbour, the whole prefix
      `t[..i + 1]` is in order. */
  lemma SortedAroundDone(t: seq<Item>, i: nat, j: nat, cmp: Comparator)
    requires j <= i < |t| && IsTotalPreorder(cmp)
    requires SortedAround(t, i, j, cmp) && (j == 0 || cmp(t[j - 1], t[j]) <= 0)
    ensures SortedBy(t[..i + 1], cmp)
  {
    forall a, b | 0 <= a < b <= i
      ensures cmp(t[a], t[b]) <= 0
    {
      if b == j && a < j {
        assert cmp(t[a], t[j - 1]) <= 0;
      }
    }
  }

  /** Moves `s[i]` down into the ordered prefix `s[..i]`: one insertion step
      of the sort. */
  method Insert(s: seq<Item>, i: nat, cmp: Comparator) returns (t: seq<Item>)
    requires i < |s|
    requires IsTotalPreorder(cmp) ==> SortedBy(s[..i], cmp)
    ensures |t| == |s| && multiset(t) == multiset(s) && t[i + 1..] == s[i + 1..]
    ensures IsTotalPreorder(cmp) ==> SortedBy(t[..i + 1], cmp)
  {
    ghost var ordered := IsTotalPreorder(cmp);
    t := s;
    var j := i;
    while 0 < j && cmp(t[j - 1], t[j]) > 0
      invariant 0 <= j <= i
      invariant |t| == |s| && multiset(t) == multiset(s) && t[i + 1..] == s[i + 1..]
      invariant ordered ==> SortedAround(t, i, j, cmp)
    {
      SwapNeighbours(t, j);
      if ordered {
        SwapKeepsSortedAround(t, i, j, cmp);
      }
      t := t[j - 1 := t[j]][j := t[j - 1]];
      j := j - 1;
    }
    if ordered {
      SortedAroundDone(t, i, j, cmp);
    }
  }

  /** An insertion sort standing for PHP's usort: a permutation of `s`,
      ordered by `cmp` when `cmp` is a total preorder. */
  method SortBy(s: seq<Item>, cmp: Comparator) returns (t: seq<Item>)
    ensures multiset(t) == multiset(s)
    ensures IsTotalPreorder(cmp) ==> SortedBy(t, cmp)
  {
    t := s;
    var i := 0;
    while i < |t|
      invariant 0 <= i <= |t|
      invariant multiset(t) == multiset(s)
      invariant IsTotalPreorder(cmp) ==> SortedBy(t[..i], cmp)
    {
      t := Insert(t, i, cmp);
      i := i + 1;
    }
    assert t[..i] == t;
  }

  class Cart {
    var items: seq<Item>

    /** Starts from the items saved by an earlier request, or from [] when
        nothing was saved. */
    constructor (stored: seq<Item>)
      ensures items == stored
    {
      items := stored;
    }

    /** Appends the item when it is admissible; otherwise leaves the cart as
        it is and reports the rejection. */
    method Add(name: string, weight: nat, price: nat) returns (accepted: bool)
      modifies this
      ensures accepted <==> Admissible(weight, price)
      ensures items == if accepted then old(items) + [Item(name, weight, price)] else old(items)
      ensures SumWeight(items) == old(SumWeight(items)) + (if accepted then weight else 0)
      ensures SumPrice(items) == old(SumPrice(items)) + (if accepted then price else 0)
      ensures AllAdmissible(old(items)) ==> AllAdmissible(items)
    {
      if weight <= WEIGHT_CAP && price <= PRICE_CAP {
        var item := Item(name, weight, price);
        SumConcat(items, [item]);
        items := items + [item];
        accepted := true;
      } else {
        accepted := false;
      }
    }

    method Clear()
      modifies this
      ensures items == []
    {
      items := [];
    }

    method GetItems() returns (r: seq<Item>)
      ensures r == items
    {
      r := items;
    }

    /** The total price of the cart, accumulated item by item. */
    method GetPrice() returns (total: nat)
      ensures total == SumPrice(items)
    {
      total := 0;
      var k := 0;
      while k < |items|
        invariant 0 <= k <= |items|
        invariant total == SumPrice(items[..k])
      {
        assert items[..k + 1] == items[..k] + [items[k]];
        SumConcat(items[..k], [items[k]]);
        total := total + items[k].price;
        k := k + 1;
      }
      assert items[..k] == items;
    }

    /** The total weight of the cart, accumulated item by item. */
    method GetWeight() returns (total: nat)
      ensures total == SumWeight(items)
    {
      total := 0;
      var k := 0;
      while k < |items|
        invariant 0 <= k <= |items|
        invariant total == SumWeight(items[..k])
      {
        assert items[..k + 1] == items[..k] + [items[k]];
        SumConcat(items[..k], [items[k]]);
        total := total + items[k].weight;
        k := k + 1;
      }
      assert items[..k] == items;
    }

    /** Reorders the items in place. The result is a permutation of the items,
        ordered by `cmp` when `cmp` is a total preorder; which of several
        equally ranked items comes first is left open. */
    method Sort(cmp: Comparator)
      modifies this
      ensures multiset(items) == old(multiset(items))
      ensures IsTotalPreorder(cmp) ==> SortedBy(items, cmp)
      ensures SumWeight(items) == old(SumWeight(items)) && SumPrice(items) == old(SumPrice(items))
      ensures AllAdmissible(old(items)) ==> AllAdmissible(items)
    {
      var s := SortBy(items, cmp);
      PermutationSums(s, items);
      forall k | 0 <= k < |s|
        ensures AllAdmissible(items) ==> Admissible(s[k].weight, s[k].price)
      {
        assert s[k] in multiset(items);
      }
      items := s;
    }
  }
}
