/** The packer: how many packages an order needs, and the greedy placement of
    the cart's items, heaviest first, into that many packages. */
module Packing {
  import opened Items
  import opened Packages
  import opened Carts

  /** `ceil(a / b)` on naturals. */
  function CeilDiv(a: nat, b: nat): (q: nat)
    requires b > 0
    ensures q * b >= a
    ensures q == 0 || (q - 1) * b < a
  {
    (a + b - 1) / b
  }

  /** `n` packages offer room for both totals. */
  predicate Covers(n: nat, totalPrice: nat, totalWeight: nat)
  {
    n * PRICE_CAP >= totalPrice && n * WEIGHT_CAP >= totalWeight
  }

  /** `max(ceil(price / 250), ceil(weight / 5000))`: the fewest packages whose
      ceilings together cover both totals, and 0 for an empty order. */
  function PackageCount(totalPrice: nat, totalWeight: nat): (n: nat)
    ensures Covers(n, totalPrice, totalWeight)
    ensures n == 0 || !Covers(n - 1, totalPrice, totalWeight)
    ensures n == 0 <==> totalPrice == 0 && totalWeight == 0
  {
    var byPrice := CeilDiv(totalPrice, PRICE_CAP);
    var byWeight := CeilDiv(totalWeight, WEIGHT_CAP);
    if byPrice >= byWeight then byPrice else byWeight
  }

  /** No smaller number of packages covers the totals. */
  lemma PackageCountIsLeast(totalPrice: nat, totalWeight: nat, m: nat)
    requires Covers(m, totalPrice, totalWeight)
    ensures PackageCount(totalPrice, totalWeight) <= m
  {
  }

  /** Any way of packing the items into packages that respect the ceilings
      uses at least `PackageCount` of them. */
  lemma PackageCountIsLowerBound(c: seq<seq<Item>>)
    requires forall i :: 0 <= i < |c| ==> FitsCaps(c[i])
    ensures PackageCount(SumPrice(Flatten(c)), SumWeight(Flatten(c))) <= |c|
  {
    FlattenWithinCaps(c);
    PackageCountIsLeast(SumPrice(Flatten(c)), SumWeight(Flatten(c)), |c|);
  }

  /** The count as the source computes it. It reads `price` and `weight`
      properties that the cart does not have; PHP reads them as null, the
      division turns null into 0, and so the count is that of an empty order
      whatever the cart holds. */
  function PackageCountAsWritten(items: seq<Item>): (n: nat)
    ensures n == 0
    ensures n == PackageCount(SumPrice(items), SumWeight(items)) <==> SumPrice(items) == 0 && SumWeight(items) == 0
  {
    PackageCount(0, 0)
  }

  /** The count as written ignores the cart: a one-item cart gets no package. */
  lemma PackageCountAsWrittenIgnoresCart()
    ensures PackageCountAsWritten([Item("book", 1200, 1999)]) == 0
    ensures PackageCount(SumPrice([Item("book", 1200, 1999)]), SumWeight([Item("book", 1200, 1999)])) == 1
  {
  }

  /** The cart comparator: heavier items first. */
  function SortCart(a: Item, b: Item): (r: int)
    ensures r <= 0 <==> a.weight >= b.weight
    ensures r == 0 <==> a.weight == b.weight
  {
    if a.weight == b.weight then 0
    else if a.weight < b.weight then 1
    else -1
  }

  /** Swapping the arguments of either comparator negates its answer. */
  lemma SortCartAntisymmetric(a: Item, b: Item)
    ensures SortCart(a, b) == -SortCart(b, a)
  {
  }

  /** The cart comparator is a total preorder, so sorting by it is well defined. */
  lemma SortCartIsTotalPreorder()
    ensures IsTotalPreorder(SortCart)
  {
  }

  /** No item is lighter than one after it. */
  ghost predicate HeaviestFirst(s: seq<Item>)
  {
    forall i, j :: 0 <= i < j < |s| ==> s[i].weight >= s[j].weight
  }

  /** Ordered by the cart comparator means heaviest first. */
  lemma SortedBySortCart(s: seq<Item>)
    ensures SortedBy(s, SortCart) <==> HeaviestFirst(s)
  {
  }

  /** The package comparator: cheaper shipping per gram first. */
  function SortPackages(a: Package, b: Package): (r: int)
    reads a, b
    ensures r <= 0 <==> a.costPerGram <= b.costPerGram
    ensures r == 0 <==> a.costPerGram == b.costPerGram
  {
    if a.costPerGram == b.costPerGram then 0
    else if a.costPerGram > b.costPerGram then 1
    else -1
  }

  lemma SortPackagesAntisymmetric(a: Package, b: Package)
    ensures SortPackages(a, b) == -SortPackages(b, a)
  {
  }

  /** The items of each package, in the order of `ps`. */
  ghost function ItemsOf(ps: seq<Package>): (c: seq<seq<Item>>)
    reads ps
    ensures |c| == |ps|
    ensures forall i :: 0 <= i < |ps| ==> c[i] == ps[i].items
  {
    if ps == [] then [] else [ps[0].items] + ItemsOf(ps[1..])
  }

  ghost predicate Distinct(ps: seq<Package>)
  {
    forall i, j :: 0 <= i < j < |ps| ==> ps[i] != ps[j]
  }

  /** Leaving one package out of a list leaves its items out of the list of
      contents. */
  lemma {:induction false} ItemsOfRemoveAt(qs: seq<Package>, k: nat)
    requires k < |qs|
    ensures ItemsOf(qs[..k] + qs[k + 1..]) == ItemsOf(qs)[..k] + ItemsOf(qs)[k + 1..]
  {
    var rest := qs[..k] + qs[k + 1..];
    var c, d := ItemsOf(qs), ItemsOf(rest);
    forall i | 0 <= i < |d|
      ensures d[i] == (c[..k] + c[k + 1..])[i]
    {
      if i < k {
        assert rest[i] == qs[i];
      } else {
        assert rest[i] == qs[i + 1];
      }
    }
  }

  /** Two orders of the same packages hold the same items. */
  lemma {:induction false} PermutedPackagesHoldTheSame(ps: seq<Package>, qs: seq<Package>)
    requires multiset(ps) == multiset(qs)
    ensures multiset(Flatten(ItemsOf(ps))) == multiset(Flatten(ItemsOf(qs)))
  {
    if ps == [] {
      assert |qs| == |multiset(qs)| == 0;
    } else {
      var p := ps[0];
      assert p in multiset(ps);
      var k := TakeOut(qs, p);
      var rest := qs[..k] + qs[k + 1..];
      assert ps == [p] + ps[1..];
      PermutedPackagesHoldTheSame(ps[1..], rest);
      var c := ItemsOf(qs);
      ItemsOfRemoveAt(qs, k);
      FlattenRemoveAt(c, k);
    }
  }

  /** Two reorderings of each other have the same length and the same elements. */
  lemma SameElements(s: seq<Package>, t: seq<Package>)
    requires multiset(s) == multiset(t)
    ensures |s| == |t| && forall i :: 0 <= i < |s| ==> s[i] in t
  {
    assert |multiset(s)| == |s|;
    forall i | 0 <= i < |s|
      ensures s[i] in t
    {
      assert s[i] in multiset(s);
    }
  }

  /** No package is placed after one that ships cheaper per gram. */
  ghost predicate SortedByCost(ps: seq<Package>)
    reads ps
  {
    forall i, j :: 0 <= i < j < |ps| ==> SortPackages(ps[i], ps[j]) <= 0
  }

  /** `t[..i + 1]` is ordered by cost per gram except for the package at `j`,
      which is ordered before everything after it. */
  ghost predicate SortedByCostAround(t: seq<Package>, i: nat, j: nat)
    requires j <= i < |t|
    reads t
  {
    && (forall a, b :: 0 <= a < b <= i && a != j && b != j ==> t[a].costPerGram <= t[b].costPerGram)
    && (forall b :: j < b <= i ==> t[j].costPerGram <= t[b].costPerGram)
  }

  /** Swapping the package at `j` with a more expensive neighbour before it
      moves the out-of-place slot one step down and keeps the rest ordered. */
  lemma SwapKeepsSortedByCostAround(u: seq<Package>, i: nat, j: nat)
    requires 0 < j <= i < |u|
    requires SortedByCostAround(u, i, j) && u[j - 1].costPerGram > u[j].costPerGram
    ensures SortedByCostAround(u[j - 1 := u[j]][j := u[j - 1]], i, j - 1)
  {
    var t := u[j - 1 := u[j]][j := u[j - 1]];
    forall a, b | 0 <= a < b <= i && a != j - 1 && b != j - 1
      ensures t[a].costPerGram <= t[b].costPerGram
    {
      if a == j {
        assert t[a] == u[j - 1] && t[b] == u[b];
      } else if b == j {
        assert t[a] == u[a] && t[b] == u[j - 1];
      } else {
        assert t[a] == u[a] && t[b] == u[b];
      }
    }
  }

  /** Once the package at `j` is no cheaper than the one before it, the
      whole prefix `t[..i + 1]` is ordered by cost per gram. */
  lemma SortedByCostAroundDone(t: seq<Package>, i: nat, j: nat)
    requires j <= i < |t| && SortedByCostAround(t, i, j)
    requires j == 0 || t[j - 1].costPerGram <= t[j].costPerGram
    ensures SortedByCost(t[..i + 1])
  {
    forall a, b | 0 <= a < b <= i
      ensures t[a].costPerGram <= t[b].costPerGram
    {
      if b == j && a < j {
        assert t[a].costPerGram <= t[j - 1].costPerGram;
      }
    }
  }

  /** Moves `s[i]` down into the prefix `s[..i]`, ordered by cost per gram.
      This is the cart's insertion sort again, written over packages: the
      package comparator reads the packages' fields, so it is not a value of
      the cart's heap-free `Comparator` type. */
  method InsertByCost(s: seq<Package>, i: nat) returns (t: seq<Package>)
    requires i < |s| && SortedByCost(s[..i])
    ensures |t| == |s| && multiset(t) == multiset(s) && t[i + 1..] == s[i + 1..]
    ensures SortedByCost(t[..i + 1])
  {
    t := s;
    var j := i;
    while 0 < j && SortPackages(t[j - 1], t[j]) > 0
      invariant 0 <= j <= i
      invariant |t| == |s| && multiset(t) == multiset(s) && t[i + 1..] == s[i + 1..]
      invariant SortedByCostAround(t, i, j)
    {
      SwapNeighbours(t, j);
      SwapKeepsSortedByCostAround(t, i, j);
      t := t[j - 1 := t[j]][j := t[j - 1]];
      j := j - 1;
    }
    SortedByCostAroundDone(t, i, j);
  }

  class PackMan {
    var packages: seq<Package>
    const cart: Cart
    /** The packages in the order they were created; `packages` is always a
        reordering of them. */
    ghost var Created: seq<Package>
    /** What each package holds, in creation order. */
    ghost var Contents: seq<seq<Item>>

    /** There is a first package and it can hold `item`. */
    predicate FrontTakes(item: Item)
      reads this, packages
    {
      |packages| > 0 && packages[0].CanHold(item)
    }

    /** A first package that is still empty takes any admissible item. */
    lemma FrontTakesAdmissible(x: Item)
      requires Valid() && |packages| > 0 && packages[0].items == []
      requires Admissible(x.weight, x.price)
      ensures FrontTakes(x)
    {
      assert packages[0] in multiset(Created);
    }

    ghost predicate Valid()
      reads this, Created
    {
      && Distinct(Created)
      && multiset(packages) == multiset(Created)
      && |Contents| == |Created|
      && forall i :: 0 <= i < |Created| ==>
           Created[i].Valid() && Created[i].WithinCaps() && Created[i].items == Contents[i]
    }

    /** What all the packages hold together. */
    ghost function Packed(): seq<Item>
      reads this
    {
      Flatten(Contents)
    }

    /** The package list, in its current order, holds what was packed. */
    lemma PackagesHoldPacked()
      requires Valid()
      ensures multiset(Flatten(ItemsOf(packages))) == multiset(Packed())
    {
      assert ItemsOf(Created) == Contents;
      PermutedPackagesHoldTheSame(packages, Created);
    }

    constructor (cart: Cart)
      ensures Valid() && this.cart == cart && packages == []
    {
      this.cart := cart;
      packages := [];
      Created := [];
      Contents := [];
    }

    /** The count is computed from the cart's totals as its getters return
        them. (The source reads `cart->price` and `cart->weight`, which the
        cart does not declare; `PackageCountAsWritten` models that.) */
    method GetPackageCount() returns (count: nat)
      ensures count == PackageCount(SumPrice(cart.items), SumWeight(cart.items))
      ensures Covers(count, SumPrice(cart.items), SumWeight(cart.items))
      ensures count == 0 || !Covers(count - 1, SumPrice(cart.items), SumWeight(cart.items))
    {
      var price := cart.GetPrice();
      var weight := cart.GetWeight();
      count := PackageCount(price, weight);
    }

    /** Replaces the package list by `count` fresh, empty packages. */
    method GetEmptyPackages(count: nat)
      modifies this
      ensures Valid() && Created == packages && |packages| == count && Packed() == []
      ensures forall i :: 0 <= i < count ==> fresh(packages[i]) && packages[i].items == []
    {
      packages := [];
      Created := [];
      Contents := [];
      var i := 0;
      while i < count
        invariant 0 <= i <= count && |packages| == i && Created == packages && |Contents| == i
        invariant Distinct(packages)
        invariant forall k :: 0 <= k < i ==> fresh(packages[k]) && packages[k].items == [] && Contents[k] == []
        invariant forall k :: 0 <= k < i ==> packages[k].Valid() && packages[k].WithinCaps()
      {
        var p := new Package();
        packages := packages + [p];
        Created := packages;
        Contents := Contents + [[]];
        i := i + 1;
      }
      FlattenOfEmpties(Contents);
    }

    /** PHP's usort of the package list by `SortPackages`: the list becomes a
        permutation of itself ordered by cost per gram; ties are left open. */
    method MoveThePackages()
      modifies this`packages
      ensures |packages| == old(|packages|) && multiset(packages) == old(multiset(packages))
      ensures SortedByCost(packages)
    {
      var t := packages;
      var i := 0;
      while i < |t|
        invariant 0 <= i <= |t| == |old(packages)|
        invariant multiset(t) == multiset(old(packages))
        invariant SortedByCost(t[..i])
      {
        t := InsertByCost(t, i);
        i := i + 1;
      }
      assert t[..i] == t;
      packages := t;
    }

    /** Greedy first fit, as written: the cart is sorted heaviest first and
        each item, in that order, is offered to the packages by `PlaceItem`.
        The ghost `taken` flags the items that went into a package. */
    method ArrangePackages() returns (ghost taken: seq<bool>)
      requires Valid()
      requires forall x :: x in cart.items ==> x.weight > 0
      modifies this`packages, this`Contents, cart, Created
      ensures Valid() && Created == old(Created) && |packages| == old(|packages|)
      ensures multiset(cart.items) == old(multiset(cart.items))
      ensures HeaviestFirst(cart.items)
      ensures |taken| == |cart.items|
      ensures multiset(Packed()) == old(multiset(Packed())) + multiset(Select(cart.items, taken))
      ensures old(|packages| > 0 && packages[0].items == []) && cart.items != [] && AllAdmissible(cart.items) ==> taken[0]
    {
      SortCartItems();
      var items := cart.GetItems();
      assert forall x :: x in items ==> x in multiset(old(cart.items));
      if |packages| > 0 && packages[0].items == [] && items != [] && AllAdmissible(items) {
        FrontTakesAdmissible(items[0]);
      }
      taken := PlaceAll(items);
    }

    /** The outer loop of arrangePackages: every item of `items`, in order,
        goes through `PlaceItem`. */
    method PlaceAll(items: seq<Item>) returns (ghost taken: seq<bool>)
      requires Valid() && forall x :: x in items ==> x.weight > 0
      modifies this`packages, this`Contents, Created
      ensures Valid() && Created == old(Created) && |packages| == old(|packages|)
      ensures |taken| == |items|
      ensures multiset(Packed()) == old(multiset(Packed())) + multiset(Select(items, taken))
      ensures old(|items| > 0 && FrontTakes(items[0])) ==> taken[0]
    {
      ghost var first := |items| > 0 && FrontTakes(items[0]);
      ghost var start := multiset(Packed());
      taken := [];
      for n := 0 to |items|
        invariant PlacedSoFar(items, n, taken, start, first)
        invariant Created == old(Created) && |packages| == old(|packages|)
      {
        taken := PlaceNext(items, n, taken, start, first);
      }
      PlacedAll(items, taken, start, first);
    }

    /** Once the outer loop has seen every item, the selection covers all of
        `items`. */
    lemma PlacedAll(items: seq<Item>, taken: seq<bool>, start: multiset<Item>, first: bool)
      requires PlacedSoFar(items, |items|, taken, start, first)
      ensures Valid() && |taken| == |items|
      ensures multiset(Packed()) == start + multiset(Select(items, taken))
      ensures first ==> taken[0]
    {
      assert items[..|items|] == items;
    }

    /** What the outer loop keeps after its first `n` items: the packer is
        valid, `taken` holds one flag per item, what is packed is what was
        packed at the `start` plus the items whose flag is set, and when the
        first package could take the `first` item, it did. */
    ghost predicate PlacedSoFar(items: seq<Item>, n: nat, taken: seq<bool>, start: multiset<Item>, first: bool)
      reads this, Created, packages
    {
      && n <= |items| && Valid() && |taken| == n
      && multiset(Packed()) == start + multiset(Select(items[..n], taken))
      && (first ==> |items| > 0 && (n == 0 ==> FrontTakes(items[0])) && (n > 0 ==> taken[0]))
    }

    /** One pass of the outer loop: `items[n]` is offered to the packages and
        its flag is appended to `taken`. */
    method PlaceNext(items: seq<Item>, n: nat, ghost taken: seq<bool>, ghost start: multiset<Item>, ghost first: bool)
      returns (ghost taken': seq<bool>)
      requires n < |items| && items[n].weight > 0
      requires PlacedSoFar(items, n, taken, start, first)
      modifies this`packages, this`Contents, Created
      ensures Created == old(Created) && |packages| == old(|packages|)
      ensures cart.items == old(cart.items)
      ensures |taken'| == n + 1 && taken' == taken + [taken'[n]]
      ensures PlacedSoFar(items, n + 1, taken', start, first)
      ensures old(FrontTakes(items[n])) ==> taken'[n]
    {
      ghost var added, lists := PlaceItem(items[n]);
      PlacedStep(items, n, taken, start, first, added);
      taken' := taken + [added];
    }

    /** Offering `items[n]` keeps the outer loop's invariant: the packages
        gained the item exactly when its flag is set, and a front package that
        could hold it did take it. */
    twostate lemma PlacedStep(items: seq<Item>, new n: nat, new taken: seq<bool>, new start: multiset<Item>,
                              new first: bool, new added: bool)
      requires n < |items| && old(allocated(this)) && old(PlacedSoFar(items, n, taken, start, first))
      requires Valid()
      requires multiset(Packed()) == old(multiset(Packed())) + if added then multiset{items[n]} else multiset{}
      requires old(FrontTakes(items[n])) ==> added
      ensures PlacedSoFar(items, n + 1, taken + [added], start, first)
    {
      SelectStep(items, taken, n, added);
    }

    /** `cart->sort(sortCart)`: the cart's items, reordered heaviest first. */
    method SortCartItems()
      modifies cart
      ensures multiset(cart.items) == old(multiset(cart.items))
      ensures HeaviestFirst(cart.items)
    {
      cart.Sort(SortCart);
      SortCartIsTotalPreorder();
      SortedBySortCart(cart.items);
    }

    /** One round of the inner loop of arrangePackages: the scan index runs
        over the list once; the first package at the index that can hold
        `item` takes it; each refusal re-sorts the list by cost per gram and
        the scan continues at the next index of the re-sorted list, so an
        item no scanned package took is dropped. `lists` records the list as
        the scan found it at each index, the first being the list on entry;
        the last entry is the list on exit. */
    method PlaceItem(item: Item) returns (ghost added: bool, ghost lists: seq<seq<Package>>)
      requires Valid() && item.weight > 0
      modifies this`packages, this`Contents, Created
      ensures Valid() && Created == old(Created) && |packages| == old(|packages|)
      ensures cart.items == old(cart.items)
      ensures multiset(Packed()) == old(multiset(Packed())) + if added then multiset{item} else multiset{}
      ensures !added ==> Contents == old(Contents)
      ensures added ==> exists k :: 0 <= k < |Contents| && Contents == old(Contents)[k := old(Contents)[k] + [item]]
      ensures old(FrontTakes(item)) ==> added && exists k :: (0 <= k < |Created| && Created[k] == old(packages[0])
        && Contents == old(Contents)[k := old(Contents)[k] + [item]])
      ensures 0 < |lists| <= |packages| + 1 && lists[0] == old(packages) && lists[|lists| - 1] == packages
      ensures old(allocated(lists)) && old(Refused(item, lists, |lists| - 1))
      ensures !added ==> |lists| == |packages| + 1
      ensures added ==> |lists| <= |packages| && old(lists[|lists| - 1][|lists| - 1].CanHold(item))
      ensures added ==> exists k :: (0 <= k < |Created| && Created[k] == lists[|lists| - 1][|lists| - 1]
        && Contents == old(Contents)[k := old(Contents)[k] + [item]])
    {
      added := false;
      lists := [packages];
      SameElements(packages, Created);
      RefusedBefore(item, lists);
      var i := 0;
      while i < |packages|
        invariant 0 <= i <= |packages|
        invariant Valid() && Created == old(Created) && |packages| == old(|packages|)
        invariant Contents == old(Contents)
        invariant old(allocated(lists)) && old(Refused(item, lists, i))
        invariant |lists| == i + 1 && lists[0] == old(packages) && lists[i] == packages
      {
        SameElements(packages, Created);
        AsBefore(item, packages[i]);
        var placed := Offer(i, item);
        if placed {
          added := true;
          break;
        }
        RefusedThen(item, lists, packages);
        lists := lists + [packages];
        i := i + 1;
      }
    }

    /** `lists` is a scan of the packages for `item` that reached index `n`:
        each list is a reordering of the packages, each list after the first
        is ordered by cost per gram, and the package at index `j` of the
        `j`-th list refused the item, for every index before `n`. */
    ghost predicate Refused(item: Item, lists: seq<seq<Package>>, n: nat)
      reads this`Created, Created
    {
      && |lists| == n + 1 && n <= |Created|
      && forall j :: 0 <= j <= n ==>
           && |lists[j]| == |Created| && multiset(lists[j]) == multiset(Created)
           && (forall i :: 0 <= i < |lists[j]| ==> lists[j][i] in Created)
           && (0 < j ==> SortedByCost(lists[j]))
           && (j < n ==> !lists[j][j].CanHold(item))
    }

    /** A scan over packages that have not changed since the previous state
        was already a scan in that state. */
    twostate lemma RefusedBefore(item: Item, new lists: seq<seq<Package>>)
      requires old(allocated(this)) && Created == old(Created)
      requires forall p :: p in Created ==> unchanged(p)
      requires |lists| > 0 && Refused(item, lists, |lists| - 1)
      ensures old(allocated(lists)) && old(Refused(item, lists, |lists| - 1))
    {
      forall j, i | 0 <= j < |lists| && 0 <= i < |lists[j]|
        ensures old(allocated(lists[j][i]))
      {
        assert lists[j][i] in Created;
      }
    }

    /** A refusal at the scan index by the previous state's package, followed
        by a re-sort of the unchanged packages into `next`, extends the scan
        of the previous state. */
    twostate lemma RefusedThen(item: Item, new lists: seq<seq<Package>>, new next: seq<Package>)
      requires old(allocated(this)) && old(Valid()) && Valid()
      requires Created == old(Created) && Contents == old(Contents)
      requires old(allocated(lists)) && |lists| > 0 && old(Refused(item, lists, |lists| - 1))
      requires |lists| - 1 < |Created| && old(!lists[|lists| - 1][|lists| - 1].CanHold(item))
      requires |next| == |Created| && multiset(next) == multiset(Created) && SortedByCost(next)
      ensures old(allocated(lists + [next])) && old(Refused(item, lists + [next], |lists|))
    {
      SameElements(next, Created);
      forall i | 0 <= i < |next|
        ensures old(allocated(next[i])) && old(next[i].costPerGram) == next[i].costPerGram
      {
        assert next[i] in Created;
        AsBefore(item, next[i]);
      }
      assert old(SortedByCost(next));
    }

    /** A package whose items are as they were in the previous state is as it
        was: it can hold `item` exactly when it could then, and it has the
        same cost per gram. */
    twostate lemma AsBefore(item: Item, new p: Package)
      requires old(allocated(this)) && old(Valid()) && Valid()
      requires Created == old(Created) && Contents == old(Contents) && p in Created
      ensures old(allocated(p))
      ensures old(p.CanHold(item)) == p.CanHold(item)
      ensures old(p.costPerGram) == p.costPerGram
    {
      var m :| 0 <= m < |Created| && Created[m] == p;
    }

    /** One pass of the inner loop: the package at index `i` takes `item`
        when it can hold it; otherwise the list is re-sorted by cost per gram. */
    method Offer(i: nat, item: Item) returns (placed: bool)
      requires Valid() && i < |packages| && item.weight > 0
      modifies this`packages, this`Contents, Created
      ensures Valid() && Created == old(Created) && |packages| == old(|packages|)
      ensures cart.items == old(cart.items)
      ensures placed <==> old(packages[i].CanHold(item))
      ensures multiset(Packed()) == old(multiset(Packed())) + if placed then multiset{item} else multiset{}
      ensures !placed ==> Contents == old(Contents) && SortedByCost(packages)
      ensures placed ==> packages == old(packages)
      ensures placed ==> exists k :: (0 <= k < |Created| && Created[k] == old(packages[i])
        && Contents == old(Contents)[k := old(Contents)[k] + [item]])
    {
      var package := packages[i];
      if package.CanHold(item) {
        assert package in multiset(Created);
        ghost var k :| 0 <= k < |Created| && Created[k] == package;
        AddTo(package, k, item);
        placed := true;
      } else {
        MoveThePackages();
        placed := false;
      }
    }

    /** `package->add(item)` on the package created `k`-th, after its
        `canHold(item)` came back true. */
    method AddTo(package: Package, ghost k: nat, item: Item)
      requires Valid() && k < |Created| && Created[k] == package
      requires package.CanHold(item) && item.weight > 0
      modifies package, this`Contents
      ensures Valid() && cart.items == old(cart.items)
      ensures Contents == old(Contents[k := Contents[k] + [item]])
      ensures multiset(Packed()) == old(multiset(Packed())) + multiset{item}
    {
      package.Add(item);
      FlattenAppendAt(Contents, k, item);
      Contents := Contents[k := Contents[k] + [item]];
    }

    /** Counts the packages the cart needs, refills that many fresh packages
        with the cart's items, and returns the package list. A count of 0
        leaves the list as it was, which is empty for a new packer. The ghost
        `taken` flags the cart items that went into a package. */
    method GetPackages() returns (result: seq<Package>, ghost taken: seq<bool>)
      requires Valid()
      requires forall x :: x in cart.items ==> x.weight > 0
      modifies this, cart
      ensures Valid() && result == packages
      ensures old(PackageCount(SumPrice(cart.items), SumWeight(cart.items))) == 0 ==>
        packages == old(packages) && Created == old(Created) && cart.items == old(cart.items)
      ensures old(PackageCount(SumPrice(cart.items), SumWeight(cart.items))) > 0 ==>
        && |packages| == old(PackageCount(SumPrice(cart.items), SumWeight(cart.items)))
        && (forall k :: 0 <= k < |packages| ==> fresh(packages[k]) && packages[k].WithinCaps())
        && multiset(cart.items) == old(multiset(cart.items))
        && HeaviestFirst(cart.items)
        && |taken| == |cart.items|
        && multiset(Packed()) == multiset(Select(cart.items, taken)) <= multiset(cart.items)
        && SumWeight(Packed()) <= SumWeight(cart.items)
        && SumPrice(Packed()) <= SumPrice(cart.items)
        && multiset(Flatten(ItemsOf(result))) == multiset(Packed())
        && (cart.items != [] && AllAdmissible(cart.items) ==> taken[0])
    {
      taken := [];
      var total := GetPackageCount();
      if total > 0 {
        GetEmptyPackages(total);
        ghost var created := Created;
        taken := ArrangePackages();
        forall k | 0 <= k < |packages|
          ensures fresh(packages[k]) && packages[k].WithinCaps()
        {
          assert packages[k] in multiset(created);
        }
        SelectSubMultiset(cart.items, taken);
        SubMultisetSums(Packed(), cart.items);
        PackagesHoldPacked();
      }
      result := packages;
    }
  }
}
