/** A package: a capacity-tracked bin that keeps running aggregates of the
    items put into it, and the two weight-bracket functions it uses. */
module Packages {
  import opened Items

  /** Shipping cost, in dollars, of a package of `weight` grams: 5 up to 200 g,
      10 up to 500 g, 15 up to 1000 g and 20 up to 5000 g. Above 5000 g the
      source returns nothing; that case is excluded here. */
  function CalculateShipping(weight: int): (cost: nat)
    requires 0 <= weight <= WEIGHT_CAP
    ensures 5 <= cost <= 20
  {
    if weight <= 200 then 5
    else if weight <= 500 then 10
    else if weight <= 1000 then 15
    else 20
  }

  /** Grams that can still be added to a package of `weight` grams without
      raising its shipping cost: adding that many keeps the cost, and one gram
      more (where the ceiling allows it) raises it. */
  function CalculateWeightCapacityWithoutIncreasingShipping(weight: int): (room: int)
    requires 0 <= weight <= WEIGHT_CAP
    ensures 0 <= room && weight + room <= WEIGHT_CAP
    ensures CalculateShipping(weight + room) == CalculateShipping(weight)
    ensures weight + room < WEIGHT_CAP ==> CalculateShipping(weight + room + 1) > CalculateShipping(weight)
  {
    if weight <= 200 then 200 - weight
    else if weight <= 500 then 500 - weight
    else if weight <= 1000 then 1000 - weight
    else 5000 - weight
  }

  /** The bracket boundaries the shipping table is built from. */
  lemma ShippingBoundaries()
    ensures CalculateShipping(0) == 5 && CalculateShipping(200) == 5
    ensures CalculateShipping(201) == 10 && CalculateShipping(500) == 10
    ensures CalculateShipping(501) == 15 && CalculateShipping(1000) == 15
    ensures CalculateShipping(1001) == 20 && CalculateShipping(5000) == 20
  {
  }

  /** A heavier package never ships cheaper. */
  lemma ShippingMonotone(a: int, b: int)
    requires 0 <= a <= b <= WEIGHT_CAP
    ensures CalculateShipping(a) <= CalculateShipping(b)
  {
  }

  /** Any addition up to the remaining bracket room keeps the shipping cost. */
  lemma RoomKeepsShipping(weight: int, extra: int)
    requires 0 <= weight <= WEIGHT_CAP
    requires 0 <= extra <= CalculateWeightCapacityWithoutIncreasingShipping(weight)
    ensures CalculateShipping(weight + extra) == CalculateShipping(weight)
  {
    var room := CalculateWeightCapacityWithoutIncreasingShipping(weight);
    ShippingMonotone(weight, weight + extra);
    ShippingMonotone(weight + extra, weight + room);
  }

  /** An exact quotient, standing for PHP's floating-point division. */
  function PerGram(cost: int, weight: int): real
    requires weight > 0
  {
    cost as real / weight as real
  }

  class Package {
    var items: seq<Item>
    var weight: int
    var weightCapacity: int
    var weightCapacitySh: int
    var price: int
    var priceCapacity: int
    var shippingCost: int
    var costPerGram: real

    /** The aggregates agree with the item list. A package nothing was added
        to keeps the initial shipping cost 0 and cost per gram 20. */
    ghost predicate Valid()
      reads this
    {
      && weight == SumWeight(items)
      && price == SumPrice(items)
      && weightCapacity == WEIGHT_CAP - weight
      && priceCapacity == PRICE_CAP - price
      && weight <= WEIGHT_CAP
      && weightCapacitySh == CalculateWeightCapacityWithoutIncreasingShipping(weight)
      && if items == [] then shippingCost == 0 && costPerGram == 20.0
         else weight > 0 && shippingCost == CalculateShipping(weight)
              && costPerGram == PerGram(shippingCost, weight)
    }

    /** The package respects both ceilings. */
    predicate WithinCaps()
      reads this
    {
      weight <= WEIGHT_CAP && price <= PRICE_CAP
    }

    constructor ()
      ensures Valid() && WithinCaps()
      ensures items == [] && weight == 0 && price == 0
      ensures weightCapacity == WEIGHT_CAP && priceCapacity == PRICE_CAP
      ensures weightCapacitySh == 200 && shippingCost == 0 && costPerGram == 20.0
    {
      items := [];
      weight := 0;
      weightCapacity := WEIGHT_CAP;
      weightCapacitySh := 200;
      price := 0;
      priceCapacity := PRICE_CAP;
      shippingCost := 0;
      costPerGram := 20.0;
    }

    /** Appends `item` and brings every aggregate up to date. It admits the
        item whatever its price: checking `CanHold` first is the caller's
        duty, and when it was true the package stays within both ceilings. */
    method Add(item: Item)
      requires Valid()
      requires 0 < weight + item.weight <= WEIGHT_CAP
      modifies this
      ensures Valid()
      ensures items == old(items) + [item]
      ensures weight == old(weight) + item.weight && price == old(price) + item.price
      ensures shippingCost == CalculateShipping(weight)
      ensures costPerGram == PerGram(shippingCost, weight)
      ensures old(CanHold(item)) ==> WithinCaps()
    {
      SumConcat(items, [item]);
      items := items + [item];
      weight := weight + item.weight;
      weightCapacity := weightCapacity - item.weight;
      weightCapacitySh := CalculateWeightCapacityWithoutIncreasingShipping(weight);
      price := price + item.price;
      priceCapacity := priceCapacity - item.price;
      shippingCost := CalculateShipping(weight);
      costPerGram := PerGram(shippingCost, weight);
    }

    /** There is room for `item`: exactly when the package would still fit
        both ceilings with the item added. */
    function CanHold(item: Item): (b: bool)
      reads this
      ensures Valid() ==> (b <==> FitsCaps(items + [item]))
    {
      SumConcat(items, [item]);
      priceCapacity >= item.price && weightCapacity >= item.weight
    }
  }
}
