# packman: a verified model of the packing engine

The PHP shop app takes a cart of items (name, weight, price) and puts them
into shipping packages. A package holds at most 5 kg and $250.00, and
shipping costs $5, $10, $15 or $20 by weight bracket. This project models
the three classes that do the work, and proves what they promise about
capacities, totals, orderings and where each item ends up.

- `items.dfy`, module `Items`:
  - the cart line `Item(name, weight, price)`, with the weight in whole
    grams and the price in whole cents, so the $250.00 ceiling is 25000;
  - the two ceilings, the weight and price totals, and `Flatten`, which
    lists what a list of packages holds;
  - `Select`, which picks the items whose flag is set.
- `package.dfy`, module `Packages`:
  - `Package` is a class whose fields `add` updates in place;
  - `Valid()` is its invariant: every aggregate agrees with the item list;
  - the two pure bracket functions.
- `cart.dfy`, module `Carts`:
  - `Cart` is a class over a `seq<Item>`;
  - its `sort` is a usort-like insertion sort, `SortBy`, specified only as
    a permutation ordered by the comparator.
- `packman.dfy`, module `Packing`:
  - the pure package count and the two comparators;
  - the `PackMan` class, whose `arrangePackages` is modelled loop for loop:
    the index is not reset after each re-sort and `break` comes after a
    successful `add`;
  - two ghost fields: `Created` keeps the packages in creation order, and
    `Contents` keeps what each of them holds, in that order. `Packed()`
    (everything the packages hold) is the flattening of `Contents`, so it
    keeps its meaning while the list is re-sorted;
    `PackagesHoldPacked` shows that the list in its current order holds the
    same items.

Units and arithmetic:
- Cost per gram is an exact `real`, written as `PerGram(cost, weight)`.
- PHP's `usort` is any permutation ordered by the comparator; the order of
  ties is left open.

`PackMan.arrangePackages` can drop an item that no scanned package takes. The
properties proved are therefore these:
- each cart item goes into at most one package;
- what is packed is a sub-multiset of the cart, and weighs and costs no more
  than the cart;
- every package stays within both ceilings;
- when the first package is still empty and every cart item is within the
  ceilings, the heaviest item is packed.

The model does not prove that every item is packed.

Where a reader of the comments might expect otherwise, the model follows
what the classes do:
- Sort order of equal items:
  - `usort` is not stable before PHP 8.0 and is stable from PHP 8.0 on.
  - The model leaves the order of ties open, which covers both.
- An item that fits in no scanned package:
  - No extra package is opened; the item is dropped.
  - The model proves instead that an item goes into the first package of
    the list whenever that package can hold it (`PlaceItem`). When the
    packages are fresh and every item is within the ceilings, the heaviest
    item is therefore always packed (`GetPackages`).
  - `PlaceItem` also returns the scan's trace, so a dropped item is one
    that the package at each index of the list, as it stood at that index,
    could not hold.
- The scan after a re-sort:
  - It does not restart from the top.
  - It goes on at the next index of the re-sorted list.
- Cost per gram:
  - A fresh package starts at 20 (`classes/Package.class.php:26`).
  - `add` divides the shipping cost by the new weight (line 40). That is a
    division by zero only when the weight is still 0 after the add, that is
    for a 0 g item put into an empty package. The model excludes 0 g items
    by precondition.
- Balancing:
  - The comments of `getPackages` (`classes/PackMan.class.php:34-43` and
    line 52) speak of balancing the packages' weight as equally as possible.
  - The code has no balancing step beyond the first-fit scan, so the model
    has none either.
  - There is no operation that takes one item out of the cart; `clear`
    empties it.

## Model

| member | source | states |
|---|---|---|
| Items.SubMultisetSums | classes/PackMan.class.php:73-87 | items taken from the cart, each at most as often as it occurs there, weigh and cost no more than the cart |
| Items.PermutationSums | classes/Cart.class.php:105-107 | reordering the items keeps both totals |
| Items.SelectSubMultiset | classes/PackMan.class.php:77-80 | a selection of cart items, one decision per item, holds no item more often than the cart |
| Items.TakeOut | classes/PackMan.class.php:73-87 | an item that occurs in the cart sits at some index, and taking it out there leaves the rest of the cart |
| Items.FlattenConcat | classes/PackMan.class.php:57 | what two lists of packages hold together is what the first holds followed by what the second holds |
| Items.FlattenRemoveAt | classes/PackMan.class.php:95 | what a list of packages holds is what one of them holds plus what the others hold |
| Items.SwapNeighbours | classes/Cart.class.php:105-107 | swapping two neighbours reorders a sequence without changing its elements |
| Items.FlattenAppendAt | classes/Package.class.php:33 | appending an item to one package adds exactly that item to what all packages hold |
| Items.FlattenWithinCaps | classes/Package.class.php:21-24 | n packages within the ceilings hold at most n times 5000 g and n times $250.00 |
| Packages.CalculateShipping | classes/Package.class.php:55-65 | the shipping cost of a package of 0 to 5000 g is between 5 and 20 |
| Packages.ShippingBoundaries | classes/Package.class.php:55-65 | 5 on 0-200 g, 10 on 201-500 g, 15 on 501-1000 g, 20 on 1001-5000 g, checked at each bracket edge |
| Packages.ShippingMonotone | classes/Package.class.php:55-65 | a heavier package never ships cheaper |
| Packages.CalculateWeightCapacityWithoutIncreasingShipping | classes/Package.class.php:67-77 | the room is never negative and stays under 5000 g; filling it keeps the shipping cost, and one gram more raises it |
| Packages.RoomKeepsShipping | classes/Package.class.php:36 | adding any weight up to that room keeps the shipping cost |
| Packages.Package.constructor | classes/Package.class.php:19-26 | a fresh package is empty and valid: weight and price 0, capacities 5000 and 25000, bracket room 200, shipping 0, cost per gram 20 |
| Packages.Package.Add | classes/Package.class.php:32-41 | appends the item and keeps every earlier item in order; weight and price grow by the item's; capacities, bracket room, shipping cost and cost per gram (shipping / weight) are brought up to date and the invariant is kept; the weight ceiling holds by the precondition, and after a true `canHold` the price ceiling holds too |
| Packages.Package.CanHold | classes/Package.class.php:47-49 | true exactly when the package would stay within both ceilings with the item added; it reads the package and changes nothing |
| Carts.SwapKeepsSortedAround | classes/Cart.class.php:105-107 | swapping an element with a neighbour it should precede keeps the rest of the prefix ordered |
| Carts.SortedAroundDone | classes/Cart.class.php:105-107 | once the moved element is not after its neighbour, the whole prefix is ordered |
| Carts.Insert | classes/Cart.class.php:105-107 | one insertion step of the cart sort: a permutation that extends the ordered prefix by one item |
| Carts.SortBy | classes/Cart.class.php:105-107 | the result is a permutation of the input, ordered by the comparator whenever that comparator is a total preorder |
| Carts.Cart.constructor | classes/Cart.class.php:25-31 | the cart starts with the stored items, which are empty when nothing was saved |
| Carts.Cart.Add | classes/Cart.class.php:45-56 | accepts exactly when weight <= 5000 g and price <= $250.00; an accepted item is appended and both totals go up by its weight and price; a rejected one changes nothing; a cart of admissible items stays admissible |
| Carts.Cart.Clear | classes/Cart.class.php:62-65 | the cart is left empty |
| Carts.Cart.GetItems | classes/Cart.class.php:71-73 | returns the stored sequence and changes nothing |
| Carts.Cart.GetPrice | classes/Cart.class.php:79-86 | the item-by-item total is the sum of the item prices |
| Carts.Cart.GetWeight | classes/Cart.class.php:92-99 | the item-by-item total is the sum of the item weights |
| Carts.Cart.Sort | classes/Cart.class.php:105-107 | the items become a permutation of themselves, ordered when the comparator is a total preorder; both totals and admissibility are unchanged |
| Packing.PackageCount | classes/PackMan.class.php:60-64 | `max(ceil(price/250), ceil(weight/5000))` is the least number of packages whose ceilings cover both totals; it is 0 exactly when both totals are 0 |
| Packing.PackageCountIsLeast | classes/PackMan.class.php:60-64 | every count that covers the totals is at least the package count |
| Packing.PackageCountIsLowerBound | classes/PackMan.class.php:60-64 | every packing into packages within the ceilings uses at least the package count |
| Packing.PackageCountAsWritten | classes/PackMan.class.php:60-64 | the count as written is always 0, so it equals the count from the cart's totals exactly when both totals are 0 |
| Packing.PackageCountAsWrittenIgnoresCart | classes/PackMan.class.php:61-62 | the count as written gives 0 packages for a one-item cart that needs 1 |
| Packing.SortCart | classes/PackMan.class.php:116-124 | non-positive exactly when the first item is at least as heavy as the second; 0 exactly on equal weights |
| Packing.SortCartAntisymmetric | classes/PackMan.class.php:116-124 | swapping the arguments negates the answer |
| Packing.SortCartIsTotalPreorder | classes/PackMan.class.php:116-124 | the cart comparator is total and transitive |
| Packing.SortedBySortCart | classes/PackMan.class.php:116-124 | ordered by the cart comparator is the same as heaviest first |
| Packing.SortPackages | classes/PackMan.class.php:102-110 | non-positive exactly when the first package's cost per gram is at most the second's; 0 exactly on equal costs |
| Packing.SortPackagesAntisymmetric | classes/PackMan.class.php:102-110 | swapping the arguments negates the answer |
| Packing.ItemsOfRemoveAt | classes/PackMan.class.php:95 | leaving one package out of a list leaves exactly its items out of the list of contents |
| Packing.PermutedPackagesHoldTheSame | classes/PackMan.class.php:95 | two orders of the same packages hold the same items |
| Packing.SwapKeepsSortedByCostAround | classes/PackMan.class.php:95 | moving a more expensive package one place up keeps the rest of the prefix ordered by cost per gram |
| Packing.SortedByCostAroundDone | classes/PackMan.class.php:95 | once the moved package is no cheaper than the one before it, the whole prefix is ordered by cost per gram |
| Packing.InsertByCost | classes/PackMan.class.php:95 | one insertion step of the package sort: a permutation that extends the ordered prefix by one package |
| Packing.PackMan.constructor | classes/PackMan.class.php:29-32 | the packer keeps the cart and starts with no packages |
| Packing.PackMan.FrontTakesAdmissible | classes/Package.class.php:47-49 | an empty package can hold any item of at most 5000 g and $250.00 |
| Packing.PackMan.PackagesHoldPacked | classes/PackMan.class.php:57 | the package list, in its current order, holds exactly what was packed |
| Packing.PackMan.GetPackageCount | classes/PackMan.class.php:60-64 | the count is computed from the cart's price and weight totals; it covers both and no smaller count does |
| Packing.PackMan.GetEmptyPackages | classes/PackMan.class.php:130-135 | the old list is discarded and replaced by exactly `count` fresh, empty, valid packages; nothing is packed |
| Packing.PackMan.MoveThePackages | classes/PackMan.class.php:94-96 | the package list becomes a permutation of itself, ordered by cost per gram, non-decreasing |
| Packing.PackMan.SortCartItems | classes/PackMan.class.php:72 | the cart becomes a permutation of itself, heaviest first |
| Packing.PackMan.AddTo | classes/PackMan.class.php:77-78 | `add` after a true `canHold` keeps every package valid and within the ceilings, and adds exactly that item to what is packed |
| Packing.PackMan.Offer | classes/PackMan.class.php:75-85 | one step of the scan: when the package at the index can hold the item, exactly that package gains it at the end of its contents, the other packages keep theirs and the list keeps its order; otherwise nothing is packed and the list is re-sorted by cost per gram |
| Packing.PackMan.PlaceItem | classes/PackMan.class.php:74-86 | one scan for an item: the number of packages is kept and every package stays within the ceilings; either no package changes, or exactly one package gains the item at the end of its contents; when the first package of the list can hold the item, that package gains it. The returned trace holds the list as the scan found it at each index: it starts with the list on entry and ends with the list on exit; every entry is a reordering of the packages, every entry after the first is ordered by cost per gram, and at each index before the last, the package there could not hold the item. Without a placement the trace has one entry per package plus one, so every index was tried; with one, the package at the last index could hold the item and is the one that gained it |
| Packing.PackMan.RefusedBefore | classes/PackMan.class.php:74-76 | a scan over packages that have not changed is a scan in the state before the call too |
| Packing.PackMan.RefusedThen | classes/PackMan.class.php:77-84 | a refusal at the scan index followed by a re-sort of the unchanged packages extends the scan by one index |
| Packing.PackMan.AsBefore | classes/Package.class.php:32-49 | a package whose items are unchanged can hold an item exactly when it could before, and keeps its cost per gram |
| Packing.SameElements | classes/PackMan.class.php:95 | two reorderings of each other have the same length and the same elements |
| Packing.PackMan.PlaceNext | classes/PackMan.class.php:73-86 | one pass of the outer loop appends the current item's flag; what is packed grows by exactly the selected items so far, and the current item is flagged whenever the first package could hold it |
| Packing.PackMan.PlacedStep | classes/PackMan.class.php:73-86 | offering one item keeps the outer loop's invariant: the packed items grow by the item exactly when its flag is set, and a first package that could hold it took it |
| Packing.PackMan.PlacedAll | classes/PackMan.class.php:73-87 | once every item has been seen, the flags cover the whole item list |
| Packing.PackMan.PlaceAll | classes/PackMan.class.php:73-87 | after the outer loop, what is packed is what was packed before plus exactly the selected items, each at most once; the first item is selected whenever the first package could hold it |
| Packing.PackMan.ArrangePackages | classes/PackMan.class.php:70-88 | the cart ends up heaviest first and a permutation of itself; the number of packages is kept; every package is within the ceilings; the packed items are the old contents plus a selection of the cart, one flag per item; when the first package starts empty and every item is within the ceilings, the heaviest item is packed |
| Packing.PackMan.GetPackages | classes/PackMan.class.php:44-58 | a count of 0 leaves packages and cart as they were; otherwise the result has exactly `count` fresh packages within the ceilings, the packed items are a sub-multiset of the cart whose weight and price are no higher than the cart's, the returned list holds exactly those items, and a cart of admissible items gets its heaviest item packed |

## Left out

- `index.php`: the page, form handling and redirect are user interface and not part of this model.
- `classes/CSVReader.class.php`: the file reading is I/O and not part of this model.
- `_autoload.php`: it only starts the session and loads classes.
- Session storage:
  - The `Cart` constructor takes the saved items as a parameter instead of reading the session.
  - `save()` is not modelled.
  - The error message set on rejection is the `accepted` result of `Cart.Add`.
- The `debug` flag and its `echo` output of `PackMan` are left out.
- Floating point: cost per gram is an exact quotient (`PerGram`), not a PHP float. Prices are whole cents.
- Packages.Package.Add: requires `0 < weight + item.weight`, because the source divides by the new weight and a 0 g item added to an empty package divides by zero. It also requires `weight + item.weight <= 5000`, because the shipping calculation returns nothing above 5000 g; the only caller (`classes/PackMan.class.php:77-78`) checks `canHold` first, which guarantees it.
- Packages.CalculateShipping: requires a weight of at most 5000 g. Above that the source returns nothing, and `canHold` keeps every package below it.
- Packages.CalculateWeightCapacityWithoutIncreasingShipping: requires a weight of at most 5000 g, for the same reason.
- Carts.Cart.Add: weight and price are naturals. Negative or fractional grams from the form are not modelled.
- Carts.SortBy: PHP's own sorting algorithm is replaced by an insertion sort. Only "a permutation, ordered by the comparator" is promised. That is all `usort` promises before PHP 8.0; from PHP 8.0 on it also keeps ties in their order. Leaving the order of ties open covers both.
- Packing.PackMan.ArrangePackages: requires every cart item to weigh more than 0 g. Without that, `add` could divide by zero (see `Package.Add`). The source would still run for a 0 g item placed into a package that already holds something.
- Packing.PackMan.GetPackages: requires the same positive weights, because it calls `ArrangePackages`.
- The PHP reference `$package =& $this->packages[$i]` is modelled as a plain read of the list. Packages are objects, so updates through either name are the same.

## Findings

| source | as written | input that shows it | evidently intended | confidence | as-written member | corrected member |
|---|---|---|---|---|---|---|
| classes/PackMan.class.php:61-62 | `getPackageCount` reads `$this->cart->price` and `$this->cart->weight`, which `Cart` does not declare, so both read as null and the count is always 0; `getPackages` then returns the list without packing anything | a cart holding one 1200 g item at $19.99 | the count from the totals that `getPrice()` and `getWeight()` compute, which is 1 for that cart | not executed | Packing.PackageCountAsWrittenIgnoresCart | Packing.PackMan.GetPackageCount |

The rest of the model uses the corrected count: `GetPackages` calls `GetPackageCount`.
