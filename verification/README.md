# Robber's bag: greedy versus brute force, in Dafny

This project models the core of a small C# program that compares two ways a
robber can fill a bag with jewels (the 0/1 knapsack problem):

- **`Bag`** is a container with a maximum volume set at construction. It keeps
  the jewels inside, in the order they were added, and a running volume. It
  offers a fit test, a checked single add and an all-or-nothing batch add.
- **`GreedyRobber`** ranks the jewels by price per unit of volume, highest
  first. The ranking is a stable sort, so equal ratios keep input order. It
  then makes one pass and adds each jewel that still fits.
- **`BruteRobber`** runs a recursive include/exclude search over the jewels
  in input order. It keeps the selection of highest total price and adds it
  to the bag in one batch.

The model is functional. A `Jewel` is a value `Jewel(volume, price)`. A `Bag`
is a value `Bag(maxVolume, jewels, volumeInside)`, and each add returns a new
bag or a `Rejected` reason. Each robber is a pure function of its inputs.

Modules, one per part of the program:

- `Jewels` (`jewels.dfy`): the jewel, the volume and price sums, and order-preserving selections.
- `Bags` (`bags.dfy`): the bag.
- `GreedyRobber` (`greedy.dfy`): the ratio key, the stable ranking and the one-pass fill.
- `BruteRobber` (`brute.dfy`): the search, its optimality, and the corrections listed under Findings.
- `Robbers` (`robbers.dfy`): the two robbers compared.

Modelling choices:

- **Whole numbers.** The program stores volumes and prices as doubles but the
  bag's counters as `int`. Here volumes and prices are whole, non-negative
  numbers; the bag's counters stay `int`.
- **The ratio key.** The greedy key `Price / Volume` follows double division on
  whole, non-negative operands: the exact ratio when the volume is positive
  (rounding is not modelled, see Left out), positive infinity for a priced
  jewel of no volume, and not-a-number for 0 / 0. Keys are ordered the way
  doubles compare by default: not-a-number is lowest. For jewels with positive volume, this order is
  proved to agree with cross-multiplication.
- **Stability.** The stable descending sort is an insertion sort. Stability is
  stated per key: the jewels that share a key appear in the ranking in the
  same order as in the input.
- **Optimality.** It is stated over every selection of the input jewels, taken
  as a sub-multiset, whose volume fits. So it also covers selections taken in
  a different order, such as the greedy one.
- The program has no dynamic-programming solver; none is modelled.

## Model

| member | source | states |
|---|---|---|
| `Jewels.TotalVolumeAppend` | Semprg_GreedyAlg/Bag.cs:37-45 | The volume of a concatenation is the sum of the parts' volumes. Adding a batch's summed volume therefore keeps the running volume equal to the contents' volume. The sum itself is `Jewels.TotalVolume`. |
| `Jewels.TotalPriceAppend` | Semprg_GreedyAlg/Program.cs:124-125 | The total price of a concatenation is the sum of the parts' totals. `GetTotalPrice` is modelled by `Jewels.TotalPrice`. |
| `Bags.NewBag` | Semprg_GreedyAlg/Bag.cs:13-17 | A new bag is empty and has the given maximum volume. Its running volume is accounted for. It satisfies the capacity invariant exactly when the maximum volume is non-negative. |
| `Bags.DoesJewelFit` | Semprg_GreedyAlg/Bag.cs:19-22 | For an accounted bag, a jewel fits exactly when the contents plus that jewel stay within the maximum volume. |
| `Bags.AddJewel` | Semprg_GreedyAlg/Bag.cs:24-33 | A jewel that does not fit is refused with the "does not fit" error. A jewel that fits is appended at the end, and the volume grows by its volume. The maximum volume is unchanged and the invariant holds afterwards. |
| `Bags.AddJewels` | Semprg_GreedyAlg/Bag.cs:35-46 | The batch is refused, with nothing added, exactly when contents plus batch exceed the maximum volume. Otherwise the whole batch is appended in order, and the volume grows by the batch's volume. An empty batch leaves a valid bag as it was. |
| `Bags.AddJewelsIsAllOrNothing` | Semprg_GreedyAlg/Bag.cs:35-46 | A batch add succeeds exactly when adding the same jewels one by one would, and then gives the same bag. Otherwise it commits nothing. |
| `GreedyRobber.OptimumIndexOfJewel` | Semprg_GreedyAlg/Program.cs:60-61 | For a positive volume the key is the finite ratio r with r * volume = price. A zero volume gives infinity for a positive price and not-a-number for price 0. |
| `GreedyRobber.OptimumIndexIsCrossMultiplication` | Semprg_GreedyAlg/Program.cs:60-61 | For positive volumes, one jewel ranks strictly above another exactly when price_a * volume_b > price_b * volume_a. |
| `GreedyRobber.Insert` | Semprg_GreedyAlg/Program.cs:41-47 | Inserting a jewel adds exactly that jewel to the multiset of jewels. |
| `GreedyRobber.InsertKeepsRanking` | Semprg_GreedyAlg/Program.cs:41-47 | Inserting into a non-increasing ranking keeps it non-increasing. |
| `GreedyRobber.InsertIsStable` | Semprg_GreedyAlg/Program.cs:41-47 | The inserted jewel lands ahead of every jewel with the same key. All other key classes are unchanged. |
| `GreedyRobber.SortByOptimumIndex` | Semprg_GreedyAlg/Program.cs:41-47 | The ranking is a permutation of the input. |
| `GreedyRobber.SortIsStableRanking` | Semprg_GreedyAlg/Program.cs:41-47 | The ranking is a permutation of the input and non-increasing in key. For every key, the jewels with that key appear in input order. |
| `GreedyRobber.AddWhileFitting` | Semprg_GreedyAlg/Program.cs:49-57 | One pass keeps the earlier contents and the maximum volume. It appends an order-preserving selection of the ranked jewels and keeps the invariant. Every ranked jewel that was skipped does not fit the final bag. |
| `GreedyRobber.FillBagWithJewels` | Semprg_GreedyAlg/Program.cs:38-58 | The greedy fill keeps a valid bag valid. It adds each input jewel at most once, in non-increasing key order. Every input jewel it left out does not fit the final bag. |
| `GreedyRobber.AddWhileFittingStep` | Semprg_GreedyAlg/Program.cs:49-55 | Extending the ranked jewels by one jewel adds it to the bag the shorter pass left exactly when it fits there, and otherwise leaves that bag unchanged. |
| `GreedyRobber.GreedyTakesEachJewelThatFits` | Semprg_GreedyAlg/Program.cs:30-36 | The fill is the pass over all ranked jewels. The k-th ranked jewel is added exactly when it fits the bag built from the jewels ranked before it. |
| `BruteRobber.GetBestPriceBruteForce` | Semprg_GreedyAlg/Program.cs:94-122 | The result extends the current selection with an order-preserving selection of the remaining jewels. That selection fits in the remaining volume. Past the end, or with no volume left, the current selection is returned unchanged. |
| `BruteRobber.CutoffIsHarmlessWhenJewelsTakeRoom` | Semprg_GreedyAlg/Program.cs:96-100 | When every jewel has volume at least 1, the search as written equals the search without the `remainingVolume <= 0` stop. |
| `BruteRobber.BruteForceIsOptimal` | Semprg_GreedyAlg/Program.cs:85-122 | When every jewel has volume at least 1, no selection of the jewels that fits the capacity is worth more than the search's result. |
| `BruteRobber.GetBestPriceFullSearch` | Semprg_GreedyAlg/Program.cs:94-122 | The corrected search, which stops only past the last jewel. Its result extends the current selection with an order-preserving selection of the remaining jewels that fits the remaining volume. |
| `BruteRobber.FullSearchIsOptimal` | Semprg_GreedyAlg/Program.cs:85-122 | Every selection of the remaining jewels that fits the remaining volume is worth at most what the corrected search adds. This holds for any volumes. |
| `BruteRobber.ZeroVolumeJewelIsLeftBehind` | Semprg_GreedyAlg/Program.cs:96-100 | Example: jewels (1,1) and (0,5) with capacity 1. The search as written returns only (0,5), worth 5. Both jewels fit and are worth 6, and the corrected search takes both. |
| `BruteRobber.FullSearchLeavesWorthlessJewels` | Semprg_GreedyAlg/Program.cs:114-118 | Including a jewel needs a strictly higher total, so the corrected search never takes a jewel of price 0. |
| `BruteRobber.BruteForceLeavesWorthlessJewels` | Semprg_GreedyAlg/Program.cs:114-118 | The same holds for the search as written, when every jewel has volume at least 1: ties go to leaving the jewel out. |
| `BruteRobber.FillBagWithJewels` | Semprg_GreedyAlg/Program.cs:70-82 | On success, the search's selection for the whole maximum volume is appended to the bag. On a new, valid bag the batch add never fails, and the bag stays valid. With a negative maximum volume it always fails. |
| `BruteRobber.FillPlansWithoutTheBagsContents` | Semprg_GreedyAlg/Program.cs:79-81 | Example: a valid bag of volume 5 already holds a jewel of volume 5, and the input is one jewel (1,1). The batch add of the fill as written is refused. |
| `BruteRobber.FillRemainingRoom` | Semprg_GreedyAlg/Program.cs:70-82 | The corrected fill plans for the room left in the bag. On any valid bag it succeeds and keeps the bag valid. |
| `BruteRobber.FillRemainingRoomIsOptimal` | Semprg_GreedyAlg/Program.cs:70-82 | No choice of input jewels that fits in the room left gives the bag a higher total price than the corrected fill. |
| `BruteRobber.FillsAgreeOnNewBag` | Semprg_GreedyAlg/Program.cs:79-81 | On a new bag with non-negative capacity, and with every jewel of volume at least 1, the corrected fill and the fill as written give the same result. |
| `Robbers.GreedyNeverBeatsFullSearch` | Semprg_GreedyAlg/Program.cs:28-82 | On any valid bag, the greedy fill is worth no more than the corrected brute-force fill, and that fill always succeeds. |
| `Robbers.GreedyNeverBeatsBruteForce` | Semprg_GreedyAlg/Program.cs:28-82 | On a new bag with non-negative capacity, and with every jewel of volume at least 1, the brute-force fill as written succeeds. The greedy fill is worth no more than it. |
| `Robbers.GreedyCanLose` | Semprg_GreedyAlg/Program.cs:30-36 | Example: jewels (3,90), (2,50), (2,50) in a bag of volume 4. Greedy takes only (3,90); brute force takes both (2,50), worth 100. The greedy fill is a heuristic. |
| `Robbers.GreedyBeatsBruteForceWithFreeJewel` | Semprg_GreedyAlg/Program.cs:97 | Example: jewels (1,1) and (0,5) in a new bag of volume 1. Greedy takes both, worth 6. The brute-force robber as written takes only (0,5), worth 5. |

## Left out

- The top-level benchmark at `Program.cs:1-24` is left out: stopwatch timing and console output.
- `Bag.PrintContents` is left out because it only writes to the console.
- `Jewel.GenerateRandomJewelsFrom` is left out because it depends on the system random number generator.
- `Jewel.StaticJewelTypes` is fixture data and is not modelled.
- `IRobber` has one method and no behaviour. Both robbers take the bag and the jewels. The greedy fill returns the next bag because its guarded adds never fail. The brute-force fill returns an `AddResult` because its batch add can be refused.
- Floating-point arithmetic is not modelled. Volumes and prices are whole numbers.
- The program mixes `double` volumes with the bag's `int` counters. That mismatch is not modelled.
- The `Bag` type is a C# `ref struct` passed by value while sharing its inner list. Here the bag is an immutable value: each add returns the next bag, and a refused add leaves the caller holding the unchanged bag.
- The unused `currentValue` argument of the search and its list copying are not modelled. The search works on immutable sequences.
- GreedyRobber.OptimumIndexOfJewel: the key is the exact ratio, not the rounded double. Two different ratios that round to the same double are ordered here, while the program treats them as a tie.
- BruteRobber.GetBestPriceBruteForce: requires the index to be at most the number of jewels. The only caller starts at 0 and each recursive call adds one.
- BruteRobber.BruteForceIsOptimal: holds only when every jewel has volume at least 1. The counterexample is under Findings.
- Robbers.GreedyNeverBeatsBruteForce: holds only on a new bag with jewels of volume at least 1. The general statement is `Robbers.GreedyNeverBeatsFullSearch`.
- An exception thrown from a bag add is modelled as a `Rejected` result. It is not propagated as an exception.

## Findings

| source | as written | input that shows it | evidently intended | confidence | as-written member | corrected member |
|---|---|---|---|---|---|---|
| Semprg_GreedyAlg/Program.cs:97 | The search stops as soon as `remainingVolume <= 0`, even when jewels remain to decide. | Jewels (1,1) then (0,5), capacity 1. The search returns only (0,5), worth 5, but both jewels fit and are worth 6. The greedy robber takes both, so here it beats the brute-force robber. | Stop only when the jewels run out, so jewels of zero volume are still taken into a full bag. | medium; not executed | `BruteRobber.GetBestPriceBruteForce`, shown by `BruteRobber.ZeroVolumeJewelIsLeftBehind` and, against the greedy robber, by `Robbers.GreedyBeatsBruteForceWithFreeJewel` | `BruteRobber.GetBestPriceFullSearch`, proved optimal by `BruteRobber.FullSearchIsOptimal` |
| Semprg_GreedyAlg/Program.cs:79-81 | The brute-force robber plans for `bag.MaxVolume` and ignores what the bag already holds. | A bag of volume 5 holding a jewel of volume 5, and input jewel (1,1). The search picks (1,1), and `AddJewels` throws. | Plan for the room left, `MaxVolume - volumeInside`, so the batch add never fails on a valid bag. | low (the program only passes new bags); not executed | `BruteRobber.FillBagWithJewels`, shown by `BruteRobber.FillPlansWithoutTheBagsContents` | `BruteRobber.FillRemainingRoom`, proved by `BruteRobber.FillRemainingRoomIsOptimal`; used by `Robbers.GreedyNeverBeatsFullSearch` |
