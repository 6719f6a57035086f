# Single-point crossover for integer vectors

A Dafny model of `SinglePointCrossover`, the genetic-algorithm operator of
Chips-n-Salsa that recombines two equal-length integer vectors. The operator
draws a cut point `p` uniformly from `0..n-2`. It then swaps the closed
prefix `[0, p]` between the two parents in place, through
`IntegerVector.exchange(c1, c2, 0, p)`. Each child keeps its own tail
`p+1..n-1` and takes the other parent's head.

Two modules:

- `IntegerVector` holds the segment-exchange primitive. `Exchange` is the
  exchange as a value on `seq<int>`. `ExchangeInPlace` is the in-place loop
  on two `array<int>`. `Exchanged` is the position-by-position reference
  specification that both are proved against. `IntegerVector.java` is not
  part of this model. The model takes `exchange`, as called at
  `SinglePointCrossover.java:56`, to be the inclusive swap loop over
  `lo..hi`, which does nothing when `lo > hi`.
- `SinglePointCrossover` holds the stateless operator value `Crossover`.
  `Offspring` gives the two children as values and `Cross` mutates two
  arrays in place. `Split` returns the operator itself.

The random draw `RandomIndexer.nextInt(c1.length() - 1)` becomes the
parameter `p`. `IsCutPoint(n, p)` says `0 <= p < n - 1`, which is exactly
the set of values that draw can return. It also implies `n >= 2`.

The class comment (`SinglePointCrossover.java:28-32`) does not say which side
of the cut is exchanged; line 56 exchanges the prefix `[0, p]`, and the model
follows it.

## Model

| member | source | states |
|---|---|---|
| IntegerVector.Exchange | src/main/java/org/cicirello/search/operators/integers/SinglePointCrossover.java:56 | both results keep the common length; inside `[lo, hi]` each holds the other vector's old value, and outside it each holds its own old value |
| IntegerVector.ExchangedDeterminesResult | src/main/java/org/cicirello/search/operators/integers/SinglePointCrossover.java:56 | the position-wise exchange specification has exactly one solution, the one `Exchange` computes |
| IntegerVector.ExchangeEmptyRange | src/main/java/org/cicirello/search/operators/integers/SinglePointCrossover.java:56 | an exchange over an empty range (`lo > hi`) leaves both vectors identical to their inputs, as the inclusive swap loop assumed for `exchange` does |
| IntegerVector.ExchangeSelfInverse | src/main/java/org/cicirello/search/operators/integers/SinglePointCrossover.java:56 | exchanging the same range twice restores both vectors |
| IntegerVector.ExchangeConservesPairs | src/main/java/org/cicirello/search/operators/integers/SinglePointCrossover.java:56 | at every index, the unordered pair of values held by the two vectors is the same before and after |
| IntegerVector.PairwiseConservationIsGlobal | src/main/java/org/cicirello/search/operators/integers/SinglePointCrossover.java:56 | if every index keeps its unordered pair of values, the combined multiset of the two vectors is unchanged |
| IntegerVector.ExchangeConservesMultiset | src/main/java/org/cicirello/search/operators/integers/SinglePointCrossover.java:56 | an exchange never creates or destroys a value: the combined multiset of both vectors is preserved |
| IntegerVector.ExchangeInPlace | src/main/java/org/cicirello/search/operators/integers/SinglePointCrossover.java:56 | the in-place swap loop over `[lo, hi]` changes only the two arrays, and leaves them holding the position-wise exchange of their old contents (aliased arrays allowed) |
| SinglePointCrossover.Crossover.Offspring | src/main/java/org/cicirello/search/operators/integers/SinglePointCrossover.java:28-57 | for a cut point `p` in `0..n-2`, the children keep the parents' length; positions `0..p` hold the other parent's values and positions `p+1..n-1` their own parent's; so index 0 is always exchanged and index `n-1` never is |
| SinglePointCrossover.Crossover.Cross | src/main/java/org/cicirello/search/operators/integers/SinglePointCrossover.java:55-57 | the in-place crossover modifies only `c1` and `c2`, and leaves in them exactly the two children `Offspring` describes |
| SinglePointCrossover.Crossover.Split | src/main/java/org/cicirello/search/operators/integers/SinglePointCrossover.java:59-64 | `split` returns the operator itself |
| SinglePointCrossover.OffspringIsSplice | src/main/java/org/cicirello/search/operators/integers/SinglePointCrossover.java:28-32 | each child is one parent's prefix `[0..p]` followed by the other parent's suffix `[p+1..n-1]` |
| SinglePointCrossover.CrossTwiceRestores | src/main/java/org/cicirello/search/operators/integers/SinglePointCrossover.java:56 | crossing the children again at the same cut point gives back the parents |
| SinglePointCrossover.OffspringConservesValues | src/main/java/org/cicirello/search/operators/integers/SinglePointCrossover.java:56 | crossover keeps the unordered pair of values at every index, and hence the combined multiset of both vectors |
| SinglePointCrossover.SplitCrossesIdentically | src/main/java/org/cicirello/search/operators/integers/SinglePointCrossover.java:59-64 | the handle returned by `split` produces the same children as the original operator |
| SinglePointCrossover.FivePointExample | src/main/java/org/cicirello/search/operators/integers/SinglePointCrossover.java:55-57 | crossing `[1,2,3,4,5]` and `[6,7,8,9,10]` at cut point 2 yields `[6,7,8,4,5]` and `[1,2,3,9,10]` |

## Left out

- The random draw `RandomIndexer.nextInt`: it is a foreign call, so the cut point is a parameter. Its uniform distribution over `0..n-2` is not modelled.
- Vectors shorter than 2 (length 0 or 1): the source calls `nextInt(0)` or `nextInt(-1)` without a guard. No cut point exists there, so `IsCutPoint` excludes these cases instead of inventing a policy.
- The behaviour of `exchange` for `lo > hi` and for indices outside the vectors: the model does not include `IntegerVector.exchange`'s own code, and `cross` never reaches these cases, since it always passes `lo = 0 <= p = hi < n`. The model assumes the inclusive swap loop (a no-op for `lo > hi`) and requires in-range indices otherwise.
- Vectors of different lengths: the source leaves the behaviour undefined, and every member requires equal lengths.
- The storage and value bounds of `IntegerVector` and `BoundedIntegerVector`: only the range-swap effect used at `SinglePointCrossover.java:56` is modelled.
- Thread safety of `split` and the generic type parameter `T`: these concern concurrency and Java typing. Sequentially, `split` is the identity on a stateless operator value.
- Integer width: vector elements are unbounded `int`. The operation only moves values and never computes with them, so 32-bit wrap-around cannot arise.
