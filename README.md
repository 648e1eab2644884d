# A genetic-algorithm TSP engine, modelled in Dafny

This project models the core of a genetic-algorithm solver for the
Travelling Salesman Problem. Each candidate solution is a **tour**: a
visiting order of the city ids `0..n-1`, together with the coordinate
tables the ids index. A **population** of tours evolves one generation at
a time, in four steps:

1. **evaluate** computes every tour's closed-cycle length. Each length is
   pushed as an `Evaluation` onto a priority queue whose comparison
   operators are reversed, so the shortest tour comes out first.
2. **select** (elitism) copies the `num_elitism` shortest tours into the
   next generation, best first.
3. **crossover** fills the rest of the generation with children of those
   survivors. Each child comes from *order crossover*: it copies a prefix
   of parent 1, then takes parent 2's id at each later position. When that
   id is already placed, it takes the first unplaced id of parent 2,
   scanning from the start. An `added_tracker` array records the ids
   already placed.
4. **mutate** performs `num_mutations` swaps, each on a randomly drawn
   tour other than tour 0 (the best of the generation), at two distinct
   positions when the tour has two cities or more.

`update_mins` records the shortest tour of the current population.

The model has four modules:

- `Permutations` (permutations.dfy): the permutation invariant, plus the
  counting facts (pigeonhole, covering) behind it.
- `Tours` (tour.dfy): the class `Tour`. Its `id`, `xc` and `yc` fields
  are updated in place. Next to it are value-level definitions of the
  tour length (`TourDist`) and of a swap (`Swapped`).
- `Evaluations` (evaluation.dfy): the `Evaluation` record of
  Population.hpp:11-14 (a tour index and its length) and its reversed
  operators. The priority queue is modelled as a sequence: `IsTop` says
  which positions `top()` may yield, `Top` takes one, and `Pop` removes
  it.
- `Populations` (population.dfy): `GenerateChild`, which keeps the
  tracker array, and the class `Population`, whose methods update
  `currentPop`, `minDist` and `minPath`.

### How the program's inputs enter the model

- **Random numbers.** Every `rand()` the program calls is an explicit
  non-negative roll that the caller supplies (`PairDraws`, `SwapDraws`).
  The model applies the program's own `% m` to each roll, so every range
  (cut point, parent index, mutation target, swap position) is a theorem.
- **Retry loops.** The loops `while (a == b && m > 1) b = rand() % m;`
  consume a supplied sequence of rolls. `RetrySettles` asks that some
  roll in it leads out of the loop; a real random source does this with
  probability 1.
- **Shuffling.** `std::random_shuffle` becomes a nondeterministic choice
  of a rearrangement of the same ids.
- **Rates.** The counts `ceil(population_size * elitism)` and
  `ceil(population_size * mutation)` are the integer fields
  `numElitism` and `numMutations`.
- **Distances.** `Coord::dist` becomes an arbitrary integer function of
  two ids (`DistFn`). Its non-negativity is a hypothesis where it is
  needed.

### What is proved

- **Crossover.**
  - The fallback scan always finds an unplaced id.
  - Every tracker index is in bounds.
  - The child keeps parent 1's prefix.
  - The child is a permutation.
  - Crossing a tour with itself gives the tour back.
  - The child is uniquely determined by the parents and the cut.
- **Selection.**
  - The survivors are copies of population members.
  - They come out in non-decreasing length.
  - The first one is a shortest tour.
- **Drawing parents and cuts.**
  - The cut lies in `1..n-2`.
  - Both parents lie in range, and they differ whenever there are two
    parents or more.
- **Size bookkeeping.** After crossover the generation has exactly
  `population_size` tours, including when the number of children is odd.
- **Mutation.**
  - Exactly `num_mutations` swaps are made.
  - Each swap is of two distinct positions when the tour has two cities
    or more.
  - Tour 0 and the coordinate tables are left as they were.
  - Every tour ends as a rearrangement of its old ids.
- **One generation as a whole.**
  - The permutation invariant is kept.
  - The new generation has `population_size` tours.
  - Its first tour is an old tour of minimum length.
  - So the shortest length found by `update_mins` never grows from one
    generation to the next (`BestNeverWorsens`).

### Behaviour of the code that the model keeps

- **Parent choice.** Both parents are drawn uniformly among the survivors
  with `rand() % num_parents` (Population.cpp:95-101). The truncation and
  roulette selectors declared at Population.hpp:49-50 have no body and are
  never called.
- **Mutation count.** `num_mutations` is `ceil(population_size * mutation)`
  (Population.cpp:171): the number of swaps, independent of the tour
  length. Each swap draws its tour afresh from 1..size-1
  (Population.cpp:173-176), so a tour may be swapped several times or not
  at all.
- **Filling a child from parent 2.** Each position from the cut on first
  tries parent 2's id at that same position. Only when that id is already
  placed does the code scan parent 2 from index 0 for the first unplaced
  id (Population.cpp:142-162).
- **Number of children.** The second child of a pair is appended only
  while the generation is short of `population_size`
  (Population.cpp:112-119), so an odd number of children ends with a
  single child from the last pair.

## Model

| member | source | states |
|---|---|---|
| Permutations.MissingId | Population.cpp:152-157 | fewer than n distinct ids below n leave some id below n unused |
| Permutations.PermutationCovers | Population.cpp:152-157 | a permutation of 0..n-1 contains every id below n, so a scan over it meets any unused id |
| Permutations.RearrangedPermutation | Tour.cpp:45-54 | reordering the ids of a permutation gives a permutation of the same ids |
| Permutations.DistinctIffSingleCounts | Tour.cpp:45-54 | a sequence has no repeated id exactly when no id is counted twice in its multiset |
| Tours.TourDist | Tour.cpp:19-37 | the length of the closed tour, leg by leg; the empty tour has length 0 |
| Tours.EdgeIsCyclic | Tour.cpp:23-34 | leg k runs from id[k] to id[(k+1) mod n], the last leg closing back to id[0] |
| Tours.TourDistNonNegative | Tour.cpp:19-37 | a tour's length is never negative when no distance is (Coord.cpp:50-52 rounds a square root) |
| Tours.RotationKeepsDist | Tour.cpp:23-34 | the cyclic length does not depend on the city the tour starts from |
| Tours.Swapped | Tour.cpp:45-54 | positions i and j exchanged, every other position and the length kept |
| Tours.SwapKeepsIds | Tour.cpp:45-54 | a swap keeps the multiset of ids, so a permutation stays a permutation |
| Tours.SwapSelfIsIdentity | Tour.cpp:45-54 | swapping a position with itself changes nothing |
| Tours.SwapTwiceRestores | Tour.cpp:45-54 | swapping the same pair twice restores the original order |
| Tours.Tour.Empty | Tour.cpp:8 | the default constructor leaves ids and coordinates empty |
| Tours.Tour.constructor | Tour.cpp:10-14 | stores ids, x and y into id, xc and yc |
| Tours.Tour.Copy | Population.cpp:72-74 | a by-value copy: a new object with the same ids and coordinates |
| Tours.Tour.CalcTourDist | Tour.cpp:19-37 | the accumulated total equals TourDist of the ids |
| Tours.Tour.ShufflePath | Tour.cpp:40-42 | the ids become some rearrangement of themselves, same length, coordinates untouched |
| Tours.Tour.Swap | Tour.cpp:45-54 | for in-range i and j the ids become Swapped(old ids, i, j), coordinates untouched |
| Tours.Tour.SetID | Tour.cpp:57-59 | the ids become newPath, coordinates untouched |
| Tours.Tour.GetID | Tour.cpp:62-64 | returns the ids |
| Tours.Tour.GetX | Tour.cpp:66-68 | returns the x coordinates |
| Tours.Tour.GetY | Tour.cpp:70-72 | returns the y coordinates |
| Evaluations.GreaterIsConverse | Population.hpp:16-21 | a > b holds exactly when b < a |
| Evaluations.LessIsStrictOrder | Population.hpp:16-18 | the reversed < is irreflexive, asymmetric and transitive |
| Evaluations.TiesAreIncomparable | Population.hpp:15-18 | two evaluations are incomparable exactly when their lengths are equal |
| Evaluations.Less | Population.hpp:16-18 | a < b exactly when a is the longer tour: the ranking is reversed, so the top of a queue ordered by < is a shortest tour |
| Evaluations.Greater | Population.hpp:19-21 | a > b exactly when a is the shorter tour, reversed in the same way |
| Evaluations.TopIndex | Population.cpp:72 | a non-empty queue has a top: the earliest entry of minimal fitVal, which no entry outranks; it is the witness `Top` draws on |
| Evaluations.Top | Population.cpp:197 | top() of a non-empty queue is at a position that no queued entry outranks; which of several tied entries is left open |
| Evaluations.Pop | Population.cpp:76 | pop removes exactly one entry |
| Evaluations.PopRemovesOne | Population.cpp:76 | pop removes that one entry and keeps every other, counted as a multiset |
| Populations.ExtendChild | Population.cpp:141-163 | appending an unplaced id chosen by the crossover rule keeps the child a duplicate-free prefix-of-parent-1 partial permutation |
| Populations.TracksAppend | Population.cpp:137-161 | marking the appended id keeps the tracker equal to "id already in the child" |
| Populations.FirstUnplaced | Population.cpp:152-157 | the fallback scan stops inside path2, at its first id not in the child |
| Populations.GenerateChild | Population.cpp:124-166 | the child has parent 1's length and prefix, follows the parent-2 rule at every later position, is a permutation, and equals parent 1 when both parents are equal |
| Populations.ChildUnique | Population.cpp:124-166 | the parents and the cut determine the child |
| Populations.SelfCrossIsIdentity | Population.cpp:133-163 | a permutation crossed with itself gives itself back, whatever the cut |
| Populations.DrawDistinct | Population.cpp:96-101 | the redraw loop ends with a value in 0..m-1, different from the first when m > 1, at the first roll that differs |
| Populations.RedrawnUnique | Population.cpp:99-101 | the redraw loop has a single outcome for given rolls |
| Populations.MutationTarget | Population.cpp:176 | the tour to mutate lies in 1..size-1, never the best tour at 0 |
| Populations.CrossPoint | Population.cpp:92 | the cut lies in 1..n-2 for n >= 3 and is 1 for n = 1, with C++'s sign rule for % |
| Populations.MinTourDist | Population.cpp:192-199 | the minimum length: no tour is shorter and some tour attains it |
| Populations.ApplySwaps | Population.cpp:173-188 | successive swaps keep the number of tours and each tour's length |
| Populations.ApplySwapsKeepsIds | Population.cpp:169-189 | swaps off tour 0 leave tour 0 as it was; every tour ends a rearrangement of its ids, and a permutation stays one |
| Populations.SelectStep | Population.cpp:70-77 | popping any top keeps the selection in non-decreasing length, no longer than anything still queued, its first entry a shortest of all, with every index naming a tour |
| Populations.DrainAt | Population.cpp:70-77 | after k top/pop rounds at the given positions, k entries are popped and the rest stay queued |
| Populations.DrainSelects | Population.cpp:66-78 | whichever top each round takes, the round-by-round invariant of SelectStep holds after every round |
| Populations.DrainBounds | Population.cpp:72 | the entries still queued after any rounds name tours of the population |
| Populations.DrainShortest | Population.cpp:66-78 | whichever top each round takes, the popped entries come from the queue, in non-decreasing length, none longer than an entry left unpopped, the first a shortest of all |
| Populations.SelectedEnds | Population.cpp:66-78 | the round-by-round invariant yields those final facts about the selection |
| Populations.OffspringPermutations | Population.cpp:104-119 | every child bred from permutations is a permutation |
| Populations.OffspringTables | Population.cpp:87-108 | every bred child carries the coordinate tables of `next_gen.at(0)`, from which `childTour` is copied |
| Populations.TopIsShortest | Population.cpp:192-199 | any top of the evaluation queue names its own tour, and that tour's length is the population's minimum |
| Populations.PoppedMatchTours | Population.cpp:72 | each popped evaluation is the one pushed for its tour, so its index names a tour of the population |
| Populations.BestNeverWorsens | Population.cpp:35-52 | when the new first tour is no longer than any old tour, the minimum length does not grow |
| Populations.Population.constructor | Population.cpp:9-13 | stores the population size and the two counts; the population starts empty |
| Populations.Population.Initialize | Population.cpp:15-29 | records the seed's ids and length as the best so far and appends population_size new tours, each a rearrangement of the seed with its coordinates |
| Populations.Population.Evaluate | Population.cpp:55-63 | one evaluation per tour, in population order, holding its index and its length |
| Populations.Population.Select | Population.cpp:66-78 | pushes a fresh copy of each of the num_elitism tours popped at the queue's tops, in popping order; whichever tied entry each top yields, they are in non-decreasing length, none longer than a tour left unpopped, the first a shortest of all |
| Populations.Population.SelectOne | Population.cpp:70-77 | one round: some top is chosen, a fresh copy of its tour is appended, and that entry is popped |
| Populations.Population.DrawMating | Population.cpp:92-101 | the cut and the two parents, drawn as MatingDrawn says: in range, distinct when there are two parents or more |
| Populations.Population.MakeChild | Population.cpp:104-109 | sets childTour to the crossover of the named parents and pushes a copy of it; childTour keeps that child's ids and its own coordinates |
| Populations.Population.BreedPair | Population.cpp:90-120 | one iteration appends the first child and, while the generation is short, the child of the parents exchanged with the same cut; childTour ends holding the last child's ids |
| Populations.Population.Crossover | Population.cpp:81-121 | the survivors stay in place and children are appended until population_size, each bred from drawn parents and cut |
| Populations.Population.Mutate | Population.cpp:169-189 | exactly num_mutations drawn swaps applied in order; tour 0 and the coordinates untouched; every tour a rearrangement of its old ids |
| Populations.Population.MutateOne | Population.cpp:173-188 | one mutation: a drawn tour other than 0 has two drawn positions, distinct when possible, swapped |
| Populations.Population.UpdateMins | Population.cpp:192-199 | minDist becomes the minimum tour length and minPath the ids of a tour attaining it; the population is untouched |
| Populations.Population.GetMinDist | Population.cpp:202-204 | returns the recorded minimum length |
| Populations.Population.GetMinPath | Population.cpp:207-209 | returns the recorded best path |
| Populations.Population.Survivors | Population.cpp:38-43 | the survivors are fresh permutations in non-decreasing length; the first is a copy of a shortest tour; all carry the population's shared coordinate tables |
| Populations.Population.CrossAndMutate | Population.cpp:45-49 | the generation grows to population_size permutations and tour 0 keeps its ids through mutation; every tour carries tour 0's coordinate tables |
| Populations.Population.NextGeneration | Population.cpp:35-52 | the new population has population_size distinct permutations; tour 0 is an old tour no longer than any old tour; every tour keeps the old coordinate tables; the recorded best is untouched |

## Left out

- Console and file output (`print` in Population.cpp:212-216 and
  Tour.cpp:75-82, reading the point file, `main`): these are I/O.
- The pseudorandom generator and `std::random_shuffle`: rolls are
  parameters, and the shuffle is any rearrangement. The randomness itself
  (uniformity, independence) is not modelled.
- `Coord::dist`: floating-point `sqrt`, `pow` and `round`, abstracted as
  an arbitrary integer function of two ids.
- The `ceil(double * double)` computations of the two counts: they are
  integer fields.
- `int` width: tour lengths and indices are unbounded integers; a
  32-bit overflow of `total_dist` is not modelled.
- How `std::priority_queue` orders ties. `Top` returns any entry that no
  queued entry outranks, and `Select` and `UpdateMins` take their tops
  from it, so their contracts hold whichever tied entry the library
  yields. `TopIndex` serves only to show that a top exists.
- Population.hpp's `truncationSelect` and `rouletteSelect`
  (Population.hpp:49-50): declared without a body. The header's
  camelCase names and its changed `select`/`crossover` signatures
  (Population.hpp:26-46) do not match Population.cpp; the model follows
  Population.cpp.
- `minDist` before `initialize`: the C++ leaves it uninitialised; the
  model's constructor leaves it unspecified.
- Aliasing between tours: C++ vectors hold tours by value, so every
  slot is a separate object (`Tour.Copy` on each `push_back`).
  `Mutate` and `NextGeneration` state this as `DistinctFrom`; it is how
  vector storage works, not a demand on callers.
- Populations.Population.Select: models the call from
  `next_generation`, whose `next_gen` is empty. Appending to a non-empty
  vector is not modelled.
- Populations.Population.Crossover: requires `|nextGen| == numElitism`,
  as the only caller guarantees. It also requires the tour size to be 1
  or at least 3 when children are bred: `rand() % (tour_size - 2)` divides
  by zero at size 2, and at size 0 `path1.at(0)` throws.
- Populations.Population.NextGeneration: requires every tour to be a
  permutation of the same ids and to carry the same coordinate tables
  (one `dist` stands for every tour's `Coord::dist`). `generateChild` indexes `added_tracker`
  with the parents' ids and scans for an unused id, so the program relies
  on this; `Initialize` establishes it from a permutation seed.
- Populations.Population.NextGeneration: states optimality in the form
  "tour 0 is no longer than any old tour" rather than comparing the two
  generations' `MinTourDist`; `BestNeverWorsens` makes that comparison.
- Preconditions in place of the program's failures. `Evaluate` requires
  `populationSize <= |currentPop|`, where `current_pop.at(i)` would throw
  (Population.cpp:58). `Select` requires `numElitism <= |eval|` and
  `UpdateMins` requires `1 <= populationSize`, where `top()` on an empty
  queue is undefined (Population.cpp:72 and 197). `NextGeneration`
  requires `1 <= numElitism`, where `next_gen.at(0)` would throw
  (Population.cpp:86). `Mutate` requires at least two tours when
  `numMutations > 0` and every tour to have at least one city, and
  `NextGeneration` requires `populationSize >= 2` and a non-empty tour 0
  when mutating, where the program would compute `rand() % 0`
  (Population.cpp:176 and 179). The model has no exceptions to raise.
- The retry loops: `RetrySettles` requires the supplied rolls to contain
  one that leaves the loop; an endlessly repeating generator is not
  modelled.
- The methods SelectOne, DrawMating, MakeChild, BreedPair, MutateOne,
  Survivors and CrossAndMutate split the source's loop bodies and
  `next_generation` into parts. Together they run the same steps in the
  same order.
