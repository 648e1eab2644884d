/** The evolutionary engine (Population.cpp): order crossover, one generation
    step (evaluate, select, crossover, mutate) and the record of the best
    tour. */
module Populations {
  import opened Permutations
  import opened Tours
  import opened Evaluations

  /** How order crossover fills position k of `child` from parent 2: parent
      2's id at k when the child does not hold it yet, otherwise the first
      id of parent 2, scanning from the start, that the child does not hold
      yet. */
  ghost predicate FilledFromSecond(child: seq<int>, path2: seq<int>, k: nat)
    requires k < |child| && k < |path2|
  {
    if path2[k] !in child[..k] then child[k] == path2[k]
    else exists j :: 0 <= j < |path2| && child[k] == path2[j] && path2[j] !in child[..k] &&
                     forall j' :: 0 <= j' < j ==> path2[j'] in child[..k]
  }

  lemma FilledFromSecondStable(child: seq<int>, x: int, path2: seq<int>, k: nat)
    requires k < |child| && k < |path2| && FilledFromSecond(child, path2, k)
    ensures FilledFromSecond(child + [x], path2, k)
  {
    assert (child + [x])[..k] == child[..k];
  }

  /** What holds of a partly built child: a prefix of parent 1, then
      positions filled from parent 2, with no id twice. */
  ghost predicate ChildSoFar(child: seq<int>, path1: seq<int>, path2: seq<int>, cross: nat)
    requires cross <= |path1| == |path2|
  {
    && cross <= |child| <= |path1|
    && child[..cross] == path1[..cross]
    && InRange(child, |path1|) && Distinct(child)
    && (forall k :: cross <= k < |child| ==> FilledFromSecond(child, path2, k))
    && (path1 == path2 ==> child == path1[..|child|])
  }

  /** Appending an id not yet placed, chosen by the order-crossover rule,
      keeps ChildSoFar. */
  lemma ExtendChild(before: seq<int>, next: int, path1: seq<int>, path2: seq<int>, cross: nat)
    requires cross <= |path1| == |path2|
    requires ChildSoFar(before, path1, path2, cross) && |before| < |path1|
    requires 0 <= next < |path1| && next !in before
    requires FilledFromSecond(before + [next], path2, |before|)
    requires path1 == path2 ==> next == path1[|before|]
    ensures ChildSoFar(before + [next], path1, path2, cross)
  {
    var child := before + [next];
    forall k | cross <= k < |before|
      ensures FilledFromSecond(child, path2, k)
    {
      FilledFromSecondStable(before, next, path2, k);
    }
    assert child[..cross] == before[..cross];
    if path1 == path2 {
      assert path1[..|child|] == path1[..|before|] + [path1[|before|]];
    }
  }

  /** The tracker marks with a non-zero entry exactly the ids in `child`. */
  ghost predicate Tracks(tracker: seq<int>, child: seq<int>) {
    forall v :: 0 <= v < |tracker| ==> (tracker[v] == 0 <==> v !in child)
  }

  lemma TracksAppend(tracker: seq<int>, child: seq<int>, next: int)
    requires Tracks(tracker, child) && 0 <= next < |tracker|
    ensures Tracks(tracker[next := 1], child + [next])
  {
  }

  /** In a permutation, the id at position i does not occur before it. */
  lemma NotBefore(s: seq<int>, i: nat)
    requires Distinct(s) && i < |s|
    ensures s[i] !in s[..i]
  {
  }

  /** The fallback scan of order crossover: the first position of `path2`
      whose id the child does not hold yet. One exists since fewer than
      |path2| ids are placed. */
  method FirstUnplaced(tracker: array<int>, path2: seq<int>, ghost child: seq<int>) returns (j: int)
    requires IsPermutation(path2, tracker.Length) && Distinct(child) && InRange(child, tracker.Length)
    requires |child| < tracker.Length && Tracks(tracker[..], child)
    ensures 0 <= j < |path2| && path2[j] !in child
    ensures forall j' :: 0 <= j' < j ==> path2[j'] in child
  {
    var n := tracker.Length;
    MissingId(child, n);
    ghost var v :| 0 <= v < n && v !in child;
    PermutationCovers(path2, n);
    ghost var w := IndexOf(path2, v);
    j := 0;
    while tracker[path2[j]] != 0
      invariant 0 <= j <= w
      invariant forall j' :: 0 <= j' < j ==> path2[j'] in child
      decreases w - j
    {
      j := j + 1;
    }
  }

  /** Order crossover: the first `cross` ids come from parent 1 in place, the
      rest from parent 2 as FilledFromSecond says. A tracker array marks the
      ids already placed. */
  method GenerateChild(path1: seq<int>, path2: seq<int>, cross: int) returns (childPath: seq<int>)
    requires IsPermutation(path1, |path1|) && IsPermutation(path2, |path1|)
    requires 0 <= cross <= |path1|
    ensures |childPath| == |path1|
    ensures childPath[..cross] == path1[..cross]
    ensures forall k :: cross <= k < |childPath| ==> FilledFromSecond(childPath, path2, k)
    ensures IsPermutation(childPath, |path1|)
    ensures path1 == path2 ==> childPath == path1
  {
    childPath := [];
    var tourSize := |path1|;

    // 0 = not added, 1 = added
    var addedTracker := new int[tourSize];
    for i := 0 to tourSize
      invariant forall v :: 0 <= v < i ==> addedTracker[v] == 0
    {
      addedTracker[i] := 0;
    }

    // Inherit from parent 1
    for i := 0 to cross
      invariant childPath == path1[..i]
      invariant Tracks(addedTracker[..], childPath)
    {
      assert path1[..i + 1] == path1[..i] + [path1[i]];
      TracksAppend(addedTracker[..], childPath, path1[i]);
      childPath := childPath + [path1[i]];
      addedTracker[path1[i]] := 1;
    }
    assert ChildSoFar(childPath, path1, path2, cross);

    // Inherit from parent 2
    for i := cross to tourSize
      invariant |childPath| == i
      invariant ChildSoFar(childPath, path1, path2, cross)
      invariant Tracks(addedTracker[..], childPath)
    {
      ghost var before := childPath;
      assert (before + [path2[i]])[..i] == before;
      NotBefore(path1, i);
      var next;
      if addedTracker[path2[i]] == 0 {
        // The id at i is not yet in the child
        next := path2[i];
      } else {
        // Search path2 from its start for an id not yet in the child.
        var j := FirstUnplaced(addedTracker, path2, childPath);
        next := path2[j];
        assert (before + [next])[..i] == before;
      }
      ExtendChild(before, next, path1, path2, cross);
      TracksAppend(addedTracker[..], childPath, next);
      childPath := childPath + [next];
      addedTracker[next] := 1;
    }
    assert childPath[..tourSize] == childPath;
  }

  /** GenerateChild's promise, as a property of a finished child. */
  ghost predicate IsChildOf(child: seq<int>, path1: seq<int>, path2: seq<int>, cross: int)
  {
    && 0 <= cross <= |path1| == |path2| == |child|
    && child[..cross] == path1[..cross]
    && (forall k :: cross <= k < |child| ==> FilledFromSecond(child, path2, k))
    && IsPermutation(child, |path1|)
  }

  /** Both children agree on the first k positions when they follow the same
      parents and cut. */
  lemma {:induction false} ChildPrefixUnique(c1: seq<int>, c2: seq<int>, path1: seq<int>, path2: seq<int>, cross: int, k: nat)
    requires IsChildOf(c1, path1, path2, cross) && IsChildOf(c2, path1, path2, cross)
    requires k <= |c1|
    ensures c1[..k] == c2[..k]
  {
    if k > 0 {
      ChildPrefixUnique(c1, c2, path1, path2, cross, k - 1);
      var i := k - 1;
      assert c1[..i] == c2[..i];
      if i < cross {
        assert c1[i] == c1[..cross][i] == c2[..cross][i] == c2[i];
      } else {
        assert FilledFromSecond(c1, path2, i) && FilledFromSecond(c2, path2, i);
        if path2[i] in c1[..i] {
          var j1 :| 0 <= j1 < |path2| && c1[i] == path2[j1] && path2[j1] !in c1[..i] &&
                    forall j' :: 0 <= j' < j1 ==> path2[j'] in c1[..i];
          var j2 :| 0 <= j2 < |path2| && c2[i] == path2[j2] && path2[j2] !in c2[..i] &&
                    forall j' :: 0 <= j' < j2 ==> path2[j'] in c2[..i];
          assert j1 == j2;
        }
      }
      assert c1[..k] == c1[..i] + [c1[i]];
      assert c2[..k] == c2[..i] + [c2[i]];
    }
  }

  /** The crossover rule determines the child: one child per parents and cut. */
  lemma ChildUnique(c1: seq<int>, c2: seq<int>, path1: seq<int>, path2: seq<int>, cross: int)
    requires IsChildOf(c1, path1, path2, cross) && IsChildOf(c2, path1, path2, cross)
    ensures c1 == c2
  {
    ChildPrefixUnique(c1, c2, path1, path2, cross, |c1|);
    assert c1 == c1[..|c1|] && c2 == c2[..|c2|];
  }

  /** Crossing a permutation with itself reproduces it, whatever the cut. */
  lemma SelfCrossIsIdentity(child: seq<int>, path: seq<int>, cross: int)
    requires IsPermutation(path, |path|) && IsChildOf(child, path, path, cross)
    ensures child == path
  {
    forall k | cross <= k < |path|
      ensures FilledFromSecond(path, path, k)
    {
      NotBefore(path, k);
    }
    ChildUnique(child, path, path, path, cross);
  }

  // ---------------------------------------------------------------------
  // Random draws. Each `rand()` of the program is a caller-supplied roll;
  // the model applies the program's own `% m` to it.

  /** The rolls of one crossover iteration: the cut, the first parent, and
      the second parent's draws (the first one and its retries). */
  datatype PairDraws = PairDraws(crossRoll: nat, parent1Roll: nat, parent2Rolls: seq<nat>)

  /** The rolls of one mutation: the tour, the first position, and the second
      position's draws (the first one and its retries). */
  datatype SwapDraws = SwapDraws(tourRoll: nat, fromRoll: nat, toRolls: seq<nat>)

  /** A retry loop `while (x == y && m > 1) y = rand() % m;` ends within
      `rolls`: there is a first draw, and when m > 1 some draw differs from
      x = first % m. */
  predicate RetrySettles(first: nat, rolls: seq<nat>, m: int) {
    |rolls| > 0 && (m > 1 ==> exists t :: 0 <= t < |rolls| && rolls[t] % m != first % m)
  }

  /** `y` is a roll, taken `% m`, that the retry loop keeps: every roll drawn
      before it gave `x`. */
  predicate Redrawn(y: int, x: int, rolls: seq<nat>, m: int)
    requires m >= 1
  {
    exists t :: 0 <= t < |rolls| && y == rolls[t] % m && forall u :: 0 <= u < t ==> rolls[u] % m == x
  }

  /** The retry loop has one outcome: two kept draws that both differ from x
      are the same draw. */
  lemma RedrawnUnique(y1: int, y2: int, x: int, rolls: seq<nat>, m: int)
    requires m >= 1 && Redrawn(y1, x, rolls, m) && Redrawn(y2, x, rolls, m)
    requires y1 != x && y2 != x
    ensures y1 == y2
  {
    var t1 :| 0 <= t1 < |rolls| && y1 == rolls[t1] % m && forall u :: 0 <= u < t1 ==> rolls[u] % m == x;
    var t2 :| 0 <= t2 < |rolls| && y2 == rolls[t2] % m && forall u :: 0 <= u < t2 ==> rolls[u] % m == x;
    assert t2 <= t1 && t1 <= t2;
  }

  /** Draw `y = rolls[0] % m`, then redraw while it equals x (unless m is
      1): the first draw that differs. */
  method DrawDistinct(x: int, rolls: seq<nat>, m: int) returns (y: int)
    requires m >= 1 && |rolls| > 0
    requires m > 1 ==> exists t :: 0 <= t < |rolls| && rolls[t] % m != x
    ensures 0 <= y < m
    ensures m > 1 ==> y != x
    ensures Redrawn(y, x, rolls, m)
  {
    y := rolls[0] % m;
    var t := 0;
    ghost var w := 0;
    if m > 1 {
      w :| 0 <= w < |rolls| && rolls[w] % m != x;
    }
    while y == x && m > 1
      invariant 0 <= t <= w < |rolls|
      invariant y == rolls[t] % m
      invariant forall u :: 0 <= u < t ==> rolls[u] % m == x
      decreases w - t
    {
      t := t + 1;
      y := rolls[t] % m;
    }
  }

  /** The tour a mutation picks, `rand() % (pop.size() - 1) + 1`: never 0. */
  function MutationTarget(d: SwapDraws, popSize: int): (k: int)
    requires popSize >= 2
    ensures 1 <= k < popSize
  {
    d.tourRoll % (popSize - 1) + 1
  }

  /** The cut of a crossover, `rand() % (tour_size - 2) + 1`. C++'s `%` takes
      the sign of its left operand, so for the non-negative roll a negative
      divisor acts as its absolute value; tour_size 2 would divide by zero. */
  function CrossPoint(roll: nat, n: int): (c: int)
    requires n != 2
    ensures n >= 3 ==> 1 <= c <= n - 2
    ensures n == 1 ==> c == 1
  {
    roll % (if n < 2 then 2 - n else n - 2) + 1
  }

  /** Every swap fits the tours and was drawn from the draw of its round. */
  predicate DrawnSwaps(swaps: seq<SwapStep>, draws: seq<SwapDraws>, ids: seq<seq<int>>) {
    forall q :: 0 <= q < |swaps| ==>
      q < |draws| && SwapFits(ids, swaps[q]) && SwapDrawn(swaps[q], draws[q], |ids|, |ids[swaps[q].tour]|)
  }

  lemma DrawnSwapsAppend(swaps: seq<SwapStep>, draws: seq<SwapDraws>, ids: seq<seq<int>>, s: SwapStep)
    requires DrawnSwaps(swaps, draws, ids) && |swaps| < |draws|
    requires SwapFits(ids, s) && SwapDrawn(s, draws[|swaps|], |ids|, |ids[s.tour]|)
    ensures DrawnSwaps(swaps + [s], draws, ids)
  {
    var p := swaps + [s];
    forall q | 0 <= q < |p|
      ensures SwapFits(ids, p[q]) && SwapDrawn(p[q], draws[q], |ids|, |ids[p[q].tour]|)
    {
      if q < |swaps| {
        assert p[q] == swaps[q];
      }
    }
  }

  /** Applying one more swap is one more `Swapped`. */
  lemma ApplySwapsAppend(ids: seq<seq<int>>, swaps: seq<SwapStep>, s: SwapStep)
    requires forall q :: 0 <= q < |swaps| ==> SwapFits(ids, swaps[q])
    requires SwapFits(ids, s)
    ensures forall q :: 0 <= q < |swaps + [s]| ==> SwapFits(ids, (swaps + [s])[q])
    ensures ApplySwaps(ids, swaps + [s]) ==
              ApplySwaps(ids, swaps)[s.tour := Swapped(ApplySwaps(ids, swaps)[s.tour], s.i, s.j)]
  {
    assert (swaps + [s])[..|swaps|] == swaps;
  }

  /** Which parents and cut made a child. */
  datatype Mating = Mating(cross: int, first: int, second: int)

  /** The mating of the second child of a pair: the parents exchanged. */
  function Mirror(m: Mating): Mating {
    Mating(m.cross, m.second, m.first)
  }

  /** A mating as one crossover iteration draws it from `d`, with
      `numParents` parents and tours of `n` cities. */
  predicate MatingDrawn(m: Mating, d: PairDraws, numParents: int, n: int) {
    && numParents >= 1 && n != 2
    && m.cross == CrossPoint(d.crossRoll, n)
    && m.first == d.parent1Roll % numParents
    && 0 <= m.second < numParents
    && (numParents > 1 ==> m.second != m.first)
    && Redrawn(m.second, m.first, d.parent2Rolls, numParents)
  }

  /** A swap as one mutation draws it from `d`, in a population of
      `popSize` tours whose target has `m` cities. */
  predicate SwapDrawn(s: SwapStep, d: SwapDraws, popSize: int, m: int) {
    && popSize >= 2 && m >= 1
    && s.tour == MutationTarget(d, popSize)
    && s.i == d.fromRoll % m
    && 0 <= s.j < m
    && (m > 1 ==> s.j != s.i)
    && Redrawn(s.j, s.i, d.toRolls, m)
  }

  // ---------------------------------------------------------------------
  // Value-level view of a population.

  /** The visiting orders of the tours, in population order. */
  ghost function IdsOf(pop: seq<Tour>): (r: seq<seq<int>>)
    reads pop
    ensures |r| == |pop| && forall k :: 0 <= k < |pop| ==> r[k] == pop[k].id
  {
    if pop == [] then [] else IdsOf(pop[..|pop| - 1]) + [pop[|pop| - 1].id]
  }

  /** The shortest tour length of a non-empty population. */
  function MinTourDist(tours: seq<seq<int>>, dist: DistFn): (m: int)
    requires |tours| > 0
    ensures forall k :: 0 <= k < |tours| ==> m <= TourDist(tours[k], dist)
    ensures exists k :: 0 <= k < |tours| && m == TourDist(tours[k], dist)
  {
    if |tours| == 1 then TourDist(tours[0], dist)
    else
      var rest := MinTourDist(tours[..|tours| - 1], dist);
      var last := TourDist(tours[|tours| - 1], dist);
      if last < rest then last else rest
  }

  /** A tour no other tour beats has the population's minimum length. */
  lemma ShortestIsMin(tours: seq<seq<int>>, dist: DistFn, j: nat)
    requires j < |tours|
    requires forall k :: 0 <= k < |tours| ==> TourDist(tours[j], dist) <= TourDist(tours[k], dist)
    ensures MinTourDist(tours, dist) == TourDist(tours[j], dist)
  {
  }

  /** One swap of a mutation: tour `tour`, positions `i` and `j`. */
  datatype SwapStep = SwapStep(tour: int, i: int, j: int)

  predicate SwapFits(ids: seq<seq<int>>, s: SwapStep) {
    0 <= s.tour < |ids| && 0 <= s.i < |ids[s.tour]| && 0 <= s.j < |ids[s.tour]|
  }

  /** The orders after the swaps, applied first to last. */
  function ApplySwaps(ids: seq<seq<int>>, swaps: seq<SwapStep>): (r: seq<seq<int>>)
    requires forall q :: 0 <= q < |swaps| ==> SwapFits(ids, swaps[q])
    ensures |r| == |ids| && forall t :: 0 <= t < |ids| ==> |r[t]| == |ids[t]|
  {
    if swaps == [] then ids
    else
      var before := ApplySwaps(ids, swaps[..|swaps| - 1]);
      var s := swaps[|swaps| - 1];
      assert SwapFits(ids, s);
      before[s.tour := Swapped(before[s.tour], s.i, s.j)]
  }

  /** Swaps that never touch tour 0 leave it as it was, and every tour ends
      a rearrangement of its old ids; permutations stay permutations. */
  lemma {:induction false} ApplySwapsKeepsIds(ids: seq<seq<int>>, swaps: seq<SwapStep>, n: nat)
    requires forall q :: 0 <= q < |swaps| ==> SwapFits(ids, swaps[q])
    ensures (forall q :: 0 <= q < |swaps| ==> swaps[q].tour != 0) && |ids| > 0 ==>
              ApplySwaps(ids, swaps)[0] == ids[0]
    ensures forall t :: 0 <= t < |ids| ==> IsRearrangement(ApplySwaps(ids, swaps)[t], ids[t])
    ensures forall t :: 0 <= t < |ids| && IsPermutation(ids[t], n) ==>
              IsPermutation(ApplySwaps(ids, swaps)[t], n)
  {
    var r := ApplySwaps(ids, swaps);
    if swaps != [] {
      var init := swaps[..|swaps| - 1];
      ApplySwapsKeepsIds(ids, init, n);
      var before := ApplySwaps(ids, init);
      var s := swaps[|swaps| - 1];
      SwapKeepsIds(before[s.tour], s.i, s.j, n);
    }
    forall t | 0 <= t < |ids| && IsPermutation(ids[t], n)
      ensures IsPermutation(r[t], n)
    {
      RearrangedPermutation(r[t], ids[t], n);
    }
  }

  /** The loop state of Select: `popped` left the queue in order, each
      entry no longer than anything still queued, and every index names a
      tour of the population. */
  ghost predicate SelectedSoFar(popped: seq<Evaluation>, queue: seq<Evaluation>, eval: seq<Evaluation>, n: int) {
    && multiset(queue) + multiset(popped) == multiset(eval)
    && (forall j :: 0 <= j < |queue| ==> 0 <= queue[j].tourIdx < n)
    && (forall k :: 0 <= k < |popped| ==> 0 <= popped[k].tourIdx < n)
    && (forall a, b :: 0 <= a < b < |popped| ==> popped[a].fitVal <= popped[b].fitVal)
    && (forall a, j :: 0 <= a < |popped| && 0 <= j < |queue| ==> popped[a].fitVal <= queue[j].fitVal)
    && (|popped| > 0 ==> forall j :: 0 <= j < |eval| ==> popped[0].fitVal <= eval[j].fitVal)
  }

  /** Every entry of `r` occurs in `q` when r's multiset lies within q's. */
  lemma {:induction false} FromQueue(r: seq<Evaluation>, q: seq<Evaluation>, j: nat) returns (w: nat)
    requires multiset(r) <= multiset(q) && j < |r|
    ensures w < |q| && q[w] == r[j]
  {
    assert r[j] in multiset(r);
    w := IndexOf(q, r[j]);
  }

  /** The entries left after a pop came from the queue before it. */
  lemma PopKeepsBounds(popped: seq<Evaluation>, queue: seq<Evaluation>, top: Evaluation, rest: seq<Evaluation>, n: int)
    requires multiset(rest) + multiset{top} == multiset(queue)
    requires forall j :: 0 <= j < |queue| ==> 0 <= queue[j].tourIdx < n
    requires forall a, j :: 0 <= a < |popped| && 0 <= j < |queue| ==> popped[a].fitVal <= queue[j].fitVal
    requires forall j :: 0 <= j < |queue| ==> top.fitVal <= queue[j].fitVal
    ensures forall j :: 0 <= j < |rest| ==> 0 <= rest[j].tourIdx < n
    ensures forall a, j :: 0 <= a < |popped + [top]| && 0 <= j < |rest| ==> (popped + [top])[a].fitVal <= rest[j].fitVal
  {
    var p := popped + [top];
    assert multiset(rest) <= multiset(queue);
    forall j | 0 <= j < |rest|
      ensures 0 <= rest[j].tourIdx < n
      ensures forall a :: 0 <= a < |p| ==> p[a].fitVal <= rest[j].fitVal
    {
      var w := FromQueue(rest, queue, j);
    }
  }

  /** The first pop is no longer than anything pushed. */
  lemma FirstIsMin(queue: seq<Evaluation>, eval: seq<Evaluation>, top: Evaluation)
    requires multiset(queue) == multiset(eval)
    requires forall j :: 0 <= j < |queue| ==> top.fitVal <= queue[j].fitVal
    ensures forall j :: 0 <= j < |eval| ==> top.fitVal <= eval[j].fitVal
  {
    forall j | 0 <= j < |eval|
      ensures top.fitVal <= eval[j].fitVal
    {
      var w := FromQueue(eval, queue, j);
    }
  }

  /** One `top()`/`pop()` keeps the loop state: the entry at a top k
      joins the selection and the queue loses it. */
  lemma SelectStep(popped: seq<Evaluation>, queue: seq<Evaluation>, eval: seq<Evaluation>, n: int, k: int)
    requires SelectedSoFar(popped, queue, eval, n) && IsTop(queue, k)
    ensures SelectedSoFar(popped + [queue[k]], Pop(queue, k), eval, n)
  {
    var top, rest := queue[k], Pop(queue, k);
    PopRemovesOne(queue, k);
    var p := popped + [top];
    assert forall j :: 0 <= j < |queue| ==> top.fitVal <= queue[j].fitVal;
    assert multiset(p) == multiset(popped) + multiset{top};
    PopKeepsBounds(popped, queue, top, rest, n);
    forall a, b | 0 <= a < b < |p|
      ensures p[a].fitVal <= p[b].fitVal
    {
      assert p[a] == popped[a];
      if b == |popped| {
        assert popped[a].fitVal <= queue[k].fitVal;
      } else {
        assert p[b] == popped[b];
      }
    }
    forall a | 0 <= a < |p|
      ensures 0 <= p[a].tourIdx < n
    {
      if a < |popped| {
        assert p[a] == popped[a];
      }
    }
    if |popped| == 0 {
      assert multiset(queue) == multiset(eval);
      FirstIsMin(queue, eval, top);
    } else {
      assert p[0] == popped[0];
    }
  }

  /** The outcome of popping, round after round, the entry at position
      ks[r] of what is still queued: the entries in the order they left and
      what stays queued, or Stuck when some ks[r] is not at a top. */
  datatype Drain = Stuck | Drained(popped: seq<Evaluation>, queue: seq<Evaluation>)

  function DrainAt(q: seq<Evaluation>, ks: seq<int>): (r: Drain)
    ensures r.Drained? ==> |r.popped| == |ks| && |r.queue| == |q| - |ks|
  {
    if ks == [] then Drained([], q)
    else
      match DrainAt(q, ks[..|ks| - 1])
      case Stuck => Stuck
      case Drained(popped, queue) =>
        var k := ks[|ks| - 1];
        if IsTop(queue, k) then Drained(popped + [queue[k]], Pop(queue, k)) else Stuck
  }

  /** Popping tops, however ties are broken, leaves the Select loop state. */
  lemma {:induction false} DrainSelects(q: seq<Evaluation>, ks: seq<int>, n: int)
    requires DrainAt(q, ks).Drained?
    requires forall j :: 0 <= j < |q| ==> 0 <= q[j].tourIdx < n
    ensures SelectedSoFar(DrainAt(q, ks).popped, DrainAt(q, ks).queue, q, n)
  {
    if ks != [] {
      var init := ks[..|ks| - 1];
      DrainSelects(q, init, n);
      var prev := DrainAt(q, init);
      var popped, queue, k := prev.popped, prev.queue, ks[|ks| - 1];
      SelectStep(popped, queue, q, n, k);
      assert DrainAt(q, ks) == Drained(popped + [queue[k]], Pop(queue, k));
    }
  }

  /** `popped` is a selection of the shortest entries of `eval`: taken from
      it, in non-decreasing length, none longer than an entry left behind,
      the first no longer than any entry at all. */
  ghost predicate SelectsShortest(popped: seq<Evaluation>, eval: seq<Evaluation>) {
    && multiset(popped) <= multiset(eval)
    && (forall a, b :: 0 <= a < b < |popped| ==> popped[a].fitVal <= popped[b].fitVal)
    && (forall a, e :: 0 <= a < |popped| && e in multiset(eval) - multiset(popped) ==>
          popped[a].fitVal <= e.fitVal)
    && (|popped| > 0 ==> forall j :: 0 <= j < |eval| ==> popped[0].fitVal <= eval[j].fitVal)
  }

  /** Every entry still queued names a tour of the population. */
  lemma DrainBounds(q: seq<Evaluation>, ks: seq<int>, n: int)
    requires DrainAt(q, ks).Drained?
    requires forall j :: 0 <= j < |q| ==> 0 <= q[j].tourIdx < n
    ensures forall j :: 0 <= j < |DrainAt(q, ks).queue| ==> 0 <= DrainAt(q, ks).queue[j].tourIdx < n
  {
    DrainSelects(q, ks, n);
  }

  /** Popping tops, however ties are broken, selects the shortest
      entries. */
  lemma DrainShortest(q: seq<Evaluation>, ks: seq<int>, n: int)
    requires DrainAt(q, ks).Drained?
    requires forall j :: 0 <= j < |q| ==> 0 <= q[j].tourIdx < n
    ensures SelectsShortest(DrainAt(q, ks).popped, q)
  {
    DrainSelects(q, ks, n);
    SelectedEnds(DrainAt(q, ks).popped, DrainAt(q, ks).queue, q, n);
  }

  /** What the loop state says once the loop is over. */
  lemma SelectedEnds(popped: seq<Evaluation>, queue: seq<Evaluation>, eval: seq<Evaluation>, n: int)
    requires SelectedSoFar(popped, queue, eval, n)
    ensures SelectsShortest(popped, eval)
  {
    assert multiset(eval) - multiset(popped) == multiset(queue);
    forall a, e | 0 <= a < |popped| && e in multiset(eval) - multiset(popped)
      ensures popped[a].fitVal <= e.fitVal
    {
      var w := IndexOf(queue, e);
    }
  }



  /** `s[k]` holds the order and coordinates of the tour `picked[k]` names. */
  ghost predicate CopiesOf(s: seq<Tour>, pop: seq<Tour>, picked: seq<Evaluation>)
    reads s, pop
  {
    && |s| == |picked|
    && forall k :: 0 <= k < |picked| ==>
         0 <= picked[k].tourIdx < |pop| &&
         s[k].id == pop[picked[k].tourIdx].id &&
         s[k].xc == pop[picked[k].tourIdx].xc &&
         s[k].yc == pop[picked[k].tourIdx].yc
  }

  lemma CopiesOfAppend(s: seq<Tour>, pop: seq<Tour>, picked: seq<Evaluation>, t: Tour, e: Evaluation)
    requires CopiesOf(s, pop, picked) && 0 <= e.tourIdx < |pop|
    requires t.id == pop[e.tourIdx].id && t.xc == pop[e.tourIdx].xc && t.yc == pop[e.tourIdx].yc
    ensures CopiesOf(s + [t], pop, picked + [e])
  {
  }

  /** The first `size` tours of `s` carry the coordinate tables `xs`, `ys`:
      one `dist` then stands for every tour's own distance. */
  ghost predicate OnTables(s: seq<Tour>, size: int, xs: seq<int>, ys: seq<int>)
    reads s
  {
    forall k :: 0 <= k < size && k < |s| ==> s[k].xc == xs && s[k].yc == ys
  }

  /** The tours from position `off` on are distinct objects. */
  predicate DistinctFrom(s: seq<Tour>, off: nat) {
    forall a, b :: off <= a < b < |s| ==> s[a] != s[b]
  }

  /** `child` is the crossover of the parents `m` names, at `m`'s cut, and
      carries the coordinate tables of `parents[0]`. */
  ghost predicate Bred(child: Tour, parents: seq<Tour>, m: Mating)
    reads child, parents
  {
    && 0 <= m.first < |parents| && 0 <= m.second < |parents|
    && IsChildOf(child.id, parents[m.first].id, parents[m.second].id, m.cross)
    && child.xc == parents[0].xc && child.yc == parents[0].yc
  }

  /** The children after `parents` in `result`, two per mating: the t-th
      mating's child, then (when present) its mirror's child. */
  ghost predicate Offspring(result: seq<Tour>, parents: seq<Tour>, pairs: seq<Mating>)
    reads result, parents
  {
    forall t :: 0 <= t < |pairs| ==>
      && |parents| + 2 * t < |result|
      && Bred(result[|parents| + 2 * t], parents, pairs[t])
      && (|parents| + 2 * t + 1 < |result| ==> Bred(result[|parents| + 2 * t + 1], parents, Mirror(pairs[t])))
  }

  /** Every mating drawn from the draw of its iteration. */
  predicate DrawnPairs(pairs: seq<Mating>, draws: seq<PairDraws>, numParents: int, n: int) {
    forall t :: 0 <= t < |pairs| ==> t < |draws| && MatingDrawn(pairs[t], draws[t], numParents, n)
  }

  lemma DrawnPairsAppend(pairs: seq<Mating>, draws: seq<PairDraws>, numParents: int, n: int, m: Mating)
    requires DrawnPairs(pairs, draws, numParents, n) && |pairs| < |draws|
    requires MatingDrawn(m, draws[|pairs|], numParents, n)
    ensures DrawnPairs(pairs + [m], draws, numParents, n)
  {
    var p := pairs + [m];
    forall t | 0 <= t < |p|
      ensures MatingDrawn(p[t], draws[t], numParents, n)
    {
      if t < |pairs| {
        assert p[t] == pairs[t];
      }
    }
  }

  /** Appending tours distinct from each other and from the earlier ones
      keeps DistinctFrom. */
  lemma DistinctGrow(result: seq<Tour>, grown: seq<Tour>, off: nat)
    requires DistinctFrom(result, off) && DistinctFrom(grown, |result|)
    requires |result| <= |grown| && forall k :: 0 <= k < |result| ==> grown[k] == result[k]
    requires forall a, b :: off <= a < |result| <= b < |grown| ==> grown[a] != grown[b]
    ensures DistinctFrom(grown, off)
  {
  }

  /** Appending one iteration's children continues Offspring. */
  lemma OffspringGrow(result: seq<Tour>, grown: seq<Tour>, parents: seq<Tour>, pairs: seq<Mating>, m: Mating)
    requires Offspring(result, parents, pairs) && |result| == |parents| + 2 * |pairs|
    requires |result| < |grown| <= |result| + 2
    requires forall k :: 0 <= k < |result| ==> grown[k] == result[k]
    requires Bred(grown[|result|], parents, m)
    requires |grown| == |result| + 2 ==> Bred(grown[|result| + 1], parents, Mirror(m))
    ensures Offspring(grown, parents, pairs + [m])
  {
    var p := pairs + [m];
    forall t | 0 <= t < |p|
      ensures |parents| + 2 * t < |grown|
      ensures Bred(grown[|parents| + 2 * t], parents, p[t])
      ensures |parents| + 2 * t + 1 < |grown| ==> Bred(grown[|parents| + 2 * t + 1], parents, Mirror(p[t]))
    {
      if t < |pairs| {
        assert p[t] == pairs[t];
        assert grown[|parents| + 2 * t] == result[|parents| + 2 * t];
        assert grown[|parents| + 2 * t + 1] == result[|parents| + 2 * t + 1];
      }
    }
  }

  /** Every child after the parents is a permutation when the parents are. */
  lemma OffspringPermutations(result: seq<Tour>, parents: seq<Tour>, pairs: seq<Mating>, n: nat)
    requires Offspring(result, parents, pairs) && |result| <= |parents| + 2 * |pairs|
    requires forall k :: 0 <= k < |parents| ==> IsPermutation(parents[k].id, n)
    ensures forall k :: |parents| <= k < |result| ==> IsPermutation(result[k].id, n)
  {
    forall k | |parents| <= k < |result|
      ensures IsPermutation(result[k].id, n)
    {
      var t := (k - |parents|) / 2;
      assert k == |parents| + 2 * t || k == |parents| + 2 * t + 1;
      assert 0 <= t < |pairs|;
    }
  }

  /** Every bred child carries the first parent slot's coordinate tables. */
  lemma {:induction false} OffspringTables(result: seq<Tour>, parents: seq<Tour>, pairs: seq<Mating>)
    requires Offspring(result, parents, pairs) && |result| <= |parents| + 2 * |pairs| && |parents| > 0
    ensures forall k :: |parents| <= k < |result| ==> result[k].xc == parents[0].xc && result[k].yc == parents[0].yc
  {
    forall k | |parents| <= k < |result|
      ensures result[k].xc == parents[0].xc && result[k].yc == parents[0].yc
    {
      var t := (k - |parents|) / 2;
      assert k == |parents| + 2 * t || k == |parents| + 2 * t + 1;
      assert 0 <= t < |pairs|;
    }
  }

  /** A top of a queue holding one evaluation per tour is a shortest
      tour's: what update_mins records. */
  lemma TopIsShortest(eval: seq<Evaluation>, tours: seq<seq<int>>, dist: DistFn, k: int)
    requires |eval| == |tours| > 0 && IsTop(eval, k)
    requires forall i :: 0 <= i < |eval| ==> eval[i] == Evaluation(i, TourDist(tours[i], dist))
    ensures eval[k].tourIdx == k
    ensures eval[k].fitVal == TourDist(tours[k], dist) == MinTourDist(tours, dist)
  {
    forall j | 0 <= j < |tours|
      ensures TourDist(tours[k], dist) <= TourDist(tours[j], dist)
    {
      assert eval[j].fitVal == TourDist(tours[j], dist);
    }
    ShortestIsMin(tours, dist, k);
  }

  /** When the new generation's first tour is no longer than any old tour,
      the shortest length does not grow: what NextGeneration guarantees
      for the next update_mins. */
  lemma BestNeverWorsens(next: seq<seq<int>>, prev: seq<seq<int>>, dist: DistFn)
    requires |next| > 0 && |prev| > 0
    requires forall k :: 0 <= k < |prev| ==> TourDist(next[0], dist) <= TourDist(prev[k], dist)
    ensures MinTourDist(next, dist) <= MinTourDist(prev, dist)
  {
    var k :| 0 <= k < |prev| && MinTourDist(prev, dist) == TourDist(prev[k], dist);
  }

  /** Copies of permutations are permutations. */
  lemma CopiesArePermutations(s: seq<Tour>, pop: seq<Tour>, picked: seq<Evaluation>, size: int, n: int)
    requires CopiesOf(s, pop, picked)
    requires forall k :: 0 <= k < |picked| ==> picked[k].tourIdx < size
    requires forall k :: 0 <= k < size && k < |pop| ==> IsPermutation(pop[k].id, n)
    ensures forall k :: 0 <= k < |s| ==> IsPermutation(s[k].id, n)
  {
  }

  /** Each evaluation taken from a queue of one evaluation per tour is the
      evaluation pushed for the tour it names. */
  lemma PoppedMatchTours(eval: seq<Evaluation>, popped: seq<Evaluation>)
    requires forall i :: 0 <= i < |eval| ==> eval[i].tourIdx == i
    requires multiset(popped) <= multiset(eval)
    ensures forall j :: 0 <= j < |popped| ==> 0 <= popped[j].tourIdx < |eval|
    ensures forall j :: 0 <= j < |popped| ==> popped[j] == eval[popped[j].tourIdx]
  {
    forall j | 0 <= j < |popped|
      ensures 0 <= popped[j].tourIdx < |eval| && popped[j] == eval[popped[j].tourIdx]
    {
      var w := FromQueue(popped, eval, j);
    }
  }

  // ---------------------------------------------------------------------

  /** The population of one generation and the best tour recorded so far.
      `numElitism` and `numMutations` are the program's
      `ceil(population_size * elitism)` and `ceil(population_size * mutation)`. */
  class Population {
    const populationSize: int
    const numElitism: int
    const numMutations: int
    const dist: DistFn
    var currentPop: seq<Tour>
    var minDist: int
    var minPath: seq<int>

    constructor (popSize: int, numElitism: int, numMutations: int, dist: DistFn)
      ensures populationSize == popSize && this.numElitism == numElitism
      ensures this.numMutations == numMutations && this.dist == dist
      ensures currentPop == []
    {
      populationSize := popSize;
      this.numElitism := numElitism;
      this.numMutations := numMutations;
      this.dist := dist;
      currentPop := [];
    }

    /** Records the seed as the provisional best, then appends
        `populationSize` shuffled copies of the seed. */
    method Initialize(seed: Tour)
      modifies this
      ensures minPath == seed.id && minDist == TourDist(seed.id, dist)
      ensures |currentPop| == old(|currentPop|) + (if populationSize > 0 then populationSize else 0)
      ensures currentPop[..old(|currentPop|)] == old(currentPop)
      ensures forall k :: old(|currentPop|) <= k < |currentPop| ==>
                fresh(currentPop[k]) && IsRearrangement(currentPop[k].id, seed.id) &&
                currentPop[k].xc == seed.xc && currentPop[k].yc == seed.yc
      ensures forall k :: old(|currentPop|) <= k < |currentPop| && IsPermutation(seed.id, |seed.id|) ==>
                IsPermutation(currentPop[k].id, |seed.id|)
    {
      // The seed is passed by value.
      var local := new Tour.Copy(seed);
      minPath := local.GetID();
      minDist := local.CalcTourDist(dist);
      var i := 0;
      while i < populationSize
        invariant 0 <= i <= (if populationSize > 0 then populationSize else 0)
        invariant minPath == seed.id && minDist == TourDist(seed.id, dist)
        invariant |currentPop| == old(|currentPop|) + i
        invariant currentPop[..old(|currentPop|)] == old(currentPop)
        invariant fresh(local) && local !in currentPop
        invariant IsRearrangement(local.id, seed.id) && local.xc == seed.xc && local.yc == seed.yc
        invariant forall k :: old(|currentPop|) <= k < |currentPop| ==>
                    fresh(currentPop[k]) && IsRearrangement(currentPop[k].id, seed.id) &&
                    currentPop[k].xc == seed.xc && currentPop[k].yc == seed.yc
      {
        local.ShufflePath();
        var added := new Tour.Copy(local);
        currentPop := currentPop + [added];
        i := i + 1;
      }
      forall k | old(|currentPop|) <= k < |currentPop| && IsPermutation(seed.id, |seed.id|)
        ensures IsPermutation(currentPop[k].id, |seed.id|)
      {
        RearrangedPermutation(currentPop[k].id, seed.id, |seed.id|);
      }
    }

    /** The queue contents after pushing one evaluation per tour, in
        population order. */
    method Evaluate() returns (eval: seq<Evaluation>)
      requires populationSize <= |currentPop|
      ensures |eval| == (if populationSize > 0 then populationSize else 0)
      ensures forall i :: 0 <= i < |eval| ==> eval[i] == Evaluation(i, TourDist(currentPop[i].id, dist))
    {
      eval := [];
      var i := 0;
      while i < populationSize
        invariant 0 <= i <= (if populationSize > 0 then populationSize else 0)
        invariant |eval| == i
        invariant forall k :: 0 <= k < i ==> eval[k] == Evaluation(k, TourDist(currentPop[k].id, dist))
      {
        var fit := currentPop[i].CalcTourDist(dist);
        eval := eval + [Evaluation(i, fit)];
        i := i + 1;
      }
    }

    /** Pops the top `numElitism` evaluations off the queue and pushes a copy
        of each one's tour onto the (empty) next generation. `popped` lists
        the evaluations in the order they left the queue; among tied
        entries any may leave first. */
    method Select(eval: seq<Evaluation>) returns (nextGen: seq<Tour>, ghost popped: seq<Evaluation>)
      requires numElitism <= |eval|
      requires forall j :: 0 <= j < |eval| ==> 0 <= eval[j].tourIdx < |currentPop|
      ensures |popped| == (if numElitism > 0 then numElitism else 0)
      ensures SelectsShortest(popped, eval)
      ensures CopiesOf(nextGen, currentPop, popped)
      ensures forall k :: 0 <= k < |nextGen| ==> fresh(nextGen[k])
      ensures DistinctFrom(nextGen, 0)
    {
      var queue := eval;
      popped := [];
      nextGen := [];
      ghost var ks := [];
      var i := 0;
      while i < numElitism
        invariant 0 <= i <= (if numElitism > 0 then numElitism else 0)
        invariant |ks| == i && DrainAt(eval, ks) == Drained(popped, queue)
        invariant CopiesOf(nextGen, currentPop, popped)
        invariant forall k :: 0 <= k < |nextGen| ==> fresh(nextGen[k])
        invariant DistinctFrom(nextGen, 0)
      {
        var k;
        ghost var prev := nextGen;
        queue, nextGen, k := SelectOne(queue, nextGen, popped, eval, ks);
        forall j | 0 <= j < |nextGen|
          ensures fresh(nextGen[j])
        {
          if j < |prev| {
            assert nextGen[j] == prev[j];
          }
        }
        popped := DrainAt(eval, ks + [k]).popped;
        ks := ks + [k];
        i := i + 1;
      }
      DrainShortest(eval, ks, |currentPop|);
    }

    /** One round of Select's loop: copy the tour named by the entry at a
        top k of the queue to the end of `result`, then pop that entry. */
    method SelectOne(queue: seq<Evaluation>, result: seq<Tour>, ghost picks: seq<Evaluation>,
                     ghost eval: seq<Evaluation>, ghost ks: seq<int>)
      returns (rest: seq<Evaluation>, grown: seq<Tour>, k: int)
      requires |queue| > 0 && DrainAt(eval, ks) == Drained(picks, queue)
      requires forall j :: 0 <= j < |eval| ==> 0 <= eval[j].tourIdx < |currentPop|
      requires CopiesOf(result, currentPop, picks) && DistinctFrom(result, 0)
      ensures IsTop(queue, k) && rest == Pop(queue, k)
      ensures DrainAt(eval, ks + [k]) == Drained(picks + [queue[k]], rest)
      ensures |grown| == |result| + 1 && forall j :: 0 <= j < |result| ==> grown[j] == result[j]
      ensures fresh(grown[|result|])
      ensures CopiesOf(grown, currentPop, picks + [queue[k]]) && DistinctFrom(grown, 0)
    {
      DrainBounds(eval, ks, |currentPop|);
      k := Top(queue);
      var top := queue[k];
      var temp := new Tour.Copy(currentPop[top.tourIdx]);
      CopiesOfAppend(result, currentPop, picks, temp, top);
      grown := result + [temp];
      rest := Pop(queue, k);
      assert (ks + [k])[..|ks|] == ks;
    }

    /** The draws of one crossover iteration: the cut, then two parents,
        the second redrawn until it differs from the first. */
    method DrawMating(d: PairDraws, n: int) returns (m: Mating)
      requires numElitism >= 1 && n != 2
      requires RetrySettles(d.parent1Roll, d.parent2Rolls, numElitism)
      ensures MatingDrawn(m, d, numElitism, n)
    {
      var numParents := numElitism;
      var cross := CrossPoint(d.crossRoll, n);
      var parent1 := d.parent1Roll % numParents;
      var parent2 := DrawDistinct(parent1, d.parent2Rolls, numParents);
      m := Mating(cross, parent1, parent2);
    }

    /** Crosses the parents `m` names into `childTour` and returns a copy of
        it, as `push_back` does. */
    method MakeChild(nextGen: seq<Tour>, childTour: Tour, m: Mating, n: int) returns (child: Tour)
      requires 0 <= m.first < |nextGen| && 0 <= m.second < |nextGen|
      requires IsPermutation(nextGen[m.first].id, n) && IsPermutation(nextGen[m.second].id, n)
      requires 0 <= m.cross <= n
      requires childTour.xc == nextGen[0].xc && childTour.yc == nextGen[0].yc
      requires forall k :: 0 <= k < |nextGen| ==> nextGen[k] != childTour
      modifies childTour
      ensures fresh(child)
      ensures childTour.xc == old(childTour.xc) && childTour.yc == old(childTour.yc)
      ensures Bred(child, nextGen, m)
      ensures childTour.id == child.id
    {
      var newPath := GenerateChild(nextGen[m.first].id, nextGen[m.second].id, m.cross);
      childTour.SetID(newPath);
      child := new Tour.Copy(childTour);
    }

    /** One iteration of Crossover's loop: draw the cut and two parents,
        append the first child and, while the population is short, the
        child of the parents exchanged. `childTour` is reused for both, as
        the program does. */
    method BreedPair(nextGen: seq<Tour>, result: seq<Tour>, childTour: Tour, d: PairDraws, n: int,
                     ghost pairs: seq<Mating>)
      returns (grown: seq<Tour>, m: Mating)
      requires 1 <= numElitism <= |nextGen| <= |result|
      requires |result| == |nextGen| + 2 * |pairs| && Offspring(result, nextGen, pairs)
      requires DistinctFrom(result, |nextGen|)
      requires forall k :: 0 <= k < |result| ==> result[k] != childTour
      requires n == 1 || n >= 3
      requires forall k :: 0 <= k < numElitism ==> IsPermutation(nextGen[k].id, n)
      requires RetrySettles(d.parent1Roll, d.parent2Rolls, numElitism)
      requires childTour.xc == nextGen[0].xc && childTour.yc == nextGen[0].yc
      requires forall k :: 0 <= k < |nextGen| ==> nextGen[k] != childTour
      modifies childTour
      ensures |grown| == |result| + (if |result| + 1 < populationSize then 2 else 1)
      ensures forall k :: 0 <= k < |result| ==> grown[k] == result[k]
      ensures forall k :: |result| <= k < |grown| ==> fresh(grown[k])
      ensures |grown| == |result| + 2 ==> grown[|result|] != grown[|result| + 1]
      ensures childTour.xc == old(childTour.xc) && childTour.yc == old(childTour.yc)
      ensures MatingDrawn(m, d, numElitism, n)
      ensures Bred(grown[|result|], nextGen, m)
      ensures |grown| == |result| + 2 ==> Bred(grown[|result| + 1], nextGen, Mirror(m))
      ensures Offspring(grown, nextGen, pairs + [m]) && DistinctFrom(grown, |nextGen|)
      ensures forall k :: 0 <= k < |grown| ==> grown[k] != childTour
      ensures childTour.id == grown[|grown| - 1].id
    {
      m := DrawMating(d, n);

      // First child
      var first := MakeChild(nextGen, childTour, m, n);
      grown := result + [first];

      // Prevent an extra child when the number of children is odd
      if |grown| < populationSize {
        var second := MakeChild(nextGen, childTour, Mirror(m), n);
        grown := grown + [second];
      }
      assert Offspring(result, nextGen, pairs);
      OffspringGrow(result, grown, nextGen, pairs, m);
      DistinctGrow(result, grown, |nextGen|);
    }

    /** Fills the next generation with children of the `numElitism` tours
        Select left in `nextGen`: `pairs[t]` is the mating of the t-th
        iteration, drawn from `draws[t]`. */
    method Crossover(nextGen: seq<Tour>, draws: seq<PairDraws>) returns (result: seq<Tour>, ghost pairs: seq<Mating>)
      requires 1 <= numElitism == |nextGen|
      requires populationSize > numElitism ==>
                 && (|nextGen[0].id| == 1 || |nextGen[0].id| >= 3)
                 && (forall k :: 0 <= k < |nextGen| ==> IsPermutation(nextGen[k].id, |nextGen[0].id|))
                 && 2 * |draws| >= populationSize - numElitism
      requires forall t :: 0 <= t < |draws| && 2 * t < populationSize - numElitism ==>
                 RetrySettles(draws[t].parent1Roll, draws[t].parent2Rolls, numElitism)
      ensures |result| == (if populationSize > numElitism then populationSize else numElitism)
      ensures forall k :: 0 <= k < |nextGen| ==> result[k] == nextGen[k]
      ensures forall k :: |nextGen| <= k < |result| ==> fresh(result[k])
      ensures DistinctFrom(result, |nextGen|)
      ensures DrawnPairs(pairs, draws, numElitism, |nextGen[0].id|)
      ensures Offspring(result, nextGen, pairs) && |result| <= |nextGen| + 2 * |pairs|
    {
      var numParents := numElitism;
      var numChildren := populationSize - numParents;
      var tourSize := |nextGen[0].id|;
      var childTour := new Tour.Copy(nextGen[0]);
      result := nextGen;
      pairs := [];
      var i, round := 0, 0;
      while i < numChildren
        invariant 0 <= i <= (if numChildren > 0 then numChildren + 1 else 0)
        invariant i == 2 * round && round == |pairs|
        invariant |result| == numParents + (if i <= numChildren then i else if numChildren > 0 then numChildren else 0)
        invariant forall k :: 0 <= k < |nextGen| ==> result[k] == nextGen[k]
        invariant fresh(childTour) && childTour.xc == nextGen[0].xc && childTour.yc == nextGen[0].yc
        invariant forall k :: 0 <= k < |result| ==> result[k] != childTour
        invariant forall k :: |nextGen| <= k < |result| ==> fresh(result[k])
        invariant DistinctFrom(result, |nextGen|)
        invariant DrawnPairs(pairs, draws, numParents, tourSize)
        invariant Offspring(result, nextGen, pairs)
      {
        var m;
        var grown;
        grown, m := BreedPair(nextGen, result, childTour, draws[round], tourSize, pairs);
        DrawnPairsAppend(pairs, draws, numParents, tourSize, m);
        forall k | |nextGen| <= k < |grown|
          ensures fresh(grown[k])
        {
          if k < |result| {
            assert grown[k] == result[k];
          }
        }
        result := grown;
        pairs := pairs + [m];
        i, round := i + 2, round + 1;
      }
    }

    /** Swaps two distinct positions (when the tour has two) of
        `numMutations` tours drawn from 1..|pop|-1, so that tour 0, the best
        of the generation, is left as it is. `swaps` lists the swaps made, in
        order. */
    method Mutate(pop: seq<Tour>, draws: seq<SwapDraws>) returns (ghost swaps: seq<SwapStep>)
      requires DistinctFrom(pop, 0)
      requires numMutations > 0 ==> |pop| >= 2 && numMutations <= |draws|
      requires forall q :: 0 <= q < |draws| && q < numMutations && |pop| >= 2 ==>
                 && |pop[MutationTarget(draws[q], |pop|)].id| >= 1
                 && RetrySettles(draws[q].fromRoll, draws[q].toRolls, |pop[MutationTarget(draws[q], |pop|)].id|)
      modifies pop
      ensures |swaps| == (if numMutations > 0 then numMutations else 0)
      ensures DrawnSwaps(swaps, draws, old(IdsOf(pop)))
      ensures IdsOf(pop) == ApplySwaps(old(IdsOf(pop)), swaps)
      ensures forall k :: 0 <= k < |pop| ==> pop[k].xc == old(pop[k].xc) && pop[k].yc == old(pop[k].yc)
      ensures |pop| > 0 ==> pop[0].id == old(pop[0].id)
      ensures forall k :: 0 <= k < |pop| ==> IsRearrangement(pop[k].id, old(pop[k].id))
    {
      ghost var ids0 := IdsOf(pop);
      swaps := [];
      var i := 0;
      while i < numMutations
        invariant 0 <= i <= (if numMutations > 0 then numMutations else 0)
        invariant |swaps| == i
        invariant DrawnSwaps(swaps, draws, ids0)
        invariant forall k :: 0 <= k < |pop| ==> pop[k].id == ApplySwaps(ids0, swaps)[k]
        invariant forall k :: 0 <= k < |pop| ==> pop[k].xc == old(pop[k].xc) && pop[k].yc == old(pop[k].yc)
      {
        ghost var s := MutateOne(pop, draws[i], ids0, swaps);
        DrawnSwapsAppend(swaps, draws, ids0, s);
        swaps := swaps + [s];
        i := i + 1;
      }
      ApplySwapsKeepsIds(ids0, swaps, 0);
    }

    /** One round of Mutate's loop: pick a tour other than the first and
        swap two of its positions, drawn until distinct. */
    method MutateOne(pop: seq<Tour>, d: SwapDraws, ghost ids0: seq<seq<int>>, ghost swaps: seq<SwapStep>)
      returns (ghost s: SwapStep)
      requires |pop| >= 2 && DistinctFrom(pop, 0) && |ids0| == |pop|
      requires forall q :: 0 <= q < |swaps| ==> SwapFits(ids0, swaps[q])
      requires forall k :: 0 <= k < |pop| ==> pop[k].id == ApplySwaps(ids0, swaps)[k]
      requires |ids0[MutationTarget(d, |pop|)]| >= 1
      requires RetrySettles(d.fromRoll, d.toRolls, |ids0[MutationTarget(d, |pop|)]|)
      modifies pop
      ensures SwapFits(ids0, s) && SwapDrawn(s, d, |pop|, |ids0[s.tour]|)
      ensures forall q :: 0 <= q < |swaps + [s]| ==> SwapFits(ids0, (swaps + [s])[q])
      ensures forall k :: 0 <= k < |pop| ==> pop[k].id == ApplySwaps(ids0, swaps + [s])[k]
      ensures forall k :: 0 <= k < |pop| ==> pop[k].xc == old(pop[k].xc) && pop[k].yc == old(pop[k].yc)
    {
      var toMutate := MutationTarget(d, |pop|);
      var size := |pop[toMutate].id|;
      var swapFrom := d.fromRoll % size;
      var swapTo := DrawDistinct(swapFrom, d.toRolls, size);
      s := SwapStep(toMutate, swapFrom, swapTo);
      ApplySwapsAppend(ids0, swaps, s);
      pop[toMutate].Swap(swapFrom, swapTo);
    }

    /** Records the shortest of the first `populationSize` tours. Among ties
        the queue may yield any of them. */
    method UpdateMins()
      requires 1 <= populationSize <= |currentPop|
      modifies this
      ensures currentPop == old(currentPop)
      ensures minDist == old(MinTourDist(IdsOf(currentPop[..populationSize]), dist))
      ensures TourDist(minPath, dist) == minDist
      ensures exists k :: 0 <= k < populationSize && minPath == old(currentPop[k].id)
    {
      ghost var tours := IdsOf(currentPop[..populationSize]);
      var eval := Evaluate();
      var top := Top(eval);
      TopIsShortest(eval, tours, dist, top);
      minDist := eval[top].fitVal;
      var best := eval[top].tourIdx;
      minPath := currentPop[best].GetID();
      assert minPath == tours[best];
    }

    method GetMinDist() returns (r: int)
      ensures r == minDist
    {
      r := minDist;
    }

    method GetMinPath() returns (r: seq<int>)
      ensures r == minPath
    {
      r := minPath;
    }

    /** The first half of a generation: Evaluate, then Select. The first
        survivor is a copy of a shortest tour, the `best`-th. */
    method Survivors() returns (elite: seq<Tour>, ghost best: int)
      requires 1 <= numElitism <= populationSize <= |currentPop|
      requires forall k :: 0 <= k < populationSize ==> IsPermutation(currentPop[k].id, |currentPop[0].id|)
      requires OnTables(currentPop, populationSize, currentPop[0].xc, currentPop[0].yc)
      ensures |elite| == numElitism && DistinctFrom(elite, 0)
      ensures OnTables(elite, |elite|, currentPop[0].xc, currentPop[0].yc)
      ensures forall k :: 0 <= k < |elite| ==> fresh(elite[k])
      ensures forall k :: 0 <= k < |elite| ==> IsPermutation(elite[k].id, |currentPop[0].id|)
      ensures 0 <= best < populationSize && elite[0].id == currentPop[best].id
      ensures forall k :: 0 <= k < populationSize ==> TourDist(elite[0].id, dist) <= TourDist(currentPop[k].id, dist)
      ensures forall a, b :: 0 <= a < b < |elite| ==> TourDist(elite[a].id, dist) <= TourDist(elite[b].id, dist)
    {
      ghost var n := |currentPop[0].id|;
      var eval := Evaluate();
      ghost var popped;
      elite, popped := Select(eval);
      PoppedMatchTours(eval, popped);
      CopiesArePermutations(elite, currentPop, popped, populationSize, n);
      best := popped[0].tourIdx;
      forall k | 0 <= k < |elite|
        ensures TourDist(elite[k].id, dist) == popped[k].fitVal
      {
        assert popped[k] == eval[popped[k].tourIdx];
      }
    }

    /** The second half of a generation: Crossover, then Mutate on the
        grown generation. */
    method CrossAndMutate(elite: seq<Tour>, crossDraws: seq<PairDraws>, swapDraws: seq<SwapDraws>, ghost n: nat)
      returns (nextGen: seq<Tour>)
      requires 1 <= numElitism == |elite| <= populationSize
      requires DistinctFrom(elite, 0)
      requires forall k :: 0 <= k < |elite| ==> IsPermutation(elite[k].id, n)
      requires OnTables(elite, |elite|, elite[0].xc, elite[0].yc)
      requires populationSize > numElitism ==>
                 && (n == 1 || n >= 3)
                 && 2 * |crossDraws| >= populationSize - numElitism
      requires forall t :: 0 <= t < |crossDraws| && 2 * t < populationSize - numElitism ==>
                 RetrySettles(crossDraws[t].parent1Roll, crossDraws[t].parent2Rolls, numElitism)
      requires numMutations > 0 ==> populationSize >= 2 && numMutations <= |swapDraws| && n >= 1
      requires forall q :: 0 <= q < |swapDraws| && q < numMutations ==>
                 RetrySettles(swapDraws[q].fromRoll, swapDraws[q].toRolls, n)
      modifies elite
      ensures |nextGen| == populationSize && DistinctFrom(nextGen, 0)
      ensures forall k :: 0 <= k < |nextGen| ==> IsPermutation(nextGen[k].id, n)
      ensures forall k :: 0 <= k < |elite| ==> nextGen[k] == elite[k]
      ensures forall k :: |elite| <= k < |nextGen| ==> fresh(nextGen[k])
      ensures nextGen[0].id == old(elite[0].id)
      ensures OnTables(nextGen, |nextGen|, old(elite[0].xc), old(elite[0].yc))
    {
      ghost var pairs;
      nextGen, pairs := Crossover(elite, crossDraws);
      OffspringPermutations(nextGen, elite, pairs, n);
      OffspringTables(nextGen, elite, pairs);
      DistinctGrow(elite, nextGen, 0);
      assert forall k :: 0 <= k < |nextGen| ==> IsPermutation(nextGen[k].id, n);

      ghost var bred := IdsOf(nextGen);
      ghost var swaps := Mutate(nextGen, swapDraws);
      forall k | 0 <= k < |nextGen|
        ensures IsPermutation(nextGen[k].id, n)
      {
        RearrangedPermutation(nextGen[k].id, bred[k], n);
      }
    }

    /** One generation: evaluate, keep the `numElitism` shortest tours, breed
        children from them, mutate, and make the result the population. The
        best tour survives unchanged at position 0, so the shortest length
        never grows from one generation to the next. */
    method NextGeneration(crossDraws: seq<PairDraws>, swapDraws: seq<SwapDraws>)
      requires 1 <= numElitism <= populationSize <= |currentPop|
      requires forall k :: 0 <= k < populationSize ==> IsPermutation(currentPop[k].id, |currentPop[0].id|)
      requires OnTables(currentPop, populationSize, currentPop[0].xc, currentPop[0].yc)
      requires populationSize > numElitism ==>
                 && (|currentPop[0].id| == 1 || |currentPop[0].id| >= 3)
                 && 2 * |crossDraws| >= populationSize - numElitism
      requires forall t :: 0 <= t < |crossDraws| && 2 * t < populationSize - numElitism ==>
                 RetrySettles(crossDraws[t].parent1Roll, crossDraws[t].parent2Rolls, numElitism)
      requires numMutations > 0 ==>
                 populationSize >= 2 && numMutations <= |swapDraws| && |currentPop[0].id| >= 1
      requires forall q :: 0 <= q < |swapDraws| && q < numMutations ==>
                 RetrySettles(swapDraws[q].fromRoll, swapDraws[q].toRolls, |currentPop[0].id|)
      modifies this
      ensures |currentPop| == populationSize && DistinctFrom(currentPop, 0)
      ensures forall k :: 0 <= k < populationSize ==> IsPermutation(currentPop[k].id, old(|currentPop[0].id|))
      ensures forall k :: 0 <= k < populationSize ==> TourDist(currentPop[0].id, dist) <= old(TourDist(currentPop[k].id, dist))
      ensures exists k :: 0 <= k < populationSize && currentPop[0].id == old(currentPop[k].id)
      ensures minDist == old(minDist) && minPath == old(minPath)
      ensures OnTables(currentPop, populationSize, old(currentPop[0].xc), old(currentPop[0].yc))
    {
      ghost var n := |currentPop[0].id|;
      ghost var best;
      var elite;
      elite, best := Survivors();
      ghost var shortest := elite[0].id;
      var nextGen := CrossAndMutate(elite, crossDraws, swapDraws, n);
      assert nextGen[0].id == shortest;
      currentPop := nextGen;
    }
  }
}
