/** The fitness record of Population.hpp and the priority queue that ranks
    tours by it. */
module Evaluations {

  /** A tour's position in the population paired with its length. */
  datatype Evaluation = Evaluation(tourIdx: int, fitVal: int)

  /** `a < b`. Reversed on purpose: the longer tour has the lower priority,
      so the queue's top is the shortest tour. */
  predicate Less(a: Evaluation, b: Evaluation) {
    a.fitVal > b.fitVal
  }

  /** `a > b`, reversed in the same way. */
  predicate Greater(a: Evaluation, b: Evaluation) {
    a.fitVal < b.fitVal
  }

  /** The two operators are converses of each other. */
  lemma GreaterIsConverse(a: Evaluation, b: Evaluation)
    ensures Greater(a, b) <==> Less(b, a)
  {
  }

  /** `<` is a strict ordering, as the queue requires of it. */
  lemma LessIsStrictOrder(a: Evaluation, b: Evaluation, c: Evaluation)
    ensures !Less(a, a)
    ensures Less(a, b) ==> !Less(b, a)
    ensures Less(a, b) && Less(b, c) ==> Less(a, c)
  {
  }

  /** Evaluations are incomparable exactly when their lengths tie; the tour
      index plays no part in the ranking. */
  lemma TiesAreIncomparable(a: Evaluation, b: Evaluation)
    ensures !Less(a, b) && !Less(b, a) <==> a.fitVal == b.fitVal
  {
  }

  /** Position k holds a top of the queue: no queued entry outranks it,
      that is, it is one of the shortest. Which of several tied entries
      `std::priority_queue` yields is left open. */
  predicate IsTop(q: seq<Evaluation>, k: int) {
    0 <= k < |q| && forall j :: 0 <= j < |q| ==> !Less(q[k], q[j])
  }

  /** One top of a non-empty queue, the earliest pushed of the shortest
      entries: a top always exists. */
  function TopIndex(q: seq<Evaluation>): (k: nat)
    requires |q| > 0
    ensures IsTop(q, k)
    ensures forall j :: 0 <= j < k ==> Less(q[j], q[k])
  {
    if |q| == 1 then 0
    else
      var k := TopIndex(q[..|q| - 1]);
      if Less(q[k], q[|q| - 1]) then |q| - 1 else k
  }

  /** `top()`: the position of a top entry. Which of several tied entries
      it is, the model leaves open, as `std::priority_queue` does. */
  method Top(q: seq<Evaluation>) returns (k: int)
    requires |q| > 0
    ensures IsTop(q, k)
  {
    assert IsTop(q, TopIndex(q));
    k :| 0 <= k < |q| && IsTop(q, k);
  }

  /** The queue after `pop()` has removed the entry at position k, a top
      when `pop()` does it. */
  function Pop(q: seq<Evaluation>, k: int): (r: seq<Evaluation>)
    requires 0 <= k < |q|
    ensures |r| == |q| - 1
  {
    q[..k] + q[k + 1..]
  }

  /** `pop()` removes that one entry and keeps every other. */
  lemma PopRemovesOne(q: seq<Evaluation>, k: int)
    requires 0 <= k < |q|
    ensures multiset(Pop(q, k)) + multiset{q[k]} == multiset(q)
  {
    RemoveOne(q, k);
  }

  lemma RemoveOne(q: seq<Evaluation>, k: nat)
    requires k < |q|
    ensures multiset(q[..k] + q[k + 1..]) + multiset{q[k]} == multiset(q)
  {
    assert q == q[..k] + [q[k]] + q[k + 1..];
  }
}
