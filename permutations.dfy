/** Permutations of the city ids 0..n-1: the invariant every tour of the
    genetic algorithm keeps, and the counting facts behind it. */
module Permutations {

  /** No id occurs twice in `s`. */
  predicate Distinct(s: seq<int>) {
    forall a, b :: 0 <= a < b < |s| ==> s[a] != s[b]
  }

  /** Every entry of `s` is a valid city id below `n`. */
  predicate InRange(s: seq<int>, n: int) {
    forall k :: 0 <= k < |s| ==> 0 <= s[k] < n
  }

  /** `s` visits each of the cities 0..n-1 exactly once. */
  predicate IsPermutation(s: seq<int>, n: int) {
    |s| == n && InRange(s, n) && Distinct(s)
  }

  /** `t` holds the same ids as `s`, possibly in another order. */
  predicate IsRearrangement(t: seq<int>, s: seq<int>) {
    multiset(t) == multiset(s)
  }

  /** The set of ids 0..n-1. */
  ghost function Ids(n: nat): (r: set<int>)
    ensures forall v :: v in r <==> 0 <= v < n
  {
    if n == 0 then {} else Ids(n - 1) + {n - 1}
  }

  /** The set of values occurring in `s`. */
  ghost function Elements(s: seq<int>): (r: set<int>) {
    set x | x in s
  }

  lemma {:induction false} IdsCard(n: nat)
    ensures |Ids(n)| == n
  {
    if n > 0 {
      IdsCard(n - 1);
      var prev := Ids(n - 1);
      assert n - 1 !in prev;
      assert |prev + {n - 1}| == |prev| + 1;
    }
  }

  lemma {:induction false} DistinctElementsCard(s: seq<int>)
    requires Distinct(s)
    ensures |Elements(s)| == |s|
  {
    if |s| > 0 {
      var init := s[..|s| - 1];
      assert Distinct(init);
      DistinctElementsCard(init);
      assert Elements(s) == Elements(init) + {s[|s| - 1]};
      assert s[|s| - 1] !in Elements(init);
    }
  }

  /** The ids 0..n-1 cannot fit in a set smaller than n. */
  lemma {:induction false} IdsSubsetCard(n: nat, b: set<int>)
    requires Ids(n) <= b
    ensures n <= |b|
  {
    if n > 0 {
      IdsSubsetCard(n - 1, b - {n - 1});
    }
  }

  /** The values of `s` cannot fill a set larger than the set they lie in. */
  lemma {:induction false} ElementsSubsetCard(s: seq<int>, b: set<int>)
    requires Elements(s) <= b
    ensures |Elements(s)| <= |b|
  {
    if |s| > 0 {
      var init, last := s[..|s| - 1], s[|s| - 1];
      assert s == init + [last];
      assert Elements(s) == Elements(init) + {last};
      if last in Elements(init) {
        ElementsSubsetCard(init, b);
      } else {
        ElementsSubsetCard(init, b - {last});
      }
    }
  }

  /** Pigeonhole: fewer than n distinct ids below n leave some id unused. */
  lemma MissingId(s: seq<int>, n: nat)
    requires Distinct(s) && InRange(s, n) && |s| < n
    ensures exists v :: 0 <= v < n && v !in s
  {
    if forall v :: 0 <= v < n ==> v in s {
      assert Ids(n) <= Elements(s);
      IdsSubsetCard(n, Elements(s));
      DistinctElementsCard(s);
      assert false;
    }
  }

  /** A permutation of 0..n-1 contains every id below n. */
  lemma PermutationCovers(s: seq<int>, n: nat)
    requires IsPermutation(s, n)
    ensures forall v :: 0 <= v < n ==> v in s
  {
    forall v | 0 <= v < n
      ensures v in s
    {
      if v !in s {
        assert Elements(s) <= Ids(n) - {v};
        ElementsSubsetCard(s, Ids(n) - {v});
        IdsCard(n);
        DistinctElementsCard(s);
        assert false;
      }
    }
  }

  /** A position at which `v` occurs in `s`. */
  lemma {:induction false} IndexOf<T>(s: seq<T>, v: T) returns (w: nat)
    requires v in s
    ensures w < |s| && s[w] == v
  {
    if s[0] == v {
      w := 0;
    } else {
      assert s == [s[0]] + s[1..];
      var u := IndexOf(s[1..], v);
      w := u + 1;
    }
  }

  /** A sequence is duplicate-free exactly when no value is counted twice. */
  lemma {:induction false} DistinctIffSingleCounts(s: seq<int>)
    ensures Distinct(s) <==> forall x :: multiset(s)[x] <= 1
  {
    if |s| > 0 {
      var tail := s[1..];
      DistinctIffSingleCounts(tail);
      assert s == [s[0]] + tail;
      assert multiset(s) == multiset{s[0]} + multiset(tail);
      if Distinct(s) {
        assert Distinct(tail) by {
          forall a, b | 0 <= a < b < |tail| ensures tail[a] != tail[b] {
            assert tail[a] == s[a + 1] && tail[b] == s[b + 1];
          }
        }
        assert s[0] !in tail by {
          forall k | 0 <= k < |tail| ensures tail[k] != s[0] {
            assert tail[k] == s[k + 1];
          }
        }
      } else {
        var a, b :| 0 <= a < b < |s| && s[a] == s[b];
        if a == 0 {
          assert s[b] == tail[b - 1];
          assert multiset(s)[s[0]] >= 2;
        } else {
          assert tail[a - 1] == tail[b - 1];
          assert !Distinct(tail);
          var x :| multiset(tail)[x] > 1;
          assert multiset(s)[x] > 1;
        }
      }
    }
  }

  /** Rearranging a permutation of 0..n-1 gives a permutation of 0..n-1. */
  lemma RearrangedPermutation(t: seq<int>, s: seq<int>, n: nat)
    requires IsPermutation(s, n) && IsRearrangement(t, s)
    ensures IsPermutation(t, n)
  {
    calc {
      |t|;
      |multiset(t)|;
      |multiset(s)|;
      |s|;
    }
    forall k | 0 <= k < |t|
      ensures 0 <= t[k] < n
    {
      assert t[k] in multiset(t);
      assert t[k] in s;
    }
    DistinctIffSingleCounts(s);
    DistinctIffSingleCounts(t);
  }
}
