/** Counting how many numbers below a bound satisfy a predicate.  Both the population
    count of a word and the Hamming distance of two haplotypes are counts of this kind. */
module Counting {

  /** Number of `i < k` with `f(i)`. */
  function CountBelow(f: nat -> bool, k: nat): nat
  {
    if k == 0 then 0 else CountBelow(f, k - 1) + (if f(k - 1) then 1 else 0)
  }

  /** The count is the size of the set of numbers it counts. */
  lemma {:induction false} CountIsCardinality(f: nat -> bool, k: nat)
    ensures CountBelow(f, k) == |set i: nat | i < k && f(i)|
  {
    if k > 0 {
      CountIsCardinality(f, k - 1);
      var below := set i: nat | i < k - 1 && f(i);
      var all := set i: nat | i < k && f(i);
      if f(k - 1) {
        assert all == below + {k - 1};
        assert k - 1 !in below;
        assert |all| == |below| + 1;
      } else {
        assert all == below;
      }
    }
  }

  /** Predicates that agree below `k` have the same count below `k`. */
  lemma {:induction false} CountCongruent(f: nat -> bool, g: nat -> bool, k: nat)
    requires forall i: nat :: i < k ==> f(i) == g(i)
    ensures CountBelow(f, k) == CountBelow(g, k)
  {
    if k > 0 {
      CountCongruent(f, g, k - 1);
    }
  }

  /** Counting `f` up to `base + k` is counting it up to `base`, then counting a shifted copy
      `g` of the next `k` numbers. */
  lemma {:induction false} CountShift(f: nat -> bool, g: nat -> bool, base: nat, k: nat)
    requires forall j: nat :: j < k ==> f(base + j) == g(j)
    ensures CountBelow(f, base + k) == CountBelow(f, base) + CountBelow(g, k)
  {
    if k > 0 {
      CountShift(f, g, base, k - 1);
      assert f(base + (k - 1)) == g(k - 1);
    }
  }
}
