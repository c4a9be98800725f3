/** The discrete skeleton of the single-chain estimation loop (`Wimpute::solve` and
    `Wimpute::estimate`) and of the pieces the evolutionary loop shares with it: the
    annealing penalty schedule, roulette-wheel selection and the parent vote tally.

    Each individual `I` is explained by four parent haplotypes drawn from the other
    individuals.  The hidden-Markov likelihood `hmm_like(I, p)` and the C library's `expf`
    are parameters; likelihoods are `real`s, without floating-point rounding. */
module Wimpute {
  import opened Draws

  /** `hmm_like(I, p)`: the model probability for individual `I` given four parents. */
  type Likelihood = (nat, seq<nat>) -> real

  /** The laws of `expf` the acceptance tests rely on: it is monotone and at least 1 on
      the non-negative reals. */
  ghost predicate ExpLaws(exp: real -> real)
  {
    && (forall x: real, y: real :: x <= y ==> exp(x) <= exp(y))
    && (forall x: real :: 0.0 <= x ==> 1.0 <= exp(x))
  }

  /* ---------------------------------------------------------------------------
     The penalty schedule of estimate / estimate_EMC
     ------------------------------------------------------------------------ */

  /** `fminf(a, b)` on reals. */
  function Min(a: real, b: real): (r: real)
    ensures r <= a && r <= b && (r == a || r == b)
  {
    if a <= b then a else b
  }

  /** `fminf(2 * (n + 1.0f) / bn, 1)`.  With no burn-in (`bn == 0`) the float division gives
      +infinity and the minimum is 1. */
  function Ramp(n: nat, bn: nat): (r: real)
    ensures 0.0 < r <= 1.0
    ensures r == 1.0 <==> bn <= 2 * (n + 1)
  {
    if bn == 0 then 1.0
    else
      var q := 2.0 * (n as real + 1.0) / bn as real;
      QuotientAtLeastOne(2.0 * (n as real + 1.0), bn as real);
      Min(q, 1.0)
  }

  lemma QuotientAtLeastOne(x: real, d: real)
    requires x > 0.0 && d > 0.0
    ensures x / d > 0.0
    ensures x / d >= 1.0 <==> x >= d
  {
    assert x / d * d == x;
  }

  /** `pen = ramp * ramp`: the factor on likelihood differences in sweep `n`. */
  function Penalty(n: nat, bn: nat): (r: real)
    ensures 0.0 < r <= 1.0
    ensures r == 1.0 <==> bn <= 2 * (n + 1)
  {
    var ramp := Ramp(n, bn);
    SquareOfUnit(ramp);
    ramp * ramp
  }

  lemma SquareOfUnit(x: real)
    requires 0.0 < x <= 1.0
    ensures 0.0 < x * x <= 1.0
    ensures x * x == 1.0 <==> x == 1.0
  {
    if x < 1.0 {
      assert x * x <= x * 1.0;
    }
  }

  lemma SquareMonotone(x: real, y: real)
    requires 0.0 < x <= y
    ensures x * x <= y * y
  {
    assert x * x <= x * y <= y * y;
  }

  /** The penalty never decreases from one sweep to a later one. */
  lemma PenaltyMonotone(n: nat, m: nat, bn: nat)
    requires n <= m
    ensures Penalty(n, bn) <= Penalty(m, bn)
  {
    if bn > 0 {
      var b := bn as real;
      assert 2.0 * (n as real + 1.0) / b <= 2.0 * (m as real + 1.0) / b by {
        assert 2.0 * (n as real + 1.0) <= 2.0 * (m as real + 1.0);
        DivMonotone(2.0 * (n as real + 1.0), 2.0 * (m as real + 1.0), b);
      }
      SquareMonotone(Ramp(n, bn), Ramp(m, bn));
    }
  }

  lemma DivMonotone(x: real, y: real, b: real)
    requires x <= y && b > 0.0
    ensures x / b <= y / b
  {
    assert y / b - x / b == (y - x) / b;
  }

  /** Sweep `n` of `estimate` / `estimate_EMC`: its penalty and whether it samples. */
  datatype Sweep = Sweep(penalty: real, sampling: bool)

  /** The `bn + sn` sweeps: `bn` burn-in sweeps then `sn` sampling sweeps (`n >= bn`). */
  function Schedule(bn: nat, sn: nat): (r: seq<Sweep>)
    ensures |r| == bn + sn
  {
    seq(bn + sn, n requires 0 <= n => Sweep(Penalty(n, bn), n >= bn))
  }

  /** The schedule ramps the penalty up through the burn-in, never lowering it, reaches
      full strength once `2 (n + 1) >= bn` (half way through the burn-in), and samples
      in exactly the last `sn` sweeps, all of them at full strength. */
  lemma ScheduleShape(bn: nat, sn: nat)
    ensures forall n :: 0 <= n < bn + sn ==> 0.0 < Schedule(bn, sn)[n].penalty <= 1.0
    ensures forall n, m :: 0 <= n <= m < bn + sn ==> Schedule(bn, sn)[n].penalty <= Schedule(bn, sn)[m].penalty
    ensures forall n :: 0 <= n < bn + sn ==> (Schedule(bn, sn)[n].penalty == 1.0 <==> bn <= 2 * (n + 1))
    ensures forall n :: 0 <= n < bn + sn ==> (Schedule(bn, sn)[n].sampling <==> bn <= n)
    ensures forall n :: 0 <= n < bn + sn && Schedule(bn, sn)[n].sampling ==> Schedule(bn, sn)[n].penalty == 1.0
  {
    forall n, m | 0 <= n <= m < bn + sn
      ensures Schedule(bn, sn)[n].penalty <= Schedule(bn, sn)[m].penalty
    {
      PenaltyMonotone(n, m, bn);
    }
  }

  /* ---------------------------------------------------------------------------
     Roulette-wheel selection
     ------------------------------------------------------------------------ */

  /** Sum of the first `k` weights. */
  function PrefixSum(w: seq<real>, k: nat): real
    requires k <= |w|
  {
    if k == 0 then 0.0 else PrefixSum(w, k - 1) + w[k - 1]
  }

  /** The running sum through index `j` has reached the stop point. */
  predicate Reaches(w: seq<real>, stop: real, j: nat)
  {
    j < |w| && stop <= PrefixSum(w, j + 1)
  }

  /** The first index from `from` on whose running sum reaches `stop`, or the last index. */
  function FirstReaching(w: seq<real>, stop: real, from: nat): (r: nat)
    requires from < |w|
    ensures from <= r < |w|
    ensures r == |w| - 1 || Reaches(w, stop, r)
    ensures forall j :: from <= j < r ==> !Reaches(w, stop, j)
    decreases |w| - from
  {
    if from == |w| - 1 || Reaches(w, stop, from) then from else FirstReaching(w, stop, from + 1)
  }

  /** The weights sum to a total in (0, 1], as `RWSelection` asserts before it draws. */
  predicate TotalOk(w: seq<real>)
  {
    0.0 < PrefixSum(w, |w|) <= 1.0
  }

  /** What the wheel picks: an index, or a failed assertion. */
  datatype Pick = Picked(index: nat) | PickFails

  /** `RWSelection` for the uniform draw `u`: the stop point is `u * total`; the result is the
      first index whose running weight sum reaches it.  The source asserts that the total is in
      (0, 1] and that the stop point is positive. */
  function WheelPick(w: seq<real>, u: real): (r: Pick)
    requires 0.0 <= u < 1.0
    ensures r.Picked? <==> TotalOk(w) && 0.0 < StopPoint(w, u)
    ensures r.Picked? ==> r.index < |w| && Reaches(w, StopPoint(w, u), r.index)
    ensures r.Picked? ==> forall j :: 0 <= j < r.index ==> !Reaches(w, StopPoint(w, u), j)
  {
    if TotalOk(w) && 0.0 < StopPoint(w, u) then
      NonEmptyWheel(w);
      Picked(FirstReaching(w, StopPoint(w, u), 0))
    else
      PickFails
  }

  /** `dStopPoint = gsl_rng_uniform(rng) * dTotalProb`. */
  function StopPoint(w: seq<real>, u: real): (r: real)
    requires 0.0 <= u < 1.0
    ensures 0.0 < PrefixSum(w, |w|) ==> r <= PrefixSum(w, |w|)
  {
    var total := PrefixSum(w, |w|);
    assert 0.0 < total ==> u * total <= 1.0 * total;
    u * total
  }

  /** Weights with a positive total are not empty. */
  lemma NonEmptyWheel(w: seq<real>)
    requires 0.0 < PrefixSum(w, |w|)
    ensures |w| > 0
  {
  }

  /** The index a wheel pick is characterised by is unique. */
  lemma FirstReachingUnique(w: seq<real>, stop: real, i: nat)
    requires Reaches(w, stop, i)
    requires forall j :: 0 <= j < i ==> !Reaches(w, stop, j)
    ensures FirstReaching(w, stop, 0) == i
  {
  }

  /** `Wimpute::RWSelection`: sum the weights, check the asserts, draw the stop point, walk
      down the wheel subtracting weights until the stop point is used up. */
  method RWSelection(w: seq<real>, g: Rng) returns (r: Outcome<nat>)
    requires ValidRng(g)
    ensures r.OutOfDraws? <==> TotalOk(w) && |g.unifs| == 0
    ensures r.AssertFails? <==> !TotalOk(w) || (|g.unifs| > 0 && WheelPick(w, g.unifs[0]).PickFails?)
    ensures r.Done? ==> |g.unifs| > 0 && r.value < |w| && r.rest == Rng(g.ints, g.unifs[1..])
    ensures r.Done? ==> WheelPick(w, g.unifs[0]) == Picked(r.value)
  {
    var total := 0.0;
    var i := 0;
    while i < |w|
      invariant i <= |w|
      invariant total == PrefixSum(w, i)
    {
      total := total + w[i];
      i := i + 1;
    }
    if !(0.0 < total && total <= 1.0) {
      return AssertFails;
    }
    if |g.unifs| == 0 {
      return OutOfDraws;
    }
    var u := g.unifs[0];
    var stopPoint := u * total;
    assert stopPoint == StopPoint(w, u);
    if !(0.0 < stopPoint) {
      return AssertFails;
    }
    var index := WalkWheel(w, stopPoint);
    FirstReachingUnique(w, stopPoint, index);
    r := Done(index, Rng(g.ints, g.unifs[1..]));
  }

  /** `do stop -= w[i]; while (stop > 0 && ++i);` */
  method WalkWheel(w: seq<real>, stopPoint: real) returns (index: nat)
    requires 0.0 < stopPoint <= PrefixSum(w, |w|)
    ensures Reaches(w, stopPoint, index)
    ensures forall j :: 0 <= j < index ==> !Reaches(w, stopPoint, j)
  {
    NonEmptyWheel(w);
    index := 0;
    var stop := stopPoint - w[0];
    while 0.0 < stop
      invariant index < |w|
      invariant stop == stopPoint - PrefixSum(w, index + 1)
      invariant forall j :: 0 <= j < index ==> !Reaches(w, stopPoint, j)
      decreases |w| - index
    {
      index := index + 1;
      stop := stop - w[index];
    }
  }

  /** The functional form of `RWSelection`, for loops written as functions. */
  function RouletteWheel(w: seq<real>, g: Rng): (r: Outcome<nat>)
    requires ValidRng(g)
    ensures r.OutOfDraws? <==> TotalOk(w) && |g.unifs| == 0
    ensures r.AssertFails? <==> !TotalOk(w) || (|g.unifs| > 0 && WheelPick(w, g.unifs[0]).PickFails?)
    ensures r.Done? ==> |g.unifs| > 0 && r.value < |w| && r.rest == Rng(g.ints, g.unifs[1..])
    ensures r.Done? ==> Consumed(g, r.rest) && ValidRng(r.rest)
    ensures r.Done? ==> WheelPick(w, g.unifs[0]) == Picked(r.value)
  {
    if !TotalOk(w) then AssertFails
    else match NextUniform(g)
    case Done(u, g1) =>
      (match WheelPick(w, u)
       case Picked(i) => Done(i, g1)
       case PickFails => AssertFails)
    case _ => OutOfDraws
  }

  /* ---------------------------------------------------------------------------
     Vote tally: pare[I * in + j] counts how often individual j was a parent of I
     ------------------------------------------------------------------------ */

  /** `uint16_t` counters wrap around at 2^16. */
  const VoteModulus: nat := 0x1_0000

  /** How many of the parents belong to individual `j` (haplotypes `2j` and `2j + 1`). */
  function Owned(parents: seq<nat>, j: nat): nat
  {
    if |parents| == 0 then 0
    else Owned(parents[..|parents| - 1], j) + (if parents[|parents| - 1] / 2 == j then 1 else 0)
  }

  /** Every counter of a row of `pare` is a `uint16_t`. */
  predicate RowOk(row: seq<nat>)
  {
    forall j :: 0 <= j < |row| ==> row[j] < VoteModulus
  }

  /** `for (i = 0; i < 4; i++) pa[p[i] / 2]++;`. */
  function Vote(row: seq<nat>, parents: seq<nat>): (r: seq<nat>)
    requires forall i :: 0 <= i < |parents| ==> parents[i] / 2 < |row|
    requires RowOk(row)
    ensures |r| == |row| && RowOk(r)
    ensures forall j :: 0 <= j < |row| ==> r[j] == (row[j] + Owned(parents, j)) % VoteModulus
  {
    if |parents| == 0 then row
    else
      var before := parents[..|parents| - 1];
      var r0 := Vote(row, before);
      var k := parents[|parents| - 1] / 2;
      forall j | 0 <= j < |row|
        ensures (r0[j] + (if k == j then 1 else 0)) % VoteModulus == (row[j] + Owned(parents, j)) % VoteModulus
      {
        AddMod(row[j], Owned(before, j), if k == j then 1 else 0);
      }
      r0[k := (r0[k] + 1) % VoteModulus]
  }

  /** Votes cast for individuals `0 .. m-1`. */
  function OwnedBelow(parents: seq<nat>, m: nat): nat
  {
    if m == 0 then 0 else OwnedBelow(parents, m - 1) + Owned(parents, m - 1)
  }

  /** Every parent votes for exactly one individual: when all of them belong to individuals
      below `m`, the votes for those individuals add up to the number of parents. */
  lemma {:induction false} VotesAddUp(parents: seq<nat>, m: nat)
    requires forall i :: 0 <= i < |parents| ==> parents[i] / 2 < m
    ensures OwnedBelow(parents, m) == |parents|
  {
    if |parents| > 0 {
      var before := parents[..|parents| - 1];
      assert forall i :: 0 <= i < |before| ==> before[i] == parents[i];
      VotesAddUp(before, m);
      LastVote(parents, m);
    } else {
      NoVotes(parents, m);
    }
  }

  lemma {:induction false} NoVotes(parents: seq<nat>, m: nat)
    requires |parents| == 0
    ensures OwnedBelow(parents, m) == 0
  {
    if m > 0 {
      NoVotes(parents, m - 1);
    }
  }

  /** Adding the last parent adds one vote below `m` exactly when it belongs to an individual below `m`. */
  lemma {:induction false} LastVote(parents: seq<nat>, m: nat)
    requires |parents| > 0
    ensures OwnedBelow(parents, m)
            == OwnedBelow(parents[..|parents| - 1], m) + (if parents[|parents| - 1] / 2 < m then 1 else 0)
  {
    if m > 0 {
      LastVote(parents, m - 1);
    }
  }

  lemma AddMod(a: nat, b: nat, c: nat)
    ensures ((a + b) % VoteModulus + c) % VoteModulus == (a + b + c) % VoteModulus
  {
  }

  /* ---------------------------------------------------------------------------
     solve: one chain, one slot replaced per cycle
     ------------------------------------------------------------------------ */

  /** The number of haplotypes: two per individual. */
  function NumHaps(numInds: nat): nat
  {
    2 * numInds
  }

  /** The state of `solve`: the parents `p[0..3]` and their likelihood `curr`. */
  datatype Search = Search(parents: seq<nat>, curr: real)

  /** The loop invariant of `solve`: four donors for `ind`, and `curr` is their likelihood. */
  predicate SearchOk(st: Search, ind: nat, hn: nat, like: Likelihood)
  {
    && |st.parents| == 4
    && (forall i :: 0 <= i < 4 ==> IsDonor(st.parents[i], hn, ind))
    && st.curr == like(ind, st.parents)
  }

  /** What one cycle did: the slot `rp` drawn, the donor proposed for it, the proposal's
      likelihood, whether it was kept, and the state after the cycle. */
  datatype Cycle = Cycle(slot: nat, donor: nat, prop: real, accepted: bool, next: Search)

  /** One iteration of the `for (n < N)` loop of `solve`: draw a slot `rp = gsl_rng_get & 3`,
      remember its parent `oh`, draw a donor for it, and keep the proposal if it is more
      likely or a uniform draw falls below `expf((prop - curr) * S)`; otherwise put `oh`
      back.  No uniform is drawn when the proposal is more likely. */
  function SolveCycle(ind: nat, hn: nat, s: real, like: Likelihood, exp: real -> real, st: Search, g: Rng): (r: Outcome<Cycle>)
    requires hn > 0 && |st.parents| == 4 && ValidRng(g)
    ensures !r.AssertFails?
    ensures r.Done? ==> Consumed(g, r.rest) && ValidRng(r.rest)
    ensures r.Done? ==> r.value.slot < 4 && IsDonor(r.value.donor, hn, ind)
    ensures r.Done? ==> |g.ints| > 0 && r.value.slot == g.ints[0] % 4
    ensures r.Done? ==> DonorDraw(Rng(g.ints[1..], g.unifs), hn, ind, r.value.donor, Rng(r.rest.ints, g.unifs))
    ensures r.Done? ==> SolveAccepts(st.curr, s, exp, r.value, g.unifs, r.rest.unifs)
    ensures r.Done? ==> CycleOk(ind, like, st, r.value)
    ensures r.Done? ==> |r.rest.ints| + 2 <= |g.ints| && |g.unifs| <= |r.rest.unifs| + 1
  {
    var d := NextInt(g);
    if !d.Done? then OutOfDraws
    else
      var p := DrawDonor(d.rest, hn, ind);
      if !p.Done? then OutOfDraws
      else
        ConsumedTransitive(g, d.rest, p.rest);
        ConsumedValid(g, p.rest);
        var r := Decide(ind, s, like, exp, st, d.value % 4, p.value, p.rest);
        if r.Done? then ConsumedTransitive(g, p.rest, r.rest); r else r
  }

  /** The acceptance rule of `solve`, `prop > curr || gsl_rng_uniform(rng) < expf((prop -
      curr) * S)`: a strictly more likely proposal is kept and no uniform is drawn; otherwise
      one uniform `us[0]` is drawn and the proposal is kept exactly when it falls below
      `expf((prop - curr) * S)`.  `us` are the uniforms before, `rest` those after. */
  predicate SolveAccepts(curr: real, s: real, exp: real -> real, c: Cycle, us: seq<real>, rest: seq<real>)
  {
    if c.prop > curr then c.accepted && rest == us
    else |us| > 0 && rest == us[1..] && (c.accepted <==> us[0] < exp(AnnealExponent(c.prop, curr, s)))
  }

  /** The cycle's record is consistent with its state before: the proposal puts the donor in
      the drawn slot; an accepted proposal becomes the state, a rejected one leaves the state
      as it was; a strictly more likely proposal is always accepted. */
  predicate CycleOk(ind: nat, like: Likelihood, st: Search, c: Cycle)
    requires c.slot < |st.parents|
  {
    && c.prop == like(ind, st.parents[c.slot := c.donor])
    && c.next.parents == (if c.accepted then st.parents[c.slot := c.donor] else st.parents)
    && c.next.curr == (if c.accepted then c.prop else st.curr)
    && (c.prop > st.curr ==> c.accepted)
  }

  /** The accept/reject half of a cycle, once slot `rp` and donor `p` are drawn. */
  function Decide(ind: nat, s: real, like: Likelihood, exp: real -> real, st: Search, rp: nat, p: nat, g: Rng): (r: Outcome<Cycle>)
    requires rp < |st.parents| && ValidRng(g)
    ensures !r.AssertFails?
    ensures r.Done? ==> Consumed(g, r.rest) && ValidRng(r.rest)
    ensures r.Done? ==> r.value.slot == rp && r.value.donor == p && CycleOk(ind, like, st, r.value)
    ensures r.Done? ==> r.rest.ints == g.ints && SolveAccepts(st.curr, s, exp, r.value, g.unifs, r.rest.unifs)
    ensures r.OutOfDraws? <==> !(like(ind, st.parents[rp := p]) > st.curr) && |g.unifs| == 0
  {
    var oh := st.parents[rp];
    var proposal := st.parents[rp := p];
    var prop := like(ind, proposal);
    if prop > st.curr then
      Done(Cycle(rp, p, prop, true, Search(proposal, prop)), g)
    else
      var n := NextUniform(g);
      if !n.Done? then OutOfDraws
      else
        var accepted := n.value < exp(AnnealExponent(prop, st.curr, s));
        assert proposal[rp := oh] == st.parents;
        Done(Cycle(rp, p, prop, accepted, if accepted then Search(proposal, prop) else Search(st.parents, st.curr)), n.rest)
  }

  /** `(prop - curr) * S`: the likelihood change scaled by the annealing penalty. */
  function AnnealExponent(prop: real, curr: real, s: real): real
  {
    (prop - curr) * s
  }

  /** A cycle keeps the loop invariant, and changes at most the one slot it drew. */
  lemma CycleKeepsSearchOk(ind: nat, hn: nat, like: Likelihood, st: Search, c: Cycle)
    requires SearchOk(st, ind, hn, like)
    requires c.slot < 4 && IsDonor(c.donor, hn, ind) && CycleOk(ind, like, st, c)
    ensures SearchOk(c.next, ind, hn, like)
    ensures forall i :: 0 <= i < 4 && i != c.slot ==> c.next.parents[i] == st.parents[i]
  {
  }

  /** `N` cycles of `solve`. */
  function SolveCycles(ind: nat, hn: nat, s: real, like: Likelihood, exp: real -> real, st: Search, n: nat, g: Rng): (r: Outcome<Search>)
    requires hn > 0 && ValidRng(g) && SearchOk(st, ind, hn, like)
    ensures !r.AssertFails?
    ensures r.Done? ==> SearchOk(r.value, ind, hn, like) && Consumed(g, r.rest) && ValidRng(r.rest)
    ensures r.Done? ==> |r.rest.ints| + 2 * n <= |g.ints| && |g.unifs| <= |r.rest.unifs| + n
  {
    if n == 0 then Done(st, g)
    else
      match SolveCycles(ind, hn, s, like, exp, st, n - 1, g)
      case Done(st1, g1) =>
        (match SolveCycle(ind, hn, s, like, exp, st1, g1)
         case Done(c, g2) =>
           CycleKeepsSearchOk(ind, hn, like, st1, c);
           ConsumedTransitive(g, g1, g2);
           Done(c.next, g2)
         case _ => OutOfDraws)
      case _ => OutOfDraws
  }

  /** What `solve` leaves behind: the parents handed to `hmm_work`, their likelihood (the
      return value) and the individual's row of `pare`. */
  datatype Solved = Solved(parents: seq<nat>, like: real, row: seq<nat>)

  /** `Wimpute::solve(I, N, S, P)`: four random donors, `N` cycles, then (when sampling)
      one vote for each parent's individual. */
  function Solve(ind: nat, cycles: nat, s: real, sampling: bool, numInds: nat, like: Likelihood,
                 exp: real -> real, row: seq<nat>, g: Rng): (r: Outcome<Solved>)
    requires ind < numInds && |row| == numInds && RowOk(row) && ValidRng(g)
    ensures !r.AssertFails?
    ensures r.Done? ==> Consumed(g, r.rest) && ValidRng(r.rest)
    ensures r.Done? ==> SearchOk(Search(r.value.parents, r.value.like), ind, NumHaps(numInds), like)
    ensures r.Done? ==> forall i :: 0 <= i < |r.value.parents| ==> r.value.parents[i] / 2 < |row|
    ensures r.Done? ==> r.value.row == if sampling then Vote(row, r.value.parents) else row
    ensures r.Done? ==> |r.rest.ints| + 4 + 2 * cycles <= |g.ints| && |g.unifs| <= |r.rest.unifs| + cycles
  {
    var hn := NumHaps(numInds);
    var d := DrawDonors(g, hn, ind, 4);
    if !d.Done? then OutOfDraws
    else
      ConsumedValid(g, d.rest);
      var fin := SolveCycles(ind, hn, s, like, exp, Search(d.value, like(ind, d.value)), cycles, d.rest);
      if !fin.Done? then OutOfDraws
      else
        ConsumedTransitive(g, d.rest, fin.rest);
        Done(Finish(fin.value, ind, hn, like, sampling, row), fin.rest)
  }

  /** The end of `solve` and `solve_EMC`: the final parents and their likelihood are the
      answer, and when sampling each parent votes for its individual.  The parents are donors,
      so each names an individual of the row. */
  function Finish(st: Search, ind: nat, hn: nat, like: Likelihood, sampling: bool, row: seq<nat>): (r: Solved)
    requires SearchOk(st, ind, hn, like) && hn == NumHaps(|row|) && RowOk(row)
    ensures r.parents == st.parents && r.like == st.curr
    ensures SearchOk(Search(r.parents, r.like), ind, hn, like)
    ensures forall i :: 0 <= i < |r.parents| ==> r.parents[i] / 2 < |row|
    ensures r.row == if sampling then Vote(row, r.parents) else row
  {
    if sampling then Solved(st.parents, st.curr, Vote(row, st.parents))
    else Solved(st.parents, st.curr, row)
  }
}
