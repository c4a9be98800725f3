/** The discrete skeleton of `Wimpute::solve_EMC`, the evolutionary Monte Carlo loop.

    For one individual a ladder of `P` chains is run, each chain holding four parent
    haplotypes, their likelihood and a temperature.  Each iteration either mutates one chain
    or crosses two chains over, then attempts `P` temperature exchanges between chains of
    adjacent rank.  Finally one chain is picked by roulette-wheel selection and its parents
    are voted for and committed.

    The selection weight of a chain (`EMCChain::getSelection`) is a parameter: a function of
    the chain's state. */
module Emc {
  import opened Bits
  import opened Draws
  import opened Wimpute

  /** `fMutationRate = 0.3f`: the single-precision float nearest 0.3, which is
      10066330 / 2^25. */
  const MutationRate: real := 10066330.0 / 33554432.0

  /** One `EMCChain`: its number, temperature, four parents and their likelihood. */
  datatype Chain = Chain(id: nat, temp: real, parents: seq<nat>, like: real)

  /** `vcChains` (chains by number) and `vuChainTempHierarchy` (chain numbers by rank,
      coolest first). */
  datatype Ladder = Ladder(chains: seq<Chain>, hierarchy: seq<nat>)

  /** A chain's own invariant: chain number `c`, positive temperature, four donors for
      `ind`, and `like` is their likelihood. */
  predicate ChainOk(ch: Chain, c: nat, ind: nat, hn: nat, like: Likelihood)
  {
    && ch.id == c
    && ch.temp >= 1.0
    && |ch.parents| == 4
    && (forall i :: 0 <= i < 4 ==> IsDonor(ch.parents[i], hn, ind))
    && ch.like == like(ind, ch.parents)
  }

  /** The ladder invariant: `np` chains; the hierarchy lists every chain number once; the
      chain at rank `r` has temperature `r + 1`. */
  predicate LadderOk(l: Ladder, np: nat, ind: nat, hn: nat, like: Likelihood)
  {
    && |l.chains| == np && |l.hierarchy| == np
    && (forall r :: 0 <= r < np ==> l.hierarchy[r] < np)
    && (forall r, q :: 0 <= r < q < np ==> l.hierarchy[r] != l.hierarchy[q])
    && (forall r :: 0 <= r < np ==> l.chains[l.hierarchy[r]].temp == (r + 1) as real)
    && (forall c :: 0 <= c < np ==> ChainOk(l.chains[c], c, ind, hn, like))
  }

  /** The selection weights `getSelection()` of the chains, in chain order. */
  function Weights(chains: seq<Chain>, weight: Chain -> real): (r: seq<real>)
    ensures |r| == |chains|
    ensures forall c :: 0 <= c < |chains| ==> r[c] == weight(chains[c])
  {
    seq(|chains|, c requires 0 <= c < |chains| => weight(chains[c]))
  }

  /* ---------------------------------------------------------------------------
     Initialisation
     ------------------------------------------------------------------------ */

  /** The temperature of chain `i`: `(i + 1) * fMaxTemp / P` with `fMaxTemp = P`. */
  function InitTemp(i: nat, np: nat): (r: real)
    requires np > 0
    ensures r == (i + 1) as real
  {
    var maxTemp := np as real;
    assert (i + 1) as real * maxTemp / np as real == (i + 1) as real;
    (i + 1) as real * maxTemp / np as real
  }

  /** The hierarchy of a fresh ladder: rank `i` holds chain `i`. */
  function Ranks(k: nat): (r: seq<nat>)
    ensures |r| == k && forall i :: 0 <= i < k ==> r[i] == i
  {
    if k == 0 then [] else Ranks(k - 1) + [k - 1]
  }

  /** Chain `i` of a fresh ladder: a valid chain `i` at temperature `i + 1` whose donors
      were drawn modulo `chainHaps`. */
  predicate FreshChain(ch: Chain, i: nat, ind: nat, chainHaps: nat, like: Likelihood)
  {
    ChainOk(ch, i, ind, chainHaps, like) && ch.temp == (i + 1) as real
  }

  /** Chain `i` of a fresh ladder: temperature `i + 1` and four donors drawn modulo
      `chainHaps` (the haplotype count the chain was constructed with). */
  function InitChain(np: nat, ind: nat, chainHaps: nat, like: Likelihood, i: nat, g: Rng): (r: Outcome<Chain>)
    requires 0 < chainHaps && 0 < np
    ensures !r.AssertFails?
    ensures r.Done? ==> r.rest.unifs == g.unifs && FreshChain(r.value, i, ind, chainHaps, like)
    ensures r.Done? ==> Consumed(g, r.rest) && DonorsDrawn(g, chainHaps, ind, r.value.parents, r.rest)
    ensures r.Done? ==> |r.rest.ints| + 4 <= |g.ints|
  {
    var d := DrawDonors(g, chainHaps, ind, 4);
    if !d.Done? then OutOfDraws
    else Done(Chain(i, InitTemp(i, np), d.value, like(ind, d.value)), d.rest)
  }

  /** Chains `0 .. k-1` of a fresh ladder, drawn in order. */
  function InitChains(np: nat, ind: nat, chainHaps: nat, like: Likelihood, k: nat, g: Rng): (r: Outcome<seq<Chain>>)
    requires 0 < chainHaps && 0 < np
    ensures !r.AssertFails?
    ensures r.Done? ==> r.rest.unifs == g.unifs && |r.value| == k
    ensures r.Done? ==> forall c :: 0 <= c < k ==> FreshChain(r.value[c], c, ind, chainHaps, like)
    ensures r.Done? ==> Consumed(g, r.rest) && |r.rest.ints| + 4 * k <= |g.ints|
  {
    if k == 0 then Done([], g)
    else
      var cs := InitChains(np, ind, chainHaps, like, k - 1, g);
      if !cs.Done? then OutOfDraws
      else
        var ch := InitChain(np, ind, chainHaps, like, k - 1, cs.rest);
        if !ch.Done? then OutOfDraws
        else
          AppendFresh(cs.value, ch.value, ind, chainHaps, like);
          ConsumedTransitive(g, cs.rest, ch.rest);
          Done(cs.value + [ch.value], ch.rest)
  }

  /** Fresh chains `0 .. k-1` followed by a fresh chain `k`. */
  lemma AppendFresh(cs: seq<Chain>, ch: Chain, ind: nat, chainHaps: nat, like: Likelihood)
    requires forall c :: 0 <= c < |cs| ==> FreshChain(cs[c], c, ind, chainHaps, like)
    requires FreshChain(ch, |cs|, ind, chainHaps, like)
    ensures forall c :: 0 <= c < |cs| + 1 ==> FreshChain((cs + [ch])[c], c, ind, chainHaps, like)
  {
    forall c | 0 <= c < |cs| + 1 ensures FreshChain((cs + [ch])[c], c, ind, chainHaps, like) {
      if c < |cs| { assert (cs + [ch])[c] == cs[c]; }
    }
  }

  /** A fresh ladder, its hierarchy listing the chains in order, is valid: donors drawn
      modulo `chainHaps` are donors out of `hn` when `chainHaps <= hn`. */
  lemma InitLadderOk(chains: seq<Chain>, np: nat, ind: nat, chainHaps: nat, hn: nat, like: Likelihood)
    requires chainHaps <= hn && |chains| == np
    requires forall c :: 0 <= c < np ==> FreshChain(chains[c], c, ind, chainHaps, like)
    ensures LadderOk(Ladder(chains, Ranks(np)), np, ind, hn, like)
  {
  }

  /* ---------------------------------------------------------------------------
     Mutation
     ------------------------------------------------------------------------ */

  /** What a mutation did: the chain number `j`, the slot `rp` and the donor drawn, whether
      the proposal was kept, and the ladder after. */
  datatype Mutated = Mutated(chain: nat, slot: nat, donor: nat, accepted: bool, ladder: Ladder)

  /** The mutation move: pick chain `j`, mutate it, and put it back. */
  function Mutate(np: nat, ind: nat, hn: nat, like: Likelihood, exp: real -> real, l: Ladder, g: Rng): (r: Outcome<Mutated>)
    requires LadderOk(l, np, ind, hn, like) && np > 0 && hn > 0 && ValidRng(g)
    ensures !r.AssertFails?
    ensures r.Done? ==> ValidRng(r.rest) && LadderOk(r.value.ladder, np, ind, hn, like)
    ensures r.Done? ==> r.value.chain < np && r.value.ladder.hierarchy == l.hierarchy
    ensures r.Done? ==> |g.ints| > 0 && r.value.chain == g.ints[0] % np
    ensures r.Done? ==> Consumed(g, r.rest) && |r.rest.ints| + 3 <= |g.ints|
    ensures r.Done? ==> MutatedAsDrawn(np, ind, hn, like, exp, l, Rng(g.ints[1..], g.unifs), r.value, r.rest)
    ensures r.Done? ==> forall c :: 0 <= c < np && c != r.value.chain ==> r.value.ladder.chains[c] == l.chains[c]
    ensures r.Done? && !r.value.accepted ==> r.value.ladder == l
    ensures r.Done? && ExpLaws(exp) ==> r.value.accepted
  {
    var n := NextInt(g);
    if !n.Done? then OutOfDraws
    else
      var mj := MutateAt(np, ind, hn, like, exp, l, n.value % np, n.rest);
      if mj.Done? then ConsumedTransitive(g, n.rest, mj.rest); mj else mj
  }

  /** Mutating chain `j` of the ladder, once it is drawn. */
  function MutateAt(np: nat, ind: nat, hn: nat, like: Likelihood, exp: real -> real, l: Ladder, j: nat, g: Rng): (r: Outcome<Mutated>)
    requires LadderOk(l, np, ind, hn, like) && j < np && hn > 0 && ValidRng(g)
    ensures !r.AssertFails?
    ensures r.Done? ==> ValidRng(r.rest) && LadderOk(r.value.ladder, np, ind, hn, like)
    ensures r.Done? ==> r.value.chain == j && r.value.ladder.hierarchy == l.hierarchy && Consumed(g, r.rest)
    ensures r.Done? ==> |r.rest.ints| + 2 <= |g.ints|
    ensures r.Done? ==> MutatedAsDrawn(np, ind, hn, like, exp, l, g, r.value, r.rest)
    ensures r.Done? ==> forall c :: 0 <= c < np && c != j ==> r.value.ladder.chains[c] == l.chains[c]
    ensures r.Done? && !r.value.accepted ==> r.value.ladder == l
    ensures r.Done? && ExpLaws(exp) ==> r.value.accepted
  {
    var mc := MutateChain(ind, hn, like, exp, l.chains[j], g);
    if !mc.Done? then OutOfDraws
    else
      var m := mc.value;
      var x := Mutated(j, m.slot, m.donor, m.accepted, PutBack(np, ind, hn, like, l, j, m));
      Done(x, mc.rest)
  }

  /** The draws of a mutation of chain `m.chain`, as `solve_EMC` takes them after the chain's
      own draw: the slot is the next integer draw `& 3`, the donor the first later draw outside the individual, the
      proposal is decided by the test as written, and a kept proposal changes only that slot
      of that chain (and its likelihood). */
  predicate MutatedAsDrawn(np: nat, ind: nat, hn: nat, like: Likelihood, exp: real -> real, l: Ladder, g: Rng,
                           m: Mutated, rest: Rng)
    requires LadderOk(l, np, ind, hn, like) && m.chain < np
  {
    var ch := l.chains[m.chain];
    && |g.ints| > 0 && m.slot == g.ints[0] % 4
    && DonorDraw(Rng(g.ints[1..], g.unifs), hn, ind, m.donor, Rng(rest.ints, g.unifs))
    && MutationAccepts(ch.like, like(ind, ch.parents[m.slot := m.donor]), ch.temp, exp, m.accepted, g.unifs, rest.unifs)
    && |m.ladder.chains| == np
    && (m.accepted ==> m.ladder.chains[m.chain] == ch.(parents := ch.parents[m.slot := m.donor],
                                                       like := like(ind, ch.parents[m.slot := m.donor])))
  }

  /** The ladder after chain `j` moved as `m` says: the new chain in place of chain `j` when
      the proposal was kept, the ladder as it was otherwise. */
  function PutBack(np: nat, ind: nat, hn: nat, like: Likelihood, l: Ladder, j: nat, m: ChainMove): (r: Ladder)
    requires LadderOk(l, np, ind, hn, like) && j < np && m.slot < 4 && IsDonor(m.donor, hn, ind)
    requires m.accepted ==> m.chain == l.chains[j].(parents := l.chains[j].parents[m.slot := m.donor],
                                                    like := like(ind, l.chains[j].parents[m.slot := m.donor]))
    requires !m.accepted ==> m.chain == l.chains[j]
    ensures LadderOk(r, np, ind, hn, like) && r.hierarchy == l.hierarchy && r.chains[j] == m.chain
    ensures forall c :: 0 <= c < np && c != j ==> r.chains[c] == l.chains[c]
    ensures !m.accepted ==> r == l
  {
    MoveKeepsChain(l.chains[j], j, ind, hn, like, m);
    if m.accepted then ReplaceChain(np, ind, hn, like, l, j, m.chain) else l
  }

  /** What mutating one chain did: the slot drawn, the donor proposed, whether it was kept,
      and the chain after. */
  datatype ChainMove = ChainMove(slot: nat, donor: nat, accepted: bool, chain: Chain)

  /** Mutating one chain: draw slot `rp = gsl_rng_get(rng) & 3`, then mutate that slot. */
  function MutateChain(ind: nat, hn: nat, like: Likelihood, exp: real -> real, ch: Chain, g: Rng): (r: Outcome<ChainMove>)
    requires |ch.parents| == 4 && ch.temp > 0.0 && hn > 0 && ValidRng(g)
    ensures !r.AssertFails?
    ensures r.Done? ==> ValidRng(r.rest) && r.value.slot < 4 && IsDonor(r.value.donor, hn, ind)
    ensures r.Done? && r.value.accepted ==>
              r.value.chain == ch.(parents := ch.parents[r.value.slot := r.value.donor],
                                   like := like(ind, ch.parents[r.value.slot := r.value.donor]))
    ensures r.Done? && !r.value.accepted ==> r.value.chain == ch
    ensures r.Done? ==> |g.ints| > 0 && r.value.slot == g.ints[0] % 4 && Consumed(g, r.rest)
    ensures r.Done? ==> |r.rest.ints| + 2 <= |g.ints|
    ensures r.Done? ==> DonorDraw(Rng(g.ints[1..], g.unifs), hn, ind, r.value.donor, Rng(r.rest.ints, g.unifs))
    ensures r.Done? ==> MutationAccepts(ch.like, like(ind, ch.parents[r.value.slot := r.value.donor]), ch.temp, exp,
                                        r.value.accepted, g.unifs, r.rest.unifs)
    ensures r.Done? && ExpLaws(exp) ==> r.value.accepted
  {
    var n := NextInt(g);
    if !n.Done? then OutOfDraws
    else
      assert n.rest == Rng(g.ints[1..], g.unifs);
      var ms := MutateSlot(ind, hn, like, exp, ch, Slot(n.value), n.rest);
      if ms.Done? then ConsumedTransitive(g, n.rest, ms.rest); ms else ms
  }

  /** Mutating slot `rp` of one chain: draw a donor for it; keep the proposal if the test
      accepts it, otherwise put the old parent `oh` back. */
  function MutateSlot(ind: nat, hn: nat, like: Likelihood, exp: real -> real, ch: Chain, rp: nat, g: Rng): (r: Outcome<ChainMove>)
    requires |ch.parents| == 4 && rp < 4 && ch.temp > 0.0 && hn > 0 && ValidRng(g)
    ensures !r.AssertFails?
    ensures r.Done? ==> ValidRng(r.rest) && r.value.slot == rp && IsDonor(r.value.donor, hn, ind)
    ensures r.Done? ==> Consumed(g, r.rest) && |r.rest.ints| + 1 <= |g.ints|
    ensures r.Done? && r.value.accepted ==>
              r.value.chain == ch.(parents := ch.parents[rp := r.value.donor],
                                   like := like(ind, ch.parents[rp := r.value.donor]))
    ensures r.Done? && !r.value.accepted ==> r.value.chain == ch
    ensures r.Done? ==> DonorDraw(g, hn, ind, r.value.donor, Rng(r.rest.ints, g.unifs))
    ensures r.Done? ==> MutationAccepts(ch.like, like(ind, ch.parents[rp := r.value.donor]), ch.temp, exp,
                                        r.value.accepted, g.unifs, r.rest.unifs)
    ensures r.Done? && ExpLaws(exp) ==> r.value.accepted
  {
    var oh := ch.parents[rp];
    var dd := DrawDonor(g, hn, ind);
    if !dd.Done? then OutOfDraws
    else
      var p := dd.value;
      var proposal := ch.parents[rp := p];
      var prop := like(ind, proposal);
      var am := AcceptMutation(ch.like, prop, ch.temp, exp, dd.rest);
      if !am.Done? then OutOfDraws
      else
        assert dd.rest == Rng(am.rest.ints, g.unifs);
        ConsumedTransitive(g, dd.rest, am.rest);
        if am.value then Done(ChainMove(rp, p, true, ch.(parents := proposal, like := prop)), am.rest)
        else
          assert proposal[rp := oh] == ch.parents;
          Done(ChainMove(rp, p, false, ch), am.rest)
  }

  /** A mutation keeps a chain valid: the new parent is a donor and the likelihood is
      recomputed when the proposal is kept; a rejected proposal leaves the chain as it was. */
  lemma MoveKeepsChain(ch: Chain, c: nat, ind: nat, hn: nat, like: Likelihood, m: ChainMove)
    requires ChainOk(ch, c, ind, hn, like) && m.slot < 4 && IsDonor(m.donor, hn, ind)
    requires m.accepted ==> m.chain == ch.(parents := ch.parents[m.slot := m.donor],
                                           like := like(ind, ch.parents[m.slot := m.donor]))
    requires !m.accepted ==> m.chain == ch
    ensures ChainOk(m.chain, c, ind, hn, like) && m.chain.temp == ch.temp
  {
  }

  /** `gsl_rng_get(rng) & 3`: one of the four parent slots. */
  function Slot(d: nat): (r: nat)
    ensures r < 4 && r == d % 4
  {
    d % 4
  }

  /** `prop > curr || gsl_rng_uniform(rng) < expf((curr - prop) / T)`; no uniform is drawn
      when the proposal is more likely.  With the laws of `expf` the test always passes:
      when `prop <= curr` the exponent is at least 0, so `expf` is at least 1 and above
      any uniform draw. */
  function AcceptMutation(curr: real, prop: real, temp: real, exp: real -> real, g: Rng): (r: Outcome<bool>)
    requires temp > 0.0 && ValidRng(g)
    ensures !r.AssertFails?
    ensures r.Done? ==> ValidRng(r.rest) && r.rest.ints == g.ints && Consumed(g, r.rest)
    ensures prop > curr ==> r == Done(true, g)
    ensures r.Done? ==> MutationAccepts(curr, prop, temp, exp, r.value, g.unifs, r.rest.unifs)
    ensures r.OutOfDraws? <==> !(prop > curr) && |g.unifs| == 0
    ensures r.Done? && ExpLaws(exp) ==> r.value
  {
    if prop > curr then Done(true, g)
    else
      var n := NextUniform(g);
      if !n.Done? then OutOfDraws
      else
        NonNegativeQuotient(curr - prop, temp);
        Done(n.value < exp(MutationExponent(curr, prop, temp)), n.rest)
  }

  /** `(curr - prop) / T`, the exponent of the mutation test as written. */
  function MutationExponent(curr: real, prop: real, temp: real): real
    requires temp > 0.0
  {
    (curr - prop) / temp
  }

  /** The mutation test as written, `prop > curr || gsl_rng_uniform(rng) < expf((curr - prop) /
      T)`: a strictly more likely proposal is kept and no uniform is drawn; otherwise one
      uniform `us[0]` is drawn and the proposal is kept exactly when it falls below
      `expf((curr - prop) / T)`.  `us` are the uniforms before, `rest` those after. */
  predicate MutationAccepts(curr: real, prop: real, temp: real, exp: real -> real, accepted: bool, us: seq<real>, rest: seq<real>)
    requires temp > 0.0
  {
    if prop > curr then accepted && rest == us
    else |us| > 0 && rest == us[1..] && (accepted <==> us[0] < exp(MutationExponent(curr, prop, temp)))
  }

  /** Put `ch` in place of chain `c`; the ladder stays valid when `ch` is a valid chain `c`
      at the same temperature. */
  function ReplaceChain(np: nat, ind: nat, hn: nat, like: Likelihood, l: Ladder, c: nat, ch: Chain): (r: Ladder)
    requires LadderOk(l, np, ind, hn, like) && c < np
    requires ch.temp == l.chains[c].temp && ch.id == c
    requires |ch.parents| == 4 && (forall i :: 0 <= i < 4 ==> IsDonor(ch.parents[i], hn, ind))
    requires ch.like == like(ind, ch.parents)
    ensures LadderOk(r, np, ind, hn, like)
    ensures r.hierarchy == l.hierarchy && r.chains[c] == ch
    ensures forall k :: 0 <= k < np && k != c ==> r.chains[k] == l.chains[k]
  {
    var r := Ladder(l.chains[c := ch], l.hierarchy);
    forall q | 0 <= q < np
      ensures r.chains[r.hierarchy[q]].temp == (q + 1) as real
    {
    }
    r
  }

  lemma NonNegativeQuotient(x: real, t: real)
    requires x >= 0.0 && t > 0.0
    ensures x / t >= 0.0
  {
  }

  /* ---------------------------------------------------------------------------
     Crossover
     ------------------------------------------------------------------------ */

  /** Uniform crossover of two parent lists: slot `i` is exchanged exactly when bit `i` of
      `mask` is set (`test(&cSelection, i)`); slots `k ..` are left alone. */
  function SwapSlots(a: seq<nat>, b: seq<nat>, mask: nat, k: nat): (r: (seq<nat>, seq<nat>))
    requires |a| == |b| && k <= |a|
    ensures |r.0| == |a| && |r.1| == |b|
    ensures forall i :: 0 <= i < k ==> (r.0[i], r.1[i]) == if Bit(mask, i) then (b[i], a[i]) else (a[i], b[i])
    ensures forall i :: k <= i < |a| ==> r.0[i] == a[i] && r.1[i] == b[i]
  {
    if k == 0 then (a, b)
    else
      var (x, y) := SwapSlots(a, b, mask, k - 1);
      if Bit(mask, k - 1) then (x[k - 1 := y[k - 1]], y[k - 1 := x[k - 1]]) else (x, y)
  }

  /** What a crossover did: the two chain numbers, the mask, which acceptance formula was
      used (`inverted` is the `bFirstOrigChainHigherLike ^ bFirstChainHigherLike` test),
      whether the swap was kept, and the ladder after. */
  datatype Crossed = Crossed(first: nat, second: nat, mask: nat, inverted: bool, accepted: bool, ladder: Ladder)

  /** Draw `k` is the first integer draw that, modulo `np`, is not chain `first`: every
      earlier draw hit `first`. */
  predicate FirstOtherAt(ints: seq<nat>, np: nat, first: nat, k: nat)
  {
    np > 0 && k < |ints| && ints[k] % np != first && forall j :: 0 <= j < k ==> ints[j] % np == first
  }

  /** Going from `g` to `rest` drew the second chain `c`: the integer draws used are those up
      to and including the first one that is not `first` modulo `np`, `c` is that draw modulo
      `np`, and no uniform was used. */
  predicate OtherDraw(g: Rng, np: nat, first: nat, c: nat, rest: Rng)
  {
    && |rest.ints| < |g.ints| && rest.unifs == g.unifs
    && rest.ints == g.ints[|g.ints| - |rest.ints|..]
    && FirstOtherAt(g.ints, np, first, |g.ints| - |rest.ints| - 1)
    && c == g.ints[|g.ints| - |rest.ints| - 1] % np
  }

  /** A second chain drawn after one draw that hit the first chain. */
  lemma OtherDrawSkip(g: Rng, np: nat, first: nat, c: nat, rest: Rng)
    requires |g.ints| > 0 && np > 0 && g.ints[0] % np == first
    requires OtherDraw(Rng(g.ints[1..], g.unifs), np, first, c, rest)
    ensures OtherDraw(g, np, first, c, rest)
  {
    var k := |g.ints| - |rest.ints| - 1;
    assert g.ints[1..][k - 1] == g.ints[k];
    forall j | 0 <= j < k ensures g.ints[j] % np == first {
      if j > 0 { assert g.ints[j] == g.ints[1..][j - 1]; }
    }
  }

  /** `do iSecondChain = gsl_rng_get(rng) % P; while (iSecondChain == iFirstChainIndex);` */
  function DrawOther(g: Rng, np: nat, first: nat): (r: Outcome<nat>)
    requires np > 0
    ensures !r.AssertFails?
    ensures r.Done? ==> r.value < np && r.value != first && r.rest.unifs == g.unifs
    ensures r.Done? ==> OtherDraw(g, np, first, r.value, r.rest)
    ensures r.OutOfDraws? <==> forall k :: 0 <= k < |g.ints| ==> g.ints[k] % np == first
    decreases |g.ints|
  {
    if |g.ints| == 0 then OutOfDraws
    else
      var rest := Rng(g.ints[1..], g.unifs);
      if g.ints[0] % np == first then
        assert forall k :: 0 < k < |g.ints| ==> g.ints[k] == rest.ints[k - 1];
        var r := DrawOther(rest, np, first);
        if r.Done? then OtherDrawSkip(g, np, first, r.value, r.rest); r else r
      else
        assert OtherDraw(g, np, first, g.ints[0] % np, rest);
        Done(g.ints[0] % np, rest)
  }

  /** Uniform crossover of two chains: the slots `mask` selects are exchanged and both
      likelihoods are recomputed; numbers and temperatures stay with the chains. */
  function Cross(ind: nat, like: Likelihood, a: Chain, b: Chain, mask: nat): (r: (Chain, Chain))
    requires |a.parents| == 4 && |b.parents| == 4
    ensures r.0.id == a.id && r.0.temp == a.temp && r.1.id == b.id && r.1.temp == b.temp
    ensures |r.0.parents| == 4 && |r.1.parents| == 4
    ensures forall i :: 0 <= i < 4 ==>
              (r.0.parents[i], r.1.parents[i]) == if Bit(mask, i) then (b.parents[i], a.parents[i]) else (a.parents[i], b.parents[i])
    ensures r.0.like == like(ind, r.0.parents) && r.1.like == like(ind, r.1.parents)
  {
    var (p1, p2) := SwapSlots(a.parents, b.parents, mask, 4);
    (a.(parents := p1, like := like(ind, p1)), b.(parents := p2, like := like(ind, p2)))
  }

  /** Crossing two valid chains over gives two valid chains: every slot still holds a donor. */
  lemma CrossKeepsChains(ind: nat, hn: nat, like: Likelihood, a: Chain, b: Chain, ca: nat, cb: nat, mask: nat)
    requires ChainOk(a, ca, ind, hn, like) && ChainOk(b, cb, ind, hn, like)
    ensures ChainOk(Cross(ind, like, a, b, mask).0, ca, ind, hn, like)
    ensures ChainOk(Cross(ind, like, a, b, mask).1, cb, ind, hn, like)
  {
    var (x, y) := Cross(ind, like, a, b, mask);
    forall i | 0 <= i < 4
      ensures IsDonor(x.parents[i], hn, ind) && IsDonor(y.parents[i], hn, ind)
    {
      assert IsDonor(a.parents[i], hn, ind) && IsDonor(b.parents[i], hn, ind);
    }
  }

  /** Crossing over twice with the same mask gives back the two chains. */
  lemma CrossTwice(ind: nat, like: Likelihood, a: Chain, b: Chain, mask: nat)
    requires |a.parents| == 4 && |b.parents| == 4
    requires a.like == like(ind, a.parents) && b.like == like(ind, b.parents)
    ensures var (x, y) := Cross(ind, like, a, b, mask); Cross(ind, like, x, y, mask) == (a, b)
  {
    var (x, y) := Cross(ind, like, a, b, mask);
    var (x2, y2) := Cross(ind, like, x, y, mask);
    assert x2.parents == a.parents by {
      forall i | 0 <= i < 4 ensures x2.parents[i] == a.parents[i] {}
    }
    assert y2.parents == b.parents by {
      forall i | 0 <= i < 4 ensures y2.parents[i] == b.parents[i] {}
    }
  }

  /** The likelihood order of two chains, `getLike() > getLike()`. */
  predicate FirstHigher(a: Chain, b: Chain)
  {
    a.like > b.like
  }

  /** The crossover acceptance test: `inverted` is `bFirstOrigChainHigherLike ^
      bFirstChainHigherLike`, and a uniform draw at most `expf` of the matching exponent
      accepts.  Both orders are taken from the saved originals `o1`, `o2` (lines 353 and
      373), so `inverted` is always false and the other exponent is never used. */
  function CrossAccept(o1: Chain, o2: Chain, n1: Chain, n2: Chain, exp: real -> real, g: Rng): (r: Outcome<(bool, bool)>)
    requires o1.temp > 0.0 && o2.temp > 0.0 && ValidRng(g)
    ensures !r.AssertFails?
    ensures r.Done? <==> |g.unifs| > 0
    ensures r.Done? ==> ValidRng(r.rest) && r.rest.ints == g.ints && !r.value.0
    ensures r.Done? ==> r.rest.unifs == g.unifs[1..] && Consumed(g, r.rest)
    ensures r.Done? ==> (r.value.1 <==> g.unifs[0] <= exp(CrossExponent(o1, o2, n1, n2)))
  {
    var origOrder := FirstHigher(o1, o2);
    var newOrder := FirstHigher(o1, o2);
    var inverted := origOrder != newOrder;
    var matching := CrossExponent(o1, o2, n1, n2);
    var swapped := CrossExponent(o1, o2, n2, n1);
    match NextUniform(g)
    case Done(u, g1) => Done((inverted, u <= exp(if inverted then swapped else matching)), g1)
    case _ => OutOfDraws
  }

  /** The crossover exponent: each saved chain's likelihood minus that of the new chain `x1`
      or `x2` set against it, over the saved chain's temperature. */
  function CrossExponent(o1: Chain, o2: Chain, x1: Chain, x2: Chain): real
    requires o1.temp > 0.0 && o2.temp > 0.0
  {
    (o2.like - x2.like) / o2.temp + (o1.like - x1.like) / o1.temp
  }

  /** The crossover move: pick the first chain by roulette wheel, a different second chain
      uniformly, cross them over with a 4-bit mask, and keep the result if the acceptance
      test passes; otherwise the saved chains are put back, which is the ladder as it was. */
  function Crossover(np: nat, ind: nat, hn: nat, like: Likelihood, exp: real -> real, weight: Chain -> real,
                     l: Ladder, g: Rng): (r: Outcome<Crossed>)
    requires LadderOk(l, np, ind, hn, like) && np > 0 && ValidRng(g)
    ensures r.Done? ==> ValidRng(r.rest) && LadderOk(r.value.ladder, np, ind, hn, like)
    ensures r.Done? ==> CrossedOk(np, l, r.value)
    ensures r.Done? ==> |g.unifs| > 1 && r.rest.unifs == g.unifs[2..] && Consumed(g, r.rest)
    ensures r.Done? ==> |r.rest.ints| + 2 <= |g.ints|
    ensures r.Done? ==> CrossoverDraws(np, Weights(l.chains, weight), g, r.value.first, r.value.second, r.value.mask,
                                       Rng(r.rest.ints, g.unifs[1..]))
    ensures r.Done? ==> CrossDecided(np, ind, hn, like, exp, l, r.value, g.unifs[1])
  {
    var pc := PickCrossover(np, Weights(l.chains, weight), g);
    if pc.OutOfDraws? then OutOfDraws
    else if pc.AssertFails? then AssertFails
    else
      var (first, second, mask) := pc.value;
      var ca := CrossAt(np, ind, hn, like, exp, l, first, second, mask, pc.rest);
      if !ca.Done? then OutOfDraws
      else
        ConsumedTransitive(g, pc.rest, ca.rest);
        ca
  }

  /** The crossover of chains `first` and `second` by `mask`, once they are drawn: cross,
      test, and keep the crossed chains or the ladder as it was. */
  function CrossAt(np: nat, ind: nat, hn: nat, like: Likelihood, exp: real -> real, l: Ladder,
                   first: nat, second: nat, mask: nat, g: Rng): (r: Outcome<Crossed>)
    requires LadderOk(l, np, ind, hn, like) && first < np && second < np && first != second && mask < 16
    requires ValidRng(g)
    ensures !r.AssertFails?
    ensures r.Done? ==> ValidRng(r.rest) && LadderOk(r.value.ladder, np, ind, hn, like)
    ensures r.Done? ==> r.value.first == first && r.value.second == second && r.value.mask == mask
    ensures r.Done? ==> CrossedOk(np, l, r.value)
    ensures r.Done? ==> |g.unifs| > 0 && r.rest == Rng(g.ints, g.unifs[1..]) && Consumed(g, r.rest)
    ensures r.Done? ==> CrossDecided(np, ind, hn, like, exp, l, r.value, g.unifs[0])
  {
    var (n1, n2) := Cross(ind, like, l.chains[first], l.chains[second], mask);
    var ca := CrossAccept(l.chains[first], l.chains[second], n1, n2, exp, g);
    if !ca.Done? then OutOfDraws
    else
      var ladder := if ca.value.1 then CrossLadder(np, ind, hn, like, l, first, second, mask) else l;
      Done(Crossed(first, second, mask, ca.value.0, ca.value.1, ladder), ca.rest)
  }


  /** The draws of a crossover: the first chain by roulette wheel over the weights `w`, a
      different second chain, and a 4-bit mask `gsl_rng_get(rng) & 15`. */
  function PickCrossover(np: nat, w: seq<real>, g: Rng): (r: Outcome<(nat, nat, nat)>)
    requires |w| == np && ValidRng(g)
    ensures r.Done? ==> ValidRng(r.rest)
    ensures r.Done? ==> r.value.0 < np && r.value.1 < np && r.value.0 != r.value.1 && r.value.2 < 16
    ensures r.AssertFails? <==> RouletteWheel(w, g).AssertFails?
    ensures r.Done? ==> CrossoverDraws(np, w, g, r.value.0, r.value.1, r.value.2, r.rest)
    ensures r.Done? ==> Consumed(g, r.rest) && |r.rest.ints| + 2 <= |g.ints|
  {
    match RouletteWheel(w, g)
    case Done(first, g1) =>
      var second := DrawOther(g1, np, first);
      if !second.Done? then OutOfDraws
      else
        var mask := NextInt(second.rest);
        if !mask.Done? then OutOfDraws
        else
          assert second.rest.ints == g.ints[|g.ints| - |mask.rest.ints| - 1..];
          Done((first, second.value, mask.value % 16), mask.rest)
    case OutOfDraws => OutOfDraws
    case AssertFails => AssertFails
  }

  /** Going from `g` to `rest` made the draws of a crossover: the first uniform picks chain
      `first` on the roulette wheel over `w`; the integer draws then give the second chain
      `second` (the first one that is not `first` modulo `np`) and, from the next integer
      draw `& 15`, the mask. */
  predicate CrossoverDraws(np: nat, w: seq<real>, g: Rng, first: nat, second: nat, mask: nat, rest: Rng)
  {
    && |g.unifs| > 0 && 0.0 <= g.unifs[0] < 1.0 && WheelPick(w, g.unifs[0]) == Picked(first)
    && |rest.ints| < |g.ints| && rest.unifs == g.unifs[1..]
    && rest.ints == g.ints[|g.ints| - |rest.ints|..]
    && OtherDraw(Rng(g.ints, g.unifs[1..]), np, first, second, Rng(g.ints[|g.ints| - |rest.ints| - 1..], g.unifs[1..]))
    && mask == g.ints[|g.ints| - |rest.ints| - 1] % 16
  }

  /** The crossover of record `x` was kept exactly when the uniform `u` is at most `expf` of
      the "order matches" exponent, taken over the saved chains and the crossed ones. */
  predicate CrossDecided(np: nat, ind: nat, hn: nat, like: Likelihood, exp: real -> real, l: Ladder, x: Crossed, u: real)
    requires LadderOk(l, np, ind, hn, like) && x.first < np && x.second < np
  {
    var (n1, n2) := Cross(ind, like, l.chains[x.first], l.chains[x.second], x.mask);
    x.accepted <==> u <= exp(CrossExponent(l.chains[x.first], l.chains[x.second], n1, n2))
  }

  /** The ladder with chains `f` and `s` crossed over by `mask`. */
  function CrossLadder(np: nat, ind: nat, hn: nat, like: Likelihood, l: Ladder, f: nat, s: nat, mask: nat): (r: Ladder)
    requires LadderOk(l, np, ind, hn, like) && f < np && s < np && f != s
    ensures LadderOk(r, np, ind, hn, like) && r.hierarchy == l.hierarchy
    ensures (r.chains[f], r.chains[s]) == Cross(ind, like, l.chains[f], l.chains[s], mask)
    ensures forall c :: 0 <= c < np && c != f && c != s ==> r.chains[c] == l.chains[c]
  {
    var (n1, n2) := Cross(ind, like, l.chains[f], l.chains[s], mask);
    CrossKeepsChains(ind, hn, like, l.chains[f], l.chains[s], f, s, mask);
    var l1 := ReplaceChain(np, ind, hn, like, l, f, n1);
    ReplaceChain(np, ind, hn, like, l1, s, n2)
  }

  /** The crossover record: two different chains; the mask is 4 bits; the acceptance test
      always takes the "order matches" branch; a rejected crossover leaves the ladder as it
      was; an accepted one changes only the two chains, exchanging exactly the masked slots,
      so each slot keeps its pair of parents. */
  predicate CrossedOk(np: nat, l: Ladder, x: Crossed)
    requires |l.chains| == np && |x.ladder.chains| == np
    requires forall c :: 0 <= c < np ==> |l.chains[c].parents| == 4 && |x.ladder.chains[c].parents| == 4
  {
    && x.first < np && x.second < np && x.first != x.second && x.mask < 16
    && !x.inverted
    && x.ladder.hierarchy == l.hierarchy
    && (!x.accepted ==> x.ladder == l)
    && (forall c :: 0 <= c < np && c != x.first && c != x.second ==> x.ladder.chains[c] == l.chains[c])
    && (forall i :: 0 <= i < 4 ==>
          (x.ladder.chains[x.first].parents[i], x.ladder.chains[x.second].parents[i])
          == if x.accepted && Bit(x.mask, i)
             then (l.chains[x.second].parents[i], l.chains[x.first].parents[i])
             else (l.chains[x.first].parents[i], l.chains[x.second].parents[i]))
  }

  /* ---------------------------------------------------------------------------
     Temperature exchange
     ------------------------------------------------------------------------ */

  /** The rank paired with rank `f`: 0 with 1, `P-1` with `P-2`, otherwise a neighbour chosen by
      one more integer draw (`gsl_rng_get(rng) & 1` set means the rank below). */
  function Partner(np: nat, f: nat, g: Rng): (r: Outcome<nat>)
    requires 2 <= np && f < np
    ensures !r.AssertFails?
    ensures r.Done? ==> r.value < np && (r.value + 1 == f || f + 1 == r.value)
    ensures r.Done? ==> r.rest.unifs == g.unifs && |r.rest.ints| <= |g.ints|
    ensures f == 0 ==> r == Done(1, g)
    ensures f == np - 1 && f != 0 ==> r == Done(np - 2, g)
    ensures 0 < f < np - 1 ==> (r.Done? <==> |g.ints| > 0)
    ensures 0 < f < np - 1 && r.Done? ==> r.value == Neighbour(f, g.ints[0]) && r.rest == Rng(g.ints[1..], g.unifs)
    ensures r.Done? ==> Consumed(g, r.rest)
  {
    assert g.ints[0..] == g.ints && g.unifs[0..] == g.unifs;
    if f == 0 then Done(1, g)
    else if f == np - 1 then Done(np - 2, g)
    else
      var n := NextInt(g);
      if n.Done? then Done(Neighbour(f, n.value), n.rest) else OutOfDraws
  }

  /** An inner rank's neighbour by an integer draw: below when its low bit is set. */
  function Neighbour(f: nat, d: nat): (r: nat)
    requires 0 < f
    ensures r + 1 == f <==> d % 2 == 1
    ensures r == f + 1 <==> d % 2 == 0
  {
    if d % 2 == 1 then f - 1 else f + 1
  }

  /** What one exchange attempt did: the two ranks and whether they swapped. */
  datatype Exchanged = Exchanged(rank: nat, partner: nat, accepted: bool, ladder: Ladder)

  /** The exchange acceptance test: a uniform draw below `min(expf((L1 - L2) (1/T1 - 1/T2)), 1)`.
      When the exponent is not negative (the cooler chain is the less likely one) the
      probability is 1 and the exchange always happens. */
  function ExchangeAccept(a: Chain, b: Chain, exp: real -> real, g: Rng): (r: Outcome<bool>)
    requires a.temp > 0.0 && b.temp > 0.0 && ValidRng(g)
    ensures !r.AssertFails?
    ensures r.Done? <==> |g.unifs| > 0
    ensures r.Done? ==> ValidRng(r.rest) && r.rest.ints == g.ints && r.rest.unifs == g.unifs[1..]
    ensures r.Done? ==> Consumed(g, r.rest)
    ensures r.Done? ==> (r.value <==> g.unifs[0] < Min(exp(ExchangeExponent(a, b)), 1.0))
    ensures r.Done? && ExpLaws(exp) && ExchangeExponent(a, b) >= 0.0 ==> r.value
  {
    var acceptProb := Min(exp(ExchangeExponent(a, b)), 1.0);
    match NextUniform(g)
    case Done(u, g1) => Done(u < acceptProb, g1)
    case _ => OutOfDraws
  }

  /** `(L1 - L2) (1/T1 - 1/T2)`. */
  function ExchangeExponent(a: Chain, b: Chain): real
    requires a.temp > 0.0 && b.temp > 0.0
  {
    (a.like - b.like) * (1.0 / a.temp - 1.0 / b.temp)
  }

  /** One exchange attempt: draw a rank, pair it with a neighbouring rank, and if the
      acceptance test passes swap the two chains' temperatures and their hierarchy entries. */
  function Exchange(np: nat, ind: nat, hn: nat, like: Likelihood, exp: real -> real, l: Ladder, g: Rng): (r: Outcome<Exchanged>)
    requires LadderOk(l, np, ind, hn, like) && 2 <= np && ValidRng(g)
    ensures !r.AssertFails?
    ensures r.Done? ==> ValidRng(r.rest) && Consumed(g, r.rest) && ExchangeDrew(np, g, r.value, r.rest)
    ensures r.Done? ==> ExchangeApplied(np, ind, hn, like, l, r.value)
    ensures r.Done? ==> ExchangeDecided(np, ind, hn, like, exp, l, r.value, g.unifs[0])
  {
    var pr := PickRanks(np, g);
    if !pr.Done? then OutOfDraws
    else
      var (f, s) := pr.value;
      var ea := ExchangeAccept(l.chains[l.hierarchy[f]], l.chains[l.hierarchy[s]], exp, pr.rest);
      if !ea.Done? then OutOfDraws
      else
        ConsumedTransitive(g, pr.rest, ea.rest);
        Done(Exchanged(f, s, ea.value, if ea.value then SwapRanks(np, ind, hn, like, l, f, s) else l), ea.rest)
  }

  /** The draws exchange attempt `x` took from `g`, leaving `rest`: one integer for the rank
      and, when the rank is inside the ladder, a second for its neighbour; one uniform for
      the acceptance test. */
  predicate ExchangeDrew(np: nat, g: Rng, x: Exchanged, rest: Rng)
    requires 2 <= np
  {
    && x.rank < np && x.partner < np
    && (x.partner + 1 == x.rank || x.rank + 1 == x.partner)
    && |g.ints| > 0 && x.rank == g.ints[0] % np
    && |g.unifs| > 0 && rest.unifs == g.unifs[1..]
    && ((x.rank == 0 || x.rank == np - 1) ==> rest.ints == g.ints[1..])
    && (0 < x.rank < np - 1 ==> |g.ints| > 1 && x.partner == Neighbour(x.rank, g.ints[1]) && rest.ints == g.ints[2..])
    && |rest.ints| + 1 <= |g.ints| <= |rest.ints| + 2 && |rest.unifs| + 1 == |g.unifs|
  }

  /** The ladder of exchange attempt `x` made from `l`: still valid; the hierarchy entries
      at the two ranks swapped when the exchange was accepted and the ladder untouched when
      it was not; no chain's parents or likelihood changed either way. */
  predicate ExchangeApplied(np: nat, ind: nat, hn: nat, like: Likelihood, l: Ladder, x: Exchanged)
    requires LadderOk(l, np, ind, hn, like) && x.rank < np && x.partner < np
  {
    && LadderOk(x.ladder, np, ind, hn, like)
    && x.ladder.hierarchy == (if x.accepted then l.hierarchy[x.rank := l.hierarchy[x.partner]][x.partner := l.hierarchy[x.rank]]
                              else l.hierarchy)
    && (!x.accepted ==> x.ladder == l)
    && forall c :: 0 <= c < np ==> x.ladder.chains[c].parents == l.chains[c].parents && x.ladder.chains[c].like == l.chains[c].like
  }

  /** The exchange of record `x` was kept exactly when the uniform `u` is below
      `min(expf((L1 - L2) (1/T1 - 1/T2)), 1)` for the chains at its two ranks before. */
  predicate ExchangeDecided(np: nat, ind: nat, hn: nat, like: Likelihood, exp: real -> real, l: Ladder, x: Exchanged, u: real)
    requires LadderOk(l, np, ind, hn, like) && x.rank < np && x.partner < np
  {
    x.accepted <==> u < Min(exp(ExchangeExponent(l.chains[l.hierarchy[x.rank]], l.chains[l.hierarchy[x.partner]])), 1.0)
  }

  /** The two ranks of an exchange attempt: `gsl_rng_get(rng) % P` and its partner. */
  function PickRanks(np: nat, g: Rng): (r: Outcome<(nat, nat)>)
    requires 2 <= np
    ensures !r.AssertFails?
    ensures r.Done? ==> r.value.0 < np && r.value.1 < np && r.rest.unifs == g.unifs
    ensures r.Done? ==> r.value.1 + 1 == r.value.0 || r.value.0 + 1 == r.value.1
    ensures r.Done? ==> |g.ints| > 0 && r.value.0 == g.ints[0] % np
    ensures r.Done? && 0 < r.value.0 < np - 1 ==>
              |g.ints| > 1 && r.value.1 == Neighbour(r.value.0, g.ints[1]) && r.rest.ints == g.ints[2..]
    ensures r.Done? && (r.value.0 == 0 || r.value.0 == np - 1) ==> r.rest == Rng(g.ints[1..], g.unifs)
    ensures r.Done? ==> Consumed(g, r.rest)
    ensures r.Done? ==> |r.rest.ints| + 1 <= |g.ints| <= |r.rest.ints| + 2
  {
    var n := NextInt(g);
    if !n.Done? then OutOfDraws
    else
      var f := n.value % np;
      var p := Partner(np, f, n.rest);
      if p.Done? then ConsumedTransitive(g, n.rest, p.rest); Done((f, p.value), p.rest) else OutOfDraws
  }

  /** Swap the temperatures of the chains at ranks `f` and `s`, and the two hierarchy entries:
      the chain at every rank `r` still has temperature `r + 1`. */
  function SwapRanks(np: nat, ind: nat, hn: nat, like: Likelihood, l: Ladder, f: nat, s: nat): (r: Ladder)
    requires LadderOk(l, np, ind, hn, like) && f < np && s < np && f != s
    ensures LadderOk(r, np, ind, hn, like)
    ensures r.hierarchy == l.hierarchy[f := l.hierarchy[s]][s := l.hierarchy[f]]
    ensures forall c :: 0 <= c < np ==> r.chains[c].parents == l.chains[c].parents && r.chains[c].like == l.chains[c].like
  {
    var fc, sc := l.hierarchy[f], l.hierarchy[s];
    var a, b := l.chains[fc], l.chains[sc];
    var chains := l.chains[fc := a.(temp := b.temp)][sc := b.(temp := a.temp)];
    var hier := l.hierarchy[f := sc][s := fc];
    var r := Ladder(chains, hier);
    forall q | 0 <= q < np
      ensures r.chains[r.hierarchy[q]].temp == (q + 1) as real
    {
      if q != f && q != s {
        assert l.hierarchy[q] != fc && l.hierarchy[q] != sc;
      }
    }
    forall q, p | 0 <= q < p < np
      ensures r.hierarchy[q] != r.hierarchy[p]
    {
    }
    r
  }

  /** Exchanging the same two ranks twice gives back the ladder. */
  lemma SwapRanksTwice(np: nat, ind: nat, hn: nat, like: Likelihood, l: Ladder, f: nat, s: nat)
    requires LadderOk(l, np, ind, hn, like) && f < np && s < np && f != s
    ensures SwapRanks(np, ind, hn, like, SwapRanks(np, ind, hn, like, l, f, s), f, s) == l
  {
    var l1 := SwapRanks(np, ind, hn, like, l, f, s);
    var l2 := SwapRanks(np, ind, hn, like, l1, f, s);
    assert l2.hierarchy == l.hierarchy;
    assert l2.chains == l.chains by {
      forall c | 0 <= c < np ensures l2.chains[c] == l.chains[c] {}
    }
  }

  /** `for (i = 0; i < P; i++)` exchange attempts. */
  function Exchanges(np: nat, ind: nat, hn: nat, like: Likelihood, exp: real -> real, l: Ladder, k: nat, g: Rng): (r: Outcome<Ladder>)
    requires LadderOk(l, np, ind, hn, like) && 2 <= np && ValidRng(g)
    ensures !r.AssertFails?
    ensures r.Done? ==> ValidRng(r.rest) && LadderOk(r.value, np, ind, hn, like)
    ensures r.Done? ==> Consumed(g, r.rest)
    ensures r.Done? ==> |r.rest.unifs| + k == |g.unifs|
    ensures r.Done? ==> |r.rest.ints| + k <= |g.ints| <= |r.rest.ints| + 2 * k
  {
    if k == 0 then
      assert g.ints[0..] == g.ints && g.unifs[0..] == g.unifs;
      Done(l, g)
    else
      var e1 := Exchanges(np, ind, hn, like, exp, l, k - 1, g);
      if !e1.Done? then OutOfDraws
      else
        var e2 := Exchange(np, ind, hn, like, exp, e1.value, e1.rest);
        if !e2.Done? then OutOfDraws
        else
          ConsumedTransitive(g, e1.rest, e2.rest);
          Done(e2.value.ladder, e2.rest)
  }

  /* ---------------------------------------------------------------------------
     The loop
     ------------------------------------------------------------------------ */

  /** `bMutate = gsl_rng_uniform(rng) > fMutationRate`: as written, mutation is chosen when
      the draw exceeds the rate, so with probability about 0.7 rather than 0.3. */
  predicate ChoosesMutation(u: real)
  {
    u > MutationRate
  }

  /** What one iteration did: whether it mutated (rather than crossed over), and the ladder after. */
  datatype Step = Step(mutated: bool, ladder: Ladder)

  /** One iteration: mutation or crossover, then `P` exchange attempts. */
  function Iteration(np: nat, ind: nat, hn: nat, like: Likelihood, exp: real -> real, weight: Chain -> real,
                     l: Ladder, g: Rng): (r: Outcome<Step>)
    requires LadderOk(l, np, ind, hn, like) && 2 <= np && hn > 0 && ValidRng(g)
    ensures r.Done? ==> ValidRng(r.rest) && LadderOk(r.value.ladder, np, ind, hn, like)
    ensures r.Done? ==> |g.unifs| > 0 && (r.value.mutated <==> g.unifs[0] > MutationRate)
    ensures r.Done? ==> Consumed(g, r.rest)
    ensures r.Done? ==> |r.rest.unifs| + np + 1 <= |g.unifs| && |r.rest.ints| + np + 2 <= |g.ints|
  {
    var n := NextUniform(g);
    if !n.Done? then OutOfDraws
    else
      var mutate := ChoosesMutation(n.value);
      var moved := Move(np, ind, hn, like, exp, weight, mutate, l, n.rest);
      if moved.OutOfDraws? then OutOfDraws
      else if moved.AssertFails? then AssertFails
      else
        var ex := Exchanges(np, ind, hn, like, exp, moved.value, np, moved.rest);
        if !ex.Done? then OutOfDraws
        else
          ConsumedTransitive(g, n.rest, moved.rest);
          ConsumedTransitive(g, moved.rest, ex.rest);
          Done(Step(mutate, ex.value), ex.rest)
  }

  /** The move of one iteration: a mutation or a crossover, as chosen. */
  function Move(np: nat, ind: nat, hn: nat, like: Likelihood, exp: real -> real, weight: Chain -> real,
                mutate: bool, l: Ladder, g: Rng): (r: Outcome<Ladder>)
    requires LadderOk(l, np, ind, hn, like) && 2 <= np && hn > 0 && ValidRng(g)
    ensures r.Done? ==> ValidRng(r.rest) && LadderOk(r.value, np, ind, hn, like) && Consumed(g, r.rest)
    ensures r.Done? ==> |r.rest.ints| + 2 <= |g.ints|
    ensures mutate ==> !r.AssertFails?
  {
    if mutate then
      var m := Mutate(np, ind, hn, like, exp, l, g);
      if m.Done? then Done(m.value.ladder, m.rest) else OutOfDraws
    else
      var x := Crossover(np, ind, hn, like, exp, weight, l, g);
      if x.Done? then Done(x.value.ladder, x.rest) else if x.OutOfDraws? then OutOfDraws else AssertFails
  }

  /** `N` iterations. */
  function Iterations(np: nat, ind: nat, hn: nat, like: Likelihood, exp: real -> real, weight: Chain -> real,
                      l: Ladder, n: nat, g: Rng): (r: Outcome<Ladder>)
    requires LadderOk(l, np, ind, hn, like) && 2 <= np && hn > 0 && ValidRng(g)
    ensures r.Done? ==> ValidRng(r.rest) && LadderOk(r.value, np, ind, hn, like)
    ensures r.Done? ==> Consumed(g, r.rest)
    ensures r.Done? ==> |r.rest.unifs| + Repeated(n, np + 1) <= |g.unifs| && |r.rest.ints| + Repeated(n, np + 2) <= |g.ints|
  {
    if n == 0 then
      assert g.ints[0..] == g.ints && g.unifs[0..] == g.unifs;
      Done(l, g)
    else
      var i1 := Iterations(np, ind, hn, like, exp, weight, l, n - 1, g);
      if i1.OutOfDraws? then OutOfDraws
      else if i1.AssertFails? then AssertFails
      else
        var i2 := Iteration(np, ind, hn, like, exp, weight, i1.value, i1.rest);
        if i2.OutOfDraws? then OutOfDraws
        else if i2.AssertFails? then AssertFails
        else
          ConsumedTransitive(g, i1.rest, i2.rest);
          Done(i2.value.ladder, i2.rest)
  }

  /** The ladder after initialisation and `N` iterations. */
  function RunLadder(np: nat, ind: nat, cycles: nat, numInds: nat, like: Likelihood,
                     exp: real -> real, weight: Chain -> real, g: Rng): (r: Outcome<Ladder>)
    requires 2 <= np && ind < numInds && ValidRng(g)
    ensures r.Done? ==> LadderRun(np, ind, NumHaps(numInds), like, cycles, g, r.value, r.rest)
  {
    var init := InitChains(np, ind, numInds, like, np, g);
    if !init.Done? then OutOfDraws
    else RunFresh(np, ind, numInds, like, exp, weight, init.value, cycles, g, init.rest)
  }

  /** The ladder `l` and the draws `rest` left by initialisation and `cycles` iterations
      from the draws `g`: the ladder is valid; the draws were used from the front; at least
      `P + 1` uniforms went to each iteration (the `bMutate` draw and one test per exchange
      attempt); and at least four integers went to each chain's donors, then `P + 2` to
      each iteration (two or more for the move, one or two per exchange attempt). */
  predicate LadderRun(np: nat, ind: nat, hn: nat, like: Likelihood, cycles: nat, g: Rng, l: Ladder, rest: Rng)
  {
    && ValidRng(rest) && LadderOk(l, np, ind, hn, like) && Consumed(g, rest)
    && |rest.unifs| + Repeated(cycles, np + 1) <= |g.unifs|
    && |rest.ints| + 4 * np + Repeated(cycles, np + 2) <= |g.ints|
  }

  /** `N` iterations from the fresh ladder over `chains`, whose donors were drawn modulo
      `numInds` from the draws `g0`, leaving `g`; the draws used are counted from `g0`. */
  function RunFresh(np: nat, ind: nat, numInds: nat, like: Likelihood, exp: real -> real, weight: Chain -> real,
                    chains: seq<Chain>, cycles: nat, g0: Rng, g: Rng): (r: Outcome<Ladder>)
    requires 2 <= np && 0 < numInds && |chains| == np && ValidRng(g0)
    requires forall c :: 0 <= c < np ==> FreshChain(chains[c], c, ind, numInds, like)
    requires Consumed(g0, g) && g.unifs == g0.unifs && |g.ints| + 4 * np <= |g0.ints|
    ensures r.Done? ==> LadderRun(np, ind, NumHaps(numInds), like, cycles, g0, r.value, r.rest)
  {
    InitLadderOk(chains, np, ind, numInds, NumHaps(numInds), like);
    ConsumedValid(g0, g);
    var it := Iterations(np, ind, NumHaps(numInds), like, exp, weight, Ladder(chains, Ranks(np)), cycles, g);
    if it.Done? then ConsumedTransitive(g0, g, it.rest); it else it
  }

  /** `Wimpute::solve_EMC(I, N, S, P)`: build the ladder, run `N` iterations, pick a chain by
      roulette wheel, vote for its parents when sampling, and commit them. */
  function SolveEmc(np: nat, ind: nat, cycles: nat, sampling: bool, numInds: nat, like: Likelihood,
                    exp: real -> real, weight: Chain -> real, row: seq<nat>, g: Rng): (r: Outcome<Solved>)
    requires 2 <= np
    requires ind < numInds && |row| == numInds && RowOk(row) && ValidRng(g)
    ensures r.Done? ==> ValidRng(r.rest)
    ensures r.Done? ==> SearchOk(Search(r.value.parents, r.value.like), ind, NumHaps(numInds), like)
    ensures r.Done? ==> r.value.row == if sampling then Vote(row, r.value.parents) else row
    ensures r.Done? ==> Consumed(g, r.rest)
    ensures r.Done? ==> |r.rest.unifs| + Repeated(cycles, np + 1) + 1 <= |g.unifs|
    ensures r.Done? ==> |r.rest.ints| + 4 * np + Repeated(cycles, np + 2) <= |g.ints|
  {
    var run := RunLadder(np, ind, cycles, numInds, like, exp, weight, g);
    if run.OutOfDraws? then OutOfDraws
    else if run.AssertFails? then AssertFails
    else
      var c := Commit(np, ind, NumHaps(numInds), sampling, like, weight, row, run.value, run.rest);
      if c.Done? then ConsumedTransitive(g, run.rest, c.rest); c else c
  }

  /** The end of `solve_EMC`: the chain picked by roulette wheel over the selection weights
      (one uniform draw) gives the parents and their likelihood, and votes when sampling. */
  function Commit(np: nat, ind: nat, hn: nat, sampling: bool, like: Likelihood, weight: Chain -> real,
                  row: seq<nat>, l: Ladder, g: Rng): (r: Outcome<Solved>)
    requires LadderOk(l, np, ind, hn, like) && ValidRng(g) && ind < |row| && hn == NumHaps(|row|) && RowOk(row)
    ensures r.Done? ==> ValidRng(r.rest) && Consumed(g, r.rest)
    ensures r.Done? ==> CommittedAsPicked(np, ind, hn, sampling, like, weight, row, l, g, r.value, r.rest)
    ensures r.AssertFails? <==> RouletteWheel(Weights(l.chains, weight), g).AssertFails?
  {
    var pick := RouletteWheel(Weights(l.chains, weight), g);
    if pick.OutOfDraws? then OutOfDraws
    else if pick.AssertFails? then AssertFails
    else
      var c := pick.value;
      PickedChainOk(l, np, ind, hn, like, c);
      assert c < np && WheelPick(Weights(l.chains, weight), g.unifs[0]) == Picked(c);
      var ch := l.chains[c];
      Done(Finish(Search(ch.parents, ch.like), ind, hn, like, sampling, row), pick.rest)
  }

  /** The answer `s` and the draws `rest` left after the final pick: the next uniform is the
      only draw used; `s` holds the parents and likelihood of the chain `c` that the roulette
      wheel picks with it; the parents are donors of this individual; and the row gained
      their votes exactly when sampling. */
  predicate CommittedAsPicked(np: nat, ind: nat, hn: nat, sampling: bool, like: Likelihood, weight: Chain -> real,
                              row: seq<nat>, l: Ladder, g: Rng, s: Solved, rest: Rng)
    requires |l.chains| == np && ValidRng(g) && RowOk(row)
  {
    && |g.unifs| > 0 && rest == Rng(g.ints, g.unifs[1..])
    && SearchOk(Search(s.parents, s.like), ind, hn, like)
    && (forall i :: 0 <= i < |s.parents| ==> s.parents[i] / 2 < |row|)
    && s.row == (if sampling then Vote(row, s.parents) else row)
    && exists c :: 0 <= c < np && WheelPick(Weights(l.chains, weight), g.unifs[0]) == Picked(c) &&
                   s.parents == l.chains[c].parents && s.like == l.chains[c].like
  }

  /** Every chain of a valid ladder is a valid chain under its own number. */
  lemma PickedChainOk(l: Ladder, np: nat, ind: nat, hn: nat, like: Likelihood, c: nat)
    requires LadderOk(l, np, ind, hn, like) && c < np
    ensures ChainOk(l.chains[c], c, ind, hn, like)
  {
  }

}
