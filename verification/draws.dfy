/** The pseudo-random source, as the draws it will still return.

    The estimation loops call `gsl_rng_get` (an integer) and `gsl_rng_uniform` (a real in
    [0, 1)) on one shared generator.  Here the generator is replaced by the two sequences of
    values those calls return, each consumed from the front in program order.  Running out of
    draws is an outcome of its own: it also stands for a `do … while` retry loop that the
    remaining draws never leave (which, for some inputs, the C++ never leaves either). */
module Draws {

  /** The draws still to come: integers for `gsl_rng_get`, reals for `gsl_rng_uniform`. */
  datatype Rng = Rng(ints: seq<nat>, unifs: seq<real>)

  /** Every uniform draw lies in [0, 1), as `gsl_rng_uniform` guarantees. */
  predicate ValidRng(g: Rng)
  {
    UnitDraws(g.unifs)
  }

  /** Every value lies in [0, 1). */
  predicate UnitDraws(us: seq<real>)
  {
    forall i :: 0 <= i < |us| ==> 0.0 <= us[i] < 1.0
  }

  /** `g'` is what is left of `g` after some draws were taken from the front. */
  predicate Consumed(g: Rng, g': Rng)
  {
    |g'.ints| <= |g.ints| && g'.ints == g.ints[|g.ints| - |g'.ints|..] &&
    |g'.unifs| <= |g.unifs| && g'.unifs == g.unifs[|g.unifs| - |g'.unifs|..]
  }

  lemma ConsumedTransitive(g: Rng, g': Rng, g'': Rng)
    requires Consumed(g, g') && Consumed(g', g'')
    ensures Consumed(g, g'')
  {
    assert g''.ints == g.ints[|g.ints| - |g''.ints|..];
    assert g''.unifs == g.unifs[|g.unifs| - |g''.unifs|..];
  }

  lemma ConsumedValid(g: Rng, g': Rng)
    requires ValidRng(g) && Consumed(g, g')
    ensures ValidRng(g')
  {
    forall i | 0 <= i < |g'.unifs|
      ensures 0.0 <= g'.unifs[i] < 1.0
    {
      assert g'.unifs[i] == g.unifs[|g.unifs| - |g'.unifs| + i];
    }
  }

  /** The draws used by `n` steps of `c` draws each, `n * c` (`RepeatedIsProduct`), written as
      a sum so that counting draws stays linear. */
  function Repeated(n: nat, c: nat): nat
  {
    if n == 0 then 0 else Repeated(n - 1, c) + c
  }

  lemma {:induction false} RepeatedIsProduct(n: nat, c: nat)
    ensures Repeated(n, c) == n * c
  {
    if n > 0 {
      RepeatedIsProduct(n - 1, c);
    }
  }

  /** What a step of a loop leaves behind: a value and the remaining draws, or one of the two
      ways the step cannot finish. */
  datatype Outcome<T> = Done(value: T, rest: Rng) | OutOfDraws | AssertFails

  /** `gsl_rng_get(rng)`. */
  function NextInt(g: Rng): (r: Outcome<nat>)
    ensures r.Done? <==> |g.ints| > 0
    ensures r.Done? ==> [r.value] + r.rest.ints == g.ints && r.rest.unifs == g.unifs
    ensures r.Done? ==> r.value == g.ints[0] && r.rest == Rng(g.ints[1..], g.unifs)
    ensures r.Done? ==> Consumed(g, r.rest)
  {
    if |g.ints| == 0 then OutOfDraws else Done(g.ints[0], Rng(g.ints[1..], g.unifs))
  }

  /** `gsl_rng_uniform(rng)`. */
  function NextUniform(g: Rng): (r: Outcome<real>)
    requires ValidRng(g)
    ensures r.Done? <==> |g.unifs| > 0
    ensures r.Done? ==> 0.0 <= r.value < 1.0
    ensures r.Done? ==> [r.value] + r.rest.unifs == g.unifs && r.rest.ints == g.ints
    ensures r.Done? ==> r.value == g.unifs[0] && r.rest == Rng(g.ints, g.unifs[1..])
    ensures r.Done? ==> Consumed(g, r.rest) && ValidRng(r.rest)
  {
    if |g.unifs| == 0 then OutOfDraws
    else
      var rest := Rng(g.ints, g.unifs[1..]);
      ConsumedValid(g, rest);
      Done(g.unifs[0], rest)
  }

  /** Haplotype `p` may be a parent (a donor) for individual `ind`: it is one of the `hn`
      haplotypes and not one of the individual's own two, `2 ind` and `2 ind + 1`. */
  predicate IsDonor(p: nat, hn: nat, ind: nat)
  {
    p < hn && p / 2 != ind
  }

  /** The integer draw `d` picks, modulo `hn`, one of individual `ind`'s own haplotypes. */
  predicate Hits(d: nat, hn: nat, ind: nat)
  {
    hn > 0 && (d % hn) / 2 == ind
  }

  /** Draw `k` is the first integer draw whose haplotype, `ints[k] % hn`, is not one of
      individual `ind`'s own: every earlier draw hit one of them. */
  predicate FirstDonorAt(ints: seq<nat>, hn: nat, ind: nat, k: nat)
  {
    hn > 0 && k < |ints| &&
    if k == 0 then !Hits(ints[0], hn, ind) else Hits(ints[0], hn, ind) && FirstDonorAt(ints[1..], hn, ind, k - 1)
  }

  /** What the first donor draw means: draw `k` falls outside the individual and every
      earlier draw hits it. */
  lemma {:induction false} FirstDonorAtMeans(ints: seq<nat>, hn: nat, ind: nat, k: nat)
    requires FirstDonorAt(ints, hn, ind, k)
    ensures !Hits(ints[k], hn, ind) && forall j :: 0 <= j < k ==> Hits(ints[j], hn, ind)
  {
    if k > 0 {
      FirstDonorAtMeans(ints[1..], hn, ind, k - 1);
      forall j | 0 < j < k ensures Hits(ints[j], hn, ind) {
        assert ints[j] == ints[1..][j - 1];
      }
    }
  }

  /** Going from `g` to `rest` drew donor `p`: the integer draws used are those up to and
      including the first one outside individual `ind`, `p` is its haplotype, and no
      uniform was used. */
  predicate DonorDraw(g: Rng, hn: nat, ind: nat, p: nat, rest: Rng)
  {
    && |rest.ints| < |g.ints| && rest.unifs == g.unifs
    && rest.ints == g.ints[|g.ints| - |rest.ints|..]
    && FirstDonorAt(g.ints, hn, ind, |g.ints| - |rest.ints| - 1)
    && p == g.ints[|g.ints| - |rest.ints| - 1] % hn
  }

  /** A donor drawn after one draw that hit the individual. */
  lemma DonorDrawSkip(g: Rng, hn: nat, ind: nat, p: nat, rest: Rng)
    requires |g.ints| > 0 && Hits(g.ints[0], hn, ind)
    requires DonorDraw(Rng(g.ints[1..], g.unifs), hn, ind, p, rest)
    ensures DonorDraw(g, hn, ind, p, rest)
  {
    var k := |g.ints| - |rest.ints| - 1;
    assert g.ints[1..][k - 1] == g.ints[k];
    assert g.ints[1..][|g.ints[1..]| - |rest.ints|..] == g.ints[|g.ints| - |rest.ints|..];
  }

  /** What a donor draw implies for the caller: a donor, and a suffix of the draws left. */
  lemma DonorDrawConsumes(g: Rng, hn: nat, ind: nat, p: nat, rest: Rng)
    requires DonorDraw(g, hn, ind, p, rest)
    ensures IsDonor(p, hn, ind) && Consumed(g, rest)
  {
    FirstDonorAtMeans(g.ints, hn, ind, |g.ints| - |rest.ints| - 1);
  }

  /** `do p = gsl_rng_get(rng) % hn; while (p / 2 == I);`: the first integer draw whose
      haplotype does not belong to individual `ind`; the draws up to and including it are used. */
  function DrawDonor(g: Rng, hn: nat, ind: nat): (r: Outcome<nat>)
    requires hn > 0
    ensures !r.AssertFails?
    ensures r.Done? ==> DonorDraw(g, hn, ind, r.value, r.rest)
    ensures r.Done? ==> IsDonor(r.value, hn, ind) && Consumed(g, r.rest) && r.rest.unifs == g.unifs
    ensures r.OutOfDraws? <==> forall k :: 0 <= k < |g.ints| ==> Hits(g.ints[k], hn, ind)
    decreases |g.ints|
  {
    if |g.ints| == 0 then OutOfDraws
    else
      var rest := Rng(g.ints[1..], g.unifs);
      if Hits(g.ints[0], hn, ind) then
        var r := DrawDonor(rest, hn, ind);
        assert forall k :: 0 < k < |g.ints| ==> g.ints[k] == rest.ints[k - 1];
        if r.Done? then
          DonorDrawSkip(g, hn, ind, r.value, r.rest);
          DonorDrawConsumes(g, hn, ind, r.value, r.rest);
          r
        else r
      else
        assert DonorDraw(g, hn, ind, g.ints[0] % hn, rest);
        Done(g.ints[0] % hn, rest)
  }

  /** An individual alone in the panel (two haplotypes) has no donor: the retry loop
      never ends, whatever the generator returns. */
  lemma {:induction false} LoneIndividualHasNoDonor(g: Rng, hn: nat)
    requires 0 < hn <= 2
    ensures DrawDonor(g, hn, 0).OutOfDraws?
  {
    forall k | 0 <= k < |g.ints|
      ensures Hits(g.ints[k], hn, 0)
    {
    }
  }

  /** The haplotypes `ints[j] % hn` of the draws that fall outside individual `ind`, in
      draw order: the donors a run of retry loops keeps. */
  function Donors(ints: seq<nat>, hn: nat, ind: nat): (r: seq<nat>)
    requires hn > 0
    ensures |r| <= |ints|
  {
    if |ints| == 0 then []
    else if Hits(ints[0], hn, ind) then Donors(ints[1..], hn, ind)
    else [ints[0] % hn] + Donors(ints[1..], hn, ind)
  }

  lemma {:induction false} DonorsAppend(a: seq<nat>, b: seq<nat>, hn: nat, ind: nat)
    requires hn > 0
    ensures Donors(a + b, hn, ind) == Donors(a, hn, ind) + Donors(b, hn, ind)
  {
    if |a| > 0 {
      assert (a + b)[1..] == a[1..] + b;
      DonorsAppend(a[1..], b, hn, ind);
    } else {
      assert a + b == b;
    }
  }

  /** No draw yields a donor exactly when every draw hits the individual. */
  lemma {:induction false} NoDonors(ints: seq<nat>, hn: nat, ind: nat)
    requires hn > 0
    ensures Donors(ints, hn, ind) == [] <==> forall k :: 0 <= k < |ints| ==> Hits(ints[k], hn, ind)
  {
    if |ints| > 0 {
      NoDonors(ints[1..], hn, ind);
      assert forall k :: 0 < k < |ints| ==> ints[k] == ints[1..][k - 1];
    }
  }

  /** The draws through the first one outside the individual yield exactly that one donor. */
  lemma {:induction false} FirstDonorIsOnlyDonor(ints: seq<nat>, hn: nat, ind: nat, k: nat)
    requires FirstDonorAt(ints, hn, ind, k)
    ensures Donors(ints[..k + 1], hn, ind) == [ints[k] % hn]
  {
    var pre := ints[..k + 1];
    if k > 0 {
      assert pre[1..] == ints[1..][..k];
      FirstDonorIsOnlyDonor(ints[1..], hn, ind, k - 1);
      assert Hits(pre[0], hn, ind);
    } else {
      assert pre[1..] == [];
    }
  }

  /** Going from `g` to `rest` drew the donors `ps` in turn: they are the draws outside the
      individual among the integer draws used, in draw order, the last draw used is one of
      them, and no uniform was used. */
  predicate DonorsDrawn(g: Rng, hn: nat, ind: nat, ps: seq<nat>, rest: Rng)
    requires hn > 0
  {
    && |rest.ints| <= |g.ints| && rest.unifs == g.unifs
    && rest.ints == g.ints[|g.ints| - |rest.ints|..]
    && Donors(g.ints[..|g.ints| - |rest.ints|], hn, ind) == ps
    && (|rest.ints| < |g.ints| ==> !Hits(g.ints[|g.ints| - |rest.ints| - 1], hn, ind))
  }

  /** One more donor drawn after the donors `ps`. */
  lemma DonorsDrawnStep(g: Rng, g1: Rng, g2: Rng, hn: nat, ind: nat, ps: seq<nat>, p: nat)
    requires hn > 0
    requires DonorsDrawn(g, hn, ind, ps, g1) && DonorDraw(g1, hn, ind, p, g2)
    ensures DonorsDrawn(g, hn, ind, ps + [p], g2)
  {
    var a, n1 := g.ints, |g.ints| - |g1.ints|;
    var k2 := |g1.ints| - |g2.ints| - 1;
    SuffixOfSuffix(a, n1, k2);
    DonorsExtend(a, n1, k2, hn, ind);
  }

  lemma SuffixOfSuffix(a: seq<nat>, n: nat, k: nat)
    requires n + k < |a|
    ensures a[n..][k + 1..] == a[n + k + 1..] && a[n..][k] == a[n + k]
  {
  }

  /** The donors of the draws through the first donor after position `n1`. */
  lemma DonorsExtend(a: seq<nat>, n1: nat, k2: nat, hn: nat, ind: nat)
    requires n1 + k2 < |a| && FirstDonorAt(a[n1..], hn, ind, k2)
    ensures Donors(a[..n1 + k2 + 1], hn, ind) == Donors(a[..n1], hn, ind) + [a[n1 + k2] % hn]
    ensures !Hits(a[n1 + k2], hn, ind)
  {
    var b := a[n1..];
    FirstDonorAtMeans(b, hn, ind, k2);
    assert b[k2] == a[n1 + k2];
    FirstDonorIsOnlyDonor(b, hn, ind, k2);
    assert a[..n1 + k2 + 1] == a[..n1] + b[..k2 + 1];
    DonorsAppend(a[..n1], b[..k2 + 1], hn, ind);
  }

  /** After the donors `ps`, the donors of all the draws are `ps` followed by those of the rest. */
  lemma DonorsDrawnRemaining(g: Rng, g1: Rng, hn: nat, ind: nat, ps: seq<nat>)
    requires hn > 0
    requires DonorsDrawn(g, hn, ind, ps, g1)
    ensures Donors(g.ints, hn, ind) == ps + Donors(g1.ints, hn, ind)
  {
    var n1 := |g.ints| - |g1.ints|;
    assert g.ints == g.ints[..n1] + g1.ints;
    DonorsAppend(g.ints[..n1], g1.ints, hn, ind);
  }

  /** `for (j = 0; j < k; j++) do p[j] = … while (p[j] / 2 == I);`: `k` donors drawn in turn.
      The donors are the first `k` draws outside the individual, in draw order, and the
      integer draws are used up to the `k`-th of them (`DrawDonorsRunsOut` says when the
      draws run out). */
  function DrawDonors(g: Rng, hn: nat, ind: nat, k: nat): (r: Outcome<seq<nat>>)
    requires hn > 0
    ensures !r.AssertFails?
    ensures r.Done? ==> |r.value| == k && Consumed(g, r.rest) && r.rest.unifs == g.unifs
    ensures r.Done? ==> |r.rest.ints| + k <= |g.ints|
    ensures r.Done? ==> forall j :: 0 <= j < k ==> IsDonor(r.value[j], hn, ind)
    ensures r.Done? ==> DonorsDrawn(g, hn, ind, r.value, r.rest)
  {
    if k == 0 then
      assert g.ints[..0] == [];
      Done([], g)
    else
      var r1 := DrawDonors(g, hn, ind, k - 1);
      if !r1.Done? then OutOfDraws
      else
        var r2 := DrawDonor(r1.rest, hn, ind);
        if !r2.Done? then OutOfDraws
        else
          ConsumedTransitive(g, r1.rest, r2.rest);
          DonorsDrawnStep(g, r1.rest, r2.rest, hn, ind, r1.value, r2.value);
          Done(r1.value + [r2.value], r2.rest)
  }

  /** The `k` retry loops run out of draws exactly when fewer than `k` of all the draws fall
      outside the individual. */
  lemma {:induction false} DrawDonorsRunsOut(g: Rng, hn: nat, ind: nat, k: nat)
    requires hn > 0
    ensures DrawDonors(g, hn, ind, k).OutOfDraws? <==> |Donors(g.ints, hn, ind)| < k
  {
    if k > 0 {
      DrawDonorsRunsOut(g, hn, ind, k - 1);
      DrawDonorsStepRunsOut(g, hn, ind, k);
      var r1 := DrawDonors(g, hn, ind, k - 1);
      if r1.Done? {
        LastDonorRunsOut(g, r1.rest, hn, ind, r1.value);
      }
    }
  }

  /** The `k`-th retry loop runs out when an earlier one did or when it finds no donor in
      the draws the earlier ones left. */
  lemma DrawDonorsStepRunsOut(g: Rng, hn: nat, ind: nat, k: nat)
    requires hn > 0 && k > 0
    ensures var r1 := DrawDonors(g, hn, ind, k - 1);
            DrawDonors(g, hn, ind, k).OutOfDraws? <==> !r1.Done? || DrawDonor(r1.rest, hn, ind).OutOfDraws?
  {
  }

  /** After the donors `ps`, the next retry loop runs out exactly when the draws hold no
      donor beyond `ps`. */
  lemma LastDonorRunsOut(g: Rng, g1: Rng, hn: nat, ind: nat, ps: seq<nat>)
    requires hn > 0
    requires DonorsDrawn(g, hn, ind, ps, g1)
    ensures DrawDonor(g1, hn, ind).OutOfDraws? <==> |Donors(g.ints, hn, ind)| <= |ps|
  {
    DonorsDrawnRemaining(g, g1, hn, ind, ps);
    NoDonors(g1.ints, hn, ind);
  }
}
