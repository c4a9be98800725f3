# GLPhase core, modelled in Dafny

GLPhase phases and imputes genotypes. Each individual carries two haplotypes. The
estimation loops repeatedly re-estimate one individual's haplotypes from four "parent"
haplotypes chosen among the other individuals, and score each choice with a hidden Markov
model likelihood. This project models three pieces of that system and proves properties of
them:

- **The bit-packed haplotype store** (`Haplotype`, module `Haplotype`).
  - A haplotype is a fixed number of biallelic sites packed into 64-bit words.
  - Site `s` lives at bit `s & 63` of word `s >> 6`.
  - Covered: construction, `Set`, both `TestSite` overloads, `GetWord`, the three
    `HammingDist` overloads and `MaxTractLen`.
  - Each is related to a plain `seq<bool>` view of the sites (`Sites`).
  - The Hamming distance is proved equal to the number of differing sites.
  - The tract length is proved to be the longest run of agreeing sites.
  - The literal cases of the repository's haplotype unit tests are proved as lemmas.
- **The k-medoids cluster state** (`KMedoids`, module `KMedoids`).
  - The fields are the medoid list, each haplotype's medoid and each haplotype's stored
    distance to it.
  - Covered: the assignment step, the `MedoidLoss` overload defaults and the two no-op
    feedback hooks.
- **The discrete skeleton of the two estimation loops** (modules `Wimpute` and `Emc`).
  - `Wimpute` covers the single-chain search `solve`, the annealing penalty schedule of
    `estimate` / `estimate_EMC`, and roulette-wheel selection `RWSelection`.
  - `Emc` covers the evolutionary Monte Carlo loop `solve_EMC`: chain initialisation,
    mutation, crossover, temperature exchange and the final vote.

Modules `Bits` and `Counting` hold the word arithmetic and counting lemmas the Hamming proofs
rest on. Module `Draws` models the random-number generator.

How the surrounding system enters the model:

- **Random draws are inputs.** `Draws.Rng` holds the integers still to be returned by
  `gsl_rng_get` and the reals in [0, 1) still to be returned by `gsl_rng_uniform`.
  - Each step consumes draws from the front and hands back what is left.
  - A step that runs out of draws ends in `OutOfDraws`. This also stands for a `do … while`
    retry loop that the remaining draws never leave.
  - A failed `assert` ends in `AssertFails`.
- **The likelihood and `expf` are parameters.**
  - `hmm_like` is an uninterpreted function from an individual and four parents to a real.
  - `expf` is an uninterpreted function. Where a property needs more, the predicate
    `Wimpute.ExpLaws` supplies two laws: it is monotone, and it is at least 1 on
    non-negative arguments.
  - An EMC chain's selection weight (`EMCChain::getSelection`) is a parameter `weight`.
- **Words are naturals below 2^64.** `Bits.Word` is `nat` bounded by 2^64, not `bv64`. XOR
  and population count are defined digit by digit.

### Behaviour of `solve_EMC` as written

The model follows the code, not its comments. Three consequences are proved:

- **Mutation is the more likely move.** `bMutate` is true when the uniform draw *exceeds*
  `fMutationRate` (line 302). Mutation is chosen for draws above 0.3, about 70% of the time
  (`Emc.Iteration`). The rate is the single-precision value of 0.3, 10066330 / 2^25.
- **Every mutation is accepted.** The mutation test is `prop > curr || u < expf((curr -
  prop) / T)` (line 323). When `prop <= curr` the exponent is non-negative, so `expf` is at
  least 1, which beats every draw in [0, 1). Hence every mutation is accepted under the
  `expf` laws (`Emc.AcceptMutation`, `Emc.Mutate`).
- **The "order inverted" crossover branch is dead.** `bFirstChainHigherLike` (line 373)
  compares the two *saved* chains again, just as line 353 did. The XOR of the two flags is
  therefore always false, and the crossover is always judged with the "order matches"
  exponent (`Emc.CrossAccept`, `Emc.CrossedOk`).

The EMC loop never reads the penalty `S`; it only passes it to `hmm_work`, which is not part
of this model. The number of chains `P` is at least 2, because option `-p` rejects smaller
values (`src/main.cpp` lines 98-103). It is a precondition of the EMC functions.

## Model

| member | source | states |
|---|---|---|
| Haplotype.NumWords | src/haplotype.hpp:27-33 | the word count is ceil(n/64): every site's word `s >> 6` exists and no word is spare |
| Haplotype.ShiftAndMaskAreDivMod | src/haplotype.hpp:41-42 | for an unsigned 32-bit site, `s >> 6` is `s / 64` and `s & 63` is `s % 64` |
| Haplotype.Fresh | src/haplotype.hpp:26-33 | a new haplotype of n sites has ceil(n/64) words, keeps the store invariant (no bit set past the last site) and every site tests false |
| Haplotype.SitesOfFresh | src/testing/other_unittests.cpp:43-46 | the allele view of a new haplotype is all zeros |
| Haplotype.Set | src/haplotype.hpp:35-37 | after `Set(s, b)` site `s` tests `b`, every other site is unchanged, the length and the store invariant are kept; `s` must be a site |
| Haplotype.SitesOfSet | src/testing/other_unittests.cpp:50-55 | `Set(s, b)` updates exactly position `s` of the allele view |
| Haplotype.TestSiteRaw | src/haplotype.hpp:45-49 | the raw-array `TestSite` returns 0 or 1, and 1 exactly when bit `s % 64` of word `s / 64` is set |
| Haplotype.TestSite | src/haplotype.hpp:39-43 | the object `TestSite` reads `(word[s >> 6] >> (s & 63)) & 1`: the site is set exactly when that shift-and-mask gives 1; the site must be below the allele count |
| Haplotype.RawTestMatchesObject | src/haplotype.hpp:39-49 | the raw-array form reads the same allele as the object form when the array holds the haplotype's word |
| Haplotype.GetWord | src/haplotype.hpp:51-53 | bit k of word i is the allele of site 64i+k, and 0 past the last site |
| Haplotype.HammingDist | src/haplotype.hpp:55-56 | for haplotypes of equal length the distance is the number of sites whose alleles differ |
| Haplotype.HammingDistRaw | src/haplotype.hpp:58-59 | against a raw array holding another haplotype's words, the distance is the number of differing sites |
| Haplotype.HammingDistRawPair | src/haplotype.hpp:61 | for two raw arrays, the distance is the number of differing bit positions in this haplotype's word span |
| Haplotype.HammingIsMismatches | src/haplotype.hpp:55-61 | the sum over words of the population count of the XOR equals the number of sites where the alleles differ |
| Haplotype.HammingDistSelfAndSymmetric | src/haplotype.hpp:55-56 | a haplotype is at distance 0 from itself, and the distance is symmetric |
| Haplotype.MaxTractLen | src/haplotype.hpp:63-65 | the result is the length of the longest run of consecutive sites at which the two haplotypes agree |
| Haplotype.LongestRunUnique | src/haplotype.hpp:63-65 | the longest agreeing run has exactly one length, so the tract length is well defined |
| Haplotype.MaxTractLenSymmetric | src/haplotype.hpp:63-65 | the tract length does not depend on which haplotype is the receiver |
| Haplotype.MaxTractLenFullIffIdentical | src/haplotype.hpp:63-65 | the tract spans all sites exactly when the Hamming distance is 0 |
| Haplotype.SelfTract | src/testing/other_unittests.cpp:82-83 | a haplotype shares a tract as long as itself with itself |
| Haplotype.OneMismatchTract | src/testing/other_unittests.cpp:94-97 | with a single differing site s among n, the tract is the longer of the two sides, max(s, n-s-1) |
| Haplotype.TwoMismatchTract | src/testing/other_unittests.cpp:99-100 | with two differing sites s < t, the tract is the longest of the three gaps |
| Haplotype.StoresOkShort | src/testing/other_unittests.cpp:43-59 | on 4 sites: a new haplotype tests false everywhere; sites 4 and 128 are out of range; after setting 0 and 3 those test true and 2 false; the distances are 2 and 0 |
| Haplotype.StoresOkLong | src/testing/other_unittests.cpp:61-70 | on 128 sites with 127 and 1 set against a new haplotype, the distance is 2 both ways |
| Haplotype.StoresOkLongThird | src/testing/other_unittests.cpp:71-72 | after also setting site 120 on the other haplotype, the distance is 3 |
| Haplotype.StoresOkRaw | src/testing/other_unittests.cpp:74-76 | site 1 read through a raw array holding the first word of the first haplotype is set |
| Haplotype.TractLenOkShort | src/testing/other_unittests.cpp:82-89 | on 4 sites the self tract is 4, and against sites 0 and 3 set it is 2 |
| Haplotype.TractLenOkLong | src/testing/other_unittests.cpp:91-100 | on 1024 sites: the self tract is 1024; a mismatch at 23 gives 1000 both ways; a second mismatch at 1023 gives 999 |
| Haplotype.NumWordsAsWrittenTooSmall | src/haplotype.hpp:28-29 | with the count rounded through `float`, 2^24+1 sites get 2^18 words, and site 2^24 has no word |
| Draws.DrawDonor | wimpute/src/wimpute.cpp:177 | the donor is the first integer draw whose haplotype (draw `% hn`) is outside the individual; exactly the draws up to and including it are used, and no uniform; the loop exhausts the draws exactly when every draw belongs to the individual |
| Draws.LoneIndividualHasNoDonor | wimpute/src/wimpute.cpp:177 | with only two haplotypes the retry loop never finds a donor, whatever the draws |
| Draws.DrawDonors | wimpute/src/wimpute.cpp:175-178 | the k donors are, in draw order, the draws outside the individual among the draws used, and the last draw used is the k-th of them; at least k integers and no uniform are used |
| Draws.DrawDonorsRunsOut | wimpute/src/wimpute.cpp:175-178 | the k retry loops run out of draws exactly when fewer than k of all the draws fall outside the individual |
| Draws.DrawDonorsStepRunsOut | wimpute/src/wimpute.cpp:176-178 | the k loops run out exactly when the first k-1 do or the k-th retry loop does |
| Draws.LastDonorRunsOut | wimpute/src/wimpute.cpp:177 | after donors ps were drawn, one more retry loop runs out exactly when no more than \|ps\| of all the draws fall outside the individual |
| Draws.RepeatedIsProduct | wimpute/src/wimpute.cpp:188 | the draws used by N steps of c draws each, counted as a sum, are N c |
| KMedoids.AssignHapsToBestMedoids | src/kMedoids.hpp:60 | every haplotype is assigned a medoid no other medoid is strictly closer to (the first such on ties), its stored distance is the Hamming distance to that medoid, and the medoid list (one entry per cluster, each a haplotype of the pool) is unchanged |
| KMedoids.NearestMedoid | src/kMedoids.hpp:22-23 | returns the first medoid at least as close to the haplotype as every other, with its distance |
| KMedoids.MedoidDistanceZero | src/kMedoids.hpp:28-29 | in a clustered state a medoid's own stored distance is 0 |
| KMedoids.AssignmentDeterministic | src/kMedoids.hpp:22-29 | two assignments to the same medoids, both taking the first closest medoid, agree on every haplotype's medoid and distance |
| KMedoids.StoredIsMinDist | src/kMedoids.hpp:28-29 | the stored distance is the minimum over all medoids of the distance to the haplotype |
| KMedoids.DistCountsSites | src/kMedoids.hpp:28-29 | the distance between two pool entries is the number of differing sites of the haplotypes they hold |
| KMedoids.CurrentMedoidLoss | src/kMedoids.hpp:41-44 | the power-only overload is the loss of the current medoids at that power |
| KMedoids.MedoidLoss | src/kMedoids.hpp:53-54 | under the assumed reading of its body (sum over the pool of `pow` of the distance to the nearest medoid), the loss is non-negative whenever `pow` is, and 0 on an empty pool |
| KMedoids.MedoidLossSquared | src/kMedoids.hpp:49-52 | the overload with medoids but no power is the loss at power 2.0 |
| KMedoids.CurrentMedoidLossSquared | src/kMedoids.hpp:45-52 | the overload with neither medoids nor power, through the power-2 overload with an empty list, is the loss of the current medoids at power 2.0 |
| KMedoids.DefaultLossIsSquaredStoredDistances | src/kMedoids.hpp:45-52 | the overload without a power uses power 2: on a clustered state it is the sum of the squared stored distances |
| KMedoids.HooksKeepClustering | src/kMedoids.hpp:73-79 | both feedback hooks leave a clustered state clustered |
| KMedoids.UpdatePropDistProp | src/kMedoids.hpp:73-76 | the feedback on one proposal has an empty body: the state is returned unchanged |
| KMedoids.UpdatePropDistHaps | src/kMedoids.hpp:78-79 | the feedback on a new haplotype set has an empty body: the state is returned unchanged |
| Wimpute.Ramp | wimpute/src/wimpute.cpp:231 | `min(2(n+1)/bn, 1)` lies in (0, 1] and is 1 exactly when 2(n+1) >= bn; with no burn-in it is 1 |
| Wimpute.Penalty | wimpute/src/wimpute.cpp:231-232 | the squared ramp lies in (0, 1] and is 1 exactly when 2(n+1) >= bn |
| Wimpute.PenaltyMonotone | wimpute/src/wimpute.cpp:231-232 | the penalty never decreases from one sweep to the next |
| Wimpute.ScheduleShape | wimpute/src/wimpute.cpp:229-234 | over the bn+sn sweeps the penalty rises monotonically within (0, 1] and reaches 1 half way through the burn-in; exactly the last sn sweeps sample, all at full penalty |
| Wimpute.WheelPick | wimpute/src/wimpute.cpp:118-140 | for a weight total in (0, 1] and a positive stop point, the pick is the first index whose running weight sum reaches the stop point; otherwise an assert fails |
| Wimpute.FirstReachingUnique | wimpute/src/wimpute.cpp:132-135 | the first index whose running sum reaches the stop point is unique, so the pick is well defined |
| Wimpute.WalkWheel | wimpute/src/wimpute.cpp:132-135 | subtracting weights until the stop point is used up stops at the first index whose running sum reaches it |
| Wimpute.RWSelection | wimpute/src/wimpute.cpp:118-140 | the loop returns an index in range that is the wheel pick of the first uniform draw; it fails an assert exactly when the total or the stop point is out of range |
| Wimpute.RouletteWheel | wimpute/src/wimpute.cpp:118-140 | the same selection as a function: an in-range index equal to the wheel pick of the first uniform; exactly that one uniform and no integer is used; an assert fails exactly when the total or the stop point is out of range |
| Wimpute.Vote | wimpute/src/wimpute.cpp:209-212 | each counter of the individual's row grows by the number of parents from that individual, modulo 2^16 |
| Wimpute.VotesAddUp | wimpute/src/wimpute.cpp:211 | each parent votes for exactly one individual, so the votes add up to the number of parents |
| Wimpute.Decide | wimpute/src/wimpute.cpp:192-198 | a strictly more likely proposal is kept and uses no draw; otherwise one uniform u is drawn and the proposal kept exactly when u < `expf((prop - curr) * S)`; a rejected one puts the old parent back; no integer is drawn |
| Wimpute.SolveCycle | wimpute/src/wimpute.cpp:190-198 | the slot is the first integer draw `& 3`; the donor is the first later draw outside the individual; the proposal is kept by the rule of `Decide` (no draw when more likely, otherwise u < `expf((prop - curr) * S)`); the kept or restored state and the proposal's likelihood are recorded |
| Wimpute.CycleKeepsSearchOk | wimpute/src/wimpute.cpp:190-198 | a cycle keeps four donors with their current likelihood and changes no slot but the one drawn |
| Wimpute.SolveCycles | wimpute/src/wimpute.cpp:188-205 | after N cycles the parents are still four donors and `curr` is their likelihood; each cycle used at least two integers (slot and donor) and at most one uniform |
| Wimpute.Solve | wimpute/src/wimpute.cpp:172-215 | `solve` returns four donors and their likelihood; when sampling, the row gets one vote per parent, and otherwise it is unchanged; at least 4 + 2N integers and at most N uniforms are used, so no cycle is skipped |
| Wimpute.Finish | wimpute/src/wimpute.cpp:208-214 | the search's parents and likelihood are returned, every parent's individual is in the row, and the row gets one vote per parent exactly when sampling |
| Emc.InitTemp | wimpute/src/wimpute.cpp:273 | chain i starts at temperature `(i+1) * P / P = i + 1` |
| Emc.InitChain | wimpute/src/wimpute.cpp:273-289 | a new chain has its number, temperature i+1, and four donors that are, in draw order, the draws outside the individual among the draws used (drawn modulo the chain's haplotype count), and their likelihood; at least four integers and no uniform are used |
| Emc.InitChains | wimpute/src/wimpute.cpp:272-291 | the chains are created in order, chain c valid at temperature c+1; the draws are used from the front, at least four integers per chain |
| Emc.InitLadderOk | wimpute/src/wimpute.cpp:271-291 | the new ladder, ranks listing chains in order, satisfies the ladder invariant |
| Emc.MutateChain | wimpute/src/wimpute.cpp:316-328 | the slot is the first integer draw `& 3` and the donor the first later draw outside the individual; the proposal is kept by the test as written (no draw when more likely, otherwise u < `expf((curr - prop) / T)`); a kept move puts the donor in the slot and recomputes the likelihood, a rejected one leaves the chain; under the `expf` laws it is always accepted |
| Emc.MutateSlot | wimpute/src/wimpute.cpp:318-328 | with the slot fixed, the donor is the first integer draw outside the individual; the proposal is kept by the test as written; a kept move puts the donor in the slot and recomputes the likelihood, a rejected one puts the old parent `oh` back |
| Emc.PutBack | wimpute/src/wimpute.cpp:323-328 | the mutated chain takes chain j's place and every other chain and the ranks are unchanged; the ladder invariant is kept, and a rejected move leaves the ladder as it was |
| Emc.AcceptMutation | wimpute/src/wimpute.cpp:323 | a more likely proposal is accepted without a draw; otherwise one uniform u is drawn and the proposal accepted exactly when u < `expf((curr - prop) / T)`; under the `expf` laws every proposal is accepted |
| Emc.MoveKeepsChain | wimpute/src/wimpute.cpp:316-328 | a mutated chain is still a valid chain at the same temperature |
| Emc.Mutate | wimpute/src/wimpute.cpp:304-329 | the chain mutated is the first integer draw `% P`; the slot is the next integer draw `& 3` and the donor the first later draw outside the individual; the proposal is decided by the test as written; a kept move puts the donor in that slot of that chain and recomputes its likelihood; no other chain changes, the ranks and the ladder invariant are kept, and exactly the draws used are consumed; under the `expf` laws it always accepts |
| Emc.MutateAt | wimpute/src/wimpute.cpp:311-328 | with chain j drawn: the same slot, donor and test as `Mutate`, only chain j changes, and the draws are used from the front |
| Emc.SwapSlots | wimpute/src/wimpute.cpp:358-366 | slot i is exchanged between the two parent lists exactly when bit i of the mask is set |
| Emc.DrawOther | wimpute/src/wimpute.cpp:341-345 | the second chain is the first integer draw `% P` that differs from the first chain; exactly the draws up to and including it are used; the draws run out exactly when each one hits the first chain |
| Emc.PickCrossover | wimpute/src/wimpute.cpp:336-357 | the first chain is the roulette-wheel pick of the first uniform; the second is the first integer draw `% P` different from it; the mask is the next integer draw `& 15`; it fails only when the roulette wheel fails |
| Emc.Cross | wimpute/src/wimpute.cpp:357-372 | crossover exchanges exactly the masked slots, keeps each chain's number and temperature, and recomputes both likelihoods |
| Emc.CrossTwice | wimpute/src/wimpute.cpp:358-366 | crossing over twice with the same mask gives back both chains |
| Emc.CrossKeepsChains | wimpute/src/wimpute.cpp:358-372 | crossing two valid chains gives two valid chains |
| Emc.CrossAccept | wimpute/src/wimpute.cpp:373-390 | the "order inverted" flag is always false; acceptance is a draw at most `expf` of the "order matches" exponent |
| Emc.CrossLadder | wimpute/src/wimpute.cpp:358-372 | an accepted crossover changes only the two chains and keeps the ladder invariant |
| Emc.Crossover | wimpute/src/wimpute.cpp:331-407 | the chains and mask are drawn as in `PickCrossover`; the crossover is kept exactly when the next uniform is at most `expf` of the "order matches" exponent; the inverted branch is never taken; a rejection leaves the ladder as it was; an acceptance exchanges exactly the masked slots; the ladder invariant holds; exactly the draws used are consumed |
| Emc.CrossAt | wimpute/src/wimpute.cpp:357-407 | with the two chains and the mask drawn: one uniform decides, kept exactly when it is at most `expf` of the "order matches" exponent; only the masked slots of the two chains are exchanged; no integer is used |
| Emc.Partner | wimpute/src/wimpute.cpp:421-430 | 0 pairs with 1 and P-1 with P-2 without a draw; an inner rank uses exactly one integer draw and pairs with the neighbour it selects; the partner is adjacent and in range |
| Emc.Neighbour | wimpute/src/wimpute.cpp:427-430 | an inner rank's partner is the rank below exactly when the draw is odd, otherwise the rank above |
| Emc.PickRanks | wimpute/src/wimpute.cpp:415-430 | an exchange attempt draws two adjacent ranks in range: the first is the integer draw `% P`; ranks 0 and P-1 use no second draw, an inner rank's partner is chosen by the next draw; no uniform is used |
| Emc.ExchangeAccept | wimpute/src/wimpute.cpp:436-443 | the exchange is accepted when the draw is below `min(expf((L1-L2)(1/T1-1/T2)), 1)`; with a non-negative exponent it always is |
| Emc.SwapRanks | wimpute/src/wimpute.cpp:444-451 | an exchange swaps the two temperatures and hierarchy entries; the hierarchy stays a permutation and the chain at rank r keeps temperature r+1 |
| Emc.SwapRanksTwice | wimpute/src/wimpute.cpp:444-451 | exchanging the same two ranks twice gives back the ladder |
| Emc.Exchange | wimpute/src/wimpute.cpp:413-453 | the rank is the first integer draw `% P` and its partner an adjacent rank, chosen by the second draw exactly when the rank is inner; one or two integers and one uniform are used (`ExchangeDrew`); the exchange is kept exactly when the uniform is below `min(expf((L1-L2)(1/T1-1/T2)), 1)`; a kept one swaps the two hierarchy entries, a rejected one changes nothing; every chain keeps its donors and likelihood; the ladder invariant holds (`ExchangeApplied`) |
| Emc.Exchanges | wimpute/src/wimpute.cpp:413-456 | P exchange attempts keep the ladder invariant and use the draws from the front: exactly P uniforms and between P and 2P integers, so no attempt is skipped |
| Emc.Iteration | wimpute/src/wimpute.cpp:298-456 | an iteration mutates exactly when the uniform draw exceeds the mutation rate, keeps the ladder invariant, and uses the draws from the front: at least P + 1 uniforms and P + 2 integers |
| Emc.Move | wimpute/src/wimpute.cpp:304-407 | the mutation or the crossover keeps the ladder invariant and uses the draws from the front, at least two integers; a mutation never fails an assert |
| Emc.Iterations | wimpute/src/wimpute.cpp:298-463 | N iterations keep the ladder invariant and use the draws from the front, at least N (P + 1) uniforms and N (P + 2) integers, so no iteration is skipped |
| Emc.RunLadder | wimpute/src/wimpute.cpp:269-463 | initialisation followed by N iterations leaves a valid ladder and uses the draws from the front: at least 4P + N (P + 2) integers and N (P + 1) uniforms (`LadderRun`) |
| Emc.RunFresh | wimpute/src/wimpute.cpp:293-463 | N iterations from a freshly initialised ladder leave a valid ladder, with the draws counted from before the initialisation |
| Emc.SolveEmc | wimpute/src/wimpute.cpp:255-486 | `solve_EMC` returns four donors and their likelihood; when sampling, the row gets one vote per parent, and otherwise it is unchanged; the draws are used from the front, at least 4P + N (P + 2) integers and N (P + 1) + 1 uniforms, so no iteration is skipped |
| Emc.Commit | wimpute/src/wimpute.cpp:465-486 | the result is the parents and likelihood of the chain that the roulette wheel picks with the next uniform, which is the only draw used; votes are added when sampling (`CommittedAsPicked`); it fails an assert exactly when the wheel does |

## Left out

- Logging, progress output and `document()`: I/O only.
- `hmm_like`, `hmm_work`, `replace`, `result` and `load_bin` belong to the `Impute` base
  class, which is not part of this model.
  - The likelihood is a parameter.
  - `hmm_work` and `replace` update haplotype state the model does not hold, so they are
    omitted.
- The haplotype count `hn` is set by that base class. It is taken to be two per individual
  (`Wimpute.NumHaps`).
- `EMCChain` (`emcchain.hpp`) is not part of this model.
  - Its constructor is read as storing the haplotype count argument `in` in `m_uHapNum`.
    Initial EMC donors are therefore drawn modulo the number of individuals. Mutations
    draw modulo `hn`.
  - Its selection weight is a parameter.
  - Its log writer is omitted.
- Floating point: likelihoods, temperatures, weights, the annealing penalty and `expf` are
  reals, with no rounding. Two roundings are written out:
  - the `float` word count of the haplotype constructor, as the as-written half of the
    finding below (`Haplotype.NumWordsAsWritten`); the rest of the model uses the exact count;
  - the mutation rate, which is the single-precision value of 0.3 (`Emc.MutationRate`).
- RWSelection: the weight total and the stop point are `double`s. With rounding, the stop
  point can stay positive after the last weight is subtracted, and then the index assert at
  line 137 fails. Over the reals this cannot happen, so the model's `AssertFails` covers only
  the asserts at lines 125-128. The same holds for `RouletteWheel`.
- The GSL generator: draws are explicit input sequences, one for integers and one for
  uniforms. Their interleaving in the real generator is not modelled.
- The PAM and Park–Jun medoid searches, `SampleHap`, `UpdateMedoids`, `InputTesting` and the
  `KMedoids` constructor: their implementation file is not part of this model, and they are
  randomised heuristics.
- The outer sweep loops of `estimate` and `estimate_EMC` are modelled only as their
  schedule of penalties and sampling flags. Summing likelihoods and swapping `hnew` and
  `haps` are left out.
- `Haplotype.MaxTractLen`: the `.cpp` body is not part of this model. It is specified as the
  longest agreeing run, for haplotypes of equal length, as the header comment and the unit
  tests describe it.
- `Haplotype.HammingDist`: the `.cpp` bodies are not part of this model.
  - The distance is computed over the shorter word array.
  - It is characterised only for haplotypes of equal length.
- `KMedoids.AssignHapsToBestMedoids`: the implementation is not part of this model.
  - Ties are read as going to the first closest medoid. The header promises only a closest
    medoid.
  - The haplotype pool is one `seq<Word>` per haplotype, not one flat word vector with
    `m_uNumWordsPerHap` words per haplotype.
- `KMedoids.MedoidLoss`: the header only declares the three-argument overload. Its body is in
  `kMedoids.cpp`, which this model does not cover.
  - The model assumes a reading of that body: the sum over the pool of
    `pow(distance to the nearest medoid, power)`.
  - `KMedoids.DefaultLossIsSquaredStoredDistances` and the non-negativity of the loss rest on
    this reading.
  - An empty medoid list is read as "use the current medoids", since both short overloads
    pass an empty list (`KMedoids.CurrentMedoidLoss`).
- The asserts of `RWSelection` on the weight total and on the stop point become the
  `AssertFails` outcome. The asserts on the returned index are proved to hold.
- `test(&cSelection, i)` is read as bit i of the mask. Its definition is not part of this
  model.

## Findings

| source | as written | input that shows it | evidently intended | confidence | as-written member | corrected member |
|---|---|---|---|---|---|---|
| src/haplotype.hpp:28-29 | the word count is `ceil(float(n) / 64.0f)`, so n is rounded to 24 significant bits first | n = 2^24 + 1 sites: float(n) = 2^24, giving 2^18 words, while site 2^24 needs word 2^18 | ceil(n / 64) words, computed in integers | not executed | Haplotype.NumWordsAsWrittenTooSmall | Haplotype.NumWords |

The rest of the model, including `Haplotype.Fresh`, uses the corrected count
`Haplotype.NumWords`. Up to 2^24 sites the two counts agree
(`Haplotype.NumWordsAsWrittenExactBelow2To24`).
