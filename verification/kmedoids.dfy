/** The clustering state behind the k-medoids proposal source: a list of medoids (each a
    haplotype of the pool), and for every haplotype of the pool the medoid it is assigned to
    and its Hamming distance to that medoid.

    The pool is the `std::vector<uint64_t>` of all haplotypes, `numWordsPerHap` words per
    haplotype back to back; here it is a sequence with one entry per haplotype, entry `h`
    being the words at `&pool[h * numWordsPerHap]`. */
module KMedoids {
  import opened Bits
  import opened Haplotype

  /** `m_uClusterType`: 0 is exact PAM, 1 is the Park and Jun (2008) variant. */
  datatype ClusterType = Pam | ParkJun

  /** The fields of `KMedoids` that the assignment step reads and writes. */
  datatype KMedoids = KMedoids(
    clusterType: ClusterType,
    medoidHapNum: seq<nat>,   // m_vuMedoidHapNum: the haplotype each medoid is; one per cluster
    hapMedNum: seq<nat>,      // m_vuHapMedNum: the medoid each haplotype is assigned to
    hapHammingDist: seq<nat>, // m_vuHapHammingDist: distance of each haplotype to its medoid
    numWordsPerHap: nat,
    numSites: nat)

  /** Every haplotype of the pool occupies `w` words. */
  predicate PoolOk(pool: seq<seq<Word>>, w: nat)
  {
    forall h :: 0 <= h < |pool| ==> |pool[h]| == w
  }

  /** Every medoid is a haplotype of the pool. */
  predicate MedoidsOk(pool: seq<seq<Word>>, meds: seq<nat>)
  {
    forall m :: 0 <= m < |meds| ==> meds[m] < |pool|
  }

  /** `HammingDist(&pool[a * w], &pool[b * w])`: differing bits over the `w` words. */
  function Dist(pool: seq<seq<Word>>, w: nat, a: nat, b: nat): nat
    requires PoolOk(pool, w) && a < |pool| && b < |pool|
  {
    HammingWords(pool[a], pool[b], w)
  }

  /** Medoid number `m` is one that haplotype `h` is closest to: no medoid is strictly nearer. */
  predicate Closest(pool: seq<seq<Word>>, w: nat, meds: seq<nat>, h: nat, m: nat)
    requires PoolOk(pool, w) && MedoidsOk(pool, meds) && h < |pool|
  {
    m < |meds| && forall k :: 0 <= k < |meds| ==> Dist(pool, w, h, meds[m]) <= Dist(pool, w, h, meds[k])
  }

  /** Medoid number `m` is the first of the medoids closest to `h`. */
  predicate FirstClosest(pool: seq<seq<Word>>, w: nat, meds: seq<nat>, h: nat, m: nat)
    requires PoolOk(pool, w) && MedoidsOk(pool, meds) && h < |pool|
  {
    Closest(pool, w, meds, h, m) && forall k :: 0 <= k < m ==> Dist(pool, w, h, meds[m]) < Dist(pool, w, h, meds[k])
  }

  /** The clustering invariant: every haplotype is assigned a medoid it is closest to, and
      the stored distance is the Hamming distance to that medoid. */
  predicate Clustered(pool: seq<seq<Word>>, c: KMedoids)
  {
    && PoolOk(pool, c.numWordsPerHap)
    && MedoidsOk(pool, c.medoidHapNum)
    && |c.hapMedNum| == |pool| && |c.hapHammingDist| == |pool|
    && forall h :: 0 <= h < |pool| ==>
         && Closest(pool, c.numWordsPerHap, c.medoidHapNum, h, c.hapMedNum[h])
         && c.hapHammingDist[h] == Dist(pool, c.numWordsPerHap, h, c.medoidHapNum[c.hapMedNum[h]])
  }

  /** `AssignHapsToBestMedoids`: give every haplotype its nearest medoid (the first one on
      ties) and record the distance; the medoids themselves do not move. */
  method AssignHapsToBestMedoids(pool: seq<seq<Word>>, c: KMedoids) returns (r: KMedoids)
    requires PoolOk(pool, c.numWordsPerHap) && MedoidsOk(pool, c.medoidHapNum)
    requires |c.medoidHapNum| > 0
    ensures Clustered(pool, r)
    ensures r.medoidHapNum == c.medoidHapNum && r.numWordsPerHap == c.numWordsPerHap
    ensures r.clusterType == c.clusterType && r.numSites == c.numSites
    ensures forall h :: 0 <= h < |pool| ==> FirstClosest(pool, r.numWordsPerHap, r.medoidHapNum, h, r.hapMedNum[h])
  {
    var w, meds := c.numWordsPerHap, c.medoidHapNum;
    var medNum: seq<nat> := [];
    var dist: seq<nat> := [];
    var h := 0;
    while h < |pool|
      invariant h <= |pool|
      invariant |medNum| == h && |dist| == h
      invariant forall i :: 0 <= i < h ==> FirstClosest(pool, w, meds, i, medNum[i])
      invariant forall i :: 0 <= i < h ==> dist[i] == Dist(pool, w, i, meds[medNum[i]])
    {
      var best, bestDist := NearestMedoid(pool, w, meds, h);
      medNum := medNum + [best];
      dist := dist + [bestDist];
      h := h + 1;
    }
    r := c.(hapMedNum := medNum, hapHammingDist := dist);
  }

  /** The scan over the medoids for one haplotype: keep the first strictly nearer one. */
  method NearestMedoid(pool: seq<seq<Word>>, w: nat, meds: seq<nat>, h: nat) returns (best: nat, bestDist: nat)
    requires PoolOk(pool, w) && MedoidsOk(pool, meds) && h < |pool|
    requires |meds| > 0
    ensures FirstClosest(pool, w, meds, h, best)
    ensures bestDist == Dist(pool, w, h, meds[best])
  {
    best, bestDist := 0, Dist(pool, w, h, meds[0]);
    var m := 1;
    while m < |meds|
      invariant 1 <= m <= |meds|
      invariant best < m
      invariant bestDist == Dist(pool, w, h, meds[best])
      invariant forall k :: 0 <= k < m ==> bestDist <= Dist(pool, w, h, meds[k])
      invariant forall k :: 0 <= k < best ==> bestDist < Dist(pool, w, h, meds[k])
    {
      var d := Dist(pool, w, h, meds[m]);
      if d < bestDist {
        best, bestDist := m, d;
      }
      m := m + 1;
    }
  }

  /** A medoid is at distance 0 from itself, so a haplotype that is a medoid stores distance 0. */
  lemma MedoidDistanceZero(pool: seq<seq<Word>>, c: KMedoids, m: nat)
    requires Clustered(pool, c)
    requires m < |c.medoidHapNum|
    ensures c.hapHammingDist[c.medoidHapNum[m]] == 0
  {
    var h := c.medoidHapNum[m];
    HammingWordsSelf(pool[h], c.numWordsPerHap);
    assert Dist(pool, c.numWordsPerHap, h, c.medoidHapNum[m]) == 0;
  }

  /** The first-closest medoid is unique, so assigning twice from the same pool and medoids
      gives the same clustering. */
  lemma AssignmentDeterministic(pool: seq<seq<Word>>, c1: KMedoids, c2: KMedoids)
    requires Clustered(pool, c1) && Clustered(pool, c2)
    requires c1.medoidHapNum == c2.medoidHapNum && c1.numWordsPerHap == c2.numWordsPerHap
    requires forall h :: 0 <= h < |pool| ==> FirstClosest(pool, c1.numWordsPerHap, c1.medoidHapNum, h, c1.hapMedNum[h])
    requires forall h :: 0 <= h < |pool| ==> FirstClosest(pool, c2.numWordsPerHap, c2.medoidHapNum, h, c2.hapMedNum[h])
    ensures c1.hapMedNum == c2.hapMedNum && c1.hapHammingDist == c2.hapHammingDist
  {
    var w, meds := c1.numWordsPerHap, c1.medoidHapNum;
    forall h | 0 <= h < |pool|
      ensures c1.hapMedNum[h] == c2.hapMedNum[h]
    {
      var a, b := c1.hapMedNum[h], c2.hapMedNum[h];
      assert Dist(pool, w, h, meds[a]) <= Dist(pool, w, h, meds[b]) <= Dist(pool, w, h, meds[a]);
    }
  }

  /** Distance from `h` to the nearest of the medoids `meds`. */
  function MinDist(pool: seq<seq<Word>>, w: nat, meds: seq<nat>, h: nat): (r: nat)
    requires PoolOk(pool, w) && MedoidsOk(pool, meds) && h < |pool|
    requires |meds| > 0
    ensures exists m :: 0 <= m < |meds| && r == Dist(pool, w, h, meds[m])
    ensures forall m :: 0 <= m < |meds| ==> r <= Dist(pool, w, h, meds[m])
  {
    if |meds| == 1 then
      Dist(pool, w, h, meds[0])
    else
      var rest := MinDist(pool, w, meds[..|meds| - 1], h);
      var last := Dist(pool, w, h, meds[|meds| - 1]);
      assert forall m :: 0 <= m < |meds| - 1 ==> meds[..|meds| - 1][m] == meds[m];
      if last < rest then last else rest
  }

  /** The sum, over haplotypes `0 .. n-1`, of `pow(distance to nearest medoid, power)`. */
  function LossBelow(pool: seq<seq<Word>>, w: nat, meds: seq<nat>, power: real, pow: (nat, real) -> real, n: nat): real
    requires PoolOk(pool, w) && MedoidsOk(pool, meds) && n <= |pool|
    requires |meds| > 0
  {
    if n == 0 then 0.0 else LossBelow(pool, w, meds, power, pow, n - 1) + pow(MinDist(pool, w, meds, n - 1), power)
  }

  /** The medoids a loss is measured against: the ones given, or the current ones when none are. */
  function LossMedoids(c: KMedoids, medHaps: seq<nat>): (r: seq<nat>)
    ensures |medHaps| > 0 ==> r == medHaps
    ensures |medHaps| == 0 ==> r == c.medoidHapNum
  {
    if |medHaps| == 0 then c.medoidHapNum else medHaps
  }

  /** `MedoidLoss(haps, medHaps, power)`: the sum over the pool of each haplotype's distance to
      its nearest medoid raised to `power`.  `pow` is the C library's `pow`. */
  function MedoidLoss(pool: seq<seq<Word>>, c: KMedoids, medHaps: seq<nat>, power: real, pow: (nat, real) -> real): (r: real)
    requires PoolOk(pool, c.numWordsPerHap) && MedoidsOk(pool, LossMedoids(c, medHaps))
    requires |LossMedoids(c, medHaps)| > 0
    ensures (forall d: nat :: pow(d, power) >= 0.0) ==> r >= 0.0
    ensures |pool| == 0 ==> r == 0.0
  {
    LossBelowNonNegative(pool, c.numWordsPerHap, LossMedoids(c, medHaps), power, pow, |pool|);
    LossBelow(pool, c.numWordsPerHap, LossMedoids(c, medHaps), power, pow, |pool|)
  }

  /** With a non-negative `pow`, the partial loss is non-negative. */
  lemma {:induction false} LossBelowNonNegative(pool: seq<seq<Word>>, w: nat, meds: seq<nat>, power: real,
                                                pow: (nat, real) -> real, n: nat)
    requires PoolOk(pool, w) && MedoidsOk(pool, meds) && n <= |pool| && |meds| > 0
    ensures (forall d: nat :: pow(d, power) >= 0.0) ==> LossBelow(pool, w, meds, power, pow, n) >= 0.0
  {
    if n > 0 {
      LossBelowNonNegative(pool, w, meds, power, pow, n - 1);
    }
  }

  /** `MedoidLoss(haps, medHaps)`: power 2. */
  function MedoidLossSquared(pool: seq<seq<Word>>, c: KMedoids, medHaps: seq<nat>, pow: (nat, real) -> real): (r: real)
    requires PoolOk(pool, c.numWordsPerHap) && MedoidsOk(pool, LossMedoids(c, medHaps))
    requires |LossMedoids(c, medHaps)| > 0
    ensures r == MedoidLoss(pool, c, medHaps, 2.0, pow)
  {
    MedoidLoss(pool, c, medHaps, 2.0, pow)
  }

  /** `MedoidLoss(haps, power)`: against the current medoids. */
  function CurrentMedoidLoss(pool: seq<seq<Word>>, c: KMedoids, power: real, pow: (nat, real) -> real): (r: real)
    requires PoolOk(pool, c.numWordsPerHap) && MedoidsOk(pool, c.medoidHapNum)
    requires |c.medoidHapNum| > 0
    ensures r == MedoidLoss(pool, c, c.medoidHapNum, power, pow)
  {
    MedoidLoss(pool, c, [], power, pow)
  }

  /** `MedoidLoss(haps)`: against the current medoids with power 2, through the
      `MedoidLoss(haps, medHaps)` overload. */
  function CurrentMedoidLossSquared(pool: seq<seq<Word>>, c: KMedoids, pow: (nat, real) -> real): (r: real)
    requires PoolOk(pool, c.numWordsPerHap) && MedoidsOk(pool, c.medoidHapNum)
    requires |c.medoidHapNum| > 0
    ensures r == MedoidLoss(pool, c, c.medoidHapNum, 2.0, pow)
  {
    MedoidLossSquared(pool, c, [], pow)
  }

  /** Sum of squares of the first `n` entries. */
  function SumOfSquares(ds: seq<nat>, n: nat): nat
    requires n <= |ds|
  {
    if n == 0 then 0 else SumOfSquares(ds, n - 1) + ds[n - 1] * ds[n - 1]
  }

  /** For a clustered state, the default loss (power 2 against the current medoids) is the sum
      of the squared stored distances. */
  lemma DefaultLossIsSquaredStoredDistances(pool: seq<seq<Word>>, c: KMedoids, pow: (nat, real) -> real)
    requires Clustered(pool, c) && |c.medoidHapNum| > 0
    requires forall d: nat :: pow(d, 2.0) == (d * d) as real
    ensures CurrentMedoidLossSquared(pool, c, pow) == SumOfSquares(c.hapHammingDist, |pool|) as real
  {
    forall h | 0 <= h < |pool|
      ensures MinDist(pool, c.numWordsPerHap, c.medoidHapNum, h) == c.hapHammingDist[h]
    {
      StoredIsMinDist(pool, c, h);
    }
    LossBelowSquares(pool, c.numWordsPerHap, c.medoidHapNum, c.hapHammingDist, pow, |pool|);
  }

  lemma {:induction false} LossBelowSquares(pool: seq<seq<Word>>, w: nat, meds: seq<nat>, ds: seq<nat>,
                                            pow: (nat, real) -> real, n: nat)
    requires PoolOk(pool, w) && MedoidsOk(pool, meds) && |meds| > 0 && n <= |pool| && n <= |ds|
    requires forall h :: 0 <= h < n ==> MinDist(pool, w, meds, h) == ds[h]
    requires forall d: nat :: pow(d, 2.0) == (d * d) as real
    ensures LossBelow(pool, w, meds, 2.0, pow, n) == SumOfSquares(ds, n) as real
  {
    if n > 0 {
      LossBelowSquares(pool, w, meds, ds, pow, n - 1);
      assert pow(ds[n - 1], 2.0) == (ds[n - 1] * ds[n - 1]) as real;
    }
  }

  /** In a clustered state the stored distance is the distance to the nearest medoid. */
  lemma StoredIsMinDist(pool: seq<seq<Word>>, c: KMedoids, h: nat)
    requires Clustered(pool, c) && |c.medoidHapNum| > 0 && h < |pool|
    ensures MinDist(pool, c.numWordsPerHap, c.medoidHapNum, h) == c.hapHammingDist[h]
  {
    var w, meds := c.numWordsPerHap, c.medoidHapNum;
    var m := MinDist(pool, w, meds, h);
    var k :| 0 <= k < |meds| && m == Dist(pool, w, h, meds[k]);
    assert c.hapHammingDist[h] <= m;
  }

  /** `UpdatePropDistProp`: the k-medoids source ignores feedback on single proposals. */
  function UpdatePropDistProp(c: KMedoids, parents: seq<nat>, ind: nat, accepted: bool, ratio: real): (r: KMedoids)
    ensures r == c
  {
    c
  }

  /** `UpdatePropDistHaps`: nor does it react to a new haplotype set. */
  function UpdatePropDistHaps(c: KMedoids, pool: seq<seq<Word>>): (r: KMedoids)
    ensures r == c
  {
    c
  }

  /** The feedback hooks leave a clustering valid and its loss unchanged. */
  lemma HooksKeepClustering(pool: seq<seq<Word>>, c: KMedoids, parents: seq<nat>, ind: nat,
                            accepted: bool, ratio: real, newPool: seq<seq<Word>>)
    requires Clustered(pool, c)
    ensures Clustered(pool, UpdatePropDistProp(c, parents, ind, accepted, ratio))
    ensures Clustered(pool, UpdatePropDistHaps(c, newPool))
  {
  }

  /** On valid haplotypes of the same length, the distance between pool entries is the number
      of differing sites. */
  lemma DistCountsSites(pool: seq<seq<Word>>, w: nat, a: Haplotype, b: Haplotype, i: nat, j: nat)
    requires PoolOk(pool, w) && i < |pool| && j < |pool|
    requires Valid(a) && Valid(b) && a.numAlleles == b.numAlleles
    requires pool[i] == a.words && pool[j] == b.words
    ensures Dist(pool, w, i, j) == Mismatches(Sites(a), Sites(b))
  {
    HammingIsMismatches(a, b);
  }
}
