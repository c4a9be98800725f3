/** The bit-packed haplotype store: a fixed number of biallelic sites packed
    into 64-bit words, site `s` living at bit `s & 63` of word `s >> 6`. */
module Haplotype {
  import opened Bits
  import opened Counting

  /* ---------------------------------------------------------------------------
     Word layout
     ------------------------------------------------------------------------ */

  /** Number of words needed for `n` sites: the ceiling of n / 64. */
  function NumWords(n: nat): (r: nat)
    ensures forall s :: 0 <= s < n ==> s / 64 < r
    ensures r == 0 || (r - 1) * 64 < n
  {
    (n + 63) / 64
  }

  /** For an unsigned site number, the shift and mask of the source are the
      quotient and remainder by 64. */
  lemma ShiftAndMaskAreDivMod(s: bv32)
    ensures s >> 6 == s / 64
    ensures s & 63 == s % 64
  {
  }

  /** Bit number `i` of a word array, counted across words. */
  predicate WordsBit(ws: seq<Word>, i: nat)
    requires i / 64 < |ws|
  {
    Bit(ws[i / 64], i % 64)
  }

  datatype Haplotype = Haplotype(numAlleles: nat, words: seq<Word>)

  /** The class invariant: exactly `NumWords(numAlleles)` words, and every bit past the
      last site is clear (the constructor zeroes all words and `Set` only touches sites). */
  ghost predicate Valid(h: Haplotype)
  {
    && |h.words| == NumWords(h.numAlleles)
    && forall i :: h.numAlleles <= i < 64 * |h.words| ==> !WordsBit(h.words, i)
  }

  /** The allele sequence a haplotype stands for. */
  function Sites(h: Haplotype): (r: seq<bool>)
    requires Valid(h)
    ensures |r| == h.numAlleles
  {
    seq(h.numAlleles, i requires 0 <= i < h.numAlleles => WordsBit(h.words, i))
  }

  /* ---------------------------------------------------------------------------
     Construction, Set, TestSite, GetWord
     ------------------------------------------------------------------------ */

  /** `Haplotype(uNumAlleles)`: all sites 0, ceil(n/64) zero words. */
  function Fresh(n: nat): (r: Haplotype)
    ensures Valid(r)
    ensures r.numAlleles == n
    ensures |r.words| == NumWords(n)
    ensures forall s :: 0 <= s < n ==> !TestSite(r, s)
  {
    var r := Haplotype(n, seq(NumWords(n), _ => 0 as Word));
    assert forall i :: 0 <= i < 64 * |r.words| ==> !WordsBit(r.words, i) by {
      forall i | 0 <= i < 64 * |r.words|
        ensures !WordsBit(r.words, i)
      {
        ZeroHasNoBit(i % 64);
      }
    }
    r
  }

  /** `TestSite(uSite)`: the allele at a site; the source asserts `uSite < m_uNumAlleles`. */
  function TestSite(h: Haplotype, s: nat): (r: bool)
    requires Valid(h)
    requires s < h.numAlleles
    ensures s / 64 < |h.words|
    ensures r <==> ShiftTest(h.words[s / 64], s % 64) == 1
  {
    WordsBit(h.words, s)
  }

  /** `Set(uSite, bAllele)`: the site takes the new allele and no other site changes. */
  function Set(h: Haplotype, s: nat, b: bool): (r: Haplotype)
    requires Valid(h)
    requires s < h.numAlleles
    ensures Valid(r)
    ensures r.numAlleles == h.numAlleles
    ensures TestSite(r, s) == b
    ensures forall t :: 0 <= t < h.numAlleles && t != s ==> TestSite(r, t) == TestSite(h, t)
  {
    var w := s / 64;
    var r := h.(words := h.words[w := WithBit(h.words[w], s % 64, b)]);
    assert forall i :: 0 <= i < 64 * |r.words| && i != s ==> WordsBit(r.words, i) == WordsBit(h.words, i) by {
      forall i | 0 <= i < 64 * |r.words| && i != s
        ensures WordsBit(r.words, i) == WordsBit(h.words, i)
      {
        if i / 64 == w && i % 64 == s % 64 {
          DivModUnique(i, s);
          assert false;
        }
      }
    }
    r
  }

  /** Two bit numbers with the same word and the same offset are the same. */
  lemma DivModUnique(i: nat, s: nat)
    requires i / 64 == s / 64 && i % 64 == s % 64
    ensures i == s
  {
  }

  /** `TestSite(uSite, P)`: reads bit `uSite` of a raw word array (1 or 0); no bounds assertion. */
  function TestSiteRaw(s: nat, p: seq<Word>): (r: nat)
    requires s / 64 < |p|
    ensures r == 0 || r == 1
    ensures r == 1 <==> WordsBit(p, s)
  {
    ShiftTest(p[s / 64], s % 64)
  }

  /** `GetWord(uWordNum)`: word `i` holds sites 64i .. 64i+63 (bits past the last site are 0). */
  function GetWord(h: Haplotype, i: nat): (r: Word)
    requires Valid(h)
    requires i < |h.words|
    ensures forall k :: 0 <= k < 64 ==>
              Bit(r, k) == (64 * i + k < h.numAlleles && TestSite(h, 64 * i + k))
  {
    var r := h.words[i];
    assert forall k :: 0 <= k < 64 ==> Bit(r, k) == WordsBit(h.words, 64 * i + k) by {
      forall k | 0 <= k < 64
        ensures Bit(r, k) == WordsBit(h.words, 64 * i + k)
      {
        BlockIndex(i, k);
      }
    }
    r
  }

  /** Bit `k` of word `m` is bit number `64m + k`. */
  lemma BlockIndex(m: nat, k: nat)
    requires k < 64
    ensures (64 * m + k) / 64 == m
    ensures (64 * m + k) % 64 == k
  {
  }

  /** The raw-array form reads the same allele as the object form when the array holds the
      haplotype's word for that site. */
  lemma RawTestMatchesObject(h: Haplotype, s: nat, p: seq<Word>)
    requires Valid(h)
    requires s < h.numAlleles
    requires s / 64 < |p|
    requires p[s / 64] == h.words[s / 64]
    ensures (TestSiteRaw(s, p) == 1) == TestSite(h, s)
  {
  }

  /* ---------------------------------------------------------------------------
     Hamming distance
     ------------------------------------------------------------------------ */

  /** Sum of the population counts of the word-wise XOR over the first `n` words. */
  function HammingWords(p: seq<Word>, q: seq<Word>, n: nat): nat
    requires n <= |p| && n <= |q|
  {
    if n == 0 then 0 else HammingWords(p, q, n - 1) + PopCount(Xor(p[n - 1], q[n - 1]))
  }

  /** The number of sites at which two allele sequences differ: the reference
      definition the word-wise distance is measured against. */
  function Mismatches(x: seq<bool>, y: seq<bool>): nat
    requires |x| == |y|
  {
    |set i | 0 <= i < |x| && x[i] != y[i]|
  }

  /** `HammingDist(const Haplotype &)`: over the shorter word array; for haplotypes of the
      same length it is the number of differing sites. */
  function HammingDist(a: Haplotype, b: Haplotype): (r: nat)
    requires Valid(a) && Valid(b)
    ensures a.numAlleles == b.numAlleles ==> r == Mismatches(Sites(a), Sites(b))
  {
    var n := if |a.words| <= |b.words| then |a.words| else |b.words|;
    if a.numAlleles == b.numAlleles then HammingIsMismatches(a, b); HammingWords(a.words, b.words, n)
    else HammingWords(a.words, b.words, n)
  }

  /** `HammingDist(const uint64_t *)`: against a raw word array, over this haplotype's words. */
  function HammingDistRaw(a: Haplotype, p: seq<Word>): (r: nat)
    requires Valid(a)
    requires |a.words| <= |p|
    ensures forall b :: Valid(b) && b.numAlleles == a.numAlleles && p[..|a.words|] == b.words ==>
              r == Mismatches(Sites(a), Sites(b))
  {
    var r := HammingWords(a.words, p, |a.words|);
    forall b | Valid(b) && b.numAlleles == a.numAlleles && p[..|a.words|] == b.words
      ensures r == Mismatches(Sites(a), Sites(b))
    {
      HammingWordsPrefix(a.words, p, b.words, |a.words|);
      HammingIsMismatches(a, b);
    }
    r
  }

  /** `HammingDist(const uint64_t *, const uint64_t *)`: two raw arrays compared over as many
      words as this haplotype has; it counts the differing bits of those words. */
  function HammingDistRawPair(a: Haplotype, p: seq<Word>, q: seq<Word>): (r: nat)
    requires Valid(a)
    requires |a.words| <= |p| && |a.words| <= |q|
    ensures r == CountBelow(WordDiffs(p, q), 64 * |a.words|)
  {
    HammingWordsIsDiffs(p, q, |a.words|);
    HammingWords(p, q, |a.words|)
  }

  /** Only the first `n` words are read. */
  lemma {:induction false} HammingWordsPrefix(p: seq<Word>, q: seq<Word>, q': seq<Word>, n: nat)
    requires n <= |p| && n <= |q| && n <= |q'|
    requires q[..n] == q'[..n]
    ensures HammingWords(p, q, n) == HammingWords(p, q', n)
  {
    if n > 0 {
      assert q[..n - 1] == q'[..n - 1] by {
        assert q[..n - 1] == q[..n][..n - 1];
        assert q'[..n - 1] == q'[..n][..n - 1];
      }
      assert q[n - 1] == q[..n][n - 1] == q'[..n][n - 1] == q'[n - 1];
      HammingWordsPrefix(p, q, q', n - 1);
    }
  }

  /** Bit number `i`, counted across words, differs between two word arrays (a bit past the
      end of an array counts as clear). */
  predicate BitDiffers(p: seq<Word>, q: seq<Word>, i: nat)
  {
    (i / 64 < |p| && WordsBit(p, i)) != (i / 64 < |q| && WordsBit(q, i))
  }

  /** `BitDiffers` as a predicate on bit numbers. */
  function WordDiffs(p: seq<Word>, q: seq<Word>): nat -> bool
  {
    (i: nat) => BitDiffers(p, q, i)
  }

  /** Word-wise population counts add up to the bit-by-bit difference count. */
  lemma {:induction false} HammingWordsIsDiffs(p: seq<Word>, q: seq<Word>, n: nat)
    requires n <= |p| && n <= |q|
    ensures HammingWords(p, q, n) == CountBelow(WordDiffs(p, q), 64 * n)
  {
    if n > 0 {
      HammingWordsIsDiffs(p, q, n - 1);
      WordBlockCount(p, q, n - 1);
    }
  }

  /** Counting the differences through word `m` adds that word's XOR population count. */
  lemma WordBlockCount(p: seq<Word>, q: seq<Word>, m: nat)
    requires m < |p| && m < |q|
    ensures CountBelow(WordDiffs(p, q), 64 * m + 64)
            == CountBelow(WordDiffs(p, q), 64 * m) + PopCount(Xor(p[m], q[m]))
  {
    WordBlock(p, q, m);
    WordBlockPrefix(p, q, m, 64);
    assert CountBelow(BitDiffs(p[m], q[m]), 64) == PopCount(Xor(p[m], q[m])) by {
      PopCountXor(p[m], q[m]);
    }
  }

  /** The first `k` bits of word `m` add their own difference count.  (The bound is a
      parameter so that the count below it is not unfolded bit by bit.) */
  lemma WordBlockPrefix(p: seq<Word>, q: seq<Word>, m: nat, k: nat)
    requires m < |p| && m < |q|
    requires forall j: nat :: j < k ==> WordDiffs(p, q)(64 * m + j) == BitDiffs(p[m], q[m])(j)
    ensures CountBelow(WordDiffs(p, q), 64 * m + k)
            == CountBelow(WordDiffs(p, q), 64 * m) + CountBelow(BitDiffs(p[m], q[m]), k)
  {
    CountShift(WordDiffs(p, q), BitDiffs(p[m], q[m]), 64 * m, k);
  }

  /** Bit `j` of word `m` is bit number `64m + j`. */
  lemma WordBlock(p: seq<Word>, q: seq<Word>, m: nat)
    requires m < |p| && m < |q|
    ensures forall j: nat :: j < 64 ==> WordDiffs(p, q)(64 * m + j) == BitDiffs(p[m], q[m])(j)
  {
    forall j: nat | j < 64
      ensures BitDiffers(p, q, 64 * m + j) == (Bit(p[m], j) != Bit(q[m], j))
    {
      BlockIndex(m, j);
    }
  }

  /** For two valid haplotypes of the same length the word-wise distance counts differing sites:
      the padding bits past the last site are clear in both. */
  lemma HammingIsMismatches(a: Haplotype, b: Haplotype)
    requires Valid(a) && Valid(b)
    requires a.numAlleles == b.numAlleles
    ensures HammingWords(a.words, b.words, |a.words|) == Mismatches(Sites(a), Sites(b))
  {
    var w := |a.words|;
    HammingWordsIsDiffs(a.words, b.words, w);
    CountIsCardinality(WordDiffs(a.words, b.words), 64 * w);
    var x, y := Sites(a), Sites(b);
    var lhs := set i: nat | i < 64 * w && WordDiffs(a.words, b.words)(i);
    var rhs := set i | 0 <= i < |x| && x[i] != y[i];
    forall i: nat | i < 64 * w
      ensures BitDiffers(a.words, b.words, i) == (i < |x| && x[i] != y[i])
    {
      if i < |x| {
        assert x[i] == WordsBit(a.words, i) && y[i] == WordsBit(b.words, i);
      }
    }
    assert lhs == rhs by {
      assert forall i :: i in rhs ==> i < 64 * w;
    }
  }

  /** Word-array distance of an array with itself is 0. */
  lemma {:induction false} HammingWordsSelf(p: seq<Word>, n: nat)
    requires n <= |p|
    ensures HammingWords(p, p, n) == 0
  {
    if n > 0 {
      HammingWordsSelf(p, n - 1);
      XorSelf(p[n - 1]);
    }
  }

  /** Word-array distance is symmetric. */
  lemma {:induction false} HammingWordsSymmetric(p: seq<Word>, q: seq<Word>, n: nat)
    requires n <= |p| && n <= |q|
    ensures HammingWords(p, q, n) == HammingWords(q, p, n)
  {
    if n > 0 {
      HammingWordsSymmetric(p, q, n - 1);
      XorCommutes(p[n - 1], q[n - 1]);
    }
  }

  /** A haplotype is at distance 0 from itself, and distance does not depend on the order. */
  lemma HammingDistSelfAndSymmetric(a: Haplotype, b: Haplotype)
    requires Valid(a) && Valid(b)
    ensures HammingDist(a, a) == 0
    ensures HammingDist(a, b) == HammingDist(b, a)
  {
    HammingWordsSelf(a.words, |a.words|);
    HammingWordsSymmetric(a.words, b.words, if |a.words| <= |b.words| then |a.words| else |b.words|);
  }

  /* ---------------------------------------------------------------------------
     Maximum shared tract length
     ------------------------------------------------------------------------ */

  /** Sites `i .. i+len-1` agree. */
  predicate Agrees(x: seq<bool>, y: seq<bool>, i: nat, len: nat)
    requires |x| == |y| && i + len <= |x|
  {
    forall k :: i <= k < i + len ==> x[k] == y[k]
  }

  /** `r` is the length of the longest run of agreeing sites. */
  ghost predicate IsLongestRun(x: seq<bool>, y: seq<bool>, r: nat)
    requires |x| == |y|
  {
    && r <= |x|
    && (exists i: nat :: i + r <= |x| && Agrees(x, y, i, r))
    && (forall i: nat, len: nat :: i + len <= |x| && Agrees(x, y, i, len) ==> len <= r)
  }

  /** Left-to-right scan: `cur` is the run of agreement ending at `k`, `best` the longest run
      seen so far (starting at `bestAt`); a mismatch resets `cur` to 0. */
  function TractScan(x: seq<bool>, y: seq<bool>, k: nat, cur: nat, best: nat, bestAt: nat): (r: nat)
    requires |x| == |y| && k <= |x|
    requires cur <= k && Agrees(x, y, k - cur, cur)
    requires cur < k ==> x[k - cur - 1] != y[k - cur - 1]
    requires cur <= best && bestAt + best <= k && Agrees(x, y, bestAt, best)
    requires forall i: nat, len: nat :: i + len <= k && Agrees(x, y, i, len) ==> len <= best
    ensures IsLongestRun(x, y, r)
    decreases |x| - k
  {
    if k == |x| then best
    else if x[k] == y[k] then
      ScanStepAgree(x, y, k, cur, best);
      if cur + 1 > best then TractScan(x, y, k + 1, cur + 1, cur + 1, k - cur)
      else TractScan(x, y, k + 1, cur + 1, best, bestAt)
    else
      ScanStepMismatch(x, y, k, best);
      TractScan(x, y, k + 1, 0, best, bestAt)
  }

  lemma ScanStepAgree(x: seq<bool>, y: seq<bool>, k: nat, cur: nat, best: nat)
    requires |x| == |y| && k < |x| && x[k] == y[k]
    requires cur <= k && Agrees(x, y, k - cur, cur)
    requires cur < k ==> x[k - cur - 1] != y[k - cur - 1]
    requires forall i: nat, len: nat :: i + len <= k && Agrees(x, y, i, len) ==> len <= best
    ensures Agrees(x, y, k - cur, cur + 1)
    ensures forall i: nat, len: nat :: i + len <= k + 1 && Agrees(x, y, i, len) ==> len <= best || len <= cur + 1
  {
    forall i: nat, len: nat | i + len <= k + 1 && Agrees(x, y, i, len)
      ensures len <= best || len <= cur + 1
    {
      if i + len == k + 1 && len > cur + 1 {
        assert false;
      } else if i + len <= k {
        assert Agrees(x, y, i, len);
      }
    }
  }

  lemma ScanStepMismatch(x: seq<bool>, y: seq<bool>, k: nat, best: nat)
    requires |x| == |y| && k < |x| && x[k] != y[k]
    requires forall i: nat, len: nat :: i + len <= k && Agrees(x, y, i, len) ==> len <= best
    ensures forall i: nat, len: nat :: i + len <= k + 1 && Agrees(x, y, i, len) ==> len <= best
  {
    forall i: nat, len: nat | i + len <= k + 1 && Agrees(x, y, i, len)
      ensures len <= best
    {
      if i + len == k + 1 && len > 0 {
        assert false;
      }
    }
  }

  /** `MaxTractLen(compHap)`: the longest stretch of consecutive sites on which the two
      haplotypes carry the same allele. */
  function MaxTractLen(a: Haplotype, b: Haplotype): (r: nat)
    requires Valid(a) && Valid(b)
    requires a.numAlleles == b.numAlleles
    ensures IsLongestRun(Sites(a), Sites(b), r)
  {
    TractScan(Sites(a), Sites(b), 0, 0, 0, 0)
  }

  /** At most one length is the longest run. */
  lemma LongestRunUnique(x: seq<bool>, y: seq<bool>, r1: nat, r2: nat)
    requires |x| == |y|
    requires IsLongestRun(x, y, r1) && IsLongestRun(x, y, r2)
    ensures r1 == r2
  {
    var i1: nat :| i1 + r1 <= |x| && Agrees(x, y, i1, r1);
    var i2: nat :| i2 + r2 <= |x| && Agrees(x, y, i2, r2);
  }

  lemma LongestRunSymmetric(x: seq<bool>, y: seq<bool>, r: nat)
    requires |x| == |y|
    requires IsLongestRun(x, y, r)
    ensures IsLongestRun(y, x, r)
  {
    var i: nat :| i + r <= |x| && Agrees(x, y, i, r);
    assert Agrees(y, x, i, r);
    forall j: nat, len: nat | j + len <= |x| && Agrees(y, x, j, len)
      ensures len <= r
    {
      assert Agrees(x, y, j, len);
    }
  }

  /** The tract length does not depend on which haplotype asks. */
  lemma MaxTractLenSymmetric(a: Haplotype, b: Haplotype)
    requires Valid(a) && Valid(b)
    requires a.numAlleles == b.numAlleles
    ensures MaxTractLen(a, b) == MaxTractLen(b, a)
  {
    LongestRunSymmetric(Sites(a), Sites(b), MaxTractLen(a, b));
    LongestRunUnique(Sites(b), Sites(a), MaxTractLen(a, b), MaxTractLen(b, a));
  }

  /** The whole haplotype is one shared tract exactly when no site differs. */
  lemma MaxTractLenFullIffIdentical(a: Haplotype, b: Haplotype)
    requires Valid(a) && Valid(b)
    requires a.numAlleles == b.numAlleles
    ensures MaxTractLen(a, b) == a.numAlleles <==> HammingDist(a, b) == 0
  {
    var x, y := Sites(a), Sites(b);
    var n := a.numAlleles;
    var d := set i | 0 <= i < |x| && x[i] != y[i];
    if MaxTractLen(a, b) == n {
      var i: nat :| i + n <= n && Agrees(x, y, i, n);
      assert d == {};
    } else {
      if d == {} {
        assert Agrees(x, y, 0, n) by {
          forall k | 0 <= k < n ensures x[k] == y[k] {
            assert k !in d;
          }
        }
        assert false;
      }
    }
  }

  /** A single differing site `s` splits the haplotypes into tracts of length `s` and `n-s-1`. */
  lemma OneMismatchTract(x: seq<bool>, y: seq<bool>, s: nat)
    requires |x| == |y| && s < |x|
    requires forall k :: 0 <= k < |x| ==> (x[k] != y[k] <==> k == s)
    ensures IsLongestRun(x, y, if s >= |x| - s - 1 then s else |x| - s - 1)
  {
    var n := |x|;
    var r := if s >= n - s - 1 then s else n - s - 1;
    if s >= n - s - 1 {
      assert Agrees(x, y, 0, s);
    } else {
      assert Agrees(x, y, s + 1, n - s - 1);
    }
    forall i: nat, len: nat | i + len <= n && Agrees(x, y, i, len)
      ensures len <= r
    {
      RunAvoidsMismatch(x, y, i, len, s);
    }
  }

  /** Two differing sites `s < t` leave three tracts: before `s`, between them, after `t`. */
  lemma TwoMismatchTract(x: seq<bool>, y: seq<bool>, s: nat, t: nat)
    requires |x| == |y| && s < t < |x|
    requires forall k :: 0 <= k < |x| ==> (x[k] != y[k] <==> k == s || k == t)
    ensures IsLongestRun(x, y, Max3(s, t - s - 1, |x| - t - 1))
  {
    var n := |x|;
    var r := Max3(s, t - s - 1, n - t - 1);
    if r == s {
      assert Agrees(x, y, 0, s);
    } else if r == t - s - 1 {
      assert Agrees(x, y, s + 1, t - s - 1);
    } else {
      assert Agrees(x, y, t + 1, n - t - 1);
    }
    forall i: nat, len: nat | i + len <= n && Agrees(x, y, i, len)
      ensures len <= r
    {
      RunAvoidsMismatch(x, y, i, len, s);
      RunAvoidsMismatch(x, y, i, len, t);
    }
  }

  /** An agreeing run cannot cover a differing site. */
  lemma RunAvoidsMismatch(x: seq<bool>, y: seq<bool>, i: nat, len: nat, s: nat)
    requires |x| == |y| && i + len <= |x| && Agrees(x, y, i, len)
    requires s < |x| && x[s] != y[s]
    ensures s < i || i + len <= s
  {
  }

  function Max3(a: nat, b: nat, c: nat): nat
  {
    if a >= b && a >= c then a else if b >= c then b else c
  }

  /* ---------------------------------------------------------------------------
     The word count as the constructor computes it: through `float`
     ------------------------------------------------------------------------ */

  /** `static_cast<float>(n)` for a natural number: IEEE-754 single precision keeps 24
      significant bits and rounds to nearest, ties to even. */
  function ToFloat(n: nat): nat
  {
    RoundToUlp(n, 1)
  }

  /** Rounds `n` to a multiple of `ulp`, doubling `ulp` until `n` has at most 24 significant bits
      at that spacing. */
  function RoundToUlp(n: nat, ulp: nat): nat
    requires ulp >= 1
    decreases n - ulp
  {
    if n < 0x100_0000 * ulp then
      var q := n / ulp;
      var rem := n % ulp;
      var up := 2 * rem > ulp || (2 * rem == ulp && q % 2 == 1);
      (if up then q + 1 else q) * ulp
    else RoundToUlp(n, 2 * ulp)
  }

  /** `ceil(float(n) / float(64))`: dividing a float by 64 is exact, so this is the
      ceiling of the rounded count over 64. */
  function NumWordsAsWritten(n: nat): nat
  {
    NumWords(ToFloat(n))
  }

  /** Below 2^24 sites every count is exact in `float`, so the constructor allocates
      ceil(n/64) words. */
  lemma NumWordsAsWrittenExactBelow2To24(n: nat)
    requires n <= 0x100_0000
    ensures NumWordsAsWritten(n) == NumWords(n)
  {
  }

  /** For 2^24 + 1 sites the count rounds down to 2^24, one word too few: site 2^24 is a
      valid site (it is below n) whose word `s >> 6` lies past the allocated words. */
  lemma NumWordsAsWrittenTooSmall()
    ensures var n := 0x100_0001;
            var s := 0x100_0000;
            s < n && NumWordsAsWritten(n) == 0x4_0000 && s / 64 >= NumWordsAsWritten(n)
  {
    assert RoundToUlp(0x100_0001, 1) == RoundToUlp(0x100_0001, 2);
  }

  /* ---------------------------------------------------------------------------
     The literal cases of the haplotype unit tests
     ------------------------------------------------------------------------ */

  /** A fresh haplotype carries allele 0 at every site. */
  lemma SitesOfFresh(n: nat)
    ensures Sites(Fresh(n)) == seq(n, _ => false)
  {
    forall i | 0 <= i < n
      ensures !Sites(Fresh(n))[i]
    {
      assert Sites(Fresh(n))[i] == TestSite(Fresh(n), i);
    }
  }

  /** `Set` replaces one element of the allele sequence. */
  lemma SitesOfSet(h: Haplotype, s: nat, b: bool)
    requires Valid(h) && s < h.numAlleles
    ensures Sites(Set(h, s, b)) == Sites(h)[s := b]
  {
    var r := Set(h, s, b);
    forall i | 0 <= i < h.numAlleles
      ensures Sites(r)[i] == Sites(h)[s := b][i]
    {
      assert Sites(r)[i] == TestSite(r, i);
      assert Sites(h)[i] == TestSite(h, i);
    }
  }

  /** Two allele sequences that differ exactly at the positions in `d` have `|d|` mismatches. */
  lemma MismatchesAt(x: seq<bool>, y: seq<bool>, d: set<int>)
    requires |x| == |y|
    requires forall i :: i in d ==> 0 <= i < |x|
    requires forall i :: 0 <= i < |x| ==> (x[i] != y[i] <==> i in d)
    ensures Mismatches(x, y) == |d|
  {
    assert (set i | 0 <= i < |x| && x[i] != y[i]) == d;
  }

  /** Changing one allele changes the mismatch count by at most one, as that site now
      agrees or disagrees. */
  lemma MismatchesUpdate(x: seq<bool>, y: seq<bool>, s: nat, b: bool)
    requires |x| == |y| && s < |x|
    ensures Mismatches(x[s := b], y)
            == Mismatches(x, y) - (if x[s] != y[s] then 1 else 0) + (if b != y[s] then 1 else 0)
  {
    var d := set i | 0 <= i < |x| && x[i] != y[i];
    var d' := set i | 0 <= i < |x| && x[s := b][i] != y[i];
    if x[s] != y[s] && b == y[s] {
      assert d' == d - {s};
    } else if x[s] == y[s] && b != y[s] {
      assert d' == d + {s};
    } else {
      assert d' == d;
    }
  }

  lemma MismatchesSymmetric(x: seq<bool>, y: seq<bool>)
    requires |x| == |y|
    ensures Mismatches(x, y) == Mismatches(y, x)
  {
    assert (set i | 0 <= i < |x| && x[i] != y[i]) == (set i | 0 <= i < |y| && y[i] != x[i]);
  }

  lemma MismatchesSelf(x: seq<bool>)
    ensures Mismatches(x, x) == 0
  {
    assert (set i | 0 <= i < |x| && x[i] != x[i]) == {};
  }

  /** Test `StoresOK`, four sites: fresh sites read 0; after setting sites 0 and 3 those read 1
      and site 2 reads 0; the distances are 2 and 0.  (Sites 4 and 128 are outside the
      precondition of `TestSite` and `Set`, the source's assertion.) */
  lemma StoresOkShort()
    ensures var simpleA := Fresh(4);
            var simpleB := Set(Set(Fresh(4), 0, true), 3, true);
            && (forall i :: 0 <= i < 4 ==> !TestSite(simpleA, i))
            && !(4 < simpleA.numAlleles) && !(128 < simpleA.numAlleles)
            && TestSite(simpleB, 0) && TestSite(simpleB, 3) && !TestSite(simpleB, 2)
            && HammingDist(simpleA, simpleB) == 2
            && HammingDist(simpleA, simpleA) == 0
  {
    var simpleA := Fresh(4);
    var simpleB := Set(Set(Fresh(4), 0, true), 3, true);
    MismatchesAt(Sites(simpleA), Sites(simpleB), {0, 3});
    HammingDistSelfAndSymmetric(simpleA, simpleA);
  }

  /** The two 128-site haplotypes of test `StoresOK`: sites 127 and 1 set, and nothing set. */
  lemma LongPair()
    ensures Sites(Set(Set(Fresh(128), 127, true), 1, true))
            == seq(128, _ => false)[127 := true][1 := true]
    ensures Sites(Fresh(128)) == seq(128, _ => false)
    ensures Sites(Set(Fresh(128), 120, true)) == seq(128, _ => false)[120 := true]
  {
    SitesOfFresh(128);
    SitesOfSet(Fresh(128), 127, true);
    SitesOfSet(Set(Fresh(128), 127, true), 1, true);
    SitesOfSet(Fresh(128), 120, true);
  }

  /** Test `StoresOK`, 128 sites: sites 127 and 1 set on one side give distance 2 both ways. */
  lemma StoresOkLong()
    ensures var longA := Set(Set(Fresh(128), 127, true), 1, true);
            var longB := Fresh(128);
            HammingDist(longA, longB) == 2 && HammingDist(longB, longA) == 2
  {
    var zeros := seq(128, _ => false);
    var longA := Set(Set(Fresh(128), 127, true), 1, true);
    var longB := Fresh(128);
    LongPair();
    MismatchesSelf(zeros);
    MismatchesUpdate(zeros, zeros, 127, true);
    MismatchesUpdate(zeros[127 := true], zeros, 1, true);
    HammingDistSelfAndSymmetric(longA, longB);
  }

  /** Test `StoresOK`, 128 sites: site 120 set on the other side makes the distance 3. */
  lemma StoresOkLongThird()
    ensures var longA := Set(Set(Fresh(128), 127, true), 1, true);
            var longB' := Set(Fresh(128), 120, true);
            HammingDist(longB', longA) == 3
  {
    var zeros := seq(128, _ => false);
    var a := zeros[127 := true][1 := true];
    LongPair();
    MismatchesSelf(zeros);
    MismatchesUpdate(zeros, zeros, 127, true);
    MismatchesUpdate(zeros[127 := true], zeros, 1, true);
    MismatchesSymmetric(a, zeros);
    MismatchesUpdate(zeros, a, 120, true);
  }

  /** Test `StoresOK`, raw read: site 1 of an array holding word 0 of the 128-site haplotype. */
  lemma StoresOkRaw()
    ensures var longA := Set(Set(Fresh(128), 127, true), 1, true);
            TestSiteRaw(1, [GetWord(longA, 0)]) == 1
  {
    var longA := Set(Set(Fresh(128), 127, true), 1, true);
    assert TestSite(longA, 1);
    BlockIndex(0, 1);
  }

  /** Test `tractLenOK`, four sites: 4 against itself, 2 with sites 0 and 3 set. */
  lemma TractLenOkShort()
    ensures var simpleA := Fresh(4);
            var simpleB := Set(Set(Fresh(4), 0, true), 3, true);
            MaxTractLen(simpleA, simpleA) == 4 && MaxTractLen(simpleA, simpleB) == 2
  {
    var simpleA := Fresh(4);
    var simpleB := Set(Set(Fresh(4), 0, true), 3, true);
    SelfTract(simpleA);
    TwoMismatchTract(Sites(simpleA), Sites(simpleB), 0, 3);
    LongestRunUnique(Sites(simpleA), Sites(simpleB), MaxTractLen(simpleA, simpleB), 2);
  }

  /** Test `tractLenOK`, 1024 sites: 1024 against itself; a mismatch at 23 gives 1000 either
      way round; adding one at 1023 gives 999. */
  lemma TractLenOkLong()
    ensures var simpleC := Fresh(1024);
            var simpleD := Set(Fresh(1024), 23, true);
            var simpleD' := Set(simpleD, 1023, true);
            && MaxTractLen(simpleC, simpleC) == 1024
            && MaxTractLen(simpleC, simpleD) == 1000
            && MaxTractLen(simpleD, simpleC) == 1000
            && MaxTractLen(simpleD', simpleC) == 999
  {
    var zeros := seq(1024, _ => false);
    var simpleC := Fresh(1024);
    var simpleD := Set(Fresh(1024), 23, true);
    var simpleD' := Set(simpleD, 1023, true);
    SitesOfFresh(1024);
    SitesOfSet(simpleC, 23, true);
    SitesOfSet(simpleD, 1023, true);
    assert Sites(simpleD) == zeros[23 := true];
    assert Sites(simpleD') == zeros[23 := true][1023 := true];
    SelfTract(simpleC);
    OneMismatchTract(Sites(simpleC), Sites(simpleD), 23);
    LongestRunUnique(Sites(simpleC), Sites(simpleD), MaxTractLen(simpleC, simpleD), 1000);
    MaxTractLenSymmetric(simpleC, simpleD);
    TwoMismatchTract(Sites(simpleD'), Sites(simpleC), 23, 1023);
    LongestRunUnique(Sites(simpleD'), Sites(simpleC), MaxTractLen(simpleD', simpleC), 999);
  }

  /** A haplotype shares one tract of full length with itself. */
  lemma SelfTract(a: Haplotype)
    requires Valid(a)
    ensures MaxTractLen(a, a) == a.numAlleles
  {
    assert Agrees(Sites(a), Sites(a), 0, a.numAlleles);
    assert IsLongestRun(Sites(a), Sites(a), a.numAlleles);
    LongestRunUnique(Sites(a), Sites(a), MaxTractLen(a, a), a.numAlleles);
  }
}
