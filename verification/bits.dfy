/** 64-bit words and the bitwise operators the haplotype store uses on them.
    A `uint64_t` is a natural number below 2^64.  Bit `k` (0 = least significant) is the
    `k`-th binary digit; `>>`, `^`, `|` and `& ~` are defined digit by digit, so every fact
    about them is proved by induction on the bit number. */
module Bits {
  import opened Counting

  /** A `uint64_t`: a natural number below 2^64. */
  type Word = w: nat | w < 0x1_0000_0000_0000_0000

  function Pow2(k: nat): (r: nat)
    ensures r >= 1
  {
    if k == 0 then 1 else 2 * Pow2(k - 1)
  }

  lemma {:induction false} Pow2Monotone(j: nat, k: nat)
    requires j <= k
    ensures Pow2(j) <= Pow2(k)
  {
    if j < k {
      Pow2Monotone(j, k - 1);
    }
  }

  /** `Pow2(j + k) == Pow2(j) * Pow2(k)`. */
  lemma {:induction false} Pow2Add(j: nat, k: nat)
    ensures Pow2(j + k) == Pow2(j) * Pow2(k)
  {
    if j > 0 {
      Pow2Add(j - 1, k);
    }
  }

  /** The bound of a `Word` is `Pow2(64)`. */
  lemma Pow2Word()
    ensures Pow2(64) == 0x1_0000_0000_0000_0000
  {
    assert Pow2(4) == 0x10;
    Pow2Add(4, 4);
    assert Pow2(8) == 0x100;
    Pow2Add(8, 8);
    assert Pow2(16) == 0x1_0000;
    Pow2Add(16, 16);
    assert Pow2(32) == 0x1_0000_0000;
    Pow2Add(32, 32);
  }

  /** Bit `k` of `w`. */
  predicate Bit(w: nat, k: nat)
  {
    if k == 0 then w % 2 == 1 else Bit(w / 2, k - 1)
  }

  /** `2h + c` has low digit `c` and the rest `h`. */
  lemma Digits(h: nat, c: nat)
    requires c < 2
    ensures (2 * h + c) % 2 == c && (2 * h + c) / 2 == h
  {
  }

  /** `w >> k`: `k` halvings. */
  function ShiftRight(w: nat, k: nat): (r: nat)
    ensures r <= w
  {
    if k == 0 then w else ShiftRight(w / 2, k - 1)
  }

  /** `(w >> k) & 1`: the word 1 when bit `k` is set, else 0. */
  function ShiftTest(w: nat, k: nat): (r: nat)
    ensures r == 0 || r == 1
    ensures r == 1 <==> Bit(w, k)
  {
    ShiftTestIsBit(w, k);
    ShiftRight(w, k) % 2
  }

  lemma {:induction false} ShiftTestIsBit(w: nat, k: nat)
    ensures ShiftRight(w, k) % 2 == 1 <==> Bit(w, k)
  {
    if k > 0 {
      ShiftTestIsBit(w / 2, k - 1);
    }
  }

  /** Bitwise exclusive or, `a ^ b`. */
  function Xor(a: nat, b: nat): nat
    decreases a + b
  {
    if a == 0 && b == 0 then 0 else 2 * Xor(a / 2, b / 2) + (if a % 2 != b % 2 then 1 else 0)
  }

  /** Bitwise or, `a | b`. */
  function Or(a: nat, b: nat): nat
    decreases a + b
  {
    if a == 0 && b == 0 then 0 else 2 * Or(a / 2, b / 2) + (if a % 2 == 1 || b % 2 == 1 then 1 else 0)
  }

  /** `a & ~b`: the bits of `a` that are clear in `b`. */
  function AndNot(a: nat, b: nat): nat
    decreases a
  {
    if a == 0 then 0 else 2 * AndNot(a / 2, b / 2) + (if a % 2 == 1 && b % 2 == 0 then 1 else 0)
  }

  /** Bit `k` of an exclusive or is set exactly where the operands differ. */
  lemma {:induction false} XorBit(a: nat, b: nat, k: nat)
    ensures Bit(Xor(a, b), k) == (Bit(a, k) != Bit(b, k))
  {
    if a == 0 && b == 0 {
      ZeroHasNoBit(k);
    } else {
      Digits(Xor(a / 2, b / 2), if a % 2 != b % 2 then 1 else 0);
      if k > 0 {
        XorBit(a / 2, b / 2, k - 1);
      }
    }
  }

  lemma {:induction false} OrBit(a: nat, b: nat, k: nat)
    ensures Bit(Or(a, b), k) == (Bit(a, k) || Bit(b, k))
  {
    if a == 0 && b == 0 {
      ZeroHasNoBit(k);
    } else {
      Digits(Or(a / 2, b / 2), if a % 2 == 1 || b % 2 == 1 then 1 else 0);
      if k > 0 {
        OrBit(a / 2, b / 2, k - 1);
      }
    }
  }

  lemma {:induction false} AndNotBit(a: nat, b: nat, k: nat)
    ensures Bit(AndNot(a, b), k) == (Bit(a, k) && !Bit(b, k))
  {
    if a == 0 {
      ZeroHasNoBit(k);
    } else {
      Digits(AndNot(a / 2, b / 2), if a % 2 == 1 && b % 2 == 0 then 1 else 0);
      if k > 0 {
        AndNotBit(a / 2, b / 2, k - 1);
      }
    }
  }

  /** The zero word has no bit set. */
  lemma {:induction false} ZeroHasNoBit(k: nat)
    ensures !Bit(0, k)
  {
    if k > 0 {
      ZeroHasNoBit(k - 1);
    }
  }

  lemma {:induction false} XorBound(a: nat, b: nat, n: nat)
    requires a < Pow2(n) && b < Pow2(n)
    ensures Xor(a, b) < Pow2(n)
  {
    if n > 0 && !(a == 0 && b == 0) {
      XorBound(a / 2, b / 2, n - 1);
    }
  }

  lemma {:induction false} OrBound(a: nat, b: nat, n: nat)
    requires a < Pow2(n) && b < Pow2(n)
    ensures Or(a, b) < Pow2(n)
  {
    if n > 0 && !(a == 0 && b == 0) {
      OrBound(a / 2, b / 2, n - 1);
    }
  }

  lemma {:induction false} AndNotBound(a: nat, b: nat)
    ensures AndNot(a, b) <= a
  {
    if a != 0 {
      AndNotBound(a / 2, b / 2);
    }
  }

  /** `a ^ a == 0`. */
  lemma {:induction false} XorSelf(a: nat)
    ensures Xor(a, a) == 0
  {
    if a != 0 {
      XorSelf(a / 2);
    }
  }

  /** `a ^ b == b ^ a`. */
  lemma {:induction false} XorCommutes(a: nat, b: nat)
    ensures Xor(a, b) == Xor(b, a)
    decreases a + b
  {
    if !(a == 0 && b == 0) {
      XorCommutes(a / 2, b / 2);
    }
  }

  /** The word with only bit `k` set, `static_cast<uint64_t>(1) << k`. */
  function Mask(k: nat): (r: Word)
    requires k < 64
    ensures forall j: nat :: Bit(r, j) == (j == k)
  {
    Pow2Monotone(k + 1, 64);
    Pow2Word();
    forall j: nat
      ensures Bit(Pow2(k), j) == (j == k)
    {
      PowBit(Pow2(k), j, k);
    }
    Pow2(k)
  }

  lemma {:induction false} PowBit(p: nat, j: nat, k: nat)
    requires p == Pow2(k)
    ensures Bit(p, j) == (j == k)
  {
    if k > 0 {
      Digits(Pow2(k - 1), 0);
      if j > 0 {
        PowBit(Pow2(k - 1), j - 1, k - 1);
      }
    } else if j > 0 {
      ZeroHasNoBit(j - 1);
    }
  }

  /** `w` with bit `k` forced to `b` (`w | 1 << k` or `w & ~(1 << k)`), the rest untouched. */
  function WithBit(w: Word, k: nat, b: bool): (r: Word)
    requires k < 64
    ensures Bit(r, k) == b
    ensures forall j: nat :: j != k ==> Bit(r, j) == Bit(w, j)
  {
    var m := Mask(k);
    Pow2Word();
    OrBound(w, m, 64);
    AndNotBound(w, m);
    var r := if b then Or(w, m) else AndNot(w, m);
    forall j: nat
      ensures Bit(r, j) == if j == k then b else Bit(w, j)
    {
      if b {
        OrBit(w, m, j);
      } else {
        AndNotBit(w, m, j);
      }
    }
    r
  }

  /** Population count: the number of set bits, one binary digit at a time. */
  function PopCount(w: nat): nat
  {
    if w == 0 then 0 else PopCount(w / 2) + w % 2
  }

  /** The bit numbers at which a number has a set bit. */
  function BitsOf(w: nat): nat -> bool
  {
    (k: nat) => Bit(w, k)
  }

  /** The bit numbers below 64 at which two words differ. */
  function BitDiffs(x: nat, y: nat): nat -> bool
  {
    (k: nat) => k < 64 && Bit(x, k) != Bit(y, k)
  }

  /** A number below 2^n has as many set bits as there are bit numbers below `n` where it has one. */
  lemma {:induction false} PopCountCountsBits(w: nat, n: nat)
    requires w < Pow2(n)
    ensures PopCount(w) == CountBelow(BitsOf(w), n)
  {
    if n == 0 {
    } else {
      PopCountCountsBits(w / 2, n - 1);
      forall j: nat | j < n - 1
        ensures BitsOf(w)(1 + j) == BitsOf(w / 2)(j)
      {
      }
      CountShift(BitsOf(w), BitsOf(w / 2), 1, n - 1);
      if w == 0 {
        ZeroHasNoBit(0);
      }
    }
  }

  /** The population count of `x ^ y` is the number of bit numbers below 64 where the words differ. */
  lemma PopCountXor(x: Word, y: Word)
    ensures PopCount(Xor(x, y)) == CountBelow(BitDiffs(x, y), 64)
  {
    Pow2Word();
    XorBound(x, y, 64);
    PopCountCountsBits(Xor(x, y), 64);
    forall k: nat | k < 64
      ensures BitsOf(Xor(x, y))(k) == BitDiffs(x, y)(k)
    {
      XorBit(x, y, k);
    }
    CountCongruent(BitsOf(Xor(x, y)), BitDiffs(x, y), 64);
  }
}
