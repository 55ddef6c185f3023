/**
  32-bit machine words as bounded integers, with the C operators the drivers use.
  Every operator is defined by the bits of its result, for all bit positions, so that a
  statement about a register can be proved position by position and then lifted to an equation
  between words (`WordExtensionality`) or to arithmetic (`Computed`, `Shifted`, `LowBits`,
  `DisjointOr`).
*/
module Words {

  const WORD_LIMIT: nat := 0x1_0000_0000
  const ALL_ONES: nat := 0xFFFF_FFFF

  type u32 = x: int | 0 <= x < 0x1_0000_0000
  type u8 = x: int | 0 <= x < 0x100

  function Pow2(k: nat): (p: nat)
    ensures p >= 1
  {
    if k == 0 then 1 else 2 * Pow2(k - 1)
  }

  /** Conversion to uint32_t: C reduces modulo 2^32, also for negative values. */
  function ToU32(x: int): u32 {
    if 0 <= x < 0x1_0000_0000 then x else x % 0x1_0000_0000
  }

  /** Bit `i` of `x`. */
  predicate Bit(x: nat, i: nat)
    decreases i
  {
    if i == 0 then x % 2 == 1 else Bit(x / 2, i - 1)
  }

  // ----- the operators of C on uint32_t -----

  /** `x & y`: the word of the common bits. */
  function And(x: u32, y: u32): (r: u32)
    ensures r <= x && r <= y
  {
    AndDefined(x, y);
    var r: u32 :| CommonBits(r, x, y);
    r
  }

  /** `x | y`: the word of the bits of either. */
  function Or(x: u32, y: u32): (r: u32)
    ensures x <= r && y <= r <= x + y
  {
    OrDefined(x, y);
    var r: u32 :| JointBits(r, x, y);
    r
  }

  predicate CommonBits(r: u32, x: u32, y: u32) {
    forall i: nat | i < 32 :: Bit(r, i) <==> Bit(x, i) && Bit(y, i)
  }

  predicate JointBits(r: u32, x: u32, y: u32) {
    forall i: nat | i < 32 :: Bit(r, i) <==> Bit(x, i) || Bit(y, i)
  }

  function Not(x: u32): u32 {
    0xFFFF_FFFF - x
  }

  /** `x >> k`: every bit k positions lower (`Shifted`: the quotient by 2^k). */
  function Shr(x: u32, k: nat): (r: u32)
    ensures r <= x
  {
    ShrDefined(x, k);
    var r: u32 :| LoweredBits(r, x, k);
    r
  }

  /** `x << k`: every bit k positions higher, without those beyond position 31 (`Shifted`: the
      product by 2^k, reduced to a word). */
  function Shl(x: u32, k: nat): u32 {
    ShlDefined(x, k);
    var r: u32 :| RaisedBits(r, x, k);
    r
  }

  predicate LoweredBits(r: u32, x: u32, k: nat) {
    forall i: nat | i < 32 :: Bit(r, i) <==> Bit(x, i + k)
  }

  predicate RaisedBits(r: u32, x: u32, k: nat) {
    forall i: nat | i < 32 :: Bit(r, i) <==> k <= i && Bit(x, i - k)
  }

  // ----- the same operators by halving, on naturals: these compute -----

  function AndNat(x: nat, y: nat): (r: nat)
    ensures r <= x && r <= y
    decreases x
  {
    if x == 0 then 0
    else 2 * AndNat(x / 2, y / 2) + if x % 2 == 1 && y % 2 == 1 then 1 else 0
  }

  function OrNat(x: nat, y: nat): (r: nat)
    ensures x <= r && y <= r <= x + y
    decreases x + y
  {
    if x == 0 && y == 0 then 0
    else 2 * OrNat(x / 2, y / 2) + if x % 2 == 1 || y % 2 == 1 then 1 else 0
  }

  // ----- moving a number by k positions, one position at a time -----

  function Halved(x: nat, k: nat): (r: nat)
    ensures r <= x
    decreases k
  {
    if k == 0 then x else Halved(x / 2, k - 1)
  }

  function Doubled(x: nat, k: nat): (r: nat)
    ensures r >= x
    decreases k
  {
    if k == 0 then x else 2 * Doubled(x, k - 1)
  }

  /** The k lowest bits of x: the remainder modulo 2^k (`HalvedValue`). */
  function LowPart(x: nat, k: nat): (r: nat)
    ensures r <= x
    decreases k
  {
    if k == 0 then 0 else 2 * LowPart(x / 2, k - 1) + x % 2
  }

  lemma {:induction false} DoubledValue(x: nat, k: nat)
    ensures Doubled(x, k) == x * Pow2(k)
  {
    if k > 0 {
      DoubledValue(x, k - 1);
      MulAssociates(2, x, Pow2(k - 1));
    }
  }

  lemma {:induction false} LowPartBound(x: nat, k: nat)
    ensures LowPart(x, k) < Pow2(k)
    decreases k
  {
    if k > 0 {
      LowPartBound(x / 2, k - 1);
    }
  }

  lemma {:induction false} Recompose(x: nat, k: nat)
    ensures x == Doubled(Halved(x, k), k) + LowPart(x, k)
    decreases k
  {
    if k > 0 {
      Recompose(x / 2, k - 1);
    }
  }

  lemma {:induction false} DoubledTwice(x: nat, j: nat, k: nat)
    ensures Doubled(Doubled(x, j), k) == Doubled(x, j + k)
    decreases k
  {
    if k > 0 {
      DoubledTwice(x, j, k - 1);
    }
  }

  lemma {:induction false} DoubledSum(x: nat, y: nat, k: nat)
    ensures Doubled(x + y, k) == Doubled(x, k) + Doubled(y, k)
  {
    if k > 0 {
      DoubledSum(x, y, k - 1);
    }
  }

  /** A number put together from its parts at position k is taken apart there again. */
  lemma {:induction false} SplitSum(x: nat, y: nat, k: nat)
    requires y < Pow2(k)
    ensures Halved(Doubled(x, k) + y, k) == x
    ensures LowPart(Doubled(x, k) + y, k) == y
  {
    if k > 0 {
      SplitSum(x, y / 2, k - 1);
    }
  }

  lemma {:induction false} SmallLowPart(x: nat, k: nat)
    requires x < Pow2(k)
    ensures LowPart(x, k) == x
    decreases k
  {
    if k > 0 {
      SmallLowPart(x / 2, k - 1);
    }
  }

  lemma {:induction false} HalvedValue(x: nat, k: nat)
    ensures Halved(x, k) == x / Pow2(k)
    ensures LowPart(x, k) == x % Pow2(k)
  {
    Recompose(x, k);
    LowPartBound(x, k);
    DoubledValue(Halved(x, k), k);
    QuotientRemainder(x, Pow2(k), Halved(x, k), LowPart(x, k));
  }

  // ----- arithmetic of powers of two -----

  lemma PowersOfTwo()
    ensures Pow2(0) == 1 && Pow2(1) == 2 && Pow2(2) == 4 && Pow2(3) == 8
    ensures Pow2(4) == 16 && Pow2(5) == 32 && Pow2(6) == 64 && Pow2(7) == 128
    ensures Pow2(8) == 0x100 && Pow2(16) == 0x1_0000 && Pow2(24) == 0x100_0000
    ensures Pow2(32) == WORD_LIMIT
  {
    assert Pow2(8) == 0x100;
    assert Pow2(16) == 0x1_0000;
    assert Pow2(24) == 0x100_0000;
  }

  lemma MulAssociates(a: int, b: int, c: int)
    ensures a * (b * c) == (a * b) * c == b * (a * c)
  {
  }

  lemma {:induction false} Pow2Add(j: nat, k: nat)
    ensures Pow2(j + k) == Pow2(j) * Pow2(k)
    decreases j
  {
    if j > 0 {
      Pow2Add(j - 1, k);
      MulAssociates(2, Pow2(j - 1), Pow2(k));
    }
  }

  lemma {:induction false} Pow2Monotone(j: nat, k: nat)
    requires j <= k
    ensures Pow2(j) <= Pow2(k)
  {
    if j < k {
      Pow2Monotone(j, k - 1);
    }
  }

  lemma MulGrows(k: int, d: int)
    requires k >= 1 && d >= 0
    ensures k * d >= d
  {
  }

  /** Uniqueness of quotient and remainder. */
  lemma QuotientRemainder(x: int, d: int, q: int, r: int)
    requires d > 0 && 0 <= r < d && x == q * d + r
    ensures x / d == q && x % d == r
  {
    var q', r' := x / d, x % d;
    assert x == q' * d + r';
    assert (q - q') * d == q * d - q' * d == r' - r;
    if q > q' {
      MulGrows(q - q', d);
    } else if q < q' {
      MulGrows(q' - q, d);
    }
  }

  lemma {:induction false} OrBound(x: nat, y: nat, k: nat)
    requires x < Pow2(k) && y < Pow2(k)
    ensures OrNat(x, y) < Pow2(k)
    decreases k
  {
    if k > 0 && (x != 0 || y != 0) {
      OrBound(x / 2, y / 2, k - 1);
    }
  }

  // ----- the bits of each operator -----

  lemma {:induction false} AndNatBit(x: nat, y: nat, i: nat)
    ensures Bit(AndNat(x, y), i) <==> Bit(x, i) && Bit(y, i)
    decreases i
  {
    if x == 0 {
      ZeroBit(i);
    } else if i > 0 {
      AndNatBit(x / 2, y / 2, i - 1);
      assert AndNat(x, y) / 2 == AndNat(x / 2, y / 2);
    }
  }

  lemma {:induction false} ZeroBit(i: nat)
    ensures !Bit(0, i)
  {
    if i > 0 {
      ZeroBit(i - 1);
    }
  }

  lemma {:induction false} OrNatBit(x: nat, y: nat, i: nat)
    ensures Bit(OrNat(x, y), i) <==> Bit(x, i) || Bit(y, i)
    decreases i
  {
    hide OrNat;
    OrNatHalves(x, y);
    if i > 0 {
      if x == 0 && y == 0 {
        ZeroBit(i);
      } else {
        OrNatBit(x / 2, y / 2, i - 1);
      }
    }
  }

  lemma OrNatHalves(x: nat, y: nat)
    ensures OrNat(x, y) / 2 == OrNat(x / 2, y / 2)
    ensures OrNat(x, y) % 2 == 1 <==> x % 2 == 1 || y % 2 == 1
  {
  }

  lemma {:induction false} ComplementBit(x: nat, k: nat, i: nat)
    requires x < Pow2(k) && i < k
    ensures Bit(Pow2(k) - 1 - x, i) <==> !Bit(x, i)
    decreases k
  {
    var p, half := Pow2(k - 1), x / 2;
    assert Pow2(k) - 1 - x == 2 * (p - 1 - half) + (1 - x % 2);
    if i > 0 {
      ComplementBit(half, k - 1, i - 1);
    }
  }

  lemma {:induction false} HalvedBit(x: nat, k: nat, i: nat)
    ensures Bit(Halved(x, k), i) <==> Bit(x, i + k)
    decreases k
  {
    if k > 0 {
      HalvedBit(x / 2, k - 1, i);
    }
  }

  lemma {:induction false} DoubledBit(x: nat, k: nat, i: nat)
    ensures Bit(Doubled(x, k), i) <==> k <= i && Bit(x, i - k)
    decreases k
  {
    if k > 0 && i > 0 {
      DoubledBit(x, k - 1, i - 1);
    }
  }

  lemma {:induction false} LowPartBit(x: nat, k: nat, i: nat)
    ensures Bit(LowPart(x, k), i) <==> i < k && Bit(x, i)
    decreases k
  {
    if k == 0 {
      ZeroBit(i);
    } else if i > 0 {
      LowPartBit(x / 2, k - 1, i - 1);
    }
  }

  /** A number below 2^k has no bit at or above k. */
  lemma {:induction false} HighBit(x: nat, k: nat, i: nat)
    requires x < Pow2(k) && k <= i
    ensures !Bit(x, i)
    decreases k
  {
    if k == 0 {
      ZeroBit(i);
    } else {
      HighBit(x / 2, k - 1, i - 1);
    }
  }

  /** Numbers are determined by their bits. */
  lemma {:induction false} BitExtensionality(x: nat, y: nat)
    requires forall i: nat :: Bit(x, i) <==> Bit(y, i)
    ensures x == y
    decreases x + y
  {
    if x != 0 || y != 0 {
      forall i: nat
        ensures Bit(x / 2, i) <==> Bit(y / 2, i)
      {
        assert Bit(x, i + 1) <==> Bit(y, i + 1);
      }
      BitExtensionality(x / 2, y / 2);
      assert Bit(x, 0) <==> Bit(y, 0);
    }
  }

  /** Words are determined by their 32 bits. */
  lemma WordExtensionality(x: u32, y: u32)
    requires forall i: nat | i < 32 :: Bit(x, i) <==> Bit(y, i)
    ensures x == y
  {
    PowersOfTwo();
    forall i: nat
      ensures Bit(x, i) <==> Bit(y, i)
    {
      if i >= 32 {
        HighBit(x, 32, i);
        HighBit(y, 32, i);
      }
    }
    BitExtensionality(x, y);
  }

  /** The word of the common bits exists, is unique and is what halving computes. */
  lemma AndDefined(x: u32, y: u32)
    ensures CommonBits(AndNat(x, y), x, y)
    ensures forall r: u32, s: u32 :: CommonBits(r, x, y) && CommonBits(s, x, y) ==> r == s
  {
    forall i: nat | i < 32
      ensures Bit(AndNat(x, y), i) <==> Bit(x, i) && Bit(y, i)
    {
      AndNatBit(x, y, i);
    }
    forall r: u32, s: u32 | CommonBits(r, x, y) && CommonBits(s, x, y)
      ensures r == s
    {
      WordExtensionality(r, s);
    }
  }

  lemma OrDefined(x: u32, y: u32)
    ensures OrNat(x, y) < WORD_LIMIT && JointBits(OrNat(x, y), x, y)
    ensures forall r: u32, s: u32 :: JointBits(r, x, y) && JointBits(s, x, y) ==> r == s
  {
    PowersOfTwo();
    OrBound(x, y, 32);
    forall i: nat | i < 32
      ensures Bit(OrNat(x, y), i) <==> Bit(x, i) || Bit(y, i)
    {
      OrNatBit(x, y, i);
    }
    forall r: u32, s: u32 | JointBits(r, x, y) && JointBits(s, x, y)
      ensures r == s
    {
      WordExtensionality(r, s);
    }
  }

  lemma ShrDefined(x: u32, k: nat)
    ensures LoweredBits(Halved(x, k), x, k)
    ensures forall r: u32, s: u32 :: LoweredBits(r, x, k) && LoweredBits(s, x, k) ==> r == s
  {
    forall i: nat | i < 32
      ensures Bit(Halved(x, k), i) <==> Bit(x, i + k)
    {
      HalvedBit(x, k, i);
    }
    forall r: u32, s: u32 | LoweredBits(r, x, k) && LoweredBits(s, x, k)
      ensures r == s
    {
      WordExtensionality(r, s);
    }
  }

  lemma Truncated(x: nat)
    ensures ToU32(x) == LowPart(x, 32)
  {
    hide Halved, Doubled, LowPart, Pow2;
    var high, low := Halved(x, 32), LowPart(x, 32);
    assert 0 <= low < 0x1_0000_0000 && x == high * 0x1_0000_0000 + low by {
      PowersOfTwo();
      Recompose(x, 32);
      LowPartBound(x, 32);
      DoubledValue(high, 32);
    }
    hide *;
    ReducedWord(x, high, low);
  }

  lemma ReducedWord(x: nat, high: nat, low: nat)
    requires low < 0x1_0000_0000 && x == high * 0x1_0000_0000 + low
    ensures ToU32(x) == low
  {
  }

  lemma ShlDefined(x: u32, k: nat)
    ensures RaisedBits(ToU32(Doubled(x, k)), x, k)
    ensures forall r: u32, s: u32 :: RaisedBits(r, x, k) && RaisedBits(s, x, k) ==> r == s
  {
    hide Doubled, LowPart, Bit, ToU32;
    Truncated(Doubled(x, k));
    forall i: nat | i < 32
      ensures Bit(ToU32(Doubled(x, k)), i) <==> k <= i && Bit(x, i - k)
    {
      DoubledBit(x, k, i);
      LowPartBit(Doubled(x, k), 32, i);
    }
    forall r: u32, s: u32 | RaisedBits(r, x, k) && RaisedBits(s, x, k)
      ensures r == s
    {
      WordExtensionality(r, s);
    }
  }

  /** The shifts are the quotient by 2^k and the product by 2^k in word arithmetic. */
  lemma Shifted(x: u32, k: nat)
    ensures Shr(x, k) == Halved(x, k)
    ensures Shl(x, k) == ToU32(Doubled(x, k))
  {
    ShrDefined(x, k);
    ShlDefined(x, k);
  }

  lemma Computed(x: u32, y: u32)
    ensures And(x, y) == AndNat(x, y)
    ensures OrNat(x, y) < WORD_LIMIT && Or(x, y) == OrNat(x, y)
  {
    AndDefined(x, y);
    OrDefined(x, y);
  }

  /** The bits of every C operator on words, for all arguments and all positions. */
  lemma WordBits()
    ensures forall x: u32, y: u32, i: nat {:trigger Bit(And(x, y), i)} ::
              Bit(And(x, y), i) <==> Bit(x, i) && Bit(y, i)
    ensures forall x: u32, y: u32, i: nat {:trigger Bit(Or(x, y), i)} ::
              Bit(Or(x, y), i) <==> Bit(x, i) || Bit(y, i)
    ensures forall x: u32, i: nat {:trigger Bit(Not(x), i)} ::
              Bit(Not(x), i) <==> i < 32 && !Bit(x, i)
    ensures forall x: u32, k: nat, i: nat {:trigger Bit(Shr(x, k), i)} ::
              Bit(Shr(x, k), i) <==> Bit(x, i + k)
    ensures forall x: u32, k: nat, i: nat {:trigger Bit(Shl(x, k), i)} ::
              Bit(Shl(x, k), i) <==> k <= i < 32 && Bit(x, i - k)
    ensures forall x: u32, i: nat {:trigger Bit(x, i)} :: i >= 32 ==> !Bit(x, i)
  {
    PowersOfTwo();
    forall x: u32, y: u32, i: nat
      ensures Bit(And(x, y), i) <==> Bit(x, i) && Bit(y, i)
      ensures Bit(Or(x, y), i) <==> Bit(x, i) || Bit(y, i)
    {
      if i < 32 {
        assert CommonBits(And(x, y), x, y) && JointBits(Or(x, y), x, y);
      } else {
        HighBit(x, 32, i);
        HighBit(y, 32, i);
        HighBit(And(x, y), 32, i);
        HighBit(Or(x, y), 32, i);
      }
    }
    forall x: u32, i: nat
      ensures Bit(Not(x), i) <==> i < 32 && !Bit(x, i)
      ensures i >= 32 ==> !Bit(x, i)
    {
      if i < 32 {
        ComplementBit(x, 32, i);
      } else {
        HighBit(x, 32, i);
        HighBit(Not(x), 32, i);
      }
    }
    forall x: u32, k: nat, i: nat
      ensures Bit(Shr(x, k), i) <==> Bit(x, i + k)
      ensures Bit(Shl(x, k), i) <==> k <= i < 32 && Bit(x, i - k)
    {
      if i < 32 {
        assert LoweredBits(Shr(x, k), x, k) && RaisedBits(Shl(x, k), x, k);
      } else {
        HighBit(x, 32, i + k);
        HighBit(Shr(x, k), 32, i);
        HighBit(Shl(x, k), 32, i);
      }
    }
  }

  lemma {:induction false} OneBit(i: nat)
    ensures Bit(1, i) <==> i == 0
  {
    if i > 0 {
      ZeroBit(i - 1);
    }
  }

  lemma {:induction false} OnesBit(k: nat, i: nat)
    ensures Bit(Pow2(k) - 1, i) <==> i < k
    decreases k
  {
    if k == 0 {
      ZeroBit(i);
    } else if i > 0 {
      OnesBit(k - 1, i - 1);
      assert (Pow2(k) - 1) / 2 == Pow2(k - 1) - 1;
    }
  }

  lemma AllOnesBit(i: nat)
    ensures Bit(0xFFFF_FFFF, i) <==> i < 32
  {
    PowersOfTwo();
    OnesBit(32, i);
  }

  // ----- from bits back to arithmetic -----

  /** Masking with 2^k - 1 is reduction modulo 2^k. */
  lemma LowBits(x: u32, k: nat)
    requires k <= 32
    ensures Pow2(k) <= WORD_LIMIT && And(x, Pow2(k) - 1) == LowPart(x, k) == x % Pow2(k)
  {
    PowersOfTwo();
    Pow2Monotone(k, 32);
    WordBits();
    forall i: nat | i < 32
      ensures Bit(And(x, Pow2(k) - 1), i) <==> Bit(LowPart(x, k), i)
    {
      OnesBit(k, i);
      LowPartBit(x, k, i);
    }
    WordExtensionality(And(x, Pow2(k) - 1), LowPart(x, k));
    HalvedValue(x, k);
  }

  /** The union of a multiple of 2^k and a number below 2^k is their sum. */
  lemma DisjointOr(x: nat, y: nat, k: nat)
    requires y < Pow2(k) && Doubled(x, k) + y < WORD_LIMIT
    ensures Or(Doubled(x, k), y) == Doubled(x, k) + y
  {
    Computed(Doubled(x, k), y);
    DisjointOrNat(x, y, k);
  }

  lemma {:induction false} DisjointOrNat(x: nat, y: nat, k: nat)
    requires y < Pow2(k)
    ensures OrNat(Doubled(x, k), y) == Doubled(x, k) + y
    decreases k
  {
    if k == 0 {
      OrNatZero(x);
    } else {
      DisjointOrNat(x, y / 2, k - 1);
    }
  }

  lemma {:induction false} OrNatZero(x: nat)
    ensures OrNat(x, 0) == x && OrNat(0, x) == x
  {
    if x > 0 {
      OrNatZero(x / 2);
    }
  }

  lemma OrZero(x: u32)
    ensures Or(x, 0) == x && Or(0, x) == x
  {
    Computed(x, 0);
    Computed(0, x);
    OrNatZero(x);
  }

  /** A shift that loses no bit is a multiplication. */
  lemma ShlExact(x: u32, k: nat)
    requires x * Pow2(k) < WORD_LIMIT
    ensures Shl(x, k) == x * Pow2(k)
  {
    DoubledValue(x, k);
    Shifted(x, k);
  }
}
