/**
  The PLL word and the frequency SystemCoreClockUpdate computes from it.  Frequencies are in Hz;
  HXTAL_VALUE is a parameter, because the header only defines it when the project does not.
*/
module ClockTree {
  import opened Words
  import opened BitFields
  import opened FieldUnions

  const IRC16M_VALUE: u32 := 16_000_000
  const DEFAULT_HXTAL_VALUE: u32 := 25_000_000

  const SEL_IRC16M: u32 := 0
  const SEL_HXTAL: u32 := 1
  const SEL_PLLP: u32 := 2

  datatype Source = Irc16m | Hxtal

  /** RCU_PLLSRC_IRC16M and RCU_PLLSRC_HXTAL: the bit RCU_PLL_PLLSEL. */
  function PllSource(source: Source): u32 {
    if source.Hxtal? then BitMask(22) else 0
  }

  function SourceFrequency(source: Source, hxtal: u32): u32 {
    if source.Hxtal? then hxtal else IRC16M_VALUE
  }

  /** The factors of a PLL configuration. */
  datatype Pll = Pll(source: Source, m: u32, n: u32, p: u32, q: u32) {
    /** What the fields of the register can hold. */
    predicate Valid() {
      1 <= m <= 63 && n < 512 && p in {2, 4, 6, 8} && q < 16
    }
  }

  /** The word the bring-up procedures write to RCU_PLL. */
  function PllWord(c: Pll): u32 {
    Or(Or(Or(Or(c.m, Shl(c.n, 6)), Shl(ToU32(Shr(c.p, 1) - 1), 16)), PllSource(c.source)), Shl(c.q, 24))
  }

  /** ahb_exp */
  const AHB_EXP: seq<nat> := [0, 0, 0, 0, 0, 0, 0, 0, 1, 2, 3, 4, 6, 7, 8, 9]

  /** RCU_AHB_CKSYS_DIV2 to RCU_AHB_CKSYS_DIV512: the prescaler codes 8 to 15. */
  const AHB_DIVIDERS: seq<nat> := [2, 4, 8, 16, 64, 128, 256, 512]

  /** The exponents of the update are those of the dividers the header names; every code below 8
      means no division. */
  lemma ExponentsMatchDividers(code: nat)
    requires code < 16
    ensures Pow2(AHB_EXP[code]) == if code < 8 then 1 else AHB_DIVIDERS[code - 8]
    ensures code >= 8 ==> AHB_DIVIDERS[code - 8] == Pow2(if code < 12 then code - 7 else code - 6)
  {
    PowersOfTwo();
    assert Pow2(9) == 512;
  }

  /** The system clock before the AHB prescaler, by the source the hardware reports in use. */
  function SystemClock(hxtal: u32, sws: u32, pll: u32): u32
    requires sws == SEL_PLLP ==> GetBits(pll, 0, 5) != 0
  {
    if sws == SEL_HXTAL then hxtal
    else if sws == SEL_PLLP then
      PllClock(if And(pll, BitMask(22)) == BitMask(22) then hxtal else IRC16M_VALUE,
               GetBits(pll, 0, 5), GetBits(pll, 6, 14), OutputDivider(pll))
    else IRC16M_VALUE
  }

  /** `(GET_BITS(RCU_PLL, 16, 17) + 1) * 2` */
  function OutputDivider(pll: u32): (p: u32)
    ensures p in {2, 4, 6, 8}
  {
    TwoBits(pll);
    Divider(GetBits(pll, 16, 17))
  }

  function Divider(field: u32): (p: u32)
    requires field < 4
    ensures p == (field + 1) * 2
  {
    ToU32(ToU32(field + 1) * 2)
  }

  lemma TwoBits(pll: u32)
    ensures GetBits(pll, 16, 17) < 4
  {
    Widths();
    GetBitsBound(pll, 16, 17);
  }

  /** `((ck_src / pllpsc) * plln) / pllp` in uint32_t arithmetic. */
  function PllClock(source: u32, m: u32, n: u32, p: u32): u32
    requires m != 0 && p != 0
  {
    ToU32((source / m) * n) / p
  }

  // ----- what the register fields hold -----

  /** Every field reader finds the factor it was given. */
  lemma PllFields(c: Pll)
    requires c.Valid()
    ensures var w := PllWord(c);
            && GetBits(w, 0, 5) == c.m
            && GetBits(w, 6, 14) == c.n
            && (GetBits(w, 16, 17) + 1) * 2 == c.p
            && GetBits(w, 22, 22) == (if c.source.Hxtal? then 1 else 0)
            && GetBits(w, 24, 27) == c.q
            && GetBits(w, 15, 15) == GetBits(w, 18, 21) == GetBits(w, 23, 23) == GetBits(w, 28, 31) == 0
  {
    hide Field, GetBits, Or, Union, Pow2, PllWord;
    var parts := PllParts(c);
    PllWordIsUnion(c);
    Widths();
    PartReadExactly(parts, 0);
    PartReadExactly(parts, 1);
    PartReadExactly(parts, 2);
    PartReadExactly(parts, 3);
    PartReadExactly(parts, 4);
    NothingWritten(parts, 15, 15);
    NothingWritten(parts, 18, 21);
    NothingWritten(parts, 23, 23);
    NothingWritten(parts, 28, 31);
  }

  function PllParts(c: Pll): (parts: seq<Part>)
    requires c.Valid()
    ensures Separate(parts)
  {
    [Placed(0, 5, c.m), Placed(6, 14, c.n), Placed(16, 17, c.p / 2 - 1),
     Placed(22, 22, if c.source.Hxtal? then 1 else 0), Placed(24, 27, c.q)]
  }

  lemma Widths()
    ensures Pow2(1) == 2 && Pow2(2) == 4 && Pow2(4) == 16 && Pow2(6) == 64 && Pow2(9) == 512
  {
    PowersOfTwo();
  }

  lemma PllWordIsUnion(c: Pll)
    requires c.Valid()
    ensures PllWord(c) == Union(PllParts(c))
  {
    hide Field, Or, Union, Pow2, Shl, Doubled;
    var parts := PllParts(c);
    Widths();
    UnionOfFive(parts[0], parts[1], parts[2], parts[3], parts[4]);
    FieldFits(0, 5, c.m);
    FieldFits(6, 14, c.n);
    Shifted(c.p, 1);
    assert ToU32(Shr(c.p, 1) - 1) == c.p / 2 - 1;
    FieldFits(16, 17, c.p / 2 - 1);
    FieldFits(22, 22, 1);
    FieldFits(22, 22, 0);
    FieldFits(24, 27, c.q);
    assert c.m * Pow2(0) == c.m by {
      PowersOfTwo();
    }
  }

  /** The source selection the update makes is the one the word encodes. */
  lemma SourceSelected(pll: u32)
    ensures And(pll, BitMask(22)) == BitMask(22) <==> GetBits(pll, 22, 22) == 1
  {
    hide Halved, Doubled, Bits, Pow2, BitMask, GetBits;
    Widths();
    GetBitsAsMask(pll, 22, 22);
    GetBitsBound(pll, 22, 22);
    FieldFits(22, 22, 1);
    FieldFits(22, 22, 0);
    FullField(22, 22);
    assert BitMask(22) == Field(22, 22, 1) by {
      BitIsField();
    }
    if GetBits(pll, 22, 22) == 0 {
      PowerOf22();
    }
  }

  lemma BitIsField()
    ensures BitMask(22) == Field(22, 22, 1)
  {
    Widths();
    FieldFits(22, 22, 1);
  }

  lemma PowerOf22()
    ensures Pow2(22) == 0x40_0000
  {
    PowersOfTwo();
  }

  /** What the update makes of the source the hardware reports, the PLL fields and the AHB prescaler
      code: the crystal or the 16 MHz oscillator or the truncated quotient of the fields, each
      divided by the divider of the code. */
  lemma UpdatedFrequency(hxtal: u32, s: u32, pll: u32, code: nat)
    requires s < 4 && code < 16 && (s == 2 ==> GetBits(pll, 0, 5) != 0)
    ensures var c := Shr(SystemClock(hxtal, s, pll), AHB_EXP[code]);
            var d := if code < 8 then 1 else AHB_DIVIDERS[code - 8];
            && (s == 1 ==> c == hxtal / d)
            && (s == 0 || s == 3 ==> c == 16_000_000 / d)
            && (s == 2 ==>
                  var f := if GetBits(pll, 22, 22) == 1 then hxtal else 16_000_000;
                  var product := f / GetBits(pll, 0, 5) * GetBits(pll, 6, 14);
                  c == product % 0x1_0000_0000 / ((GetBits(pll, 16, 17) + 1) * 2) / d)
  {
    hide GetBits, And, BitMask, Pow2, Halved, Divider;
    var clock, e := SystemClock(hxtal, s, pll), AHB_EXP[code];
    Shifted(clock, e);
    HalvedValue(clock, e);
    ExponentsMatchDividers(code);
    if s == 2 {
      SourceSelected(pll);
      TwoBits(pll);
      MulMonotone(0, (if GetBits(pll, 22, 22) == 1 then hxtal else IRC16M_VALUE) / GetBits(pll, 0, 5),
                  GetBits(pll, 6, 14));
    }
  }

  // ----- configure, then read -----

  predicate NoOverflow(frequency: u32, m: u32, n: u32)
    requires m != 0
  {
    (frequency / m) * n < WORD_LIMIT
  }

  /** Reading a configured PLL: the update finds the configured source and factors, whatever
      the PLL's Q factor; without overflow its result is the plain quotient. */
  lemma ConfigureThenRead(c: Pll, hxtal: u32)
    requires c.Valid()
    ensures var f := SourceFrequency(c.source, hxtal);
            && GetBits(PllWord(c), 0, 5) != 0
            && SystemClock(hxtal, SEL_PLLP, PllWord(c)) == PllClock(f, c.m, c.n, c.p)
            && (NoOverflow(f, c.m, c.n) ==>
                  SystemClock(hxtal, SEL_PLLP, PllWord(c)) == (f / c.m) * c.n / c.p)
  {
    PllFields(c);
    SourceSelected(PllWord(c));
    if NoOverflow(SourceFrequency(c.source, hxtal), c.m, c.n) {
      WithoutOverflow(SourceFrequency(c.source, hxtal), c.m, c.n, c.p);
    }
  }

  lemma WithoutOverflow(f: u32, m: u32, n: u32, p: u32)
    requires m != 0 && p != 0 && NoOverflow(f, m, n)
    ensures PllClock(f, m, n, p) == (f / m) * n / p
  {
    MulMonotone(0, f / m, n);
  }

  /** When M divides the source and P divides the VCO frequency, the result is exactly
      source * N / (M * P). */
  lemma ConfigureThenReadExactly(c: Pll, hxtal: u32)
    requires c.Valid()
    requires var f := SourceFrequency(c.source, hxtal);
             f % c.m == 0 && (f / c.m) * c.n % c.p == 0 && NoOverflow(f, c.m, c.n)
    ensures GetBits(PllWord(c), 0, 5) != 0
    ensures SystemClock(hxtal, SEL_PLLP, PllWord(c)) * (c.m * c.p) == SourceFrequency(c.source, hxtal) * c.n
  {
    ConfigureThenRead(c, hxtal);
    ExactQuotient(SourceFrequency(c.source, hxtal), c.m, c.n, c.p);
  }

  lemma ExactQuotient(f: nat, m: nat, n: nat, p: nat)
    requires m > 0 && p > 0 && f % m == 0 && (f / m) * n % p == 0
    ensures ((f / m) * n / p) * (m * p) == f * n
  {
    var q := f / m;
    var c := q * n / p;
    assert f == q * m;
    assert q * n == c * p;
    Regroup(c, m, p, q, n);
  }

  lemma Regroup(c: int, m: int, p: int, q: int, n: int)
    requires q * n == c * p
    ensures c * (m * p) == (q * m) * n
  {
    assert c * (m * p) == (c * p) * m;
    assert (q * m) * n == (q * n) * m;
  }

  // ----- how much truncation loses -----

  /** The result of the two truncating divisions against the exact ratio. */
  lemma TruncationBound(f: nat, m: nat, n: nat, p: nat)
    requires m > 0 && p > 0
    ensures var c := (f / m) * n / p;
            (m * p) * c <= f * n <= (m * p) * c + (m - 1) * n + m * (p - 1)
  {
    var q, r := f / m, f % m;
    var c, d := q * n / p, q * n % p;
    assert f == q * m + r && q * n == c * p + d;
    // f * n == m * (q * n) + r * n == m * (c * p + d) + r * n
    Expand(q, m, r, n, c, p, d);
    MulMonotone(r, m - 1, n);
    MulMonotone(d, p - 1, m);
    MulMonotone(0, r, n);
    MulMonotone(0, d, m);
  }

  lemma Expand(q: int, m: int, r: int, n: int, c: int, p: int, d: int)
    requires q * n == c * p + d
    ensures (q * m + r) * n == (m * p) * c + d * m + r * n
    ensures m * (p - 1) == (p - 1) * m
  {
    assert (q * m + r) * n == (q * n) * m + r * n;
    assert (c * p + d) * m == (m * p) * c + d * m;
  }

  /** The AHB shift composes with the divisions into one floor. */
  lemma {:induction false} ShiftedClock(x: nat, p: nat, e: nat)
    requires p > 0
    ensures p * Pow2(e) > 0
    ensures Halved(x / p, e) == x / (p * Pow2(e))
    decreases e
  {
    if e > 0 {
      HalfOfQuotient(x, p);
      ShiftedClock(x, 2 * p, e - 1);
      MulAssociates(p, 2, Pow2(e - 1));
    }
  }

  lemma HalfOfQuotient(x: nat, p: nat)
    requires p > 0
    ensures (x / p) / 2 == x / (2 * p)
  {
    var q, r := (x / p) / 2, (x / p) % 2;
    var s := x % p;
    assert x / p == 2 * q + r;
    assert x == (2 * q + r) * p + s;
    assert (2 * q + r) * p == q * (2 * p) + r * p by {
      MulAssociates(q, 2, p);
    }
    QuotientRemainder(x, 2 * p, q, r * p + s);
  }

  // ----- overflow -----

  /** With the 25 MHz crystal the product fits 32 bits for every 9-bit N exactly when M >= 3, and
      with the 16 MHz oscillator exactly when M >= 2. */
  lemma NoOverflowIff(m: u32)
    requires 1 <= m <= 63
    ensures (forall n: u32 | n < 512 :: NoOverflow(DEFAULT_HXTAL_VALUE, m, n)) <==> m >= 3
    ensures (forall n: u32 | n < 512 :: NoOverflow(IRC16M_VALUE, m, n)) <==> m >= 2
  {
    OverflowThreshold(DEFAULT_HXTAL_VALUE, m, 3);
    OverflowThreshold(IRC16M_VALUE, m, 2);
  }

  lemma OverflowThreshold(f: u32, m: u32, least: u32)
    requires 1 <= m && 2 <= least
    requires (f / least) * 511 < WORD_LIMIT <= (f / (least - 1)) * 511
    ensures (forall n: u32 | n < 512 :: NoOverflow(f, m, n)) <==> m >= least
  {
    if m >= least {
      forall n: u32 | n < 512
        ensures NoOverflow(f, m, n)
      {
        ProductMonotone(f, least, m, n);
      }
    } else {
      ProductMonotone(f, m, least - 1, 511);
      assert !NoOverflow(f, m, 511);
    }
  }

  lemma ProductMonotone(f: nat, c: nat, d: nat, n: nat)
    requires 0 < c <= d && n <= 511
    ensures (f / d) * n <= (f / c) * n <= (f / c) * 511
  {
    DivisorMonotone(f, c, d);
    MulMonotone(f / d, f / c, n);
    MulMonotone(n, 511, f / c);
  }

  lemma DivisorMonotone(x: nat, c: nat, d: nat)
    requires 0 < c <= d
    ensures x / d <= x / c
  {
    var q := x / d;
    assert q * c <= q * d <= x by {
      MulMonotone(c, d, q);
    }
    AtLeastQuotient(x, c, q);
  }

  lemma AtLeastQuotient(x: nat, c: nat, q: nat)
    requires c > 0 && q * c <= x
    ensures q <= x / c
  {
    var r := x / c;
    assert x == r * c + x % c;
    assert (q - r) * c == q * c - r * c < c;
    if q > r {
      MulGrows(q - r, c);
    }
  }

  // ----- the nine PLL variants of the project -----

  datatype Variant = Variant(pll: Pll, declared: u32, testFirst: bool, timeout: nat)

  const HXTAL_STARTUP_TIMEOUT: nat := 0xFFFF
  const IRC16M_STARTUP_TIMEOUT: nat := 0x0500

  function FromIrc16m(n: u32, q: u32, declared: u32): Variant {
    Variant(Pll(Irc16m, 16, n, 2, q), declared, false, IRC16M_STARTUP_TIMEOUT)
  }

  function FromHxtal(m: u32, n: u32, q: u32, declared: u32, testFirst: bool): Variant {
    Variant(Pll(Hxtal, m, n, 2, q), declared, testFirst, HXTAL_STARTUP_TIMEOUT)
  }

  /** The procedures system_clock_*; only the 168 MHz one for the 8 MHz crystal tests the
      stabilisation flag before counting. */
  const VARIANTS: seq<Variant> :=
    [FromIrc16m(240, 5, 120_000_000),
     FromHxtal(8, 240, 5, 120_000_000, false),
     FromHxtal(25, 240, 5, 120_000_000, false),
     FromIrc16m(336, 7, 168_000_000),
     FromHxtal(8, 336, 7, 168_000_000, true),
     FromHxtal(25, 336, 7, 168_000_000, false),
     FromIrc16m(400, 9, 200_000_000),
     FromHxtal(8, 400, 9, 200_000_000, false),
     FromHxtal(25, 400, 9, 200_000_000, false)]

  /** A variant runs at its declared frequency exactly when HXTAL_VALUE matches it: one megahertz
      after the division by M (the oscillator variants always do). */
  lemma DeclaredIff(v: Variant, hxtal: u32)
    requires v in VARIANTS
    requires NoOverflow(SourceFrequency(v.pll.source, hxtal), v.pll.m, v.pll.n)
    ensures v.pll.Valid() && GetBits(PllWord(v.pll), 0, 5) != 0
    ensures SystemClock(hxtal, SEL_PLLP, PllWord(v.pll)) == v.declared
            <==> SourceFrequency(v.pll.source, hxtal) / v.pll.m == 1_000_000
  {
    hide GetBits, PllWord, SystemClock;
    VariantShape(v);
    ConfigureThenRead(v.pll, hxtal);
    var vco := SourceFrequency(v.pll.source, hxtal) / v.pll.m;
    HalfProduct(vco, v.pll.n);
  }

  lemma VariantShape(v: Variant)
    requires v in VARIANTS
    ensures v.pll.Valid() && v.pll.p == 2 && v.pll.n > 0 && v.pll.n % 2 == 0
    ensures v.declared == 1_000_000 * (v.pll.n / 2)
    ensures v.pll.source.Irc16m? ==> v.pll.m == 16 && v.timeout == IRC16M_STARTUP_TIMEOUT
    ensures v.pll.source.Hxtal? ==> v.pll.m in {8, 25} && v.timeout == HXTAL_STARTUP_TIMEOUT
  {
  }

  /** The nine procedures are the three frequencies from the three sources, each once; which of them
      counts differently; and the PLL's Q output for the 48 MHz consumers is as fast as it can be
      without exceeding 48 MHz. */
  lemma VariantTable(i: nat)
    requires i < 9
    ensures |VARIANTS| == 9
    ensures VARIANTS[i].declared == if i < 3 then 120_000_000 else if i < 6 then 168_000_000 else 200_000_000
    ensures VARIANTS[i].pll.source == (if i % 3 == 0 then Irc16m else Hxtal)
    ensures VARIANTS[i].pll.m == if i % 3 == 0 then 16 else if i % 3 == 1 then 8 else 25
    ensures VARIANTS[i].pll.p == 2 && VARIANTS[i].pll.n == VARIANTS[i].declared / 500_000
    ensures VARIANTS[i].timeout == if i % 3 == 0 then 0x500 else 0xFFFF
    ensures VARIANTS[i].testFirst <==> i == 4
    ensures var c := VARIANTS[i].pll;
            && c.q > 0 && c.n <= 48 * c.q
            && (forall q: nat | 0 < q < c.q :: c.n > 48 * q)
  {
  }

  lemma HalfProduct(x: nat, n: nat)
    requires n > 0 && n % 2 == 0
    ensures x * n >= 0 && x * n / 2 == x * (n / 2)
    ensures x * (n / 2) == 1_000_000 * (n / 2) <==> x == 1_000_000
  {
    assert n == 2 * (n / 2);
    assert x * n == 2 * (x * (n / 2));
    if x < 1_000_000 {
      MulMonotone(x + 1, 1_000_000, n / 2);
    } else if x > 1_000_000 {
      MulMonotone(1_000_001, x, n / 2);
    }
  }

  /** With the header's crystal value the oscillator and the 25 MHz variants are as declared, and
      the 8 MHz variants are not. */
  lemma DeclaredForDefaultCrystal(v: Variant)
    requires v in VARIANTS
    ensures GetBits(PllWord(v.pll), 0, 5) != 0
    ensures SystemClock(DEFAULT_HXTAL_VALUE, SEL_PLLP, PllWord(v.pll)) == v.declared <==> v.pll.m != 8
  {
    VariantShape(v);
    DeclaredIff(v, DEFAULT_HXTAL_VALUE);
  }
}
