/**
  Interrupt priorities: the codec of core_cm4.h, the bytes the drivers store in the priority
  registers, and the comparison the processor makes of them (section B1.5.4 of the ARMv7-M
  Architecture Reference Manual).  `n` is __NVIC_PRIO_BITS, the number of implemented bits.
*/
module Priority {
  import opened Words
  import opened BitFields

  predicate Implementable(n: nat) {
    1 <= n <= 8
  }

  /** Only the values 0..7 of a priority group are used. */
  function GroupOf(group: u32): (g: u32)
    ensures g <= 7
  {
    And(group, 7)
  }

  function PreemptPriorityBits(n: nat, group: u32): nat {
    if 7 - GroupOf(group) > n then n else 7 - GroupOf(group)
  }

  function SubPriorityBits(n: nat, group: u32): nat {
    if GroupOf(group) + n < 7 then 0 else ToU32(ToU32(GroupOf(group) - 7) + n)
  }

  /** The mask `(1 << bits) - 1`. */
  function LowMask(bits: nat): u32 {
    ToU32(Shl(1, bits) - 1)
  }

  /** NVIC_EncodePriority */
  function EncodePriority(n: nat, group: u32, preempt: u32, sub: u32): u32 {
    var preemptBits := PreemptPriorityBits(n, group);
    var subBits := SubPriorityBits(n, group);
    Or(Shl(And(preempt, LowMask(preemptBits)), subBits), And(sub, LowMask(subBits)))
  }

  datatype Levels = Levels(preempt: u32, sub: u32)

  /** NVIC_DecodePriority; the two out-pointers are the two members of the result. */
  function DecodePriority(n: nat, priority: u32, group: u32): Levels {
    var preemptBits := PreemptPriorityBits(n, group);
    var subBits := SubPriorityBits(n, group);
    Levels(And(Shr(priority, subBits), LowMask(preemptBits)), And(priority, LowMask(subBits)))
  }

  /** The byte NVIC_SetPriority stores. */
  function StoredByte(n: nat, priority: u32): u8
    requires Implementable(n)
  {
    And(Shl(priority, 8 - n), 0xff)
  }

  /** What NVIC_GetPriority returns for a stored byte. */
  function ReadByte(n: nat, stored: u8): u32
    requires Implementable(n)
  {
    Shr(stored, 8 - n)
  }

  // ----- the values behind the bit operations -----

  lemma GroupValue(group: u32)
    ensures GroupOf(group) == group % 8
  {
    PowersOfTwo();
    LowBits(group, 3);
  }

  /** The implemented bits are split between preemption and subpriority, none lost, none shared:
      preemption gets the 7 - group highest, or all of them when there are fewer. */
  lemma BitCounts(n: nat, group: u32)
    requires Implementable(n)
    ensures PreemptPriorityBits(n, group) + SubPriorityBits(n, group) == n
    ensures PreemptPriorityBits(n, group) == if 7 - group % 8 < n then 7 - group % 8 else n
    ensures PreemptPriorityBits(n, group) <= 7
  {
    GroupValue(group);
  }

  lemma LowMaskValue(bits: nat)
    requires bits <= 8
    ensures LowMask(bits) == Pow2(bits) - 1
  {
    PowersOfTwo();
    Pow2Monotone(bits, 8);
    DoubledValue(1, bits);
    Shifted(1, bits);
  }

  lemma MaskValue(x: u32, bits: nat)
    requires bits <= 8
    ensures And(x, LowMask(bits)) == LowPart(x, bits)
  {
    LowMaskValue(bits);
    LowBits(x, bits);
  }

  lemma EncodeValue(n: nat, group: u32, preempt: u32, sub: u32)
    requires Implementable(n)
    ensures var pb, sb := PreemptPriorityBits(n, group), SubPriorityBits(n, group);
            && EncodePriority(n, group, preempt, sub) == Doubled(LowPart(preempt, pb), sb) + LowPart(sub, sb)
            && EncodePriority(n, group, preempt, sub) < Pow2(n)
  {
    hide Halved, Doubled, LowPart, Pow2, Bit;
    BitCounts(n, group);
    var pb, sb := PreemptPriorityBits(n, group), SubPriorityBits(n, group);
    MaskValue(preempt, pb);
    MaskValue(sub, sb);
    LowPartBound(preempt, pb);
    LowPartBound(sub, sb);
    CombinedBound(LowPart(preempt, pb), LowPart(sub, sb), pb, sb);
    PowersOfTwo();
    Pow2Monotone(n, 8);
    Shifted(LowPart(preempt, pb), sb);
    DisjointOr(LowPart(preempt, pb), LowPart(sub, sb), sb);
  }

  lemma CombinedBound(p: nat, s: nat, pb: nat, sb: nat)
    requires p < Pow2(pb) && s < Pow2(sb)
    ensures Doubled(p, sb) + s < Pow2(pb + sb)
  {
    Pow2Add(pb, sb);
    DoubledValue(p, sb);
    MulMonotone(p + 1, Pow2(pb), Pow2(sb));
  }

  lemma DecodeValue(n: nat, priority: u32, group: u32)
    requires Implementable(n)
    ensures var pb, sb := PreemptPriorityBits(n, group), SubPriorityBits(n, group);
            DecodePriority(n, priority, group)
            == Levels(LowPart(Halved(priority, sb), pb), LowPart(priority, sb))
  {
    BitCounts(n, group);
    Shifted(priority, SubPriorityBits(n, group));
    MaskValue(Shr(priority, SubPriorityBits(n, group)), PreemptPriorityBits(n, group));
    MaskValue(priority, SubPriorityBits(n, group));
  }

  // ----- round trips of the codec -----

  /** Decoding an encoded pair gives back both levels, each reduced to its width. */
  lemma DecodeAfterEncode(n: nat, group: u32, preempt: u32, sub: u32)
    requires Implementable(n)
    ensures DecodePriority(n, EncodePriority(n, group, preempt, sub), group)
            == Levels(LowPart(preempt, PreemptPriorityBits(n, group)), LowPart(sub, SubPriorityBits(n, group)))
  {
    hide Halved, Doubled, LowPart, Pow2, Bit;
    var pb, sb := PreemptPriorityBits(n, group), SubPriorityBits(n, group);
    EncodeValue(n, group, preempt, sub);
    DecodeValue(n, EncodePriority(n, group, preempt, sub), group);
    LowPartBound(preempt, pb);
    LowPartBound(sub, sb);
    SplitSum(LowPart(preempt, pb), LowPart(sub, sb), sb);
    SmallLowPart(LowPart(preempt, pb), pb);
  }

  /** Every n-bit priority is the encoding of its decoding. */
  lemma EncodeAfterDecode(n: nat, group: u32, priority: u32)
    requires Implementable(n) && priority < Pow2(n)
    ensures var levels := DecodePriority(n, priority, group);
            EncodePriority(n, group, levels.preempt, levels.sub) == priority
  {
    hide Halved, Doubled, LowPart, Pow2, GroupOf, PreemptPriorityBits, SubPriorityBits;
    BitCounts(n, group);
    var pb, sb := PreemptPriorityBits(n, group), SubPriorityBits(n, group);
    DecodeValue(n, priority, group);
    HalvedBound(priority, pb, sb);
    SmallLowPart(Halved(priority, sb), pb);
    LowPartBound(priority, sb);
    SmallLowPart(LowPart(priority, sb), sb);
    EncodeValue(n, group, Halved(priority, sb), LowPart(priority, sb));
    Recompose(priority, sb);
  }

  lemma HalvedBound(x: nat, pb: nat, sb: nat)
    requires x < Pow2(pb + sb)
    ensures Halved(x, sb) < Pow2(pb)
  {
    Recompose(x, sb);
    DoubledValue(Halved(x, sb), sb);
    Pow2Add(pb, sb);
    if Halved(x, sb) >= Pow2(pb) {
      MulMonotone(Pow2(pb), Halved(x, sb), Pow2(sb));
    }
  }

  // ----- the stored byte -----

  lemma StoredByteValue(n: nat, priority: u32)
    requires Implementable(n)
    ensures StoredByte(n, priority) == Doubled(LowPart(priority, n), 8 - n)
  {
    hide Halved, Doubled, LowPart, Pow2, Bit;
    WordBits();
    PowersOfTwo();
    var low := LowPart(priority, n);
    forall i: nat
      ensures Bit(StoredByte(n, priority), i) <==> Bit(Doubled(low, 8 - n), i)
    {
      OnesBit(8, i);
      DoubledBit(low, 8 - n, i);
      if 8 - n <= i {
        LowPartBit(priority, n, i - (8 - n));
      }
    }
    BitExtensionality(StoredByte(n, priority), Doubled(low, 8 - n));
  }

  /** NVIC_GetPriority returns the implemented bits of whatever byte is there. */
  lemma ReadByteValue(n: nat, stored: u8)
    requires Implementable(n)
    ensures ReadByte(n, stored) == stored / Pow2(8 - n)
  {
    hide Halved, Pow2;
    Shifted(stored, 8 - n);
    HalvedValue(stored, 8 - n);
  }

  /** NVIC_GetPriority after NVIC_SetPriority: the value set, reduced to the implemented bits. */
  lemma ReadAfterStore(n: nat, priority: u32)
    requires Implementable(n)
    ensures ReadByte(n, StoredByte(n, priority)) == LowPart(priority, n)
  {
    StoredByteValue(n, priority);
    Shifted(StoredByte(n, priority), 8 - n);
    SplitSum(LowPart(priority, n), 0, 8 - n);
  }

  // ----- the processor's view of the byte -----

  /** The group priority: bits [7:g+1] of the priority byte, for PRIGROUP == g. */
  function GroupField(g: nat, stored: u8): nat {
    Halved(stored, g + 1)
  }

  /** The byte of an encoded pair. */
  function EncodedByte(n: nat, group: u32, preempt: u32, sub: u32): u8
    requires Implementable(n)
  {
    StoredByte(n, EncodePriority(n, group, preempt, sub))
  }

  lemma EncodedByteValue(n: nat, group: u32, preempt: u32, sub: u32)
    requires Implementable(n)
    ensures var pb, sb := PreemptPriorityBits(n, group), SubPriorityBits(n, group);
            EncodedByte(n, group, preempt, sub)
            == Doubled(Doubled(LowPart(preempt, pb), sb) + LowPart(sub, sb), 8 - n)
  {
    hide Halved, Doubled, LowPart, Pow2, Bit;
    EncodeValue(n, group, preempt, sub);
    StoredByteValue(n, EncodePriority(n, group, preempt, sub));
    SmallLowPart(EncodePriority(n, group, preempt, sub), n);
  }

  /** The group priority the processor sees is the preemption level the caller asked for,
      scaled by the group bits the chip does not implement. */
  lemma GroupFieldOfEncoded(n: nat, group: u32, preempt: u32, sub: u32)
    requires Implementable(n)
    ensures var g, pb := GroupOf(group), PreemptPriorityBits(n, group);
            && 7 - g >= pb
            && GroupField(g, EncodedByte(n, group, preempt, sub)) == Doubled(LowPart(preempt, pb), 7 - g - pb)
  {
    hide Halved, Doubled, LowPart, Pow2, Bit;
    BitCounts(n, group);
    var g, pb, sb := GroupOf(group), PreemptPriorityBits(n, group), SubPriorityBits(n, group);
    EncodedByteValue(n, group, preempt, sub);
    LowPartBound(sub, sb);
    if g + n >= 7 {
      GroupFieldWithin(LowPart(preempt, pb), LowPart(sub, sb), sb, 8 - n);
    } else {
      GroupFieldBelow(LowPart(preempt, pb), LowPart(sub, sb), 7 - g - n, g + 1);
    }
  }

  /** The binary point lies at or above the lowest implemented bit. */
  lemma GroupFieldWithin(p: nat, s: nat, sb: nat, gap: nat)
    requires s < Pow2(sb)
    ensures Halved(Doubled(Doubled(p, sb) + s, gap), sb + gap) == p == Doubled(p, 0)
  {
    assert Doubled(p, 0) == p;
    DoubledSum(Doubled(p, sb), s, gap);
    DoubledTwice(p, sb, gap);
    CombinedBound(s, 0, sb, gap);
    SplitSum(p, Doubled(s, gap), sb + gap);
  }

  /** The binary point lies below it: some group bits are not implemented. */
  lemma GroupFieldBelow(p: nat, s: nat, missing: nat, point: nat)
    requires s < Pow2(0)
    ensures Halved(Doubled(Doubled(p, 0) + s, missing + point), point) == Doubled(p, missing)
  {
    DoubledTwice(p, missing, point);
    SplitSum(Doubled(p, missing), 0, point);
  }

  lemma {:induction false} DoublingKeepsOrder(x: nat, y: nat, k: nat)
    ensures x < y <==> Doubled(x, k) < Doubled(y, k)
  {
    if k > 0 {
      DoublingKeepsOrder(x, y, k - 1);
    }
  }

  lemma {:induction false} LexicographicOrder(p: nat, s: nat, p': nat, s': nat, k: nat)
    requires s < Pow2(k) && s' < Pow2(k)
    ensures Doubled(p, k) + s < Doubled(p', k) + s' <==> p < p' || (p == p' && s < s')
  {
    SplitSum(p, s, k);
    SplitSum(p', s', k);
    DoublingKeepsOrder(p, p', k);
    if p < p' {
      NextMultiple(p, p', k);
    } else if p' < p {
      NextMultiple(p', p, k);
    }
  }

  lemma NextMultiple(p: nat, q: nat, k: nat)
    requires p < q
    ensures Doubled(p, k) + Pow2(k) <= Doubled(q, k)
  {
    DoubledValue(p, k);
    DoubledValue(q, k);
    MulMonotone(p + 1, q, Pow2(k));
  }

  /** The bytes of encoded pairs order lexicographically by (preemption level, subpriority). */
  lemma ByteOrder(n: nat, group: u32, p: u32, s: u32, p': u32, s': u32)
    requires Implementable(n)
    ensures var pb, sb := PreemptPriorityBits(n, group), SubPriorityBits(n, group);
            EncodedByte(n, group, p, s) < EncodedByte(n, group, p', s')
            <==> || LowPart(p, pb) < LowPart(p', pb)
                 || (LowPart(p, pb) == LowPart(p', pb) && LowPart(s, sb) < LowPart(s', sb))
  {
    hide Halved, Doubled, LowPart, Bit, Pow2, EncodedByte, PreemptPriorityBits, SubPriorityBits;
    var pb, sb := PreemptPriorityBits(n, group), SubPriorityBits(n, group);
    EncodedByteValue(n, group, p, s);
    EncodedByteValue(n, group, p', s');
    LowPartBound(s, sb);
    LowPartBound(s', sb);
    PlacedOrder(LowPart(p, pb), LowPart(s, sb), LowPart(p', pb), LowPart(s', sb), sb, 8 - n);
  }

  lemma PlacedOrder(p: nat, s: nat, p': nat, s': nat, k: nat, gap: nat)
    requires s < Pow2(k) && s' < Pow2(k)
    ensures Doubled(Doubled(p, k) + s, gap) < Doubled(Doubled(p', k) + s', gap)
            <==> p < p' || (p == p' && s < s')
  {
    hide *;
    LexicographicOrder(p, s, p', s', k);
    DoublingKeepsOrder(Doubled(p, k) + s, Doubled(p', k) + s', gap);
  }

  /** The processor's group comparison is the comparison of preemption levels alone: one line
      can preempt another exactly when its preemption level is smaller. */
  lemma GroupOrder(n: nat, group: u32, p: u32, s: u32, p': u32, s': u32)
    requires Implementable(n)
    ensures var g, pb := GroupOf(group), PreemptPriorityBits(n, group);
            GroupField(g, EncodedByte(n, group, p, s)) < GroupField(g, EncodedByte(n, group, p', s'))
            <==> LowPart(p, pb) < LowPart(p', pb)
  {
    hide *;
    var pb := PreemptPriorityBits(n, group);
    GroupFieldOfEncoded(n, group, p, s);
    GroupFieldOfEncoded(n, group, p', s');
    DoublingKeepsOrder(LowPart(p, pb), LowPart(p', pb), 7 - GroupOf(group) - pb);
  }

  // ----- the priority byte of the vendor driver -----

  /** The bit counts nvic_irq_enable derives from the grouping it finds in AIRCR. */
  function VendorBits(aircr: u32): (nat, nat) {
    var grouping := And(aircr, 0x700);
    if grouping == 0x700 then (0, 4)
    else if grouping == 0x600 then (1, 3)
    else if grouping == 0x500 then (2, 2)
    else if grouping == 0x400 then (3, 1)
    else if grouping == 0x300 then (4, 0)
    else (0, 0)
  }

  /** The byte nvic_irq_enable stores. */
  function IrqEnableByte(aircr: u32, preempt: u8, sub: u8): u8 {
    var (preemptBits, subBits) := VendorBits(aircr);
    VendorByte(preempt, sub, preemptBits, subBits)
  }

  function VendorByte(preempt: u8, sub: u8, preemptBits: nat, subBits: nat): u8
    requires preemptBits <= 4 && subBits <= 4
  {
    var priority := Or(Shl(preempt, 4 - preemptBits), And(sub, Shr(0x0F, 4 - subBits)));
    Shl(priority, 4) % 0x100
  }

  lemma GroupingField(aircr: u32)
    ensures GetBits(aircr, 8, 10) <= 7
    ensures And(aircr, 0x700) == GetBits(aircr, 8, 10) * 0x100
  {
    var g := GetBits(aircr, 8, 10);
    GetBitsBound(aircr, 8, 10);
    PowersOfTwo();
    GetBitsAsMask(aircr, 8, 10);
    FieldFits(8, 10, g);
    assert Bits(8, 10) == 0x700 by {
      FieldFits(8, 10, 7);
      FullField(8, 10);
    }
  }

  /** The known groupings split the four bits as the codec does; the others get none. */
  lemma VendorBitsValue(aircr: u32)
    ensures var g := GetBits(aircr, 8, 10);
            && g <= 7
            && VendorBits(aircr) == (if g >= 3 then (7 - g, g - 3) else (0, 0))
  {
    GroupingField(aircr);
  }

  lemma VendorByteValue(preempt: u8, sub: u8, pb: nat, sb: nat)
    requires pb + sb == 4
    ensures VendorByte(preempt, sub, pb, sb) == Doubled(Doubled(LowPart(preempt, pb), sb) + LowPart(sub, sb), 4)
  {
    hide Halved, Doubled, LowPart, Pow2, Bit, VendorByte;
    VendorByteShifted(preempt, sub, pb, sb);
    LevelsAboveFallOut(preempt, LowPart(sub, sb), pb, sb);
    LowPartBound(preempt, pb);
    LowPartBound(sub, sb);
    CombinedBound(LowPart(preempt, pb), LowPart(sub, sb), pb, sb);
    var combined := Doubled(LowPart(preempt, pb), sb) + LowPart(sub, sb);
    CombinedBound(combined, 0, 4, 4);
    SplitSum(Halved(preempt, pb), Doubled(combined, 4), 8);
    HalvedValue(Doubled(Doubled(preempt, sb) + LowPart(sub, sb), 4), 8);
    PowersOfTwo();
  }

  /** The bits of the level above its width are multiples of 2^8 in the shifted priority. */
  lemma LevelsAboveFallOut(preempt: nat, s: nat, pb: nat, sb: nat)
    requires pb + sb == 4
    ensures Doubled(Doubled(preempt, sb) + s, 4)
            == Doubled(Halved(preempt, pb), 8) + Doubled(Doubled(LowPart(preempt, pb), sb) + s, 4)
  {
    hide *;
    var high, low := Halved(preempt, pb), LowPart(preempt, pb);
    Recompose(preempt, pb);
    DoubledSum(Doubled(high, pb), low, sb);
    DoubledTwice(high, pb, sb);
    DoubledSum(Doubled(high, 4), Doubled(low, sb) + s, 4);
    DoubledTwice(high, 4, 4);
  }

  lemma VendorByteShifted(preempt: u8, sub: u8, pb: nat, sb: nat)
    requires pb + sb == 4
    ensures VendorByte(preempt, sub, pb, sb) == Doubled(Doubled(preempt, sb) + LowPart(sub, sb), 4) % 0x100
  {
    NibbleMask(sb);
    LowBits(sub, sb);
    LowPartBound(sub, sb);
    SmallShift(preempt, sb, 0xFF);
    DisjointOr(preempt, LowPart(sub, sb), sb);
    SmallShift(Doubled(preempt, sb) + LowPart(sub, sb), 4, 0x10FF);
  }

  lemma NibbleMask(sb: nat)
    requires sb <= 4
    ensures Shr(0x0F, 4 - sb) == Pow2(sb) - 1
  {
    assert Halved(15, 0) == 15 && Halved(15, 1) == 7 && Halved(15, 2) == 3 && Halved(15, 3) == 1 && Halved(15, 4) == 0;
    Shifted(0x0F, 4 - sb);
    PowersOfTwo();
  }

  lemma SmallShift(x: nat, k: nat, limit: nat)
    requires x <= limit <= 0x10FF && k <= 4
    ensures Doubled(x, k) <= 16 * limit && Shl(x, k) == Doubled(x, k)
  {
    assert Doubled(x, 1) == 2 * x && Doubled(x, 2) == 4 * x && Doubled(x, 3) == 8 * x && Doubled(x, 4) == 16 * x;
    Shifted(x, k);
  }

  /** On this chip (four bits) the vendor driver stores the byte that NVIC_EncodePriority and
      NVIC_SetPriority would store exactly when the grouping is one of the five it knows, or the
      requested preemption level is a multiple of 16: for groups 0..2 it drops the level. */
  lemma IrqEnableAgreesIff(aircr: u32, preempt: u8, sub: u8)
    ensures var g := GetBits(aircr, 8, 10);
            IrqEnableByte(aircr, preempt, sub) == EncodedByte(4, g, preempt, sub)
            <==> g >= 3 || preempt % 16 == 0
    ensures GetBits(aircr, 8, 10) < 3 ==> IrqEnableByte(aircr, preempt, sub) == 0
  {
    hide Halved, Doubled, LowPart, Pow2, Bit, GetBits, VendorBits, VendorByte, EncodedByte, PreemptPriorityBits,
         SubPriorityBits;
    var g := GetBits(aircr, 8, 10);
    VendorBitsValue(aircr);
    SplitOfFour(g);
    EncodedByteValue(4, g, preempt, sub);
    if g >= 3 {
      VendorByteValue(preempt, sub, 7 - g, g - 3);
    } else {
      UnknownGrouping(preempt, sub);
      PreemptOnly(preempt, sub);
    }
  }

  lemma SplitOfFour(g: u32)
    requires g <= 7
    ensures PreemptPriorityBits(4, g) == if g >= 3 then 7 - g else 4
    ensures SubPriorityBits(4, g) == if g >= 3 then g - 3 else 0
  {
    GroupValue(g);
  }

  lemma PreemptOnly(preempt: u8, sub: u8)
    ensures Doubled(Doubled(LowPart(preempt, 4), 0) + LowPart(sub, 0), 4) == (preempt % 16) * 16
  {
    assert LowPart(sub, 0) == 0 && Doubled(LowPart(preempt, 4), 0) == LowPart(preempt, 4);
    PowersOfTwo();
    HalvedValue(preempt, 4);
    DoubledValue(LowPart(preempt, 4), 4);
  }

  lemma UnknownGrouping(preempt: u8, sub: u8)
    ensures VendorByte(preempt, sub, 0, 0) == 0
  {
    hide Halved, Doubled, LowPart, Bit, Pow2;
    PowersOfTwo();
    NibbleMask(0);
    OrZero(Shl(preempt, 4));
    SmallShift(preempt, 4, 0xFF);
    SmallShift(Doubled(preempt, 4), 4, 0x10FF);
    DoubledTwice(preempt, 4, 4);
    DoubledValue(preempt, 8);
  }
}
