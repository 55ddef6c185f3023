/**
  Flag descriptors: a register offset and a bit position packed into one enumeration value, as
  the CAN and Ethernet drivers use them.
*/
module FlagDescriptors {
  import opened Words
  import opened BitFields

  /** CAN_REGIDX_BIT and ENET_REGIDX_BIT */
  function RegIdxBit(regidx: u32, bitpos: u32): u32 {
    Or(Shl(regidx, 6), bitpos)
  }

  /** The register offset in CAN_REG_VAL and ENET_REG_VAL. */
  function RegisterOf(descriptor: u32): u32 {
    Shr(descriptor, 6)
  }

  /** CAN_BIT_POS and ENET_BIT_POS */
  function BitPosition(descriptor: u32): u32 {
    And(descriptor, 0x1F)
  }

  lemma DescriptorValue(regidx: u32, bitpos: u32)
    requires regidx < 0x400_0000 && bitpos < 64
    ensures RegisterOf(RegIdxBit(regidx, bitpos)) == regidx
    ensures BitPosition(RegIdxBit(regidx, bitpos)) == bitpos % 32
  {
    hide Halved, Doubled, LowPart, Pow2, RegIdxBit;
    var d := RegIdxBit(regidx, bitpos);
    DescriptorSum(regidx, bitpos);
    SixBits();
    SplitSum(regidx, bitpos, 6);
    Shifted(d, 6);
    LowBits(d, 5);
    QuotientRemainder(d, 32, 2 * regidx + bitpos / 32, bitpos % 32);
  }

  lemma SixBits()
    ensures Pow2(5) == 32 && Pow2(6) == 64
  {
    PowersOfTwo();
  }

  lemma DescriptorSum(regidx: u32, bitpos: u32)
    requires regidx < 0x400_0000 && bitpos < 64
    ensures RegIdxBit(regidx, bitpos) == Doubled(regidx, 6) + bitpos == regidx * 64 + bitpos
  {
    PowersOfTwo();
    DoubledValue(regidx, 6);
    Shifted(regidx, 6);
    DisjointOr(regidx, bitpos, 6);
  }

  /** The extractors undo the packing exactly for bit positions of a 32-bit register: positions
      32..63 fit the packing but not the five-bit mask of the extractor. */
  lemma UnpackedIff(regidx: u32, bitpos: u32)
    requires regidx < 0x400_0000 && bitpos < 64
    ensures var d := RegIdxBit(regidx, bitpos);
            && d == 64 * regidx + bitpos
            && ((RegisterOf(d), BitPosition(d)) == (regidx, bitpos) <==> bitpos < 32)
  {
    DescriptorSum(regidx, bitpos);
    DescriptorValue(regidx, bitpos);
  }

  /** Distinct flags have distinct descriptors. */
  lemma Injective(regidx: u32, bitpos: u32, regidx': u32, bitpos': u32)
    requires regidx < 0x400_0000 && regidx' < 0x400_0000 && bitpos < 64 && bitpos' < 64
    ensures RegIdxBit(regidx, bitpos) == RegIdxBit(regidx', bitpos')
            <==> regidx == regidx' && bitpos == bitpos'
  {
    DescriptorSum(regidx, bitpos);
    DescriptorSum(regidx', bitpos');
  }

  /** can_flag_get over a register file: SET exactly when the bit named by the descriptor is set in
      the register named by it. */
  function FlagGet(registers: map<u32, u32>, descriptor: u32): bool
    requires RegisterOf(descriptor) in registers
  {
    And(registers[RegisterOf(descriptor)], BitMask(BitPosition(descriptor))) != 0
  }

  lemma FlagGetReadsBit(registers: map<u32, u32>, regidx: u32, bitpos: u32)
    requires regidx < 0x400_0000 && bitpos < 32 && regidx in registers
    ensures RegisterOf(RegIdxBit(regidx, bitpos)) in registers
    ensures FlagGet(registers, RegIdxBit(regidx, bitpos)) <==> Bit(registers[regidx], bitpos)
  {
    DescriptorValue(regidx, bitpos);
    var w := registers[regidx];
    WordBits();
    FieldBits();
    ZeroBit(bitpos);
    assert Bit(And(w, BitMask(bitpos)), bitpos) <==> Bit(w, bitpos);
    if !Bit(w, bitpos) {
      forall i: nat | i < 32
        ensures Bit(And(w, BitMask(bitpos)), i) <==> Bit(0, i)
      {
        ZeroBit(i);
      }
      WordExtensionality(And(w, BitMask(bitpos)), 0);
    }
  }
}
