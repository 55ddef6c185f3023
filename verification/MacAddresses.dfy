/**
  The four MAC address slots of the Ethernet controller: packing an address into the register
  pair of a slot, reading it back byte by byte, and the receive filters that share the upper half
  of the high register.
*/
module MacAddresses {
  import opened Words
  import opened BitFields
  import opened FieldUnions

  const SLOTS := 4

  /** What a slot holds: the address, the bytes the filter ignores, whether it compares source
      addresses, and whether it is enabled. */
  datatype Slot = Slot(address: seq<u32>, mask: u32, source: u32, enabled: u32)

  function SlotOf(high: u32, low: u32): Slot {
    Slot([GetBits(low, 0, 7), GetBits(low, 8, 15), GetBits(low, 16, 23), GetBits(low, 24, 31),
          GetBits(high, 0, 7), GetBits(high, 8, 15)],
         GetBits(high, 24, 29), GetBits(high, 30, 30), GetBits(high, 31, 31))
  }

  predicate Address(p: seq<u8>) {
    |p| == 6
  }

  /** ENET_SET_MACADDRH and ENET_SET_MACADDRL */
  function PackHigh(p: seq<u8>): u32
    requires |p| == 6
  {
    Or(Shl(p[5], 8), p[4])
  }

  function PackLow(p: seq<u8>): u32
    requires |p| == 6
  {
    Or(Or(Or(Shl(p[3], 24), Shl(p[2], 16)), Shl(p[1], 8)), p[0])
  }

  // ----- the calls -----

  datatype Call =
    | SetAddress(slot: nat, p: seq<u8>)
    | EnableFilter(slot: nat)
    | DisableFilter(slot: nat)
    | ConfigureFilter(slot: nat, addrMask: u32, filterType: u32)

  /** The documented arguments: slot 0 has no filter; the mask is a union of the byte masks, the
      type one of the two constants. */
  predicate Callable(c: Call) {
    && c.slot < SLOTS
    && (if c.SetAddress? then Address(c.p) else c.slot >= 1)
    && (c.ConfigureFilter? ==>
          c.addrMask == Field(24, 29, GetBits(c.addrMask, 24, 29)) && c.filterType in {0, BitMask(30)})
  }

  function Step(slots: seq<Slot>, c: Call): seq<Slot>
    requires |slots| == SLOTS && Callable(c)
  {
    var s := slots[c.slot];
    slots[c.slot := match c
                    case SetAddress(_, p) => Slot(p, 0, 0, 0)
                    case EnableFilter(_) => s.(enabled := 1)
                    case DisableFilter(_) => s.(enabled := 0)
                    case ConfigureFilter(_, addrMask, filterType) =>
                      s.(mask := GetBits(addrMask, 24, 29), source := if filterType == 0 then 0 else 1)]
  }

  function Run(slots: seq<Slot>, calls: seq<Call>): (r: seq<Slot>)
    requires |slots| == SLOTS && forall c <- calls :: Callable(c)
    ensures |r| == SLOTS
  {
    if calls == [] then slots
    else
      var last := |calls| - 1;
      assert Callable(calls[last]);
      Step(Run(slots, calls[..last]), calls[last])
  }

  /** Whatever is done to filters and other slots afterwards, the address last set is the one that
      is there. */
  lemma {:induction false} LastAddressStays(slots: seq<Slot>, before: seq<Call>, c: Call, after: seq<Call>)
    requires |slots| == SLOTS && c.SetAddress?
    requires forall d <- before + [c] + after :: Callable(d)
    requires forall a <- after :: !(a.SetAddress? && a.slot == c.slot)
    ensures c.slot < SLOTS && Run(slots, before + [c] + after)[c.slot].address == c.p
    decreases |after|
  {
    assert c in before + [c] + after;
    var all := before + [c] + after;
    if after == [] {
      assert all[..|all| - 1] == before && all[|all| - 1] == c;
    } else {
      var k := |after| - 1;
      assert all[..|all| - 1] == before + [c] + after[..k] && all[|all| - 1] == after[k];
      assert after[k] in after && forall a <- after[..k] :: a in after;
      LastAddressStays(slots, before, c, after[..k]);
    }
  }

  /** The calls that decide whether the filter of a slot is enabled, and what it compares. */
  predicate DecidesEnabled(c: Call, slot: nat) {
    !c.ConfigureFilter? && c.slot == slot
  }

  predicate DecidesFilter(c: Call, slot: nat) {
    (c.SetAddress? || c.ConfigureFilter?) && c.slot == slot
  }

  /** The filter of a slot is enabled after a run exactly when the last call that set its address or
      enabled or disabled it was an EnableFilter; its mask and type are those of the last
      ConfigureFilter, unless the address was set after it. */
  lemma {:induction false} LastCallDecides(slots: seq<Slot>, before: seq<Call>, c: Call, after: seq<Call>)
    requires |slots| == SLOTS && forall d <- before + [c] + after :: Callable(d)
    ensures c.slot < SLOTS
    ensures var s := Run(slots, before + [c] + after)[c.slot];
            && (DecidesEnabled(c, c.slot) && (forall a <- after :: !DecidesEnabled(a, c.slot)) ==>
                  s.enabled == if c.EnableFilter? then 1 else 0)
            && (DecidesFilter(c, c.slot) && (forall a <- after :: !DecidesFilter(a, c.slot)) ==>
                  && s.mask == (if c.ConfigureFilter? then GetBits(c.addrMask, 24, 29) else 0)
                  && s.source == (if c.ConfigureFilter? && c.filterType != 0 then 1 else 0))
    decreases |after|
  {
    hide GetBits, Field, BitMask;
    var all := before + [c] + after;
    assert c in all;
    if after == [] {
      assert all[..|all| - 1] == before && all[|all| - 1] == c;
    } else {
      var k := |after| - 1;
      assert all[..|all| - 1] == before + [c] + after[..k] && all[|all| - 1] == after[k];
      assert after[k] in after && forall a <- after[..k] :: a in after;
      LastCallDecides(slots, before, c, after[..k]);
    }
  }

  /** What no call of a run decides for a slot stays as it was: calls on other slots change nothing. */
  lemma {:induction false} UndecidedStays(slots: seq<Slot>, calls: seq<Call>, slot: nat)
    requires |slots| == SLOTS && slot < SLOTS && forall c <- calls :: Callable(c)
    ensures var s, s' := slots[slot], Run(slots, calls)[slot];
            && ((forall c <- calls :: !DecidesEnabled(c, slot)) ==> s'.enabled == s.enabled)
            && ((forall c <- calls :: !DecidesFilter(c, slot)) ==> s'.mask == s.mask && s'.source == s.source)
            && ((forall c <- calls :: !(c.SetAddress? && c.slot == slot)) ==> s'.address == s.address)
  {
    hide GetBits, Field, BitMask;
    if calls != [] {
      var k := |calls| - 1;
      assert calls[k] in calls && forall c <- calls[..k] :: c in calls;
      UndecidedStays(slots, calls[..k], slot);
    }
  }

  /** Setting an address switches the filter of the slot off: its filter settings survive exactly
      when there were none. */
  lemma SetKeepsFilterIff(slots: seq<Slot>, c: Call)
    requires |slots| == SLOTS && c.SetAddress? && Callable(c)
    ensures var before, after := slots[c.slot], Step(slots, c)[c.slot];
            (after.mask, after.source, after.enabled) == (before.mask, before.source, before.enabled)
            <==> before.mask == 0 && before.source == 0 && before.enabled == 0
  {
  }

  // ----- the words -----

  /** The byte the driver extracts by shift and mask is the field of the register. */
  lemma ByteOfWord(w: u32, k: nat)
    requires k < 4
    ensures And(Shr(w, 8 * k), 0xFF) == GetBits(w, 8 * k, 8 * k + 7)
  {
    PowersOfTwo();
    assert 0xFF == Pow2(8) - 1;
    WordBits();
    FieldBits();
    forall i: nat | i < 32
      ensures Bit(And(Shr(w, 8 * k), 0xFF), i) <==> Bit(GetBits(w, 8 * k, 8 * k + 7), i)
    {
      OnesBit(8, i);
    }
    WordExtensionality(And(Shr(w, 8 * k), 0xFF), GetBits(w, 8 * k, 8 * k + 7));
  }

  lemma ByteField(b: u32, k: nat)
    requires b < 0x100 && k < 4
    ensures b < Pow2(8) && Shl(b, 8 * k) == Field(8 * k, 8 * k + 7, b)
    ensures k == 0 ==> Shl(b, 8 * k) == b
  {
    PowersOfTwo();
    FieldFits(8 * k, 8 * k + 7, b);
  }

  lemma PackedLow(p: seq<u8>)
    requires Address(p)
    ensures var w := PackLow(p);
            && GetBits(w, 0, 7) == p[0] && GetBits(w, 8, 15) == p[1]
            && GetBits(w, 16, 23) == p[2] && GetBits(w, 24, 31) == p[3]
  {
    hide Field, Shl, Or, GetBits, Union, Pow2;
    ByteField(p[0], 0);
    ByteField(p[1], 1);
    ByteField(p[2], 2);
    ByteField(p[3], 3);
    var parts: seq<Part> := [Placed(24, 31, p[3]), Placed(16, 23, p[2]), Placed(8, 15, p[1]), Placed(0, 7, p[0])];
    UnionOfFour(parts[0], parts[1], parts[2], parts[3]);
    PartReadExactly(parts, 0);
    PartReadExactly(parts, 1);
    PartReadExactly(parts, 2);
    PartReadExactly(parts, 3);
  }

  lemma PackedHigh(p: seq<u8>)
    requires Address(p)
    ensures var w := PackHigh(p);
            && GetBits(w, 0, 7) == p[4] && GetBits(w, 8, 15) == p[5]
            && GetBits(w, 24, 29) == 0 && GetBits(w, 30, 30) == 0 && GetBits(w, 31, 31) == 0
            && GetBits(w, 16, 31) == 0
  {
    ByteField(p[4], 0);
    ByteField(p[5], 1);
    var parts: seq<Part> := [Placed(8, 15, p[5]), Placed(0, 7, p[4])];
    UnionOfOne(parts[0]);
    UnionSnoc([parts[0]], parts[1]);
    assert [parts[0]] + [parts[1]] == parts;
    PartReadExactly(parts, 0);
    PartReadExactly(parts, 1);
    NothingWritten(parts, 24, 29);
    NothingWritten(parts, 30, 30);
    NothingWritten(parts, 31, 31);
    NothingWritten(parts, 16, 31);
  }

  lemma PackedSlot(p: seq<u8>)
    requires Address(p)
    ensures SlotOf(PackHigh(p), PackLow(p)) == Slot(p, 0, 0, 0)
  {
    PackedLow(p);
    PackedHigh(p);
  }

  /** A masked update of the high register changes one filter field. */
  lemma UpdatedHigh(high: u32, low: u32, start: nat, end: nat, v: u32)
    requires (start, end) in {(24, 29), (30, 30), (31, 31)} && v < Pow2(end + 1 - start)
    ensures var s, s' := SlotOf(high, low), SlotOf(Insert(high, start, end, v), low);
            s' == if start == 24 then s.(mask := v) else if start == 30 then s.(source := v) else s.(enabled := v)
  {
    PutGet(high, start, end, v);
    HalvedValue(v, end + 1 - start);
    SmallLowPart(v, end + 1 - start);
    PutFrame(high, start, end, v, 0, 7);
    PutFrame(high, start, end, v, 8, 15);
    if start != 24 { PutFrame(high, start, end, v, 24, 29); }
    if start != 30 { PutFrame(high, start, end, v, 30, 30); }
    if start != 31 { PutFrame(high, start, end, v, 31, 31); }
  }

  lemma Bit31Ops(w: u32)
    ensures Or(w, BitMask(31)) == Insert(w, 31, 31, 1)
    ensures And(w, Not(BitMask(31))) == Insert(w, 31, 31, 0)
  {
    hide *;
    WordBits();
    FieldBits();
    OneBitFacts();
    forall i: nat | i < 32
      ensures Bit(Or(w, BitMask(31)), i) <==> Bit(Insert(w, 31, 31, 1), i)
      ensures Bit(And(w, Not(BitMask(31))), i) <==> Bit(Insert(w, 31, 31, 0), i)
    {
    }
    WordExtensionality(Or(w, BitMask(31)), Insert(w, 31, 31, 1));
    WordExtensionality(And(w, Not(BitMask(31))), Insert(w, 31, 31, 0));
  }

  lemma TopBit(w: u32)
    ensures Bit(Or(w, BitMask(31)), 31) && !Bit(And(w, Not(BitMask(31))), 31)
    ensures forall i: nat | i < 31 :: Bit(Or(w, BitMask(31)), i) <==> Bit(w, i)
    ensures forall i: nat | i < 31 :: Bit(And(w, Not(BitMask(31))), i) <==> Bit(w, i)
  {
    hide *;
    WordBits();
    FieldBits();
  }

  lemma ConfiguredBits(w: u32, addrMask: u32, filterType: u32)
    requires addrMask == Field(24, 29, GetBits(addrMask, 24, 29)) && filterType in {0, BitMask(30)}
    ensures forall i: nat | i < 32 ::
              Bit(Or(And(w, Not(Or(Bits(24, 29), BitMask(30)))), Or(addrMask, filterType)), i)
              <==> if 24 <= i <= 29 then Bit(addrMask, i) else if i == 30 then filterType != 0 else Bit(w, i)
  {
    NonZeroBit();
    hide *;
    WordBits();
    FieldBits();
    forall i: nat
      ensures !Bit(0, i)
      ensures Bit(addrMask, i) <==> Bit(Field(24, 29, GetBits(addrMask, 24, 29)), i)
    {
      ZeroBit(i);
    }
  }

  lemma MoBitHidden(w: u32)
    ensures GetBits(Or(w, BitMask(31)), 0, 7) == GetBits(w, 0, 7)
    ensures GetBits(Or(w, BitMask(31)), 8, 15) == GetBits(w, 8, 15)
  {
    Bit31Ops(w);
    PutFrame(w, 31, 31, 1, 0, 7);
    PutFrame(w, 31, 31, 1, 8, 15);
  }

  lemma OneBitFacts()
    ensures Bit(1, 0) && !Bit(0, 0)
  {
  }

  /** `(reg & ~(MB | SAF)) | (addr_mask | filter_type)` as two masked updates. */
  lemma ConfiguredHigh(w: u32, addrMask: u32, filterType: u32)
    requires addrMask == Field(24, 29, GetBits(addrMask, 24, 29)) && filterType in {0, BitMask(30)}
    ensures Or(And(w, Not(Or(Bits(24, 29), BitMask(30)))), Or(addrMask, filterType))
            == Insert(Insert(w, 24, 29, GetBits(addrMask, 24, 29)), 30, 30, if filterType == 0 then 0 else 1)
  {
    NonZeroBit();
    hide *;
    WordBits();
    FieldBits();
    OneBitFacts();
    var v, t := GetBits(addrMask, 24, 29), if filterType == 0 then 0 else 1;
    var l := Or(And(w, Not(Or(Bits(24, 29), BitMask(30)))), Or(addrMask, filterType));
    var r := Insert(Insert(w, 24, 29, v), 30, 30, t);
    forall i: nat | i < 32
      ensures Bit(l, i) <==> Bit(r, i)
    {
      ZeroBit(i);
      assert Bit(addrMask, i) <==> Bit(Field(24, 29, v), i);
    }
    WordExtensionality(l, r);
  }

  lemma NonZeroBit()
    ensures BitMask(30) != 0
  {
    hide *;
    FieldBits();
    ZeroBit(30);
    assert Bit(BitMask(30), 30);
  }

  class MacRegisters {
    /** ENET_MAC_ADDR0H to ENET_MAC_ADDR3L: the eight words from offset 0x40 on. */
    const regs: array<u32>

    ghost predicate Valid()
      reads this
    {
      regs.Length == 2 * SLOTS
    }

    ghost function Slots(): (slots: seq<Slot>)
      requires Valid()
      reads this, regs
      ensures |slots| == SLOTS
    {
      seq(SLOTS, i requires 0 <= i < SLOTS && Valid() reads this, regs => SlotOf(regs[2 * i], regs[2 * i + 1]))
    }

    constructor (words: array<u32>)
      requires words.Length == 2 * SLOTS
      ensures Valid() && regs == words
    {
      regs := words;
    }

    /** REG32(ENET + offset); bit 31 of the high register of slot 0 always reads 1. */
    function Load(offset: nat): u32
      requires Valid() && 0x40 <= offset <= 0x5C && offset % 4 == 0
      reads this, regs
    {
      var w := regs[(offset - 0x40) / 4];
      if offset == 0x40 then Or(w, BitMask(31)) else w
    }

    method Store(offset: nat, value: u32)
      requires Valid() && 0x40 <= offset <= 0x5C && offset % 4 == 0
      modifies regs
      ensures regs[..] == old(regs[..][(offset - 0x40) / 4 := value])
    {
      regs[(offset - 0x40) / 4] := value;
    }

    /** ENET_GET_MACADDR(offset, n) */
    function GetByte(slot: nat, n: nat): u8
      requires Valid() && slot < SLOTS && n < 6
      reads this, regs
    {
      And(Shr(Load(0x44 + 8 * slot - (n / 4) * 4), 8 * (n % 4)), 0xFF)
    }

    /** The byte read is the byte of the slot, whatever the upper half of the register shows. */
    lemma GetByteReadsSlot(slot: nat, n: nat)
      requires Valid() && slot < SLOTS && n < 6
      ensures GetByte(slot, n) == Slots()[slot].address[n]
    {
      hide And, Shr, GetBits, Or, Insert, BitMask;
      ByteOfWord(Load(0x44 + 8 * slot - (n / 4) * 4), n % 4);
      if n < 4 {
        assert Load(0x44 + 8 * slot - (n / 4) * 4) == regs[2 * slot + 1];
      } else {
        assert Load(0x44 + 8 * slot - (n / 4) * 4) == if slot == 0 then Or(regs[0], BitMask(31)) else regs[2 * slot];
        MoBitHidden(regs[0]);
      }
    }

    method AddressSet(slot: nat, paddr: array<u8>)
      requires Valid() && slot < SLOTS && paddr.Length >= 6
      modifies regs
      ensures Valid() && Slots() == Step(old(Slots()), SetAddress(slot, paddr[..6]))
      ensures var high, low := regs[2 * slot], regs[2 * slot + 1];
              && GetBits(low, 0, 7) == paddr[0] && GetBits(low, 8, 15) == paddr[1]
              && GetBits(low, 16, 23) == paddr[2] && GetBits(low, 24, 31) == paddr[3]
              && GetBits(high, 0, 7) == paddr[4] && GetBits(high, 8, 15) == paddr[5] && GetBits(high, 16, 31) == 0
              && regs[..] == old(regs[..])[2 * slot := high][2 * slot + 1 := low]
    {
      hide GetBits, PackHigh, PackLow;
      PackedSlot(paddr[..6]);
      PackedHigh(paddr[..6]);
      PackedLow(paddr[..6]);
      Store(0x40 + 8 * slot, PackHigh(paddr[..6]));
      Store(0x44 + 8 * slot, PackLow(paddr[..6]));
    }

    method AddressGet(slot: nat, paddr: array<u8>)
      requires Valid() && slot < SLOTS && paddr.Length >= 6
      modifies paddr
      ensures paddr[..6] == Slots()[slot].address && paddr[6..] == old(paddr[6..])
      ensures var high, low := regs[2 * slot], regs[2 * slot + 1];
              && paddr[0] == GetBits(low, 0, 7) && paddr[1] == GetBits(low, 8, 15)
              && paddr[2] == GetBits(low, 16, 23) && paddr[3] == GetBits(low, 24, 31)
              && paddr[4] == GetBits(high, 0, 7) && paddr[5] == GetBits(high, 8, 15)
    {
      hide GetByte, GetBits;
      for n := 0 to 6
        invariant forall k | 0 <= k < n :: paddr[k] == Slots()[slot].address[k]
        invariant paddr[6..] == old(paddr[6..])
      {
        GetByteReadsSlot(slot, n);
        paddr[n] := GetByte(slot, n);
      }
    }

    /** Writes the high register of a slot. */
    method StoreHigh(slot: nat, value: u32)
      requires Valid() && slot < SLOTS
      modifies regs
      ensures Valid() && Slots() == old(Slots())[slot := SlotOf(value, old(regs[2 * slot + 1]))]
      ensures regs[..] == old(regs[..])[2 * slot := value]
    {
      Store(0x40 + 8 * slot, value);
    }

    method FilterEnable(slot: nat)
      requires Valid() && 1 <= slot < SLOTS
      modifies regs
      ensures Valid() && Slots() == Step(old(Slots()), EnableFilter(slot))
      ensures regs[..] == old(regs[..])[2 * slot := regs[2 * slot]] && Bit(regs[2 * slot], 31)
      ensures forall i: nat | i < 31 :: Bit(regs[2 * slot], i) <==> Bit(old(regs[2 * slot]), i)
    {
      hide SlotOf, Or, Insert, BitMask, Pow2, Bit;
      Bit31Ops(regs[2 * slot]);
      Widths();
      UpdatedHigh(regs[2 * slot], regs[2 * slot + 1], 31, 31, 1);
      TopBit(regs[2 * slot]);
      StoreHigh(slot, Or(Load(0x40 + 8 * slot), BitMask(31)));
    }

    method FilterDisable(slot: nat)
      requires Valid() && 1 <= slot < SLOTS
      modifies regs
      ensures Valid() && Slots() == Step(old(Slots()), DisableFilter(slot))
      ensures regs[..] == old(regs[..])[2 * slot := regs[2 * slot]] && !Bit(regs[2 * slot], 31)
      ensures forall i: nat | i < 31 :: Bit(regs[2 * slot], i) <==> Bit(old(regs[2 * slot]), i)
    {
      hide SlotOf, Or, Insert, And, Not, BitMask, Pow2, Bit;
      Bit31Ops(regs[2 * slot]);
      Widths();
      UpdatedHigh(regs[2 * slot], regs[2 * slot + 1], 31, 31, 0);
      TopBit(regs[2 * slot]);
      StoreHigh(slot, And(Load(0x40 + 8 * slot), Not(BitMask(31))));
    }

    method FilterConfig(slot: nat, addrMask: u32, filterType: u32)
      requires Valid() && Callable(ConfigureFilter(slot, addrMask, filterType))
      modifies regs
      ensures Valid() && Slots() == Step(old(Slots()), ConfigureFilter(slot, addrMask, filterType))
      ensures regs[..] == old(regs[..])[2 * slot := regs[2 * slot]]
      ensures forall i: nat | i < 32 ::
                Bit(regs[2 * slot], i) <==> if 24 <= i <= 29 then Bit(addrMask, i)
                                            else if i == 30 then filterType != 0 else Bit(old(regs[2 * slot]), i)
    {
      hide SlotOf, Or, Insert, And, Not, Bits, BitMask, Field, GetBits, Pow2, Bit;
      var reg := Load(0x40 + 8 * slot);
      ConfiguredSlot(reg, regs[2 * slot + 1], addrMask, filterType);
      ConfiguredBits(reg, addrMask, filterType);
      reg := And(reg, Not(Or(Bits(24, 29), BitMask(30))));
      reg := Or(reg, Or(addrMask, filterType));
      StoreHigh(slot, reg);
    }
  }

  lemma ConfiguredSlot(high: u32, low: u32, addrMask: u32, filterType: u32)
    requires addrMask == Field(24, 29, GetBits(addrMask, 24, 29)) && filterType in {0, BitMask(30)}
    ensures SlotOf(Or(And(high, Not(Or(Bits(24, 29), BitMask(30)))), Or(addrMask, filterType)), low)
            == SlotOf(high, low).(mask := GetBits(addrMask, 24, 29), source := if filterType == 0 then 0 else 1)
  {
    ConfiguredHigh(high, addrMask, filterType);
    Widths();
    GetBitsBound(addrMask, 24, 29);
    var v := GetBits(addrMask, 24, 29);
    UpdatedHigh(high, low, 24, 29, v);
    UpdatedHigh(Insert(high, 24, 29, v), low, 30, 30, if filterType == 0 then 0 else 1);
  }

  lemma Widths()
    ensures Pow2(1) == 2 && Pow2(6) == 64
  {
  }
}
