/**
  The Application Interrupt and Reset Control Register: the words the drivers write and what
  the register holds afterwards (section B3.2.6 of the ARMv7-M Architecture Reference Manual).
  A write is accepted only with the key 0x05FA in the upper half; the upper half reads 0xFA05.
*/
module Aircr {
  import opened Words
  import opened BitFields
  import opened FieldUnions
  import opened Priority

  const VECTKEY: u32 := 0x05FA
  const VECTKEYSTAT: u32 := 0xFA05

  predicate Keyed(written: u32) {
    GetBits(written, 16, 31) == VECTKEY
  }

  /** The register after a write. */
  function AfterWrite(aircr: u32, written: u32): u32 {
    if Keyed(written) then Insert(written, 16, 31, VECTKEYSTAT) else aircr
  }

  /** NVIC_GetPriorityGrouping */
  function PriorityGrouping(aircr: u32): u32 {
    Shr(And(aircr, Shl(7, 8)), 8)
  }

  /** The word NVIC_SetPriorityGrouping writes. */
  function GroupingWrite(aircr: u32, group: u32): u32 {
    var kept := And(aircr, Not(Or(Shl(0xFFFF, 16), Shl(7, 8))));
    Or(Or(kept, Shl(VECTKEY, 16)), Shl(GroupOf(group), 8))
  }

  /** The word NVIC_SystemReset writes. */
  function ResetWrite(aircr: u32): u32 {
    Or(Or(Shl(VECTKEY, 16), And(aircr, Shl(7, 8))), Shl(1, 2))
  }

  /** The groupings documented for nvic_priority_group_set. */
  predicate VendorGrouping(prigroup: u32) {
    prigroup in {0x300, 0x400, 0x500, 0x600, 0x700}
  }

  /** The word nvic_priority_group_set writes. */
  function VendorGroupingWrite(prigroup: u32): u32 {
    Or(0x05FA_0000, prigroup)
  }

  /** The register fields other than the key and the grouping. */
  predicate SameElsewhere(x: u32, y: u32) {
    GetBits(x, 0, 7) == GetBits(y, 0, 7) && GetBits(x, 11, 15) == GetBits(y, 11, 15)
  }

  // ----- the shifted masks as fields -----

  lemma Masks()
    ensures Shl(0xFFFF, 16) == Bits(16, 31)
    ensures Shl(7, 8) == Bits(8, 10)
    ensures Shl(1, 2) == Bits(2, 2)
    ensures Shl(VECTKEY, 16) == Field(16, 31, VECTKEY) == 0x05FA_0000
  {
    PowersOfTwo();
    FullField(16, 31);
    FieldFits(16, 31, 0xFFFF);
    FullField(8, 10);
    FieldFits(8, 10, 7);
    FullField(2, 2);
    FieldFits(2, 2, 1);
    FieldFits(16, 31, VECTKEY);
  }

  lemma GroupingIsField(aircr: u32)
    ensures PriorityGrouping(aircr) == GetBits(aircr, 8, 10) <= 7
  {
    Masks();
    PowersOfTwo();
    GetBitsBound(aircr, 8, 10);
  }

  /** The written word, field by field, as a chain of masked updates. */
  lemma GroupingWriteFields(aircr: u32, group: u32)
    ensures GroupingWrite(aircr, group) == Insert(Insert(aircr, 16, 31, VECTKEY), 8, 10, GroupOf(group))
  {
    var g := GroupOf(group);
    Masks();
    PowersOfTwo();
    FieldFits(8, 10, g);
    hide *;
    GroupingUnion(aircr, g, Bits(16, 31), Bits(8, 10));
  }

  lemma GroupingUnion(aircr: u32, g: u32, key: u32, point: u32)
    requires key == Bits(16, 31) && point == Bits(8, 10)
    ensures Or(Or(And(aircr, Not(Or(key, point))), Field(16, 31, VECTKEY)), Field(8, 10, g))
            == Insert(Insert(aircr, 16, 31, VECTKEY), 8, 10, g)
  {
    hide *;
    FieldBits();
    WordBits();
    var l := Or(Or(And(aircr, Not(Or(key, point))), Field(16, 31, VECTKEY)), Field(8, 10, g));
    var r := Insert(Insert(aircr, 16, 31, VECTKEY), 8, 10, g);
    forall i: nat | i < 32
      ensures Bit(l, i) <==> Bit(r, i)
    {
    }
    WordExtensionality(l, r);
  }

  // ----- what each write does -----

  /** NVIC_SetPriorityGrouping: the write is keyed, the register then holds the group modulo 8,
      and every other field is as it was. */
  lemma SetGroupingOutcome(aircr: u32, group: u32)
    ensures var w := GroupingWrite(aircr, group);
            && Keyed(w) && SameElsewhere(w, aircr)
            && GetBits(w, 16, 31) == 0x05FA
            && PriorityGrouping(AfterWrite(aircr, w)) == GroupOf(group)
            && GetBits(AfterWrite(aircr, w), 8, 10) == group % 8
            && SameElsewhere(AfterWrite(aircr, w), aircr)
  {
    var g := GroupOf(group);
    var keyed := Insert(aircr, 16, 31, VECTKEY);
    var w := Insert(keyed, 8, 10, g);
    GroupValue(group);
    GroupingWriteFields(aircr, group);
    GroupingIsField(AfterWrite(aircr, w));
    FieldWidths(g);
    PutGet(aircr, 16, 31, VECTKEY);
    PutFrame(keyed, 8, 10, g, 16, 31);
    PutGet(keyed, 8, 10, g);
    SameOutsideKeyAndGroup(aircr, VECTKEY, g);
    PutFrame(w, 16, 31, VECTKEYSTAT, 8, 10);
    PutFrame(w, 16, 31, VECTKEYSTAT, 0, 7);
    PutFrame(w, 16, 31, VECTKEYSTAT, 11, 15);
  }

  lemma FieldWidths(g: u32)
    requires g <= 7
    ensures VECTKEY < Pow2(16) && VECTKEY % Pow2(16) == VECTKEY
    ensures g < Pow2(3) && g % Pow2(3) == g
    ensures 4 < Pow2(8)
  {
    PowersOfTwo();
  }

  lemma SameOutsideKeyAndGroup(r: u32, k: u32, g: u32)
    ensures SameElsewhere(Insert(Insert(r, 16, 31, k), 8, 10, g), r)
  {
    PutFrame(r, 16, 31, k, 0, 7);
    PutFrame(r, 16, 31, k, 11, 15);
    PutFrame(Insert(r, 16, 31, k), 8, 10, g, 0, 7);
    PutFrame(Insert(r, 16, 31, k), 8, 10, g, 11, 15);
  }

  /** The register after a run of NVIC_SetPriorityGrouping calls. */
  function AfterGroupings(aircr: u32, groups: seq<u32>): u32
    decreases groups
  {
    if groups == [] then aircr
    else AfterGroupings(AfterWrite(aircr, GroupingWrite(aircr, groups[0])), groups[1..])
  }

  /** The words such a run writes. */
  function GroupingWrites(aircr: u32, groups: seq<u32>): seq<u32>
    decreases groups
  {
    if groups == [] then []
    else [GroupingWrite(aircr, groups[0])]
         + GroupingWrites(AfterWrite(aircr, GroupingWrite(aircr, groups[0])), groups[1..])
  }

  /** Over any run: every write is keyed and touches nothing but the grouping, the last group
      requested is read back modulo 8, and the write of a following NVIC_SystemReset keeps it. */
  lemma {:induction false} GroupingRun(aircr: u32, groups: seq<u32>)
    ensures forall w <- GroupingWrites(aircr, groups) :: Keyed(w) && SameElsewhere(w, aircr)
    ensures SameElsewhere(AfterGroupings(aircr, groups), aircr)
    ensures groups != [] ==>
              PriorityGrouping(AfterGroupings(aircr, groups)) == GroupOf(groups[|groups| - 1])
    ensures PriorityGrouping(ResetWrite(AfterGroupings(aircr, groups)))
            == PriorityGrouping(AfterGroupings(aircr, groups))
    decreases groups
  {
    if groups == [] {
      ResetOutcome(aircr);
    } else {
      SetGroupingOutcome(aircr, groups[0]);
      GroupingRun(AfterWrite(aircr, GroupingWrite(aircr, groups[0])), groups[1..]);
    }
  }

  /** NVIC_SystemReset: a keyed write that requests the reset, keeps the grouping and sets
      nothing else. */
  lemma ResetOutcome(aircr: u32)
    ensures var w := ResetWrite(aircr);
            && Keyed(w)
            && PriorityGrouping(w) == PriorityGrouping(aircr)
            && GetBits(w, 0, 7) == 4 && GetBits(w, 11, 15) == 0
  {
    var g := GetBits(aircr, 8, 10);
    Masks();
    GroupingIsField(aircr);
    GroupingIsField(ResetWrite(aircr));
    GetBitsAsMask(aircr, 8, 10);
    ResetBit();
    FieldWidths(g);
    ThreeFields(VECTKEY, g, 4);
  }

  lemma ResetBit()
    ensures Shl(1, 2) == Field(0, 7, 4)
  {
    PowersOfTwo();
    FieldFits(0, 7, 4);
    ShlExact(1, 2);
  }

  lemma ThreeFields(k: u32, g: u32, v: u32)
    requires k < Pow2(16) && g < Pow2(3) && v < Pow2(8)
    ensures var w := Or(Or(Field(16, 31, k), Field(8, 10, g)), Field(0, 7, v));
            && GetBits(w, 16, 31) == k && GetBits(w, 8, 10) == g && GetBits(w, 0, 7) == v
            && GetBits(w, 11, 15) == 0
  {
    hide Field, GetBits, Or, Union, Pow2;
    var parts: seq<Part> := [Placed(16, 31, k), Placed(8, 10, g), Placed(0, 7, v)];
    UnionOfThree(parts[0], parts[1], parts[2]);
    PartReadExactly(parts, 0);
    PartReadExactly(parts, 1);
    PartReadExactly(parts, 2);
    NothingWritten(parts, 11, 15);
  }

  /** nvic_priority_group_set installs the requested grouping, but writes zeros elsewhere: it has
      the effect of NVIC_SetPriorityGrouping exactly when the other fields were zero already. */
  lemma VendorGroupingAgreesIff(aircr: u32, prigroup: u32)
    requires VendorGrouping(prigroup)
    ensures var w := VendorGroupingWrite(prigroup);
            && Keyed(w)
            && GetBits(w, 16, 31) == 0x05FA
            && PriorityGrouping(AfterWrite(aircr, w)) == GetBits(AfterWrite(aircr, w), 8, 10) == prigroup / 0x100
            && GetBits(AfterWrite(aircr, w), 0, 7) == 0 && GetBits(AfterWrite(aircr, w), 11, 15) == 0
            && (AfterWrite(aircr, w) == AfterWrite(aircr, GroupingWrite(aircr, prigroup / 0x100))
                <==> GetBits(aircr, 0, 7) == 0 && GetBits(aircr, 11, 15) == 0)
  {
    hide Halved, Doubled, LowPart, Bit, Pow2, Bits, Field, Insert, GetBits, Shl, And, Or, PriorityGrouping,
         GroupingWrite, VendorGroupingWrite, GroupOf;
    var g := prigroup / 0x100;
    var w, w' := VendorGroupingWrite(prigroup), GroupingWrite(aircr, g);
    VendorWriteFields(prigroup);
    SetGroupingOutcome(aircr, g);
    GroupValue(g);
    AcceptedFields(aircr, w);
    AcceptedFields(aircr, w');
    GroupingIsField(AfterWrite(aircr, w));
    if GetBits(aircr, 0, 7) == 0 && GetBits(aircr, 11, 15) == 0 {
      GroupingIsField(w');
      FourFieldsDetermine(w, w');
    }
  }

  /** An accepted write installs the fields below the key. */
  lemma AcceptedFields(aircr: u32, w: u32)
    requires Keyed(w)
    ensures var r := AfterWrite(aircr, w);
            SameElsewhere(r, w) && PriorityGrouping(r) == PriorityGrouping(w) == GetBits(w, 8, 10)
  {
    PutFrame(w, 16, 31, VECTKEYSTAT, 0, 7);
    PutFrame(w, 16, 31, VECTKEYSTAT, 8, 10);
    PutFrame(w, 16, 31, VECTKEYSTAT, 11, 15);
    GroupingIsField(w);
    GroupingIsField(AfterWrite(aircr, w));
  }

  lemma VendorWriteFields(prigroup: u32)
    requires VendorGrouping(prigroup)
    ensures var w := VendorGroupingWrite(prigroup);
            && Keyed(w) && PriorityGrouping(w) == prigroup / 0x100
            && GetBits(w, 0, 7) == 0 && GetBits(w, 11, 15) == 0
  {
    hide Halved, Doubled, LowPart, Bit, Pow2, Bits, Field, Insert, GetBits, Shl, And, Or, PriorityGrouping;
    var g := prigroup / 0x100;
    GroupingIsField(VendorGroupingWrite(prigroup));
    VendorUnion(g);
    FieldWidths(g);
    ThreeFields(VECTKEY, g, 0);
  }

  lemma VendorUnion(g: u32)
    requires 3 <= g <= 7
    ensures Or(0x05FA_0000, g * 0x100) == Or(Or(Field(16, 31, VECTKEY), Field(8, 10, g)), Field(0, 7, 0))
  {
    Masks();
    PowersOfTwo();
    FieldFits(8, 10, g);
    FieldFits(0, 7, 0);
    OrZero(Or(0x05FA_0000, g * 0x100));
  }

  /** A word is determined by its four fields. */
  lemma FourFieldsDetermine(x: u32, y: u32)
    requires GetBits(x, 16, 31) == GetBits(y, 16, 31) && GetBits(x, 11, 15) == GetBits(y, 11, 15)
    requires GetBits(x, 8, 10) == GetBits(y, 8, 10) && GetBits(x, 0, 7) == GetBits(y, 0, 7)
    ensures x == y
  {
    hide *;
    FieldBits();
    forall i: nat | i < 32
      ensures Bit(x, i) <==> Bit(y, i)
    {
      if i >= 16 {
        assert Bit(GetBits(x, 16, 31), i - 16) <==> Bit(x, i - 16 + 16);
        assert Bit(GetBits(y, 16, 31), i - 16) <==> Bit(y, i - 16 + 16);
      } else if i >= 11 {
        assert Bit(GetBits(x, 11, 15), i - 11) <==> Bit(x, i - 11 + 11);
        assert Bit(GetBits(y, 11, 15), i - 11) <==> Bit(y, i - 11 + 11);
      } else if i >= 8 {
        assert Bit(GetBits(x, 8, 10), i - 8) <==> Bit(x, i - 8 + 8);
        assert Bit(GetBits(y, 8, 10), i - 8) <==> Bit(y, i - 8 + 8);
      } else {
        assert Bit(GetBits(x, 0, 7), i) <==> Bit(x, i + 0);
        assert Bit(GetBits(y, 0, 7), i) <==> Bit(y, i + 0);
      }
    }
    WordExtensionality(x, y);
  }
}
