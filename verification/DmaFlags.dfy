/**
  The DMA interrupt flags: eight channels in two status registers, four channels each, six bit
  positions per channel, placed by DMA_FLAG_ADD; and the addresses of the channel registers.
*/
module DmaFlags {
  import opened Words
  import opened BitFields

  const CHANNELS := 8
  /** The five flags of a channel; position 1 is reserved (DMA_CHINTF_RESET_VALUE). */
  const CHANNEL_FLAGS: u32 := 0x3D

  /** `channel * 6 + ((channel >> 1) & 1) * 4`, for a channel of its bank. */
  function FlagShift(channel: nat): nat
    requires channel < 4
  {
    channel * 6 + And(Shr(channel, 1), 1) * 4
  }

  /** DMA_FLAG_ADD */
  function FlagAdd(flags: u32, channel: nat): u32
    requires channel < 4
  {
    Shl(flags, FlagShift(channel))
  }

  predicate Flags(flags: u32) {
    flags < 64 && And(flags, CHANNEL_FLAGS) == flags
  }

  lemma Shifts()
    ensures FlagShift(0) == 0 && FlagShift(1) == 6 && FlagShift(2) == 16 && FlagShift(3) == 22
  {
    hide And, Shr;
    Shifted(0, 1);
    Shifted(1, 1);
    Shifted(2, 1);
    Shifted(3, 1);
    Computed(0, 1);
    Computed(1, 1);
  }

  /** The lowest bits of the four channels of a bank. */
  const PLACES: seq<nat> := [0, 6, 16, 22]

  /** Flag i of a channel stands i positions above the lowest bit of the channel, and nothing else is
      set. */
  lemma FlagPlace(flags: u32, channel: nat, i: nat)
    requires channel < 4 && flags < 64 && i < 32
    ensures Bit(FlagAdd(flags, channel), i)
            <==> PLACES[channel] <= i < PLACES[channel] + 6 && Bit(flags, i - PLACES[channel])
  {
    Shifts();
    hide Field, FlagShift, FlagAdd, Bit;
    FlagsPlaced(flags, channel);
    FieldBits();
  }

  /** The flags a status register shows for a channel of its bank. */
  function Shown(status: u32, channel: nat): u32
    requires channel < 4
  {
    ShiftBound(channel);
    GetBits(status, FlagShift(channel), FlagShift(channel) + 5)
  }

  lemma ShiftBound(channel: nat)
    requires channel < 4
    ensures FlagShift(channel) + 5 <= 27
  {
    Shifts();
  }

  /** The slots of different channels do not overlap. */
  lemma SlotsDisjoint(c: nat, d: nat)
    requires c < 4 && d < 4 && c != d
    ensures Disjoint(FlagShift(c), FlagShift(c) + 5, FlagShift(d), FlagShift(d) + 5)
  {
    Shifts();
  }

  lemma FlagsPlaced(flags: u32, channel: nat)
    requires channel < 4 && flags < 64
    ensures var s := FlagShift(channel); s + 5 <= 27 && FlagAdd(flags, channel) == Field(s, s + 5, flags)
  {
    ShiftBound(channel);
    SixBits();
    FieldFits(FlagShift(channel), FlagShift(channel) + 5, flags);
  }

  lemma SixBits()
    ensures Pow2(6) == 64
  {
    PowersOfTwo();
  }

  // ----- clearing -----

  /** Clearing flags of one channel removes exactly these and keeps every other channel's. */
  lemma ClearedShown(status: u32, channel: nat, flags: u32, other: nat)
    requires channel < 4 && other < 4 && flags < 64
    ensures Shown(And(status, Not(FlagAdd(flags, channel))), other)
            == if other == channel then And(Shown(status, other), Not(flags)) else Shown(status, other)
  {
    FlagsPlaced(flags, channel);
    ShiftBound(other);
    if other == channel {
      ClearedOwn(status, FlagShift(channel), flags);
    } else {
      SlotsDisjoint(other, channel);
      ClearedOther(status, FlagShift(channel), flags, FlagShift(other));
    }
  }

  lemma ClearedOwn(status: u32, s: nat, flags: u32)
    requires s + 5 <= 31
    ensures GetBits(And(status, Not(Field(s, s + 5, flags))), s, s + 5) == And(GetBits(status, s, s + 5), Not(flags))
  {
    hide *;
    WordBits();
    FieldBits();
    var l, r := GetBits(And(status, Not(Field(s, s + 5, flags))), s, s + 5), And(GetBits(status, s, s + 5), Not(flags));
    forall i: nat | i < 32
      ensures Bit(l, i) <==> Bit(r, i)
    {
      assert i + s - s == i;
    }
    WordExtensionality(l, r);
  }

  lemma ClearedOther(status: u32, s: nat, flags: u32, t: nat)
    requires s + 5 <= 31 && t + 5 <= 31 && Disjoint(t, t + 5, s, s + 5)
    ensures GetBits(And(status, Not(Field(s, s + 5, flags))), t, t + 5) == GetBits(status, t, t + 5)
  {
    assert t + 5 < s || s + 5 < t;
    hide *;
    WordBits();
    FieldBits();
    var l, r := GetBits(And(status, Not(Field(s, s + 5, flags))), t, t + 5), GetBits(status, t, t + 5);
    forall i: nat | i < 32
      ensures Bit(l, i) <==> Bit(r, i)
    {
    }
    WordExtensionality(l, r);
  }

  /** The driver clears with a read-modify-write of the clear register, which the hardware may
      show as anything: exactly the requested flags go when what it shows holds no other pending
      flag, and only then. */
  lemma ClearIsExactIff(status: u32, shown: u32, requested: u32)
    ensures And(status, Not(Or(shown, requested))) == And(status, Not(requested))
            <==> And(And(shown, status), Not(requested)) == 0
  {
    hide *;
    WordBits();
    var l, r := And(status, Not(Or(shown, requested))), And(status, Not(requested));
    var extra := And(And(shown, status), Not(requested));
    forall i: nat | i < 32
      ensures (Bit(l, i) <==> Bit(r, i)) <==> !Bit(extra, i)
      ensures !Bit(0, i)
    {
      ZeroBit(i);
    }
    if l == r {
      WordExtensionality(extra, 0);
    }
    if extra == 0 {
      WordExtensionality(l, r);
    }
  }

  /** Testing flags by mask: set when one of them is shown for the channel. */
  lemma TestedShown(status: u32, channel: nat, flags: u32)
    requires channel < 4 && flags < 64
    ensures And(status, FlagAdd(flags, channel)) == 0 <==> And(Shown(status, channel), flags) == 0
  {
    FlagsPlaced(flags, channel);
    TestedField(status, FlagShift(channel), flags);
  }

  lemma TestedField(status: u32, s: nat, flags: u32)
    requires s + 5 <= 31 && flags < 64
    ensures And(status, Field(s, s + 5, flags)) == 0 <==> And(GetBits(status, s, s + 5), flags) == 0
  {
    hide *;
    WordBits();
    FieldBits();
    var l, r := And(status, Field(s, s + 5, flags)), And(GetBits(status, s, s + 5), flags);
    forall i: nat
      ensures !Bit(0, i)
    {
      ZeroBit(i);
    }
    if l == 0 {
      forall i: nat | i < 32
        ensures Bit(r, i) <==> Bit(0, i)
      {
        if i <= 5 {
          assert !Bit(l, i + s) && i + s - s == i;
        }
      }
      WordExtensionality(r, 0);
    }
    if r == 0 {
      forall i: nat | i < 32
        ensures Bit(l, i) <==> Bit(0, i)
      {
        if s <= i <= s + 5 {
          assert !Bit(r, i - s) && i - s + s == i;
        }
      }
      WordExtensionality(l, 0);
    }
  }

  // ----- the controller -----

  /** The pending flags of the eight channels. */
  type Pending = p: seq<u32> | |p| == CHANNELS witness [0, 0, 0, 0, 0, 0, 0, 0]

  datatype Call = Clear(channel: nat, flags: u32) {
    predicate Valid() {
      channel < CHANNELS && Flags(flags)
    }
  }

  function Step(p: Pending, c: Call): Pending
    requires c.Valid()
  {
    p[c.channel := And(p[c.channel], Not(c.flags))]
  }

  function Run(p: Pending, calls: seq<Call>): Pending
    requires forall c <- calls :: c.Valid()
  {
    if calls == [] then p
    else
      var last := |calls| - 1;
      assert calls[last].Valid();
      Step(Run(p, calls[..last]), calls[last])
  }

  /** A flag survives a run of clears exactly when none of them names it for its channel. */
  lemma {:induction false} SurvivesIff(p: Pending, calls: seq<Call>, channel: nat, flag: nat)
    requires (forall c <- calls :: c.Valid()) && channel < CHANNELS && flag < 32
    ensures Bit(Run(p, calls)[channel], flag)
            <==> Bit(p[channel], flag) && (forall c <- calls :: c.channel == channel ==> !Bit(c.flags, flag))
  {
    WordBits();
    if calls != [] {
      var last := |calls| - 1;
      SurvivesIff(p, calls[..last], channel, flag);
      assert calls == calls[..last] + [calls[last]];
      assert calls[last].Valid();
    }
  }

  class Controller {
    var intf0: u32
    var intf1: u32

    ghost function Model(): Pending
      reads this
    {
      [Shown(intf0, 0), Shown(intf0, 1), Shown(intf0, 2), Shown(intf0, 3),
       Shown(intf1, 0), Shown(intf1, 1), Shown(intf1, 2), Shown(intf1, 3)]
    }

    constructor (status0: u32, status1: u32)
      ensures intf0 == status0 && intf1 == status1
    {
      intf0, intf1 := status0, status1;
    }

    /** dma_flag_get: SET is 1, RESET is 0. */
    method FlagGet(channel: nat, flags: u32) returns (r: nat)
      requires channel < CHANNELS && Flags(flags)
      ensures r == if And(Model()[channel], flags) != 0 then 1 else 0
      ensures r == if And(if channel < 4 then intf0 else intf1, FlagAdd(flags, channel % 4)) != 0 then 1 else 0
    {
      hide And, FlagAdd, Shown;
      if channel < 4 {
        TestedShown(intf0, channel, flags);
        r := if And(intf0, FlagAdd(flags, channel)) != 0 then 1 else 0;
      } else {
        TestedShown(intf1, channel - 4, flags);
        r := if And(intf1, FlagAdd(flags, channel - 4)) != 0 then 1 else 0;
      }
    }

    /** dma_flag_clear.  `shown` is what the hardware shows when the clear register of the bank is
        read; the flags written as ones are cleared.  The call clears the named flags and nothing
        else when no other pending flag is shown there. */
    method FlagClear(channel: nat, flags: u32, shown: u32)
      requires Call.Clear(channel, flags).Valid()
      modifies this
      ensures var requested := FlagAdd(flags, channel % 4);
              if channel < 4 then intf0 == And(old(intf0), Not(Or(shown, requested))) && intf1 == old(intf1)
              else intf1 == And(old(intf1), Not(Or(shown, requested))) && intf0 == old(intf0)
      ensures And(And(shown, if channel < 4 then old(intf0) else old(intf1)), Not(FlagAdd(flags, channel % 4))) == 0 ==>
                Model() == Step(old(Model()), Call.Clear(channel, flags))
    {
      hide And, Or, Not, FlagAdd, Shown;
      if channel < 4 {
        ClearIsExactIff(intf0, shown, FlagAdd(flags, channel));
        ClearedBank(intf0, channel, flags);
        intf0 := And(intf0, Not(Or(shown, FlagAdd(flags, channel))));
      } else {
        ClearIsExactIff(intf1, shown, FlagAdd(flags, channel - 4));
        ClearedBank(intf1, channel - 4, flags);
        intf1 := And(intf1, Not(Or(shown, FlagAdd(flags, channel - 4))));
      }
    }

    /** Any sequence of clears, with a clear register that reads as zero, removes from each channel
        exactly the flags named for it. */
    method ClearAll(calls: seq<Call>)
      requires forall c <- calls :: c.Valid()
      modifies this
      ensures Model() == Run(old(Model()), calls)
    {
      for k := 0 to |calls|
        invariant Model() == Run(old(Model()), calls[..k])
      {
        assert calls[k].Valid();
        NothingShown(if calls[k].channel < 4 then intf0 else intf1, Not(FlagAdd(calls[k].flags, calls[k].channel % 4)));
        FlagClear(calls[k].channel, calls[k].flags, 0);
        assert calls[..k + 1][..k] == calls[..k];
      }
      assert calls[..|calls|] == calls;
    }
  }

  lemma NothingShown(status: u32, mask: u32)
    ensures And(And(0, status), mask) == 0
  {
  }

  lemma ClearedBank(status: u32, channel: nat, flags: u32)
    requires channel < 4 && flags < 64
    ensures forall other: nat | other < 4 ::
              Shown(And(status, Not(FlagAdd(flags, channel))), other)
              == if other == channel then And(Shown(status, other), Not(flags)) else Shown(status, other)
  {
    forall other: nat | other < 4
      ensures Shown(And(status, Not(FlagAdd(flags, channel))), other)
              == if other == channel then And(Shown(status, other), Not(flags)) else Shown(status, other)
    {
      ClearedShown(status, channel, flags, other);
    }
  }

  // ----- register addresses -----

  datatype Register = Ctl | Cnt | Paddr | M0addr | M1addr | Fctl {
    function Offset(): nat {
      match this
      case Ctl => 0x10
      case Cnt => 0x14
      case Paddr => 0x18
      case M0addr => 0x1C
      case M1addr => 0x20
      case Fctl => 0x24
    }
  }

  /** The banked formulas DMA_CHCTL to DMA_CHFCTL. */
  function Address(dma: nat, r: Register, channel: nat): nat {
    (dma + r.Offset()) + 0x18 * channel
  }

  /** The six registers of a channel follow each other word by word from 0x10 + 0x18 * channel on. */
  lemma RegisterOrder(dma: nat, channel: nat)
    ensures Address(dma, Ctl, channel) == dma + 0x10 + 24 * channel
    ensures Address(dma, Cnt, channel) == Address(dma, Ctl, channel) + 4
    ensures Address(dma, Paddr, channel) == Address(dma, Cnt, channel) + 4
    ensures Address(dma, M0addr, channel) == Address(dma, Paddr, channel) + 4
    ensures Address(dma, M1addr, channel) == Address(dma, M0addr, channel) + 4
    ensures Address(dma, Fctl, channel) == Address(dma, M1addr, channel) + 4
  {
  }

  /** Different registers of the eight channels have different addresses, all after the four
      interrupt registers, and together they fill the block without gap: every word address from
      0x10 to 0xCC belongs to exactly one. */
  lemma AddressesFillBlock(dma: nat, offset: nat) returns (r: Register, channel: nat)
    requires 0x10 <= offset <= 0xCC && offset % 4 == 0
    ensures channel < CHANNELS && Address(dma, r, channel) == dma + offset
    ensures forall r': Register, channel': nat | channel' < CHANNELS && Address(dma, r', channel') == dma + offset ::
              r' == r && channel' == channel
  {
    channel := (offset - 0x10) / 0x18;
    var k := (offset - 0x10) % 0x18;
    r := if k == 0 then Ctl else if k == 4 then Cnt else if k == 8 then Paddr
         else if k == 12 then M0addr else if k == 16 then M1addr else Fctl;
    forall r': Register, channel': nat | channel' < CHANNELS && Address(dma, r', channel') == dma + offset
      ensures r' == r && channel' == channel
    {
      assert r'.Offset() - 0x10 < 0x18;
      assert channel' == channel;
    }
  }
}
