/**
  The clock bring-up procedures of system_gd32f4xx.c over a board whose status flags move as
  they please between reads, and the order of register accesses that a safe run must follow.
  The nine PLL procedures differ only in their `Variant`.
*/
module ClockBringUp {
  import opened Words
  import opened BitFields
  import opened ClockTree

  // bits of RCU_CTL, RCU_CFG0, RCU_APB1EN, PMU_CTL and PMU_CS
  const PLLEN := 24
  const PLLSTB := 25
  const HDEN := 16
  const HDS := 17
  const HDRF := 16
  const HDSRF := 17
  const PMUEN := 28
  /** The bit of RCU_SCSS_PLLP, the value 2 of the field SCSS. */
  const SCSS_PLLP := 3

  function EnableBit(source: Source): nat {
    if source.Hxtal? then 16 else 0
  }

  function StableBit(source: Source): nat {
    if source.Hxtal? then 17 else 1
  }

  /** The read-only bits: stabilisation flags and calibration in RCU_CTL, SCSS in RCU_CFG0. */
  const CTL_STATUS: u32 := 0x2A02_FF02
  const CFG0_STATUS: u32 := 0x0000_000C

  /** What the hardware shows in the read-only bits at one read. */
  datatype Status = Status(ctl: u32, cfg0: u32, pmuCs: u32)

  /** A register of software bits, read with the hardware's status bits. */
  function Overlay(software: u32, hardware: u32, statusMask: u32): u32 {
    Or(And(software, Not(statusMask)), And(hardware, statusMask))
  }

  // ----- what a run may do -----

  datatype Event =
    | ReadCtl(v: u32) | WroteCtl(w: u32)
    | ReadCfg0(v: u32) | WroteCfg0(w: u32)
    | ReadPmuCs(v: u32) | WrotePmuCtl(w: u32)
    | WrotePll(w: u32)
    | WroteApb1en(w: u32)

  /** The variant brought up, and RCU_CFG0 at the start of the run. */
  datatype Rules = Rules(variant: Variant, entry: u32)

  /** AHB as at entry; APB2 divided by 2 and APB1 by 4, on top of what was set at entry. */
  predicate Prescaled(entry: u32, w: u32) {
    && GetBits(w, 4, 7) == GetBits(entry, 4, 7)
    && GetBits(w, 13, 15) == Or(GetBits(entry, 13, 15), 4)
    && GetBits(w, 10, 12) == Or(GetBits(entry, 10, 12), 5)
  }

  predicate SelectsPll(w: u32) {
    GetBits(w, 0, 1) == SEL_PLLP
  }

  /** The stages of a bring-up; a register access out of order is a violation. */
  datatype Progress = Stage(k: nat) | Violated

  function Advance(r: Rules, s: Progress, e: Event): Progress {
    if s.Violated? then s
    else
      match e
      case WroteCtl(w) =>
        if Bit(w, PLLEN) then (if s.k == 3 then Stage(4) else Violated)
        else if s.k == 0 && Bit(w, EnableBit(r.variant.pll.source)) then Stage(1) // oscillator enabled
        else s
      case ReadCtl(v) =>
        if s.k == 1 && Bit(v, StableBit(r.variant.pll.source)) then Stage(2)   // oscillator stable
        else if s.k == 4 && Bit(v, PLLSTB) then Stage(5)                        // PLL stable
        else s
      case WrotePll(w) =>
        if s.k == 2 && w == PllWord(r.variant.pll) then Stage(3) else Violated
      case WrotePmuCtl(w) =>
        if Bit(w, HDS) then (if s.k == 7 then Stage(8) else Violated)
        else if Bit(w, HDEN) then (if s.k == 5 then Stage(6) else Violated)
        else s
      case ReadPmuCs(v) =>
        if s.k == 6 && Bit(v, HDRF) then Stage(7)                               // high-drive ready
        else if s.k == 8 && Bit(v, HDSRF) then Stage(9)                         // high-drive in use
        else s
      case WroteCfg0(w) =>
        if !SelectsPll(w) then s
        else if s.k == 9 && Prescaled(r.entry, w) then Stage(10) else Violated
      case ReadCfg0(v) =>
        if s.k == 10 && Bit(v, SCSS_PLLP) then Stage(11) else s                 // PLL in use
      case WroteApb1en(_) => s
  }

  function Watch(r: Rules, run: seq<Event>): Progress {
    if run == [] then Stage(0)
    else Advance(r, Watch(r, run[..|run| - 1]), run[|run| - 1])
  }

  lemma WatchSnoc(r: Rules, run: seq<Event>, e: Event)
    ensures Watch(r, run + [e]) == Advance(r, Watch(r, run), e)
  {
    assert (run + [e])[..|run + [e]| - 1] == run;
  }

  /** A violation is never forgotten. */
  lemma {:induction false} ViolationStays(r: Rules, run: seq<Event>, i: nat)
    requires i <= |run| && Watch(r, run) != Violated
    ensures Watch(r, run[..i]) != Violated
    decreases |run|
  {
    if i == |run| {
      assert run[..i] == run;
    } else {
      ViolationStays(r, run[..|run| - 1], i);
      assert run[..|run| - 1][..i] == run[..i];
    }
  }

  /** The access that led from one stage to the next. */
  lemma {:induction false} Earned(r: Rules, run: seq<Event>, k: nat) returns (i: nat)
    requires Watch(r, run).Stage? && Watch(r, run).k >= k >= 1
    ensures i < |run| && Watch(r, run[..i]) == Stage(k - 1) && Advance(r, Stage(k - 1), run[i]) == Stage(k)
    decreases |run|
  {
    var last := |run| - 1;
    var before := Watch(r, run[..last]);
    if before.k >= k {
      i := Earned(r, run[..last], k);
      assert run[..last][..i] == run[..i];
    } else {
      i := last;
    }
  }

  /** In a run without violation, PLLP is written as the system clock source only after, in this
      order: the oscillator of the variant enabled (bit 16 of RCU_CTL for the crystal, bit 0 for
      IRC16M) and seen stable by the bit above it, the PLL word written, the PLL enabled and seen
      stable, high-drive enabled and seen ready, selected and seen in use; and with the APB
      prescalers in place. */
  lemma SwitchIsEarned(r: Rules, run: seq<Event>, i: nat)
    returns (on: nat, osc: nat, pll: nat, en: nat, stb: nat, hden: nat, hdrf: nat, hds: nat, hdsrf: nat)
    requires Watch(r, run) != Violated && i < |run| && run[i].WroteCfg0? && GetBits(run[i].w, 0, 1) == 2
    ensures on < osc < pll < en < stb < hden < hdrf < hds < hdsrf < i
    ensures run[on].WroteCtl? && Bit(run[on].w, if r.variant.pll.source.Hxtal? then 16 else 0)
    ensures run[osc].ReadCtl? && Bit(run[osc].v, if r.variant.pll.source.Hxtal? then 17 else 1)
    ensures run[pll] == WrotePll(PllWord(r.variant.pll))
    ensures run[en].WroteCtl? && Bit(run[en].w, 24)
    ensures run[stb].ReadCtl? && Bit(run[stb].v, 25)
    ensures run[hden].WrotePmuCtl? && Bit(run[hden].w, 16)
    ensures run[hdrf].ReadPmuCs? && Bit(run[hdrf].v, 16)
    ensures run[hds].WrotePmuCtl? && Bit(run[hds].w, 17)
    ensures run[hdsrf].ReadPmuCs? && Bit(run[hdsrf].v, 17)
    ensures Prescaled(r.entry, run[i].w)
  {
    hide Bit, PllWord, SelectsPll, Prescaled, Watch, GetBits, Advance;
    StageOfSwitch(r, run, i);
    on, osc, pll, en, stb, hden, hdrf, hds, hdsrf := AllStages(r, run, i);
  }

  lemma AllStages(r: Rules, run: seq<Event>, i: nat)
    returns (on: nat, osc: nat, pll: nat, en: nat, stb: nat, hden: nat, hdrf: nat, hds: nat, hdsrf: nat)
    requires i < |run| && Watch(r, run[..i]) == Stage(9)
    ensures on < osc < pll < en < stb < hden < hdrf < hds < hdsrf < i
    ensures Milestone(r, 1, run[on]) && Milestone(r, 2, run[osc]) && Milestone(r, 3, run[pll])
    ensures Milestone(r, 4, run[en]) && Milestone(r, 5, run[stb]) && Milestone(r, 6, run[hden])
    ensures Milestone(r, 7, run[hdrf]) && Milestone(r, 8, run[hds]) && Milestone(r, 9, run[hdsrf])
  {
    hide *;
    hdsrf := EarnedBefore(r, run, i, 9);
    hds := EarnedBefore(r, run, hdsrf, 8);
    hdrf := EarnedBefore(r, run, hds, 7);
    hden := EarnedBefore(r, run, hdrf, 6);
    stb := EarnedBefore(r, run, hden, 5);
    en := EarnedBefore(r, run, stb, 4);
    pll := EarnedBefore(r, run, en, 3);
    osc := EarnedBefore(r, run, pll, 2);
    on := EarnedBefore(r, run, osc, 1);
  }

  lemma StageOfSwitch(r: Rules, run: seq<Event>, i: nat)
    requires Watch(r, run) != Violated && i < |run| && run[i].WroteCfg0? && GetBits(run[i].w, 0, 1) == 2
    ensures Watch(r, run[..i]) == Stage(9) && Prescaled(r.entry, run[i].w)
  {
    assert SelectsPll(run[i].w);
    hide *;
    ViolationStays(r, run, i + 1);
    ViolationStays(r, run, i);
    assert run[..i + 1] == run[..i] + [run[i]];
    WatchSnoc(r, run[..i], run[i]);
    Selecting(r, Watch(r, run[..i]), run[i]);
  }

  lemma Selecting(r: Rules, s: Progress, e: Event)
    requires s != Violated && Advance(r, s, e) != Violated && e.WroteCfg0? && SelectsPll(e.w)
    ensures s == Stage(9) && Prescaled(r.entry, e.w)
  {
  }

  /** The access that a stage stands for, in register bits. */
  predicate Milestone(r: Rules, k: nat, e: Event) {
    var crystal := r.variant.pll.source.Hxtal?;
    match k
    case 1 => e.WroteCtl? && Bit(e.w, if crystal then 16 else 0)
    case 2 => e.ReadCtl? && Bit(e.v, if crystal then 17 else 1)
    case 3 => e == WrotePll(PllWord(r.variant.pll))
    case 4 => e.WroteCtl? && Bit(e.w, 24)
    case 5 => e.ReadCtl? && Bit(e.v, 25)
    case 6 => e.WrotePmuCtl? && Bit(e.w, 16)
    case 7 => e.ReadPmuCs? && Bit(e.v, 16)
    case 8 => e.WrotePmuCtl? && Bit(e.w, 17)
    case 9 => e.ReadPmuCs? && Bit(e.v, 17)
    case 10 => e.WroteCfg0? && GetBits(e.w, 0, 1) == 2
    case 11 => e.ReadCfg0? && Bit(e.v, 3)
    case _ => false
  }

  lemma MilestoneOf(r: Rules, k: nat, e: Event)
    requires k >= 1 && Advance(r, Stage(k - 1), e) == Stage(k)
    ensures Milestone(r, k, e)
  {
    hide Bit, PllWord, GetBits, Prescaled;
  }

  /** A completed run has selected PLLP and then seen it in use (bit 3 of RCU_CFG0). */
  lemma SwitchIsSeen(r: Rules, run: seq<Event>) returns (selected: nat, seen: nat)
    requires Watch(r, run) == Stage(11)
    ensures selected < seen < |run|
    ensures run[selected].WroteCfg0? && GetBits(run[selected].w, 0, 1) == 2
    ensures run[seen].ReadCfg0? && Bit(run[seen].v, 3)
  {
    hide Bit, PllWord, Prescaled, Watch, GetBits, Advance;
    seen := Earned(r, run, 11);
    MilestoneOf(r, 11, run[seen]);
    selected := EarnedBefore(r, run, seen, 10);
  }

  lemma EarnedBefore(r: Rules, run: seq<Event>, j: nat, k: nat) returns (i: nat)
    requires j < |run| && k >= 1 && Watch(r, run[..j]) == Stage(k)
    ensures i < j && Watch(r, run[..i]) == Stage(k - 1) && Milestone(r, k, run[i])
  {
    hide *;
    i := Earned(r, run[..j], k);
    assert run[..j][..i] == run[..i];
    MilestoneOf(r, k, run[i]);
  }

  /** In a run without violation the PLL word is never written once the PLL has been enabled. */
  lemma PllWrittenBeforeEnabled(r: Rules, run: seq<Event>, i: nat, j: nat)
    requires Watch(r, run) != Violated && i < j < |run|
    requires run[i].WroteCtl? && Bit(run[i].w, 24)
    ensures !run[j].WrotePll?
  {
    hide Bit, PllWord, SelectsPll, Prescaled, Watch;
    ViolationStays(r, run, i + 1);
    ViolationStays(r, run, i);
    ViolationStays(r, run, j);
    ViolationStays(r, run, j + 1);
    assert run[..i + 1] == run[..i] + [run[i]];
    assert run[..j + 1] == run[..j] + [run[j]];
    WatchSnoc(r, run[..i], run[i]);
    WatchSnoc(r, run[..j], run[j]);
    StagesRise(r, run[..j], i + 1);
    assert run[..j][..i + 1] == run[..i + 1];
  }

  lemma {:induction false} StagesRise(r: Rules, run: seq<Event>, i: nat)
    requires i <= |run| && Watch(r, run) != Violated
    ensures Watch(r, run[..i]).Stage? && Watch(r, run[..i]).k <= Watch(r, run).k
    decreases |run|
  {
    if i == |run| {
      assert run[..i] == run;
    } else {
      StagesRise(r, run[..|run| - 1], i);
      assert run[..|run| - 1][..i] == run[..i];
    }
  }

  /** A run that has not come to the switch has not selected PLLP: in particular a halted one. */
  lemma {:induction false} NotYetSwitched(r: Rules, run: seq<Event>, i: nat)
    requires Watch(r, run).Stage? && Watch(r, run).k < 10 && i < |run|
    ensures !(run[i].WroteCfg0? && GetBits(run[i].w, 0, 1) == 2)
  {
    hide Bit, PllWord, GetBits, Prescaled, Watch;
    ViolationStays(r, run, i + 1);
    ViolationStays(r, run, i);
    StagesRise(r, run, i + 1);
    assert run[..i + 1] == run[..i] + [run[i]];
    WatchSnoc(r, run[..i], run[i]);
  }

  /** Or-ing the dividers onto a field leaves exactly the intended dividers if and only if the
      field held nothing else at entry; the AHB divider is never touched. */
  lemma PrescalersIntendedIff(entry: u32, w: u32)
    requires Prescaled(entry, w)
    ensures GetBits(w, 4, 7) == 0 && GetBits(w, 13, 15) == 4 && GetBits(w, 10, 12) == 5
            <==> && GetBits(entry, 4, 7) == 0
                 && GetBits(entry, 13, 15) in {0, 4}
                 && GetBits(entry, 10, 12) in {0, 1, 4, 5}
  {
    ThreeBits();
    GetBitsBound(entry, 13, 15);
    GetBitsBound(entry, 10, 12);
    OrThreeBits(GetBits(entry, 13, 15));
    OrThreeBits(GetBits(entry, 10, 12));
  }

  lemma ThreeBits()
    ensures Pow2(3) == 8
  {
  }

  lemma OrThreeBits(f: u32)
    requires f < 8
    ensures Or(f, 4) == 4 <==> f in {0, 4}
    ensures Or(f, 5) == 5 <==> f in {0, 1, 4, 5}
  {
    hide Or, OrNat;
    Computed(f, 4);
    Computed(f, 5);
    SmallUnions();
  }

  lemma SmallUnions()
    ensures OrNat(0, 4) == 4 && OrNat(1, 4) == 5 && OrNat(2, 4) == 6 && OrNat(3, 4) == 7
    ensures OrNat(4, 4) == 4 && OrNat(5, 4) == 5 && OrNat(6, 4) == 6 && OrNat(7, 4) == 7
    ensures OrNat(0, 5) == 5 && OrNat(1, 5) == 5 && OrNat(2, 5) == 7 && OrNat(3, 5) == 7
    ensures OrNat(4, 5) == 5 && OrNat(5, 5) == 5 && OrNat(6, 5) == 7 && OrNat(7, 5) == 7
  {
  }
}
